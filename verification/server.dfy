/**
 * The request handlers of the hint server as pure steps over one state:
 * the hint store, the user quota records and the activity log. The clock
 * (`now`), the database's own row timestamp (`ts`) and the admin secret
 * are parameters; the random choice of a hint is a nondeterministic pick.
 */
module Server {
  import opened Base
  import Text
  import opened Quota
  import opened HintStore
  import opened History

  /** A `users` row: the picking window and the contributing window. */
  datatype UserRecord = UserRecord(spins: Window, adds: Window)

  datatype State = State(store: Store, users: map<string, UserRecord>, log: Log)

  /** The record a handler reads: the stored row, or the column defaults when there is none. */
  function RecordOf(s: State, u: string): UserRecord
  {
    if u in s.users then s.users[u] else UserRecord(Fresh, Fresh)
  }

  predicate Valid(s: State)
  {
    && HintStore.Valid(s.store)
    && forall u :: u in s.users ==> Inv(s.users[u].spins) && Inv(s.users[u].adds)
  }

  /** A history page row: the log row left-joined with the hint's current faculty. */
  datatype HistoryRow = HistoryRow(hintId: int, hintText: string, timestamp: int, kind: Kind, owner: Option<string>, faculty: Option<string>)

  datatype Response =
    | BadRequest                                            // 400
    | Unauthorized                                          // 401
    | QuotaExceeded(cooldownEnd: int)                       // 429: nothing left, cooldown active
    | Conflict                                              // 409
    | NotFound                                              // 404 of the admin routes
    | NoEligibleHint(left: int)                             // 404 of a pick; cooldown reported inactive
    | StorageError                                          // 500
    | Picked(id: int, hint: Hint, quota: QuotaStatus)       // 200
    | Created(id: int, hint: Hint, addQuota: Option<QuotaStatus>) // 201; quota fields on the user path only
    | Deleted(id: int)                                      // 200
    | Edited(id: int, hint: Hint)                           // 200
    | StatusOf(spin: QuotaStatus, add: QuotaStatus,         // 200, with the refreshed
               spinWindow: Window, addWindow: Window)       // count and start of each window
    | HistoryPage(rows: seq<HistoryRow>)                    // 200

  datatype Step = Step(response: Response, state: State)

  /** The `x-user-id` header and the body fields of `POST /api/hints`; `None` is a missing field. */
  datatype AddRequest = AddRequest(user: string, faculty: Option<string>, text: Option<string>, password: Option<string>)

  function OrEmpty(o: Option<string>): string
  {
    if o.Some? then o.value else ""
  }

  /** A request field the user routes accept: present, and not blank after trimming. */
  predicate Filled(o: Option<string>)
  {
    o.Some? && Text.Trim(o.value) != ""
  }

  /** The admin middleware: a secret is configured and the supplied password equals it. */
  predicate AdminAuthorized(password: Option<string>, secret: string)
  {
    secret != "" && OrEmpty(password) == secret
  }

  /** The middleware admits exactly the requests carrying the configured secret, and nobody when none is set. */
  lemma AdminNeedsSecret(password: Option<string>, secret: string)
    ensures AdminAuthorized(password, secret) <==> secret != "" && password == Some(secret)
  {
  }

  /** A field passes the blank test exactly when it is present and holds a character other than white space. */
  lemma FilledMeansVisible(o: Option<string>)
    ensures Filled(o) <==> o.Some? && exists i :: 0 <= i < |o.value| && !Text.IsJsSpace(o.value[i])
  {
  }

  /**
   * The admin test inside `POST /api/hints`: a non-empty password equal to
   * the secret. It admits the same requests as the middleware; a wrong
   * password is not refused but falls through to the user path.
   */
  predicate AdminAdding(password: Option<string>, secret: string)
    ensures AdminAdding(password, secret) <==> AdminAuthorized(password, secret)
  {
    password.Some? && password.value != "" && password.value == secret
  }

  // ---------------------------------------------------------------- status

  /** `GET /api/user/status`: both windows as the gate sees them now; nothing is written. */
  function Status(s: State, u: string, now: int): (r: Response)
    ensures r == BadRequest <==> u == ""
    ensures u != "" ==> r.StatusOf?
    ensures r.StatusOf? ==>
      && (r.spin.cooldownActive <==> Gate(RecordOf(s, u).spins, now).Denied?)
      && (r.add.cooldownActive <==> Gate(RecordOf(s, u).adds, now).Denied?)
      && r.spin.left == MaxActions - Refresh(RecordOf(s, u).spins, now).count
      && r.add.left == MaxActions - Refresh(RecordOf(s, u).adds, now).count
    ensures r.StatusOf? ==>
      && r.spin.cooldownEnd == (if r.spin.cooldownActive then Some(RecordOf(s, u).spins.start + CooldownMs) else None)
      && r.add.cooldownEnd == (if r.add.cooldownActive then Some(RecordOf(s, u).adds.start + CooldownMs) else None)
    ensures r.StatusOf? ==>
      && r.spin.left == MaxActions - r.spinWindow.count && r.add.left == MaxActions - r.addWindow.count
      && r.spinWindow == Refresh(RecordOf(s, u).spins, now) && r.addWindow == Refresh(RecordOf(s, u).adds, now)
    ensures r.StatusOf? && Valid(s) ==> 0 <= r.spin.left <= MaxActions && 0 <= r.add.left <= MaxActions
  {
    if u == "" then BadRequest
    else
      var rec := RecordOf(s, u);
      StatusOf(Report(rec.spins, now), Report(rec.adds, now), Refresh(rec.spins, now), Refresh(rec.adds, now))
  }

  // ---------------------------------------------------------------- picking

  /** The client's `exclude_id`, honoured only when it is a truthy (non-zero) number. */
  function ClientExclusion(exclude: Option<int>): (ids: set<int>)
    ensures exclude.Some? && exclude.value != 0 ==> ids == {exclude.value}
    ensures exclude.None? || exclude.value == 0 ==> ids == {}
  {
    if exclude.Some? && exclude.value != 0 then {exclude.value} else {}
  }

  /** Everything `u` may not be shown at `now`. */
  function Excluded(s: State, u: string, exclude: Option<int>, now: int): set<int>
  {
    ExcludedIds(s.log, u, now - CooldownMs) + ClientExclusion(exclude)
  }

  /**
   * An id is kept from `u` exactly when the exclusion query finds a row of
   * `u` for it (a contribution of `u`'s own, or a pick within the last six
   * hours) or it is the client's non-zero `exclude_id`.
   */
  lemma ExcludedMembers(s: State, u: string, exclude: Option<int>, now: int, id: int)
    ensures id in Excluded(s, u, exclude, now) <==>
      || (exists i :: 0 <= i < |s.log| && Excludes(s.log[i], u, now - CooldownMs) && s.log[i].hintId == id)
      || (exclude.Some? && exclude.value != 0 && id == exclude.value)
  {
    ExcludedIdsMembers(s.log, u, now - CooldownMs);
  }

  /** The ids the random query can return: live hints outside the exclusion set. */
  function Eligible(st: Store, excluded: set<int>): (ids: set<int>)
    ensures forall id :: id in ids <==> id in st.hints && id !in excluded
  {
    set id | id in st.hints && id !in excluded
  }

  /**
   * `GET /api/random-hint`. The gate runs first; on admission the user's
   * picking window is persisted (the contributing window written back as
   * it was) before the eligible set is queried, so a pick that finds
   * nothing still uses a slot; its 404 reports the cooldown inactive even
   * when that slot was the last one, though the status endpoint then
   * reports it active. A found hint is any eligible one and is logged as a
   * pick stamped with the database time `ts`.
   */
  method RandomHint(s: State, u: string, exclude: Option<int>, now: int, ts: int) returns (res: Response, s': State)
    ensures res == BadRequest <==> u == ""
    ensures res == BadRequest ==> s' == s
    ensures res.QuotaExceeded? <==> u != "" && Gate(RecordOf(s, u).spins, now).Denied?
    ensures res.QuotaExceeded? ==> s' == s && res.cooldownEnd == RecordOf(s, u).spins.start + CooldownMs
    ensures res.QuotaExceeded? && Valid(s) ==> res.cooldownEnd > now
    ensures u != "" && Gate(RecordOf(s, u).spins, now).Admitted? ==>
      && s'.store == s.store
      && s'.users == s.users[u := UserRecord(Gate(RecordOf(s, u).spins, now).next, RecordOf(s, u).adds)]
    ensures res.NoEligibleHint? <==>
      u != "" && Gate(RecordOf(s, u).spins, now).Admitted? && Eligible(s.store, Excluded(s, u, exclude, now)) == {}
    ensures res.NoEligibleHint? ==> s'.log == s.log && res.left == MaxActions - s'.users[u].spins.count
    ensures res.NoEligibleHint? && Valid(s) ==> (Status(s', u, now).spin.cooldownActive <==> res.left == 0)
    ensures res.Picked? <==>
      u != "" && Gate(RecordOf(s, u).spins, now).Admitted? && Eligible(s.store, Excluded(s, u, exclude, now)) != {}
    ensures res.Picked? && exclude.Some? && exclude.value != 0 ==> res.id != exclude.value
    ensures res.Picked? ==>
      && res.id in s.store.hints && res.hint == s.store.hints[res.id]
      && res.id !in Excluded(s, u, exclude, now)
      && s'.log == s.log + [Activity(u, res.id, res.hint.text, Pick, ts, None)]
      && res.quota == Report(s'.users[u].spins, now)
    ensures Valid(s) && now > 0 ==> Valid(s')
  {
    if u == "" {
      return BadRequest, s;
    }
    var rec := RecordOf(s, u);
    match Gate(rec.spins, now)
    case Denied(end) =>
      return QuotaExceeded(end), s;
    case Admitted(next) =>
      var users := s.users[u := UserRecord(next, rec.adds)];
      var eligible := Eligible(s.store, Excluded(s, u, exclude, now));
      if id :| id in eligible {
        var h := s.store.hints[id];
        return Picked(id, h, AfterAdmission(next)), State(s.store, users, s.log + [Activity(u, id, h.text, Pick, ts, None)]);
      } else {
        assert forall x :: x !in eligible;
        assert eligible == {};
        return NoEligibleHint(MaxActions - next.count), State(s.store, users, s.log);
      }
  }

  // ---------------------------------------------------------------- contributing

  /**
   * The two inserts both branches end with: the hint row, which only the
   * text-only UNIQUE index can refuse, then a contribution row owned by
   * `actor`. `users` is the user table as the branch has already written it.
   */
  function Contribution(s: State, users: map<string, UserRecord>, actor: string, h: Hint, ts: int,
                        quota: Option<QuotaStatus>): (r: Step)
    ensures r.state.users == users
    ensures r.response.StorageError? || r.response.Created?
    ensures r.response.StorageError? <==> TextTaken(s.store, h.text, None)
    ensures r.response.StorageError? ==> r.state.store == s.store && r.state.log == s.log
    ensures r.response.Created? ==>
      && r.response.hint == h && r.response.addQuota == quota
      && r.state.store.hints == s.store.hints[r.response.id := h]
      && r.state.log == s.log + [Activity(actor, r.response.id, h.text, Contribute, ts, Some(actor))]
    ensures r.response.Created? ==> r.response.id == s.store.nextId && r.state.store.nextId == s.store.nextId + 1
    ensures r.response.Created? && HintStore.Valid(s.store) ==>
      r.response.id !in s.store.hints && HintStore.Valid(r.state.store)
  {
    match Insert(s.store, h)
    case UniqueViolation => Step(StorageError, State(s.store, users, s.log))
    case Inserted(st, id) =>
      Step(Created(id, h, quota), State(st, users, s.log + [Activity(actor, id, h.text, Contribute, ts, Some(actor))]))
  }

  /**
   * The admin branch of `POST /api/hints`: no blank checks and no gate;
   * the pair query, then the inserts, with the row credited to the caller
   * or, without a user id, to "admin".
   */
  function AdminAdd(s: State, req: AddRequest, ts: int): (r: Step)
    ensures r.state.users == s.users
    ensures r.response.Conflict? || r.response.StorageError? || r.response.Created?
    ensures r.response.Conflict? <==>
      PairTaken(s.store, Text.Trim(OrEmpty(req.faculty)), Text.Trim(OrEmpty(req.text)), None)
    ensures r.response.Conflict? || r.response.StorageError? ==> r.state == s
    ensures r.response.StorageError? <==>
      && !PairTaken(s.store, Text.Trim(OrEmpty(req.faculty)), Text.Trim(OrEmpty(req.text)), None)
      && TextTaken(s.store, Text.Trim(OrEmpty(req.text)), None)
    ensures r.response.Created? ==>
      && r.response.hint == Hint(Text.Trim(OrEmpty(req.faculty)), Text.Trim(OrEmpty(req.text)))
      && r.response.addQuota == None
      && r.state.store.hints == s.store.hints[r.response.id := r.response.hint]
      && r.state.log == s.log + [Activity(if req.user == "" then "admin" else req.user, r.response.id,
                                          r.response.hint.text, Contribute, ts,
                                          Some(if req.user == "" then "admin" else req.user))]
    ensures r.response.Created? ==> r.response.id == s.store.nextId && r.state.store.nextId == s.store.nextId + 1
    ensures r.response.Created? && Valid(s) ==> r.response.id !in s.store.hints
    ensures Valid(s) ==> Valid(r.state)
  {
    var f := Text.Trim(OrEmpty(req.faculty));
    var t := Text.Trim(OrEmpty(req.text));
    if PairTaken(s.store, f, t, None) then Step(Conflict, s)
    else Contribution(s, s.users, if req.user == "" then "admin" else req.user, Hint(f, t), ts, None)
  }

  /** A user-branch request with all fields present and non-blank, admitted by the contributing gate. */
  predicate UserAdmitted(s: State, req: AddRequest, now: int)
  {
    && req.user != "" && Filled(req.faculty) && Filled(req.text)
    && Gate(RecordOf(s, req.user).adds, now).Admitted?
  }

  /**
   * The user branch of `POST /api/hints`: validates, runs the gate, then
   * the (faculty, NOCASE text) duplicate query; only past that query is
   * the contributing window persisted, after which the insert can still
   * hit the table's text-only UNIQUE index.
   */
  function UserAdd(s: State, req: AddRequest, now: int, ts: int): (r: Step)
    ensures r.response.BadRequest? <==> req.user == "" || !Filled(req.faculty) || !Filled(req.text)
    ensures r.response.QuotaExceeded? <==>
      && req.user != "" && Filled(req.faculty) && Filled(req.text)
      && Gate(RecordOf(s, req.user).adds, now).Denied?
    ensures r.response.QuotaExceeded? ==> r.response.cooldownEnd == RecordOf(s, req.user).adds.start + CooldownMs
    ensures r.response.Conflict? <==>
      && UserAdmitted(s, req, now)
      && PairTaken(s.store, Text.Trim(req.faculty.value), Text.Trim(req.text.value), None)
    ensures r.response.BadRequest? || r.response.QuotaExceeded? || r.response.Conflict? ==> r.state == s
    ensures r.response.StorageError? <==>
      && UserAdmitted(s, req, now)
      && !PairTaken(s.store, Text.Trim(req.faculty.value), Text.Trim(req.text.value), None)
      && TextTaken(s.store, Text.Trim(req.text.value), None)
    ensures r.response.Created? <==>
      && UserAdmitted(s, req, now)
      && !PairTaken(s.store, Text.Trim(req.faculty.value), Text.Trim(req.text.value), None)
      && !TextTaken(s.store, Text.Trim(req.text.value), None)
    ensures r.response.StorageError? || r.response.Created? ==>
      && r.state.users == s.users[req.user := UserRecord(RecordOf(s, req.user).spins, Gate(RecordOf(s, req.user).adds, now).next)]
    ensures r.response.StorageError? ==> r.state.store == s.store && r.state.log == s.log
    ensures r.response.Created? ==>
      && r.response.hint == Hint(Text.Trim(req.faculty.value), Text.Trim(req.text.value))
      && r.response.addQuota == Some(Report(Gate(RecordOf(s, req.user).adds, now).next, now))
      && r.state.store.hints == s.store.hints[r.response.id := r.response.hint]
      && r.state.log == s.log + [Activity(req.user, r.response.id, r.response.hint.text, Contribute, ts, Some(req.user))]
    ensures r.response.Created? ==> r.response.id == s.store.nextId && r.state.store.nextId == s.store.nextId + 1
    ensures r.response.Created? && Valid(s) ==> r.response.id !in s.store.hints
    ensures Valid(s) && now > 0 ==> Valid(r.state)
  {
    if req.user == "" || !Filled(req.faculty) || !Filled(req.text) then Step(BadRequest, s)
    else
      var f := Text.Trim(req.faculty.value);
      var t := Text.Trim(req.text.value);
      var rec := RecordOf(s, req.user);
      match Gate(rec.adds, now)
      case Denied(end) => Step(QuotaExceeded(end), s)
      case Admitted(next) =>
        if PairTaken(s.store, f, t, None) then Step(Conflict, s)
        else Contribution(s, s.users[req.user := UserRecord(rec.spins, next)], req.user, Hint(f, t), ts,
                          Some(AfterAdmission(next)))
  }

  /** The request gets as far as the (faculty, NOCASE text) duplicate query: the admin branch always does. */
  predicate ReachesPairQuery(s: State, req: AddRequest, secret: string, now: int)
  {
    AdminAdding(req.password, secret) || UserAdmitted(s, req, now)
  }

  /**
   * `POST /api/hints`. A password equal to the secret selects the admin
   * branch; any other request, a wrong password included, takes the user
   * branch.
   */
  function AddHint(s: State, req: AddRequest, secret: string, now: int, ts: int): (r: Step)
    ensures AdminAdding(req.password, secret) ==> r.state.users == s.users
    ensures r.response == BadRequest <==>
      !AdminAdding(req.password, secret) && (req.user == "" || !Filled(req.faculty) || !Filled(req.text))
    ensures r.response.QuotaExceeded? <==>
      && !AdminAdding(req.password, secret) && req.user != "" && Filled(req.faculty) && Filled(req.text)
      && Gate(RecordOf(s, req.user).adds, now).Denied?
    ensures r.response.Conflict? <==>
      && ReachesPairQuery(s, req, secret, now)
      && PairTaken(s.store, Text.Trim(OrEmpty(req.faculty)), Text.Trim(OrEmpty(req.text)), None)
    ensures r.response.StorageError? <==>
      && ReachesPairQuery(s, req, secret, now)
      && !PairTaken(s.store, Text.Trim(OrEmpty(req.faculty)), Text.Trim(OrEmpty(req.text)), None)
      && TextTaken(s.store, Text.Trim(OrEmpty(req.text)), None)
    ensures r.response.Created? <==>
      && ReachesPairQuery(s, req, secret, now)
      && !PairTaken(s.store, Text.Trim(OrEmpty(req.faculty)), Text.Trim(OrEmpty(req.text)), None)
      && !TextTaken(s.store, Text.Trim(OrEmpty(req.text)), None)
    ensures r.response.BadRequest? || r.response.QuotaExceeded? || r.response.Conflict? ==> r.state == s
    ensures r.response.StorageError? ==> r.state.store == s.store && r.state.log == s.log
    ensures r.response.Created? && Valid(s) ==> r.response.id !in s.store.hints
    ensures r.response.Created? ==>
      && r.state.store.hints == s.store.hints[r.response.id := r.response.hint]
      && r.response.hint == Hint(Text.Trim(OrEmpty(req.faculty)), Text.Trim(OrEmpty(req.text)))
      && |r.state.log| == |s.log| + 1 && r.state.log[..|s.log|] == s.log
      && r.state.log[|s.log|].kind == Contribute
      && r.state.log[|s.log|].hintId == r.response.id
      && r.state.log[|s.log|].owner == Some(r.state.log[|s.log|].user)
    ensures r.response.Created? && AdminAdding(req.password, secret) ==> r.response.addQuota == None
    ensures r.response.Created? && !AdminAdding(req.password, secret) ==>
      r.response.addQuota == Some(Report(Gate(RecordOf(s, req.user).adds, now).next, now))
    ensures r.response.Created? ==>
      r.state.log[|s.log|].user == (if AdminAdding(req.password, secret) && req.user == "" then "admin" else req.user)
    ensures !AdminAdding(req.password, secret) && (r.response.Created? || r.response.StorageError?) ==>
      && r.state.users == s.users[req.user := UserRecord(RecordOf(s, req.user).spins, Gate(RecordOf(s, req.user).adds, now).next)]
    ensures r.response.QuotaExceeded? ==> r.response.cooldownEnd == RecordOf(s, req.user).adds.start + CooldownMs
    ensures r.response.Created? ==>
      r.state.log[|s.log|].hintText == r.response.hint.text && r.state.log[|s.log|].timestamp == ts
    ensures r.response.Created? ==> r.response.id == s.store.nextId && r.state.store.nextId == s.store.nextId + 1
    ensures Valid(s) && now > 0 ==> Valid(r.state)
  {
    if AdminAdding(req.password, secret) then AdminAdd(s, req, ts) else UserAdd(s, req, now, ts)
  }

  // ---------------------------------------------------------------- admin

  /** `DELETE /api/admin/hints/:id`; `id` is `None` when the path segment is not a number. */
  function AdminDelete(s: State, password: Option<string>, secret: string, id: Option<int>): (r: Step)
    ensures r.response == Unauthorized <==> !AdminAuthorized(password, secret)
    ensures r.response == BadRequest <==> AdminAuthorized(password, secret) && id.None?
    ensures r.response == NotFound <==> AdminAuthorized(password, secret) && id.Some? && id.value !in s.store.hints
    ensures r.response.Deleted? <==> AdminAuthorized(password, secret) && id.Some? && id.value in s.store.hints
    ensures !r.response.Deleted? ==> r.state == s
    ensures r.response.Deleted? ==>
      && id == Some(r.response.id)
      && r.state.users == s.users
      && r.state.store.hints.Keys == s.store.hints.Keys - {r.response.id}
      && r.state.store.nextId == s.store.nextId
      && (forall k :: k in r.state.store.hints ==> r.state.store.hints[k] == s.store.hints[k])
      && (forall a :: multiset(r.state.log)[a] == if a.hintId != r.response.id then multiset(s.log)[a] else 0)
      && (forall a :: a in r.state.log <==> a in s.log && a.hintId != r.response.id)
    ensures Valid(s) ==> Valid(r.state)
  {
    if !AdminAuthorized(password, secret) then Step(Unauthorized, s)
    else if id.None? then Step(BadRequest, s)
    else
      var (st, gone) := Delete(s.store, id.value);
      if !gone then Step(NotFound, s)
      else
        RemoveHintCounts(s.log, id.value);
        Step(Deleted(id.value), State(st, s.users, RemoveHint(s.log, id.value)))
  }

  /** An authorised edit with a numeric id and non-blank fields that no other row duplicates as a pair. */
  predicate EditReachesUpdate(s: State, password: Option<string>, secret: string, id: Option<int>,
                              faculty: Option<string>, text: Option<string>)
  {
    && AdminAuthorized(password, secret) && id.Some? && Filled(faculty) && Filled(text)
    && !PairTaken(s.store, Text.Trim(faculty.value), Text.Trim(text.value), id)
  }

  /**
   * `PUT /api/admin/hints/:id`. The pair-duplicate query (other ids only)
   * runs before the row is looked up, so an edit of a missing id that
   * collides reports a conflict rather than "not found"; a successful edit
   * rewrites the text snapshot of the hint's history rows.
   */
  function AdminEdit(s: State, password: Option<string>, secret: string, id: Option<int>,
                     faculty: Option<string>, text: Option<string>): (r: Step)
    ensures r.response == Unauthorized <==> !AdminAuthorized(password, secret)
    ensures r.response == BadRequest <==>
      AdminAuthorized(password, secret) && (id.None? || !Filled(faculty) || !Filled(text))
    ensures r.response == Conflict <==>
      && AdminAuthorized(password, secret) && id.Some? && Filled(faculty) && Filled(text)
      && PairTaken(s.store, Text.Trim(faculty.value), Text.Trim(text.value), id)
    ensures r.response == NotFound <==>
      EditReachesUpdate(s, password, secret, id, faculty, text) && id.value !in s.store.hints
    ensures r.response == StorageError <==>
      && EditReachesUpdate(s, password, secret, id, faculty, text) && id.value in s.store.hints
      && TextTaken(s.store, Text.Trim(text.value), id)
    ensures r.response.Edited? <==>
      && EditReachesUpdate(s, password, secret, id, faculty, text) && id.value in s.store.hints
      && !TextTaken(s.store, Text.Trim(text.value), id)
    ensures !r.response.Edited? ==> r.state == s
    ensures r.response.Edited? ==>
      && id == Some(r.response.id)
      && r.response.hint == Hint(Text.Trim(faculty.value), Text.Trim(text.value))
      && r.state.users == s.users
      && r.state.store.hints == s.store.hints[r.response.id := r.response.hint]
      && r.state.store.nextId == s.store.nextId
      && |r.state.log| == |s.log|
      && (forall i :: 0 <= i < |s.log| && s.log[i].hintId == r.response.id ==>
            r.state.log[i] == s.log[i].(hintText := r.response.hint.text))
      && (forall i :: 0 <= i < |s.log| && s.log[i].hintId != r.response.id ==> r.state.log[i] == s.log[i])
    ensures Valid(s) ==> Valid(r.state)
  {
    if !AdminAuthorized(password, secret) then Step(Unauthorized, s)
    else if id.None? || !Filled(faculty) || !Filled(text) then Step(BadRequest, s)
    else
      var f := Text.Trim(faculty.value);
      var t := Text.Trim(text.value);
      if PairTaken(s.store, f, t, id) then Step(Conflict, s)
      else
        match Update(s.store, id.value, Hint(f, t))
        case NoRow => Step(NotFound, s)
        case UpdateViolation => Step(StorageError, s)
        case Updated(st) => Step(Edited(id.value, Hint(f, t)), State(st, s.users, Retext(s.log, id.value, t)))
  }

  // ---------------------------------------------------------------- history page

  function FacultyOf(st: Store, id: int): Option<string>
  {
    if id in st.hints then Some(st.hints[id].faculty) else None
  }

  function ToRow(st: Store, a: Activity): HistoryRow
  {
    HistoryRow(a.hintId, a.hintText, a.timestamp, a.kind, a.owner, FacultyOf(st, a.hintId))
  }

  /** The rows of `u`'s log as the history query can show them. */
  function ShownRows(s: State, u: string): set<HistoryRow>
  {
    set a | a in s.log && a.user == u :: ToRow(s.store, a)
  }

  function Join(st: Store, page: Log): (rows: seq<HistoryRow>)
    ensures |rows| == |page|
    ensures forall i :: 0 <= i < |page| ==> rows[i] == ToRow(st, page[i])
  {
    seq(|page|, i requires 0 <= i < |page| => ToRow(st, page[i]))
  }

  /** `GET /api/user/spin-history`: the caller's newest 20 rows with the hint's current faculty. */
  function SpinHistory(s: State, u: string): (r: Response)
    ensures r == BadRequest <==> u == ""
    ensures u != "" ==> r.HistoryPage?
    ensures r.HistoryPage? ==>
      && |r.rows| == Min(PageSize, |RowsOf(s.log, u)|)
      && (forall i, j :: 0 <= i < j < |r.rows| ==> r.rows[i].timestamp >= r.rows[j].timestamp)
      && (forall i :: 0 <= i < |r.rows| ==> r.rows[i] in ShownRows(s, u))
      && (forall i :: 0 <= i < |r.rows| ==> (r.rows[i].faculty.Some? <==> r.rows[i].hintId in s.store.hints))
    ensures r.HistoryPage? && |r.rows| > 0 ==>
      forall a :: a in s.log && a.user == u && a.timestamp > r.rows[|r.rows| - 1].timestamp ==>
        ToRow(s.store, a) in r.rows
    ensures r.HistoryPage? ==>
      exists page :: r.rows == Join(s.store, page) && multiset(page) <= multiset(RowsOf(s.log, u))
  {
    if u == "" then BadRequest
    else
      JoinedPage(s, u);
      JoinedPageDrawn(s, u);
      HistoryPage(Join(s.store, Page(s.log, u)))
  }

  /** What the rows of the joined page inherit from the page. */
  lemma JoinedPage(s: State, u: string)
    ensures var rows := Join(s.store, Page(s.log, u));
      && (forall i :: 0 <= i < |rows| ==> rows[i] in ShownRows(s, u))
      && (|rows| > 0 ==>
            forall a :: a in s.log && a.user == u && a.timestamp > rows[|rows| - 1].timestamp ==>
              ToRow(s.store, a) in rows)
  {
    var page := Page(s.log, u);
    var rows := Join(s.store, page);
    forall i | 0 <= i < |rows| ensures rows[i] in ShownRows(s, u) {
      assert page[i] in page;
    }
    forall a | |rows| > 0 && a in s.log && a.user == u && a.timestamp > rows[|rows| - 1].timestamp
      ensures ToRow(s.store, a) in rows
    {
      JoinedRowShown(s, u, a);
    }
  }

  /** The joined page is the join of a sub-multiset of the caller's rows: no row is shown twice in place of another. */
  lemma JoinedPageDrawn(s: State, u: string)
    ensures exists page :: Join(s.store, Page(s.log, u)) == Join(s.store, page) && multiset(page) <= multiset(RowsOf(s.log, u))
  {
    var page := Page(s.log, u);
    assert Join(s.store, Page(s.log, u)) == Join(s.store, page) && multiset(page) <= multiset(RowsOf(s.log, u));
  }

  lemma JoinedRowShown(s: State, u: string, a: Activity)
    requires a in s.log && a.user == u
    ensures var rows := Join(s.store, Page(s.log, u));
      |rows| > 0 && a.timestamp > rows[|rows| - 1].timestamp ==> ToRow(s.store, a) in rows
  {
    var page := Page(s.log, u);
    var rows := Join(s.store, page);
    if |rows| > 0 && a.timestamp > rows[|rows| - 1].timestamp {
      assert rows[|rows| - 1].timestamp == page[|page| - 1].timestamp;
      PageKeepsNewer(s.log, u, a);
      var i :| 0 <= i < |page| && page[i] == a;
      assert rows[i] == ToRow(s.store, a);
    }
  }

  // ---------------------------------------------------------------- properties across handlers

  /**
   * A pick logged at `ts` keeps its hint out of the picker's choices
   * exactly while `now <= ts + CooldownMs`; afterwards only other rows can
   * exclude it.
   */
  lemma PickExcludedForSixHours(log: Log, u: string, h: int, text: string, ts: int, now: int)
    ensures h in ExcludedIds(log + [Activity(u, h, text, Pick, ts, None)], u, now - CooldownMs) <==>
      h in ExcludedIds(log, u, now - CooldownMs) || now <= ts + CooldownMs
  {
    ExcludedIdsAppend(log, Activity(u, h, text, Pick, ts, None), u, now - CooldownMs);
  }

  /** Activity of another user never changes what `u` is kept from seeing. */
  lemma OthersActivityIgnored(log: Log, a: Activity, u: string, minTs: int)
    requires a.user != u
    ensures ExcludedIds(log + [a], u, minTs) == ExcludedIds(log, u, minTs)
  {
    ExcludedIdsAppend(log, a, u, minTs);
  }

  /** A hint `u` contributed is excluded from `u`'s picks at every later time. */
  lemma OwnContributionExcludedForever(s: State, req: AddRequest, secret: string, now: int, ts: int,
                                       later: int, exclude: Option<int>)
    requires req.user != ""
    ensures AddHint(s, req, secret, now, ts).response.Created? ==>
      AddHint(s, req, secret, now, ts).response.id in
        Excluded(AddHint(s, req, secret, now, ts).state, req.user, exclude, later)
  {
    var r := AddHint(s, req, secret, now, ts);
    if r.response.Created? {
      var a := r.state.log[|s.log|];
      assert r.state.log == s.log + [a];
      assert a.user == req.user;
      ExcludedIdsAppend(s.log, a, req.user, later - CooldownMs);
    }
  }

  /** After a delete, every user's exclusion set has lost exactly the deleted id. */
  lemma DeleteForgetsHint(s: State, password: Option<string>, secret: string, id: Option<int>, u: string, minTs: int)
    ensures AdminDelete(s, password, secret, id).response.Deleted? ==>
      ExcludedIds(AdminDelete(s, password, secret, id).state.log, u, minTs) == ExcludedIds(s.log, u, minTs) - {id.value}
  {
    if id.Some? {
      ExcludedIdsAfterRemove(s.log, id.value, u, minTs);
    }
  }

  /** An edit changes no user's exclusion set. */
  lemma EditKeepsExclusions(s: State, password: Option<string>, secret: string, id: Option<int>,
                            faculty: Option<string>, text: Option<string>, u: string, minTs: int)
    ensures AdminEdit(s, password, secret, id, faculty, text).response.Edited? ==>
      ExcludedIds(AdminEdit(s, password, secret, id, faculty, text).state.log, u, minTs) == ExcludedIds(s.log, u, minTs)
  {
    if id.Some? && text.Some? {
      ExcludedIdsIgnoreText(s.log, id.value, Text.Trim(text.value), u, minTs);
    }
  }

  /**
   * The path the two uniqueness rules leave open: a user contribution whose
   * text matches a stored hint of another faculty passes the pair query,
   * persists the used slot, and then fails on the text-only index.
   */
  lemma CrossFacultyDuplicateBurnsSlot(s: State, req: AddRequest, secret: string, now: int, ts: int)
    requires !AdminAdding(req.password, secret) && req.user != "" && Filled(req.faculty) && Filled(req.text)
    requires Gate(RecordOf(s, req.user).adds, now).Admitted?
    requires TextTaken(s.store, Text.Trim(req.text.value), None)
    requires !PairTaken(s.store, Text.Trim(req.faculty.value), Text.Trim(req.text.value), None)
    ensures AddHint(s, req, secret, now, ts).response == StorageError
    ensures AddHint(s, req, secret, now, ts).state.users[req.user].adds.count ==
              Refresh(RecordOf(s, req.user).adds, now).count + 1
    ensures AddHint(s, req, secret, now, ts).state.store == s.store
  {
  }

  /** A duplicate (faculty, text) pair is refused before the gate's slot is written. */
  lemma PairDuplicateKeepsQuota(s: State, req: AddRequest, secret: string, now: int, ts: int)
    requires req.user != "" && Filled(req.faculty) && Filled(req.text)
    requires Gate(RecordOf(s, req.user).adds, now).Admitted?
    requires PairTaken(s.store, Text.Trim(req.faculty.value), Text.Trim(req.text.value), None)
    ensures AddHint(s, req, secret, now, ts) == Step(Conflict, s)
  {
  }

  /** The scenario with concrete values: "foo" for faculty "B" next to "Foo" of faculty "A". */
  lemma CrossFacultyScenario()
    ensures
      var s := State(Store(map[1 := Hint("A", "Foo")], 2), map[], []);
      var r := AddHint(s, AddRequest("u", Some("B"), Some("foo"), None), "secret", 1000, 1000);
      r.response == StorageError && r.state.users["u"] == UserRecord(Fresh, Window(1, 1000))
  {
    var s := State(Store(map[1 := Hint("A", "Foo")], 2), map[], []);
    var req := AddRequest("u", Some("B"), Some("foo"), None);
    Text.TrimKeeps("B");
    Text.TrimKeeps("foo");
    assert Text.Fold("Foo") == "foo";
    assert Text.Fold("foo") == "foo";
    assert 1 in s.store.hints && Some(1) != None && Text.NoCaseEq(s.store.hints[1].text, "foo");
    assert TextTaken(s.store, "foo", None);
    CrossFacultyDuplicateBurnsSlot(s, req, "secret", 1000, 1000);
  }
}
