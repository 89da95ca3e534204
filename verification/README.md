# Hint game server: quota, exclusion and contribution core

A Dafny model of the per-user bookkeeping of the KBX hint game server
(`server.js`) and the time arithmetic of its browser script
(`public/script.js`). The database is replaced by an immutable state of three
parts:

- the hint store, with AUTOINCREMENT ids and a `text` column that is unique under NOCASE;
- the user records, each with a picking window and a contributing window;
- the activity log of picks and contributions.

Each HTTP handler is a step from a state and a request to a response and a
new state. The clock `now`, the database row timestamp `ts` and the admin
secret are parameters. `ORDER BY RANDOM() LIMIT 1` is a nondeterministic
choice (`:|`) from the eligible set.

Modules, one file each:

- `base.dfy` (`Base`): `Option`, `Min`.
- `text.dfy` (`Text`): JavaScript `trim`, SQLite NOCASE (ASCII-only case folding).
- `quota.dfy` (`Quota`): the quota gate, at most 3 actions per 6-hour window, and the status report.
- `store.dfy` (`HintStore`): the `hints` table and its two notions of duplicate.
- `history.dfy` (`History`): the activity log, exclusion ids, cascade and retext, the newest-20 page.
- `server.dfy` (`Server`): the handlers and the properties that span several of them.
- `client.dfy` (`Client`): `formatTimeRemaining`, zero padding, and the history item labels.

Behaviour of the code worth knowing before reading the model:

- Contributing. In `POST /api/hints` the (faculty, NOCASE text) duplicate
  query runs before the contributing count is incremented
  (server.js:426-438). A pair duplicate therefore costs no quota slot. A
  slot is lost only when the text matches a hint of another faculty: the
  pair query passes, the window is persisted (server.js:443-448), and then
  the insert fails on the text-only UNIQUE index (server.js:450-451).
  `Server.CrossFacultyDuplicateBurnsSlot` and `Server.CrossFacultyScenario`
  state this path.
- Admin checks. The admin branch of `POST /api/hints` checks neither
  emptiness nor quota.
- Wrong admin password. A wrong admin password on that route falls through
  to the user path; it does not give 401.

## Model

| member | source | states |
|---|---|---|
| Text.Trim | server.js:387-395 | the trimmed field is the part of the input between its leading and trailing JavaScript white space, neither end of the result is white space, and it is empty exactly when the whole field is white space (the 400 test) |
| Text.TrimIdempotent | server.js:394-395 | trimming an already trimmed value changes nothing |
| Text.Fold | server.js:70 | the NOCASE key of a text has its length, no ASCII upper-case letter, and at each position either the original character or the other case of the same ASCII letter |
| Text.FoldIdempotent | server.js:70 | folding an already folded text changes nothing |
| Text.NoCaseEqPointwise | server.js:70 | two texts are NOCASE-equal iff they have the same length and each position holds the same character or the two cases of one ASCII letter |
| Text.NoCaseEqIsEquivalence | server.js:70 | NOCASE equality is reflexive, symmetric and transitive |
| Quota.Refresh | server.js:273-275 | a window whose start is at least 6 h old becomes (0, 0), a running window is untouched, and the refreshed window is never expired |
| Quota.Gate | server.js:269-292 | refusal happens exactly when the stored window is still running and holds 3 or more; a refusal carries start + 6 h, which lies in the future for any invariant window; an admission adds one to the refreshed count, re-stamps the start to `now` on the first action of a fresh window and on the third, and otherwise keeps it; admission keeps 0 <= count <= 3 and (count = 0 iff start = 0) when now > 0 |
| Quota.Report | server.js:216-247 | the status report says "cooldown active" exactly when the refreshed count is 3 or more, which is exactly when the gate would refuse at that instant and then gives the gate's end time; `left` is 3 minus the refreshed count and lies in [0, 3], and is 0 exactly when the cooldown is active |
| Quota.AfterAdmission | server.js:179-191 | the quota fields of a successful pick or contribution are what the status endpoint reports for the window just written |
| Quota.CooldownCountsFromThirdAction | server.js:288-292 | after three admitted actions in one window, a fourth inside the cooldown is refused with an end time 6 h after the third action |
| Quota.ExpiredWindowAdmits | server.js:273-292 | once the window has expired, the next action is admitted whatever the old count was, and it starts a new window at `now` with count 1 |
| Quota.RoomMeansAdmission | server.js:276-292 | an invariant window with fewer than 3 actions is admitted and stays within 3 |
| HintStore.PairTakenImpliesTextTaken | server.js:426-432 | every (faculty, text) duplicate found by the application query is also a duplicate for the text-only index; `Server.CrossFacultyScenario` shows that the converse fails |
| HintStore.TakenUpToCase | server.js:355 | the pair query and the UNIQUE index both compare texts under NOCASE: two texts that differ only in ASCII case are taken, or free, together |
| HintStore.StoredRowIsTaken | server.js:426 | every stored row other than the excepted id makes its own text taken for the index and its own (faculty, text) pair taken for the duplicate query |
| HintStore.Insert | server.js:450-452 | the insert fails exactly when some row's text is NOCASE-equal to the new text, whatever the faculties; otherwise the row gets a fresh id and the store stays text-unique |
| HintStore.Update | server.js:533-537 | an update of a missing id changes nothing ("no row"); one whose text collides with another row fails; otherwise only that row changes and text uniqueness is kept |
| HintStore.Delete | server.js:497-499 | exactly the given id leaves the store, every other row is unchanged, the AUTOINCREMENT counter is kept so the id is never handed out again, and the result reports whether a row existed |
| HintStore.InsertThenFind | server.js:66-71 | after an insert the store holds exactly one row with that faculty and text, and a second insert of the same text in any letter case and any faculty is refused |
| History.ExcludedIdsMembers | server.js:304-312 | a hint id is excluded for a user iff some log row of that user is their own contribution of it, or their pick of it no older than the lookback bound |
| History.ExcludedIdsAppend | server.js:305-312 | logging one more row adds its hint id to a user's exclusion set exactly when that row qualifies, and changes nothing else |
| History.ExcludedIdsIgnoreText | server.js:538-540 | rewriting history text snapshots leaves every exclusion set unchanged |
| History.ExcludedIdsAfterRemove | server.js:501-503 | deleting a hint's history rows removes exactly that id from every exclusion set |
| History.RemoveHintCounts | server.js:501-503 | after the delete the log holds every row of another hint exactly as many times as before, and no row of the deleted hint |
| History.RemoveHintAppend | server.js:501-503 | deleting from a log with one more row is deleting from the log and then keeping that row exactly when it belongs to another hint, so the remaining rows keep their log order |
| History.RetextGoneWithRemove | server.js:538-540 | once a hint's rows are deleted, an earlier rewrite of that hint's text snapshots leaves no trace in the log |
| History.RowsOf | server.js:566 | the filtered log holds every row of the given user exactly as many times as the log does, and no other row |
| History.InsertByTime | server.js:567 | inserting a row into a newest-first list keeps it newest-first and adds exactly that row |
| History.SortNewestFirst | server.js:567 | the sorted log is newest-first and a permutation of its input |
| History.Page | server.js:556-568 | the page holds only the user's rows, newest first, min(20, their count) of them, and none of the user's rows left out is newer than a row on the page |
| History.PageKeepsNewer | server.js:567-568 | every row of the user newer than the oldest row on the page is on the page |
| Server.AdminAdding | server.js:351 | the admin test inside the add route accepts exactly the passwords the admin middleware accepts |
| Server.AdminNeedsSecret | server.js:46-52 | the admin middleware admits exactly the requests whose password equals the configured secret, and nobody when no secret is set |
| Server.FilledMeansVisible | server.js:387-392 | a field passes the blank test exactly when it is present and holds a character other than JavaScript white space |
| Server.Status | server.js:198-250 | a missing user id gives 400 and any user id gets a status answer; for each of the two windows it echoes the refreshed count and start, reports "cooldown active" exactly when the gate would refuse, then with end time start + 6 h and otherwise with none, with `left` = 3 minus the refreshed count, within [0, 3] for valid states |
| Server.ExcludedMembers | server.js:304-317 | an id is kept from the user exactly when the exclusion query finds a row of theirs for it (their own contribution, or their pick within the last six hours) or it is the client's non-zero `exclude_id` |
| Server.RandomHint | server.js:255-343 | 400 exactly for a missing user id, changing nothing; 429 exactly when the gate refuses, changing nothing, with an end in the future; on admission the picking window is written and the contributing window is written back unchanged; 404 exactly when no live hint lies outside the exclusion set, still using the slot, while the status endpoint then reports the cooldown active exactly when no picks are left; a hint is returned exactly when the gate admits and some live hint lies outside the exclusion set, and it is such a hint, never the client's `exclude_id`, logged as this user's pick at `ts`, with quota fields matching the status report; validity of the state is preserved |
| Server.Contribution | server.js:363-370 | the hint insert fails exactly when the trimmed text is already stored under any faculty, case-insensitively, and then changes neither store nor log; otherwise the hint is stored under the AUTOINCREMENT id, which then advances by one and is not in use when the store is valid, and exactly one contribution row owned by its actor is appended to the log |
| Server.AdminAdd | server.js:351-383 | the admin branch never touches user records and runs no blank checks; 409 exactly when the (faculty, NOCASE text) pair exists; 500 exactly when the pair is free but the text is taken under another faculty; 201 otherwise; a 409 or 500 leaves the state unchanged; a 201 stores the trimmed pair under the AUTOINCREMENT id, advances the counter, and logs it as the caller's contribution, or as "admin"'s when no user id was sent; validity is preserved |
| Server.UserAdd | server.js:385-481 | 400 exactly for a missing user id or a blank faculty or text; 429 exactly when the contributing gate refuses, with the window's cooldown end; past the gate, 409 exactly when the pair exists, 500 exactly when the pair is free but the text is taken, and 201 exactly when the text is free; 400, 429 and 409 leave the state unchanged, so no slot is used; a 500 or 201 writes the admitted contributing window and writes the picking window back unchanged; a 201 stores the trimmed pair under the AUTOINCREMENT id, advances the counter, logs it as the user's own contribution and reports the quota of the written window; validity is preserved |
| Server.AddHint | server.js:346-482 | a password equal to the secret selects the admin branch, which never touches user records; any other password falls through to the user branch; 400 exactly for a non-admin request with a missing user id or a blank faculty or text; 429 exactly when the gate refuses, with the window's cooldown end; for a request that reaches the duplicate query, 409 exactly when the (faculty, NOCASE text) pair exists, 500 exactly when the pair is free but the text is taken, and 201 exactly when the text is free; 400, 429 and 409 leave the state unchanged so no slot is used; a 500 leaves store and log unchanged; on the user path a 500 or a 201 writes the contributing window the gate admitted and writes the picking window back unchanged; a 201 adds exactly the trimmed hint under the AUTOINCREMENT id and advances the counter, logs it, with the trimmed text and the request's timestamp, as a contribution owned by the `x-user-id` caller (by "admin" on the admin branch without one), and carries the quota of the written window on the user branch and none on the admin branch; validity is preserved |
| Server.AdminDelete | server.js:493-506 | wrong password gives 401, a non-numeric id 400, an absent id 404, and none of them changes anything; a present id is deleted: exactly that hint leaves the store, the AUTOINCREMENT counter is kept, every history row of it is removed, every other row stays as often as it was, and user records are untouched |
| Server.AdminEdit | server.js:509-549 | 401, then 400 for a bad id or a blank field, then 409 exactly when another row has the same faculty and NOCASE text (even if the id is absent); past that, 404 exactly for an absent id, 500 exactly when another row already has the text under NOCASE, and an edit otherwise; an edit replaces only that row and rewrites only that hint's history snapshots |
| Server.SpinHistory | server.js:552-573 | a missing user id gives 400 and any user id gets a page; its rows are the join of distinct log rows of the caller (a sub-multiset of their rows), min(20, count) of them, newest first, with a faculty exactly when the hint still exists, and every row of the caller newer than the oldest row shown is shown |
| Server.PickExcludedForSixHours | server.js:304-311 | a pick logged at `ts` excludes its hint from the picker's choices exactly while now <= ts + 6 h, unless another row also excludes it |
| Server.OthersActivityIgnored | server.js:308-311 | another user's picks and contributions never change what this user is kept from seeing |
| Server.OwnContributionExcludedForever | server.js:454-457 | a hint the user contributed is in their exclusion set at every later time |
| Server.DeleteForgetsHint | server.js:497-503 | after a delete, every user's exclusion set has lost exactly the deleted id |
| Server.EditKeepsExclusions | server.js:533-540 | an edit changes no user's exclusion set |
| Server.CrossFacultyDuplicateBurnsSlot | server.js:426-451 | a user contribution whose text is taken only under another faculty passes the pair check, persists the used slot and fails with 500, leaving the store unchanged |
| Server.PairDuplicateKeepsQuota | server.js:426-432 | a duplicate (faculty, text) pair gives 409 and leaves the whole state, quota included, unchanged |
| Server.CrossFacultyScenario | server.js:443-451 | concretely: with "Foo" stored under faculty "A", adding "foo" under "B" gives 500 and leaves the user with one contribution used |
| Client.Decimal | public/script.js:52 | `toString` writes one or more digits, one digit exactly for numbers below 10, and no leading zero |
| Client.DecimalRoundTrip | public/script.js:52 | reading back the digits `toString` wrote gives the number |
| Client.PadStart2 | public/script.js:52 | `padStart(2, '0')` yields max(2, length) characters: the input at the end, zeros in front |
| Client.Pad2 | public/script.js:52 | padded numbers have at least two digits, a single digit gets exactly one leading zero, numbers of two or more digits are never truncated, and the text still denotes the number |
| Client.SplitRemaining | public/script.js:48-51 | with s the whole seconds, minutes < 60 and hours*3600 + minutes*60 <= s < hours*3600 + minutes*60 + 60 |
| Client.SplitUnique | public/script.js:48-51 | exactly one (hours, minutes) pair meets those bounds, so the split is the only correct one |
| Client.FormatTimeRemaining | public/script.js:44-53 | a time that is up reads exactly "00 ชั่วโมง 00 นาที", the rendering of zero hours and zero minutes; any other time reads as the rendering of an (hours, minutes) pair that describes it |
| Client.RenderInjective | public/script.js:52 | the countdown text determines the hours and minutes it shows |
| Client.ExpiryLabel | public/script.js:315-327 | an item has an expiry label iff it is a pick or the viewer's own contribution; the label is "gone" iff timestamp + 6 h - now <= 0, and otherwise gives hours and minutes with minutes < 60 that bracket the remaining time |
| Client.TypeLabel | public/script.js:334-345 | a contribution is labelled "yours" iff its owner is the viewer and "other user" otherwise, and a pick gets no type label; "other user" items never carry an expiry at any time, "yours" items always do |
| Client.GoneMatchesServerLookback | public/script.js:316-320 | the client's "gone" label and the server's pick exclusion agree at every instant except exactly 6 h after the pick, when the client already says "gone" and the server still excludes the hint |

## Left out

- Express routing, the JSON body parser, static files, helmet and the per-IP rate limit (server.js:1-24). Handlers are functions; responses are tags carrying their data.
- Database I/O and its failures. Opening the database, creating tables, seeding the initial hints, and every 500 caused by a failed read or query are left out; the model's reads always succeed. The only modelled 500 is the UNIQUE violation of an insert or update.
- Logging-only write failures. A failed user-record write, history insert, history DELETE in admin delete (server.js:501-503) or history UPDATE in admin edit (server.js:538-540) is only logged by the source, which still answers success; the model assumes these writes succeed.
- `safeEqual` / `crypto.timingSafeEqual` (server.js:34-43). It is plain string equality against a secret parameter. An unset secret is the empty string.
- Randomness. `ORDER BY RANDOM()` is a nondeterministic choice from the eligible set, with no uniformity claim. User ids are opaque strings, so `Math.random` in `getOrCreateUserId` is not modelled.
- The `Math.ceil` hours inside error messages (server.js:278, 416) and the message strings themselves.
- Concurrency. The model is sequential, so the read-then-`INSERT OR REPLACE` race between two requests of one user is not modelled.
- Request parsing.
  - A missing field and a field of a non-string type are both `None`.
  - The admin branch would throw on a non-string field; that is not modelled.
  - `parseInt` of `exclude_id` and `isNaN` of the path id are taken as already done (`Option<int>`).
  - JavaScript numbers are unbounded integers here.
- `POST /api/admin/hints/all` (server.js:485-490). It is a read of the whole store; its `ORDER BY faculty, text` ordering is not modelled.
- History.Page: rows with equal timestamps come in one fixed order. SQLite leaves the order of ties unspecified.
- Everything in public/script.js besides `formatTimeRemaining` and the label arithmetic: DOM updates, `fetch`, timers, localStorage, and the list item's title text. The label strings are rendered by `Client.ExpiryText` without a contract of their own.
- public/admin_script.js: it is user-interface code with no logic beyond what the server enforces.
