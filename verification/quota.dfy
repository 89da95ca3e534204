/**
 * The per-user quota gate shared by picking a hint, contributing a hint
 * and the status endpoint: at most `MaxActions` actions per window of
 * `CooldownMs` milliseconds, with the window reset lazily when a request
 * finds it expired.
 */
module Quota {
  import opened Base

  const MaxActions: int := 3
  const CooldownMs: int := 6 * 60 * 60 * 1000

  /** One counter/timestamp pair of a user record (`0` means "no window"). */
  datatype Window = Window(count: int, start: int)

  /** What a user without a record has: the column defaults. */
  const Fresh: Window := Window(0, 0)

  /** The invariant every persisted window keeps. */
  predicate Inv(w: Window)
  {
    && 0 <= w.count <= MaxActions
    && w.start >= 0
    && (w.count == 0 <==> w.start == 0)
  }

  /** A window whose start is at least `CooldownMs` in the past is over. */
  predicate Expired(w: Window, now: int)
  {
    w.start > 0 && now - w.start >= CooldownMs
  }

  /** The window as a request sees it, after the lazy reset. */
  function Refresh(w: Window, now: int): (e: Window)
    ensures Expired(w, now) ==> e == Fresh
    ensures !Expired(w, now) ==> e == w
    ensures !Expired(e, now)
  {
    if Expired(w, now) then Fresh else w
  }

  /** The gate's verdict: refuse with the moment the cooldown ends, or admit with the window to persist. */
  datatype Decision = Denied(cooldownEnd: int) | Admitted(next: Window)

  /**
   * The decision for one action at time `now`. Denial happens exactly when
   * the stored window is still running and already full; an admitted
   * action adds one to the refreshed count and re-stamps the window on the
   * first action of a fresh window and on the action that fills it.
   */
  function Gate(w: Window, now: int): (d: Decision)
    ensures d.Denied? <==> !Expired(w, now) && w.count >= MaxActions
    ensures d.Denied? ==> d.cooldownEnd == w.start + CooldownMs
    ensures d.Denied? && Inv(w) ==> d.cooldownEnd > now
    ensures d.Admitted? ==> d.next.count == Refresh(w, now).count + 1
    ensures d.Admitted? && ((d.next.count == 1 && Refresh(w, now).start == 0) || d.next.count == MaxActions) ==>
              d.next.start == now
    ensures d.Admitted? && !((d.next.count == 1 && Refresh(w, now).start == 0) || d.next.count == MaxActions) ==>
              d.next.start == w.start
    ensures d.Admitted? && Inv(w) && now > 0 ==> Inv(d.next)
  {
    var e := Refresh(w, now);
    if e.count >= MaxActions then
      Denied(e.start + CooldownMs)
    else
      var count := e.count + 1;
      var start := if (count == 1 && e.start == 0) || count == MaxActions then now else e.start;
      Admitted(Window(count, start))
  }

  /** The `spin_status` / `add_status` object of the status endpoint. */
  datatype QuotaStatus = QuotaStatus(left: int, cooldownActive: bool, cooldownEnd: Option<int>)

  /**
   * The read-only status of a window. It agrees with the gate: the cooldown
   * is reported active exactly when the gate would refuse right now, and
   * then with the same end time.
   */
  function Report(w: Window, now: int): (s: QuotaStatus)
    ensures s.left == MaxActions - Refresh(w, now).count
    ensures s.cooldownActive <==> Gate(w, now).Denied?
    ensures s.cooldownActive <==> Refresh(w, now).count >= MaxActions
    ensures s.cooldownActive ==> s.cooldownEnd == Some(Gate(w, now).cooldownEnd)
    ensures !s.cooldownActive ==> s.cooldownEnd == None
    ensures Inv(w) ==> 0 <= s.left <= MaxActions && (s.cooldownActive <==> s.left == 0)
  {
    var e := Refresh(w, now);
    if e.count >= MaxActions then
      QuotaStatus(MaxActions - e.count, true, Some(e.start + CooldownMs))
    else
      QuotaStatus(MaxActions - e.count, false, None)
  }

  /**
   * The quota fields of a successful pick or contribution response, built
   * from the window just persisted: they are what the status endpoint
   * reports at the same instant.
   */
  function AfterAdmission(next: Window): (s: QuotaStatus)
    ensures forall w, now :: Gate(w, now) == Admitted(next) ==> s == Report(next, now)
  {
    if next.count >= MaxActions then
      QuotaStatus(MaxActions - next.count, true, Some(next.start + CooldownMs))
    else
      QuotaStatus(MaxActions - next.count, false, None)
  }

  /**
   * Three admitted actions inside one window, then a fourth request while
   * the cooldown runs: it is refused, and the cooldown ends `CooldownMs`
   * after the third action, not the first.
   */
  lemma CooldownCountsFromThirdAction(t1: int, t2: int, t3: int, t4: int)
    requires 0 < t1 <= t2 <= t3 <= t4
    requires t3 - t1 < CooldownMs && t4 - t3 < CooldownMs
    ensures Gate(Fresh, t1).Admitted?
    ensures Gate(Gate(Fresh, t1).next, t2).Admitted?
    ensures Gate(Gate(Gate(Fresh, t1).next, t2).next, t3).Admitted?
    ensures Gate(Gate(Gate(Gate(Fresh, t1).next, t2).next, t3).next, t4) == Denied(t3 + CooldownMs)
  {
  }

  /** Once the window has run out, the next action is admitted whatever the count was. */
  lemma ExpiredWindowAdmits(w: Window, now: int)
    requires Expired(w, now)
    ensures Gate(w, now) == Admitted(Window(1, now))
  {
  }

  /** Admission and denial are exhaustive; an invariant window with room is always admitted. */
  lemma RoomMeansAdmission(w: Window, now: int)
    requires Inv(w) && w.count < MaxActions
    ensures Gate(w, now).Admitted? && Gate(w, now).next.count <= MaxActions
  {
  }
}
