/**
 * The arithmetic of the browser script: the "hours and minutes left"
 * countdown text, and the expiry and ownership labels of history items.
 */
module Client {
  import opened Base
  import opened History
  import Quota
  import HintStore
  import Server

  const HoursWord: string := " ชั่วโมง "
  const MinutesWord: string := " นาที"

  /** What `formatTimeRemaining` shows once the time is up. */
  const ZeroRemaining: string := "00 ชั่วโมง 00 นาที"

  const MsPerMinute: int := 60 * 1000
  const MsPerHour: int := 60 * MsPerMinute

  predicate IsDigit(c: char)
  {
    '0' <= c <= '9'
  }

  predicate AllDigits(s: string)
  {
    forall i :: 0 <= i < |s| ==> IsDigit(s[i])
  }

  function DigitChar(d: int): (c: char)
    requires 0 <= d < 10
    ensures IsDigit(c) && c as int - '0' as int == d
  {
    (d + '0' as int) as char
  }

  /** `n.toString()` for a non-negative integer. */
  function Decimal(n: nat): (r: string)
    ensures |r| >= 1 && AllDigits(r)
    ensures |r| == 1 <==> n < 10
    ensures r[0] == '0' ==> n == 0
  {
    if n < 10 then [DigitChar(n)] else Decimal(n / 10) + [DigitChar(n % 10)]
  }

  /** The number a digit string denotes (leading zeros allowed). */
  function DecimalValue(s: string): nat
    requires AllDigits(s)
  {
    if |s| == 0 then 0 else 10 * DecimalValue(s[..|s| - 1]) + (s[|s| - 1] as int - '0' as int)
  }

  /** Reading back what `toString` wrote gives the number. */
  lemma {:induction false} DecimalRoundTrip(n: nat)
    ensures DecimalValue(Decimal(n)) == n
  {
    if n >= 10 {
      var r := Decimal(n);
      assert r[..|r| - 1] == Decimal(n / 10);
      DecimalRoundTrip(n / 10);
    }
  }

  /** A leading zero does not change the value. */
  lemma {:induction false} LeadingZero(s: string)
    requires AllDigits(s)
    ensures AllDigits("0" + s) && DecimalValue("0" + s) == DecimalValue(s)
  {
    if |s| > 0 {
      var t := "0" + s;
      assert t[..|t| - 1] == "0" + s[..|s| - 1];
      LeadingZero(s[..|s| - 1]);
    }
  }

  /** `s.padStart(2, '0')`: zeros in front up to two characters; longer strings are kept whole. */
  function PadStart2(s: string): (r: string)
    ensures |r| == if |s| >= 2 then |s| else 2
    ensures r[|r| - |s|..] == s
    ensures forall i :: 0 <= i < |r| - |s| ==> r[i] == '0'
  {
    if |s| >= 2 then s else seq(2 - |s|, _ => '0') + s
  }

  /**
   * `n.toString().padStart(2, '0')`: at least two digits, a single digit
   * gets one leading zero, two or more digits are never cut, and the text
   * still denotes `n`.
   */
  function Pad2(n: nat): (r: string)
    ensures |r| >= 2 && AllDigits(r)
    ensures n < 10 ==> r == ['0', DigitChar(n)]
    ensures n >= 10 ==> r == Decimal(n)
    ensures DecimalValue(r) == n
  {
    DecimalRoundTrip(n);
    if n < 10 then
      LeadingZero(Decimal(n));
      PadStart2(Decimal(n))
    else
      PadStart2(Decimal(n))
  }

  /** Hours and whole minutes of a remaining time. */
  datatype Duration = Duration(hours: nat, minutes: nat)

  /** What a remaining time of `ms` milliseconds means, independent of how it is computed. */
  predicate Describes(d: Duration, ms: int)
  {
    var s := ms / 1000;
    d.minutes < 60 && d.hours * 3600 + d.minutes * 60 <= s < d.hours * 3600 + d.minutes * 60 + 60
  }

  /** The division steps of `formatTimeRemaining`: whole seconds, then hours, then the minutes left over. */
  function SplitRemaining(ms: int): (d: Duration)
    requires ms > 0
    ensures Describes(d, ms)
  {
    var s := ms / 1000;
    Duration(s / 3600, (s % 3600) / 60)
  }

  /** Exactly one duration describes a remaining time, so the split is the only right answer. */
  lemma SplitUnique(ms: int, d: Duration)
    requires ms > 0 && Describes(d, ms)
    ensures d == SplitRemaining(ms)
  {
    var e := SplitRemaining(ms);
    var a := d.hours * 60 + d.minutes;
    var b := e.hours * 60 + e.minutes;
    assert a * 60 <= ms / 1000 < a * 60 + 60;
    assert b * 60 <= ms / 1000 < b * 60 + 60;
    assert a == b;
    assert d.hours == a / 60 && e.hours == b / 60;
  }

  function Render(d: Duration): string
  {
    Pad2(d.hours) + HoursWord + Pad2(d.minutes) + MinutesWord
  }

  /**
   * `formatTimeRemaining(ms)`: a time that is up reads as zero hours and
   * zero minutes; otherwise the hours and minutes that describe `ms`.
   */
  function FormatTimeRemaining(ms: int): (r: string)
    ensures ms <= 0 ==> r == ZeroRemaining && r == Render(Duration(0, 0))
    ensures ms > 0 ==> exists d :: Describes(d, ms) && r == Render(d)
  {
    if ms <= 0 then ZeroRemaining
    else Render(SplitRemaining(ms))
  }

  /** How many digits `s` starts with. */
  function LeadingDigits(s: string): nat
  {
    if |s| > 0 && IsDigit(s[0]) then 1 + LeadingDigits(s[1..]) else 0
  }

  lemma {:induction false} LeadingDigitsBeforeSpace(a: string, x: string)
    requires AllDigits(a) && |x| > 0 && x[0] == ' '
    ensures LeadingDigits(a + x) == |a|
  {
    if |a| > 0 {
      assert (a + x)[1..] == a[1..] + x;
      LeadingDigitsBeforeSpace(a[1..], x);
    } else {
      assert a + x == x;
    }
  }

  /**
   * Two numbers, each followed by the same separator starting with a space,
   * then the same suffix: equal texts mean equal numbers.
   */
  lemma JoinInjective(a1: string, b1: string, a2: string, b2: string, w: string, m: string)
    requires AllDigits(a1) && AllDigits(a2)
    requires |w| > 0 && w[0] == ' '
    requires a1 + w + b1 + m == a2 + w + b2 + m
    ensures a1 == a2 && b1 == b2
  {
    var r := a1 + w + b1 + m;
    assert r == a1 + (w + b1 + m);
    assert r == a2 + (w + b2 + m);
    LeadingDigitsBeforeSpace(a1, w + b1 + m);
    LeadingDigitsBeforeSpace(a2, w + b2 + m);
    assert a1 == r[..|a1|] == a2;
    assert |b1| == |b2|;
    assert b1 == r[|a1| + |w|..|a1| + |w| + |b1|] == b2;
  }

  /** The countdown text determines the hours and minutes it shows. */
  lemma RenderInjective(d1: Duration, d2: Duration)
    requires Render(d1) == Render(d2)
    ensures d1 == d2
  {
    JoinInjective(Pad2(d1.hours), Pad2(d1.minutes), Pad2(d2.hours), Pad2(d2.minutes), HoursWord, MinutesWord);
  }

  // ---------------------------------------------------------------- history items

  /** The expiry part of a history item: already gone, or hours and minutes left. */
  datatype Expiry = Gone | ExpiresIn(hours: int, minutes: int)

  /** Items that carry an expiry: every pick, and contributions owned by the viewer. */
  predicate ShowsExpiry(item: Server.HistoryRow, viewer: string)
  {
    item.kind == Pick || (item.kind == Contribute && item.owner == Some(viewer))
  }

  /** Milliseconds until the item's six hours are over. */
  function TimeLeft(item: Server.HistoryRow, now: int): int
  {
    item.timestamp + Quota.CooldownMs - now
  }

  function ExpiryLabel(item: Server.HistoryRow, viewer: string, now: int): (r: Option<Expiry>)
    ensures r.Some? <==> ShowsExpiry(item, viewer)
    ensures r == Some(Gone) <==> ShowsExpiry(item, viewer) && TimeLeft(item, now) <= 0
    ensures r.Some? && r.value.ExpiresIn? ==>
      && TimeLeft(item, now) > 0
      && 0 <= r.value.hours && 0 <= r.value.minutes < 60
      && r.value.hours * MsPerHour + r.value.minutes * MsPerMinute <= TimeLeft(item, now)
      && TimeLeft(item, now) < r.value.hours * MsPerHour + (r.value.minutes + 1) * MsPerMinute
  {
    if !ShowsExpiry(item, viewer) then None
    else
      var left := TimeLeft(item, now);
      if left <= 0 then Some(Gone)
      else Some(ExpiresIn(left / MsPerHour, (left % MsPerHour) / MsPerMinute))
  }

  function ExpiryText(e: Expiry): string
  {
    match e
    case Gone => " (หายไปจากประวัติแล้ว)"
    case ExpiresIn(h, m) =>
      " (จะหายใน " + Pad2(if h >= 0 then h else 0) + " ชม. " + Pad2(if m >= 0 then m else 0) + " นาที)"
  }

  /** Who added a contribution, from the viewer's side. */
  datatype Ownership = Yours | OtherUser

  function TypeLabel(item: Server.HistoryRow, viewer: string): (r: Option<Ownership>)
    ensures r == Some(Yours) <==> item.kind == Contribute && item.owner == Some(viewer)
    ensures r == Some(OtherUser) <==> item.kind == Contribute && item.owner != Some(viewer)
    ensures r.None? <==> item.kind.Pick?
    ensures r == Some(OtherUser) ==> forall now :: ExpiryLabel(item, viewer, now).None?
    ensures r == Some(Yours) ==> forall now :: ExpiryLabel(item, viewer, now).Some?
  {
    if item.kind == Contribute && item.owner == Some(viewer) then Some(Yours)
    else if item.kind == Contribute then Some(OtherUser)
    else None
  }

  /**
   * The client's "gone" label and the server's pick exclusion agree on
   * every instant but one: at exactly six hours after the pick the client
   * already says the hint is gone while the server still excludes it.
   */
  lemma GoneMatchesServerLookback(a: Activity, st: HintStore.Store, u: string, now: int)
    requires a.user == u && a.kind == Pick
    ensures var item := Server.ToRow(st, a);
      && ((ExpiryLabel(item, u, now) == Some(Gone) && now != a.timestamp + Quota.CooldownMs) <==>
          !Excludes(a, u, now - Quota.CooldownMs))
      && (now == a.timestamp + Quota.CooldownMs ==>
            ExpiryLabel(item, u, now) == Some(Gone) && Excludes(a, u, now - Quota.CooldownMs))
  {
  }
}
