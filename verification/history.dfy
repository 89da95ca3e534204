/**
 * The `random_pick_history` table: an append-only log of picks and
 * contributions, read back to build a user's exclusion set and their
 * newest-first history page.
 */
module History {
  import opened Base

  /** `activity_type`: 'random_pick' or 'add_hint'. */
  datatype Kind = Pick | Contribute

  /**
   * One history row. `hintText` is a snapshot of the hint's text; `owner`
   * (`hint_owner_user_id`) is NULL on picks and the contributor on
   * contributions.
   */
  datatype Activity = Activity(user: string, hintId: int, hintText: string, kind: Kind, timestamp: int, owner: Option<string>)

  type Log = seq<Activity>

  /** The history page holds at most this many rows. */
  const PageSize: int := 20

  /**
   * The WHERE clause of the exclusion query: a row of `u` that is either
   * `u`'s own contribution (at any time) or `u`'s pick no older than `minTs`.
   */
  predicate Excludes(a: Activity, u: string, minTs: int)
  {
    a.user == u && ((a.kind == Contribute && a.owner == Some(u)) || (a.kind == Pick && a.timestamp >= minTs))
  }

  /** `SELECT DISTINCT hint_id` of the rows `Excludes` selects. */
  function ExcludedIds(log: Log, u: string, minTs: int): set<int>
  {
    if |log| == 0 then {}
    else
      var rest := ExcludedIds(log[..|log| - 1], u, minTs);
      var last := log[|log| - 1];
      if Excludes(last, u, minTs) then rest + {last.hintId} else rest
  }

  /** An id is excluded exactly when some qualifying row of the log carries it. */
  lemma {:induction false} ExcludedIdsMembers(log: Log, u: string, minTs: int)
    ensures forall i :: 0 <= i < |log| && Excludes(log[i], u, minTs) ==> log[i].hintId in ExcludedIds(log, u, minTs)
    ensures forall id :: id in ExcludedIds(log, u, minTs) ==>
              exists i :: 0 <= i < |log| && Excludes(log[i], u, minTs) && log[i].hintId == id
  {
    if |log| > 0 {
      var init := log[..|log| - 1];
      ExcludedIdsMembers(init, u, minTs);
      assert forall i :: 0 <= i < |init| ==> init[i] == log[i];
    }
  }

  /**
   * Appending a row changes the exclusion set only by that row's hint id,
   * and only when the row qualifies: a pick at `ts` keeps its hint excluded
   * while `minTs <= ts`, a contribution by someone else never excludes.
   */
  lemma {:induction false} ExcludedIdsAppend(log: Log, a: Activity, u: string, minTs: int)
    ensures ExcludedIds(log + [a], u, minTs) ==
      ExcludedIds(log, u, minTs) + (if Excludes(a, u, minTs) then {a.hintId} else {})
  {
    assert (log + [a])[..|log|] == log;
  }

  /** Exclusion never depends on the text snapshots. */
  lemma {:induction false} ExcludedIdsIgnoreText(log: Log, id: int, text: string, u: string, minTs: int)
    ensures ExcludedIds(Retext(log, id, text), u, minTs) == ExcludedIds(log, u, minTs)
  {
    var r := Retext(log, id, text);
    if |log| > 0 {
      assert r[..|r| - 1] == Retext(log[..|log| - 1], id, text);
      ExcludedIdsIgnoreText(log[..|log| - 1], id, text, u, minTs);
    }
  }

  /** Removing a hint's rows removes exactly that id from every exclusion set. */
  lemma {:induction false} ExcludedIdsAfterRemove(log: Log, id: int, u: string, minTs: int)
    ensures ExcludedIds(RemoveHint(log, id), u, minTs) == ExcludedIds(log, u, minTs) - {id}
  {
    if |log| > 0 {
      var init := log[..|log| - 1];
      assert log == init + [log[|log| - 1]];
      ExcludedIdsAfterRemove(init, id, u, minTs);
      RemoveStep(init, log[|log| - 1], id, u, minTs);
    }
  }

  /** One step of `ExcludedIdsAfterRemove`: it carries over to a log with one more row. */
  lemma RemoveStep(init: Log, last: Activity, id: int, u: string, minTs: int)
    requires ExcludedIds(RemoveHint(init, id), u, minTs) == ExcludedIds(init, u, minTs) - {id}
    ensures ExcludedIds(RemoveHint(init + [last], id), u, minTs) == ExcludedIds(init + [last], u, minTs) - {id}
  {
    var before := ExcludedIds(init, u, minTs);
    var extra: set<int> := if Excludes(last, u, minTs) then {last.hintId} else {};
    RemoveHintAppend(init, last, id);
    ExcludedIdsAppend(init, last, u, minTs);
    if last.hintId != id {
      ExcludedIdsAppend(RemoveHint(init, id), last, u, minTs);
      MinusCommutes(before, extra, id);
    } else {
      assert RemoveHint(init, id) + [] == RemoveHint(init, id);
      MinusAbsorbs(before, extra, id);
    }
  }

  lemma MinusCommutes(a: set<int>, e: set<int>, id: int)
    requires id !in e
    ensures (a - {id}) + e == (a + e) - {id}
  {
  }

  lemma MinusAbsorbs(a: set<int>, e: set<int>, id: int)
    requires e <= {id}
    ensures a - {id} == (a + e) - {id}
  {
  }

  /** `DELETE FROM random_pick_history WHERE hint_id = ?`, order kept. */
  function RemoveHint(log: Log, id: int): (r: Log)
    ensures |r| <= |log|
  {
    if |log| == 0 then []
    else if log[0].hintId == id then RemoveHint(log[1..], id)
    else [log[0]] + RemoveHint(log[1..], id)
  }

  /**
   * The rows left after the delete: every row of another hint, as many
   * times as the log holds it, and no row of the deleted hint.
   */
  lemma {:induction false} RemoveHintCounts(log: Log, id: int)
    ensures forall a :: multiset(RemoveHint(log, id))[a] == if a.hintId != id then multiset(log)[a] else 0
    ensures forall a :: a in RemoveHint(log, id) <==> a in log && a.hintId != id
  {
    if |log| > 0 {
      assert log == [log[0]] + log[1..];
      RemoveHintCounts(log[1..], id);
    }
    forall a ensures a in RemoveHint(log, id) <==> a in log && a.hintId != id {
      assert a in RemoveHint(log, id) <==> a in multiset(RemoveHint(log, id));
      assert a in log <==> a in multiset(log);
    }
  }

  lemma {:induction false} RemoveHintAppend(log: Log, a: Activity, id: int)
    ensures RemoveHint(log + [a], id) == RemoveHint(log, id) + (if a.hintId == id then [] else [a])
  {
    if |log| > 0 {
      assert (log + [a])[1..] == log[1..] + [a];
      RemoveHintAppend(log[1..], a, id);
    } else {
      assert log + [a] == [a];
    }
  }

  /** `UPDATE random_pick_history SET hint_text = ? WHERE hint_id = ?`. */
  function Retext(log: Log, id: int, text: string): (r: Log)
    ensures |r| == |log|
    ensures forall i :: 0 <= i < |log| && log[i].hintId == id ==> r[i] == log[i].(hintText := text)
    ensures forall i :: 0 <= i < |log| && log[i].hintId != id ==> r[i] == log[i]
  {
    seq(|log|, i requires 0 <= i < |log| => if log[i].hintId == id then log[i].(hintText := text) else log[i])
  }

  /** The rows of one user, in log order. */
  function RowsOf(log: Log, u: string): (r: Log)
    ensures forall a :: a in r <==> a in log && a.user == u
    ensures forall a :: multiset(r)[a] == if a.user == u then multiset(log)[a] else 0
  {
    if |log| == 0 then []
    else
      assert log == [log[0]] + log[1..];
      if log[0].user == u then [log[0]] + RowsOf(log[1..], u)
      else RowsOf(log[1..], u)
  }

  /**
   * Once a hint's rows are deleted, an earlier edit of that hint leaves no
   * trace in the log.
   */
  lemma {:induction false} RetextGoneWithRemove(log: Log, id: int, text: string)
    ensures RemoveHint(Retext(log, id, text), id) == RemoveHint(log, id)
  {
    if |log| > 0 {
      var r := Retext(log, id, text);
      assert r[1..] == Retext(log[1..], id, text);
      RetextGoneWithRemove(log[1..], id, text);
    }
  }

  /** Newest first. */
  predicate NewestFirst(s: Log)
  {
    forall i, j :: 0 <= i < j < |s| ==> s[i].timestamp >= s[j].timestamp
  }

  /** A row no older than everything in a newest-first list may go in front of it. */
  lemma ConsNewestFirst(x: Activity, t: Log)
    requires NewestFirst(t)
    requires forall y :: y in t ==> y.timestamp <= x.timestamp
    ensures NewestFirst([x] + t)
  {
    var r := [x] + t;
    forall i, j | 0 <= i < j < |r| ensures r[i].timestamp >= r[j].timestamp {
      assert r[j] == t[j - 1];
      if i > 0 {
        assert r[i] == t[i - 1];
      }
    }
  }

  /**
   * The head of a newest-first list may go back in front of its tail with
   * an older row inserted into it.
   */
  lemma HeadBeforeInserted(a: Activity, s: Log, t: Log)
    requires NewestFirst(s) && |s| > 0 && a.timestamp < s[0].timestamp
    requires NewestFirst(t) && multiset(t) == multiset(s[1..]) + multiset{a}
    ensures NewestFirst([s[0]] + t)
  {
    forall x | x in t ensures x.timestamp <= s[0].timestamp {
      assert x in multiset(t);
      if x != a {
        assert x in multiset(s[1..]);
        var j :| 0 <= j < |s[1..]| && s[1..][j] == x;
        assert s[j + 1] == x;
      }
    }
    ConsNewestFirst(s[0], t);
  }

  /** One step of insertion sort: `a` goes in front of the first row no newer than it. */
  function InsertByTime(a: Activity, s: Log): (r: Log)
    requires NewestFirst(s)
    ensures NewestFirst(r)
    ensures multiset(r) == multiset(s) + multiset{a}
  {
    if |s| == 0 then [a]
    else if a.timestamp >= s[0].timestamp then
      ConsNewestFirst(a, s);
      [a] + s
    else
      var t := InsertByTime(a, s[1..]);
      assert s == [s[0]] + s[1..];
      HeadBeforeInserted(a, s, t);
      [s[0]] + t
  }

  /** `ORDER BY timestamp DESC` (rows with equal timestamps come in one fixed order). */
  function SortNewestFirst(s: Log): (r: Log)
    ensures NewestFirst(r)
    ensures multiset(r) == multiset(s)
    ensures |r| == |s|
  {
    if |s| == 0 then []
    else
      assert s == [s[0]] + s[1..];
      InsertByTime(s[0], SortNewestFirst(s[1..]))
  }

  /** A list is its prefix and what that prefix leaves behind, as multisets too. */
  lemma SplitMultiset(s: Log, k: int)
    requires 0 <= k <= |s|
    ensures multiset(s) == multiset(s[..k]) + multiset(s[k..])
    ensures multiset(s) - multiset(s[..k]) == multiset(s[k..])
  {
    assert s == s[..k] + s[k..];
  }

  /** In a newest-first list, whatever follows position `k` is no newer than what precedes it. */
  lemma BehindPrefixIsOlder(s: Log, k: int, b: Activity)
    requires NewestFirst(s) && 0 <= k <= |s| && b in s[k..]
    ensures forall a :: a in s[..k] ==> a.timestamp >= b.timestamp
  {
    var j :| k <= j < |s| && s[j] == b;
    forall a | a in s[..k] ensures a.timestamp >= b.timestamp {
      var i :| 0 <= i < k && s[i] == a;
    }
  }

  /**
   * A prefix of a newest-first arrangement of `rows` is newest-first, is
   * drawn from `rows`, and is no older than any row of `rows` it leaves out.
   */
  lemma PrefixIsNewest(rows: Log, s: Log, k: int)
    requires NewestFirst(s) && multiset(s) == multiset(rows) && 0 <= k <= |s|
    ensures NewestFirst(s[..k])
    ensures multiset(s[..k]) <= multiset(rows)
    ensures forall a :: a in s[..k] ==> a in rows
    ensures forall b :: b in multiset(rows) - multiset(s[..k]) ==>
              forall a :: a in s[..k] ==> a.timestamp >= b.timestamp
  {
    SplitMultiset(s, k);
    forall b | b in multiset(rows) - multiset(s[..k])
      ensures forall a :: a in s[..k] ==> a.timestamp >= b.timestamp
    {
      assert b in multiset(s[k..]);
      BehindPrefixIsOlder(s, k, b);
    }
    forall a | a in s[..k] ensures a in rows {
      assert a in multiset(s[..k]);
    }
    forall i, j | 0 <= i < j < k ensures s[..k][i].timestamp >= s[..k][j].timestamp {
      assert s[..k][i] == s[i] && s[..k][j] == s[j];
    }
  }

  /**
   * `WHERE user_id = ? ORDER BY timestamp DESC LIMIT 20`: only `u`'s rows,
   * newest first, as many as there are up to 20, and none of `u`'s rows
   * left out is newer than one returned.
   */
  function Page(log: Log, u: string): (r: Log)
    ensures forall a :: a in r ==> a in log && a.user == u
    ensures |r| == Min(PageSize, |RowsOf(log, u)|)
    ensures NewestFirst(r)
    ensures multiset(r) <= multiset(RowsOf(log, u))
    ensures forall b :: b in multiset(RowsOf(log, u)) - multiset(r) ==>
              forall a :: a in r ==> a.timestamp >= b.timestamp
  {
    var mine := RowsOf(log, u);
    var s := SortNewestFirst(mine);
    var k := Min(PageSize, |s|);
    PrefixIsNewest(mine, s, k);
    s[..k]
  }

  /** Every row of `u` newer than the oldest row on the page is on the page. */
  lemma PageKeepsNewer(log: Log, u: string, a: Activity)
    requires a in log && a.user == u
    ensures |Page(log, u)| > 0 && a.timestamp > Page(log, u)[|Page(log, u)| - 1].timestamp ==> a in Page(log, u)
  {
  }
}
