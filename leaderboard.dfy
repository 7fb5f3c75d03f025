/**
 * The high-score update of handleGameOver (src/App.tsx): append the new entry,
 * sort by score, highest first, and keep the first ten. Array.prototype.sort
 * is stable, so entries with equal scores keep their order; the stable
 * insertion sort below therefore gives exactly the array the code gets.
 */
module Leaderboard {

  datatype Entry = Entry(name: string, score: int)

  const MaxEntries: nat := 10

  /** Non-increasing by score. */
  predicate SortedByScore(s: seq<Entry>)
  {
    forall i, j :: 0 <= i < j < |s| ==> s[i].score >= s[j].score
  }

  /** Number of entries scoring at least `v`. */
  function CountAtLeast(s: seq<Entry>, v: int): (n: nat)
    ensures n <= |s|
  {
    if s == [] then 0 else (if s[0].score >= v then 1 else 0) + CountAtLeast(s[1..], v)
  }

  /** Insert `e` after every entry scoring at least as much (so after its equals). */
  function InsertByScore(sorted: seq<Entry>, e: Entry): (r: seq<Entry>)
    ensures multiset(r) == multiset(sorted) + multiset{e}
  {
    if sorted == [] then [e]
    else if sorted[0].score >= e.score then
      assert sorted == [sorted[0]] + sorted[1..];
      [sorted[0]] + InsertByScore(sorted[1..], e)
    else [e] + sorted
  }

  /** Inserting into a sorted list keeps it sorted. */
  lemma {:induction false} InsertKeepsSorted(sorted: seq<Entry>, e: Entry)
    requires SortedByScore(sorted)
    ensures SortedByScore(InsertByScore(sorted, e))
    decreases |sorted|
  {
    if sorted != [] && sorted[0].score >= e.score {
      var tail := sorted[1..];
      var rest := InsertByScore(tail, e);
      InsertKeepsSorted(tail, e);
      assert forall i :: 0 <= i < |tail| ==> tail[i] == sorted[i + 1];
      InsertScoresAtMost(tail, e, sorted[0].score);
      ConsSorted(sorted[0], rest);
    }
  }

  /** An entry scoring at least as much as every entry of a sorted list can head it. */
  lemma ConsSorted(x: Entry, rest: seq<Entry>)
    requires SortedByScore(rest)
    requires forall y :: y in rest ==> y.score <= x.score
    ensures SortedByScore([x] + rest)
  {
    var r := [x] + rest;
    forall i, j | 0 <= i < j < |r|
      ensures r[i].score >= r[j].score
    {
      if i == 0 {
        assert r[j] in rest;
      } else {
        assert r[i] == rest[i - 1] && r[j] == rest[j - 1];
      }
    }
  }

  /** Inserting an entry scoring at most `v` among entries scoring at most `v` keeps every score at most `v`. */
  lemma InsertScoresAtMost(s: seq<Entry>, e: Entry, v: int)
    requires forall i :: 0 <= i < |s| ==> s[i].score <= v
    requires e.score <= v
    ensures forall x :: x in InsertByScore(s, e) ==> x.score <= v
  {
    var r := InsertByScore(s, e);
    forall x | x in r
      ensures x.score <= v
    {
      assert x in multiset(r);
      if x != e {
        assert x in multiset(s);
        var i :| 0 <= i < |s| && s[i] == x;
      }
    }
  }

  function SortByScore(s: seq<Entry>): (r: seq<Entry>)
    ensures multiset(r) == multiset(s)
    ensures SortedByScore(r)
  {
    if s == [] then []
    else
      var sortedPrefix := SortByScore(s[..|s| - 1]);
      InsertKeepsSorted(sortedPrefix, s[|s| - 1]);
      assert s == s[..|s| - 1] + [s[|s| - 1]];
      assert multiset(s) == multiset(s[..|s| - 1]) + multiset{s[|s| - 1]};
      InsertByScore(sortedPrefix, s[|s| - 1])
  }

  /** `[...prev, e].sort((a, b) => b.score - a.score).slice(0, 10)` */
  function TopScores(prev: seq<Entry>, e: Entry): (r: seq<Entry>)
    ensures |r| <= MaxEntries
    ensures SortedByScore(r)
    ensures multiset(r) <= multiset(prev + [e])
  {
    var sorted := SortByScore(prev + [e]);
    if |sorted| <= MaxEntries then sorted
    else
      assert sorted == sorted[..MaxEntries] + sorted[MaxEntries..];
      sorted[..MaxEntries]
  }

  /** With fewer than ten previous entries nothing is dropped: the result has one more entry, the new one among them. */
  lemma ShortTableKeepsAll(prev: seq<Entry>, e: Entry)
    requires |prev| < MaxEntries
    ensures |TopScores(prev, e)| == |prev| + 1
    ensures multiset(TopScores(prev, e)) == multiset(prev + [e])
    ensures e in TopScores(prev, e)
  {
    var r := TopScores(prev, e);
    assert e in multiset(prev + [e]);
    assert |r| == |multiset(r)| == |multiset(prev + [e])|;
  }

  /** In a sorted list, every entry after position n scores no more than every entry before it. */
  lemma SortedSplit(sorted: seq<Entry>, n: nat)
    requires SortedByScore(sorted) && n <= |sorted|
    ensures forall d: Entry, k: Entry :: d in multiset(sorted[n..]) && k in sorted[..n] ==> d.score <= k.score
  {
    forall d: Entry, k: Entry | d in multiset(sorted[n..]) && k in sorted[..n]
      ensures d.score <= k.score
    {
      var i :| n <= i < |sorted| && sorted[i] == d;
      var j :| 0 <= j < n && sorted[j] == k;
    }
  }

  /** Every entry the truncation drops scores no more than every entry it keeps. */
  lemma DroppedScoreNoMore(prev: seq<Entry>, e: Entry)
    ensures var r := TopScores(prev, e);
      forall d: Entry, k: Entry :: d in multiset(prev + [e]) - multiset(r) && k in r ==> d.score <= k.score
  {
    var sorted := SortByScore(prev + [e]);
    var r := TopScores(prev, e);
    var n := if |sorted| > MaxEntries then MaxEntries else |sorted|;
    assert r == sorted[..n];
    assert sorted == sorted[..n] + sorted[n..];
    assert multiset(prev + [e]) - multiset(r) == multiset(sorted[n..]);
    SortedSplit(sorted, n);
  }

  /** Inserting into a sorted list puts the new entry right after the entries scoring at least as much. */
  lemma {:induction false} InsertPosition(sorted: seq<Entry>, e: Entry)
    requires SortedByScore(sorted)
    ensures var k := CountAtLeast(sorted, e.score);
      InsertByScore(sorted, e) == sorted[..k] + [e] + sorted[k..]
    decreases |sorted|
  {
    if sorted == [] {
    } else if sorted[0].score >= e.score {
      var tail := sorted[1..];
      SortedSlice(sorted, 1, |sorted|);
      InsertPosition(tail, e);
      var k := CountAtLeast(tail, e.score);
      assert CountAtLeast(sorted, e.score) == k + 1;
      assert InsertByScore(sorted, e) == [sorted[0]] + (tail[..k] + [e] + tail[k..]);
      ConsInsert(sorted, k, e);
    } else {
      AllBelow(sorted, e.score);
      assert sorted[..0] == [] && sorted[0..] == sorted;
    }
  }

  /** Inserting into the tail at k is inserting into the whole list at k + 1. */
  lemma ConsInsert<T>(s: seq<T>, k: nat, x: T)
    requires k < |s|
    ensures [s[0]] + (s[1..][..k] + [x] + s[1..][k..]) == s[..k + 1] + [x] + s[k + 1..]
  {
    assert [s[0]] + s[1..][..k] == s[..k + 1];
    assert s[1..][k..] == s[k + 1..];
  }

  /** In a sorted list whose first entry scores below `v`, no entry scores `v` or more. */
  lemma {:induction false} AllBelow(sorted: seq<Entry>, v: int)
    requires SortedByScore(sorted) && sorted != [] && sorted[0].score < v
    ensures CountAtLeast(sorted, v) == 0
    decreases |sorted|
  {
    if |sorted| > 1 {
      AllBelow(sorted[1..], v);
    }
  }

  /** A slice of a sorted list is sorted. */
  lemma SortedSlice(s: seq<Entry>, lo: nat, hi: nat)
    requires SortedByScore(s) && lo <= hi <= |s|
    ensures SortedByScore(s[lo..hi])
  {
    var t := s[lo..hi];
    forall i, j | 0 <= i < j < |t|
      ensures t[i].score >= t[j].score
    {
      assert t[i] == s[lo + i] && t[j] == s[lo + j];
    }
  }

  /** A sorted list is left as it is by the sort. */
  lemma {:induction false} SortKeepsSorted(s: seq<Entry>)
    requires SortedByScore(s)
    ensures SortByScore(s) == s
    decreases |s|
  {
    if s != [] {
      var p, last := s[..|s| - 1], s[|s| - 1];
      assert s == p + [last];
      SortedSlice(s, 0, |s| - 1);
      SortKeepsSorted(p);
      InsertAtEnd(p, last);
      assert SortByScore(s) == InsertByScore(SortByScore(p), last);
    }
  }

  /** An entry scoring no more than any entry of a sorted list is inserted at its end. */
  lemma InsertAtEnd(p: seq<Entry>, last: Entry)
    requires SortedByScore(p + [last])
    ensures InsertByScore(p, last) == p + [last]
  {
    SortedSlice(p + [last], 0, |p|);
    assert (p + [last])[..|p|] == p;
    LastScoresLeast(p, last);
    AtLeastAll(p, last.score);
    InsertPosition(p, last);
    assert p[..|p|] == p && p[|p|..] == [];
  }

  /** The last entry of a sorted list scores no more than any entry before it. */
  lemma LastScoresLeast(p: seq<Entry>, last: Entry)
    requires SortedByScore(p + [last])
    ensures forall i :: 0 <= i < |p| ==> p[i].score >= last.score
  {
    var s := p + [last];
    forall i | 0 <= i < |p|
      ensures p[i].score >= last.score
    {
      assert s[i] == p[i] && s[|p|] == last;
    }
  }

  /** Every entry of a sorted list `p` scores at least the score of an entry that may follow it. */
  lemma {:induction false} AtLeastAll(p: seq<Entry>, v: int)
    requires forall i :: 0 <= i < |p| ==> p[i].score >= v
    ensures CountAtLeast(p, v) == |p|
    decreases |p|
  {
    if p != [] {
      AtLeastAll(p[1..], v);
    }
  }

  /**
   * On a sorted table (as every table this update produces is), the new entry
   * enters the top ten exactly when fewer than ten entries score at least as
   * much; otherwise the table stays the first ten previous entries.
   */
  lemma NewEntryPlacement(prev: seq<Entry>, e: Entry)
    requires SortedByScore(prev)
    ensures CountAtLeast(prev, e.score) < MaxEntries ==>
      var k := CountAtLeast(prev, e.score);
      k < |TopScores(prev, e)| && TopScores(prev, e)[k] == e
    ensures CountAtLeast(prev, e.score) >= MaxEntries ==> TopScores(prev, e) == prev[..MaxEntries]
  {
    var k := CountAtLeast(prev, e.score);
    SortAppended(prev, e);
    TopScoresIsPrefix(prev, e);
    var n := if |prev| + 1 <= MaxEntries then |prev| + 1 else MaxEntries;
    if k < MaxEntries {
      InsertedAt(prev, k, e, n);
    } else {
      InsertedPast(prev, k, e, n);
    }
  }

  /** Inserting at index k within the first n entries puts the entry at index k of the prefix. */
  lemma InsertedAt(prev: seq<Entry>, k: nat, e: Entry, n: nat)
    requires k <= |prev| && k < n <= |prev| + 1
    ensures (prev[..k] + [e] + prev[k..])[..n][k] == e
  {
  }

  /** Inserting at index k at or after n leaves the first n entries as they were. */
  lemma InsertedPast(prev: seq<Entry>, k: nat, e: Entry, n: nat)
    requires n <= k <= |prev|
    ensures (prev[..k] + [e] + prev[k..])[..n] == prev[..n]
  {
  }

  /** The table is the first min(n, 10) entries of the sorted n entries. */
  lemma TopScoresIsPrefix(prev: seq<Entry>, e: Entry)
    ensures var sorted := SortByScore(prev + [e]);
      |sorted| == |prev| + 1 &&
      TopScores(prev, e) == sorted[..if |sorted| <= MaxEntries then |sorted| else MaxEntries]
  {
    var sorted := SortByScore(prev + [e]);
    assert |sorted| == |multiset(sorted)| == |multiset(prev + [e])|;
    assert sorted[..|sorted|] == sorted;
  }

  /** Sorting a sorted table with one entry appended inserts that entry after the entries scoring at least as much. */
  lemma SortAppended(prev: seq<Entry>, e: Entry)
    requires SortedByScore(prev)
    ensures var k := CountAtLeast(prev, e.score);
      SortByScore(prev + [e]) == prev[..k] + [e] + prev[k..]
  {
    var s := prev + [e];
    assert s[..|s| - 1] == prev && s[|s| - 1] == e;
    assert SortByScore(s) == InsertByScore(SortByScore(prev), e);
    SortKeepsSorted(prev);
    InsertPosition(prev, e);
  }
}
