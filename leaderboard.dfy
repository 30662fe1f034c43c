/**
 * The leaderboard update of saveToLeaderboard (index.js:18-23): the list of
 * stored scores gains the new one under its display name, is sorted by time
 * (fastest first, stably) and cut to the best five.
 */
module Leaderboard {
  import opened Options

  /** How many scores the leaderboard keeps. */
  const RETAINED: nat := 5
  /** The name stored when none was entered. */
  const ANONYMOUS: string := "Anonymous"

  /** One leaderboard entry: a player's name and finishing time in milliseconds. */
  datatype Score = Score(name: string, time: nat)

  function Min(a: nat, b: nat): nat {
    if a <= b then a else b
  }

  /**
   * The name stored for a winner: what was entered, or "Anonymous" when the
   * prompt was dismissed (None) or left empty.
   */
  function DisplayName(entered: Option<string>): (n: string)
    ensures n != ""
    ensures entered.Some? && entered.value != "" ==> n == entered.value
    ensures entered.None? || entered.value == "" ==> n == ANONYMOUS
  {
    if entered.Some? && entered.value != "" then entered.value else ANONYMOUS
  }

  /** Times never decrease along the list. */
  predicate SortedByTime(s: seq<Score>) {
    forall i, j :: 0 <= i < j < |s| ==> s[i].time <= s[j].time
  }

  /**
   * Insert `e` into a sorted list after every entry whose time is at most
   * e's, which is where a stable sort puts an entry pushed at the end.
   */
  function Insert(s: seq<Score>, e: Score): (r: seq<Score>)
    requires SortedByTime(s)
    ensures SortedByTime(r) && |r| == |s| + 1
    ensures r[0] == e || (|s| > 0 && r[0] == s[0])
  {
    if |s| == 0 then [e]
    else if e.time < s[0].time then [e] + s
    else
      var rest := Insert(s[1..], e);
      ConsSorted(s[0], rest);
      [s[0]] + rest
  }

  /** A list stays sorted when an entry no slower than its head is put in front. */
  lemma ConsSorted(x: Score, s: seq<Score>)
    requires SortedByTime(s) && (|s| > 0 ==> x.time <= s[0].time)
    ensures SortedByTime([x] + s)
  {
    var r := [x] + s;
    forall i, j | 0 <= i < j < |r|
      ensures r[i].time <= r[j].time
    {
      assert r[j] == s[j - 1];
      if i > 0 {
        assert r[i] == s[i - 1];
      }
    }
  }

  /** Inserting adds exactly the new entry. */
  lemma InsertPermutes(s: seq<Score>, e: Score)
    requires SortedByTime(s)
    ensures multiset(Insert(s, e)) == multiset(s) + multiset{e}
  {
    var k := InsertAt(s, e);
    calc {
      multiset(Insert(s, e));
      multiset(s[..k] + [e] + s[k..]);
      multiset(s[..k]) + multiset{e} + multiset(s[k..]);
      { assert s == s[..k] + s[k..]; }
      multiset(s) + multiset{e};
    }
  }

  /** Stable sort by ascending time: each entry in turn is inserted after its equals. */
  function SortByTime(s: seq<Score>): (r: seq<Score>)
    ensures SortedByTime(r) && |r| == |s|
    ensures multiset(r) == multiset(s)
  {
    if |s| == 0 then []
    else
      var init, last := s[..|s| - 1], s[|s| - 1];
      assert s == init + [last];
      InsertPermutes(SortByTime(init), last);
      Insert(SortByTime(init), last)
  }

  /** The leaderboard after a win in `time` by the player who entered `entered`. */
  function Save(scores: seq<Score>, entered: Option<string>, time: nat): (r: seq<Score>)
    ensures SortedByTime(r)
    ensures |r| == Min(RETAINED, |scores| + 1)
    ensures multiset(r) <= multiset(scores + [Score(DisplayName(entered), time)])
    ensures forall x, y :: x in r && y in multiset(scores + [Score(DisplayName(entered), time)]) - multiset(r) ==>
              x.time <= y.time
  {
    var all := scores + [Score(DisplayName(entered), time)];
    var t := SortByTime(all);
    var k := Min(RETAINED, |t|);
    KeptPrefix(t, k);
    t[..k]
  }

  /** Cutting a sorted list keeps the sum of what is kept and what is dropped, and drops no faster entry. */
  lemma KeptPrefix(t: seq<Score>, k: nat)
    requires SortedByTime(t) && k <= |t|
    ensures multiset(t[..k]) <= multiset(t)
    ensures forall x, y :: x in t[..k] && y in multiset(t) - multiset(t[..k]) ==> x.time <= y.time
  {
    assert t == t[..k] + t[k..];
    assert multiset(t) - multiset(t[..k]) == multiset(t[k..]);
    forall x, y | x in t[..k] && y in multiset(t) - multiset(t[..k])
      ensures x.time <= y.time
    {
      assert y in t[k..];
      var i :| 0 <= i < k && t[i] == x;
      var j :| k <= j < |t| && t[j] == y;
    }
  }

  /**
   * Where Insert puts the new entry in a sorted list: after every entry at
   * most as slow, before every strictly slower one.
   */
  lemma {:induction false} InsertAt(s: seq<Score>, e: Score) returns (k: nat)
    requires SortedByTime(s)
    ensures k <= |s| && Insert(s, e) == s[..k] + [e] + s[k..]
    ensures forall i :: 0 <= i < k ==> s[i].time <= e.time
    ensures forall i :: k <= i < |s| ==> e.time < s[i].time
  {
    if |s| == 0 {
      k := 0;
    } else if e.time < s[0].time {
      k := 0;
    } else {
      var t := s[1..];
      var k' := InsertAt(t, e);
      k := k' + 1;
      assert s[..k] == [s[0]] + t[..k'];
      assert s[k..] == t[k'..];
      forall i | 0 < i < k
        ensures s[i].time <= e.time
      {
        assert s[i] == t[i - 1];
      }
      forall i | k <= i < |s|
        ensures e.time < s[i].time
      {
        assert s[i] == t[i - 1];
      }
      calc {
        Insert(s, e);
        [s[0]] + Insert(t, e);
        [s[0]] + (t[..k'] + [e] + t[k'..]);
        s[..k] + [e] + s[k..];
      }
    }
  }

  /** Sorting a list that is already sorted leaves it as it is. */
  lemma {:induction false} SortSortedIsIdentity(s: seq<Score>)
    requires SortedByTime(s)
    ensures SortByTime(s) == s
  {
    if |s| > 0 {
      var init, last := s[..|s| - 1], s[|s| - 1];
      SortedSplit(s);
      SortSortedIsIdentity(init);
      InsertLast(init, last);
      assert s == init + [last];
    }
  }

  /** All but the last entry of a sorted list are sorted, and none is slower than the last. */
  lemma SortedSplit(s: seq<Score>)
    requires SortedByTime(s) && |s| > 0
    ensures SortedByTime(s[..|s| - 1])
    ensures forall i :: 0 <= i < |s| - 1 ==> s[i].time <= s[|s| - 1].time
  {
  }

  /** An entry no faster than every listed one is inserted at the end. */
  lemma InsertLast(s: seq<Score>, e: Score)
    requires SortedByTime(s) && forall i :: 0 <= i < |s| ==> s[i].time <= e.time
    ensures Insert(s, e) == s + [e]
  {
    var k := InsertAt(s, e);
    assert |s| > 0 ==> s[|s| - 1].time <= e.time;
    assert k == |s|;
    assert s[..|s|] == s;
  }

  /** A win keeps the previous board sorted with the new entry placed stably. */
  lemma SaveIsInsert(scores: seq<Score>, entered: Option<string>, time: nat)
    ensures Save(scores, entered, time) ==
              Insert(SortByTime(scores), Score(DisplayName(entered), time))[..Min(RETAINED, |scores| + 1)]
  {
  }

  /**
   * A win reaches the board when fewer than five times are stored or it is
   * strictly faster than the fifth best stored time.
   */
  lemma SaveKeepsFaster(scores: seq<Score>, entered: Option<string>, time: nat)
    ensures var u := SortByTime(scores);
            |u| < RETAINED || time < u[RETAINED - 1].time ==>
              Score(DisplayName(entered), time) in Save(scores, entered, time)
  {
    var u := SortByTime(scores);
    var e := Score(DisplayName(entered), time);
    if |u| < RETAINED || time < u[RETAINED - 1].time {
      SaveIsInsert(scores, entered, time);
      var k := InsertAt(u, e);
      var ins := u[..k] + [e] + u[k..];
      assert ins[k] == e;
      if |u| >= RETAINED {
        assert k < RETAINED;
      }
      assert Save(scores, entered, time)[k] == e;
    }
  }

  /**
   * A win equal to or slower than the fifth best stored time leaves the
   * five best as they were: on a tie the earlier entry stays ahead.
   */
  lemma SaveKeepsBoardOnSlower(scores: seq<Score>, entered: Option<string>, time: nat)
    ensures var u := SortByTime(scores);
            |u| >= RETAINED && u[RETAINED - 1].time <= time ==>
              Save(scores, entered, time) == u[..RETAINED]
  {
    var u := SortByTime(scores);
    if |u| >= RETAINED && u[RETAINED - 1].time <= time {
      SaveIsInsert(scores, entered, time);
      InsertAfterPrefix(u, Score(DisplayName(entered), time), RETAINED);
    }
  }

  /** Inserting after the n-th entry leaves the first n entries in place. */
  lemma InsertAfterPrefix(u: seq<Score>, e: Score, n: nat)
    requires SortedByTime(u) && 0 < n <= |u| && u[n - 1].time <= e.time
    ensures Insert(u, e)[..n] == u[..n]
  {
    var k := InsertAt(u, e);
    assert k >= n;
    assert (u[..k] + [e] + u[k..])[..n] == u[..n];
  }
}
