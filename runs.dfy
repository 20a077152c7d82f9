/** Longest run of consecutive periods: `count_max_consecutive_slots` and the sorted view of a
    set of periods that feeds it. */
module Runs {

  /** s[i..j] is a stretch: every element is the previous one plus 1. */
  ghost predicate Stretch(s: seq<int>, i: int, j: int)
  {
    0 <= i < j <= |s| && forall k :: i < k < j ==> s[k] == s[k - 1] + 1
  }

  /** Length of the stretch that ends at the last element (the running `count`). */
  function Tail(s: seq<int>): nat
  {
    if |s| <= 1 then |s|
    else if s[|s| - 1] == s[|s| - 2] + 1 then Tail(s[..|s| - 1]) + 1
    else 1
  }

  /** The value `count_max_consecutive_slots` computes (its running `max_count`). */
  function MaxRun(s: seq<int>): nat
  {
    if s == [] then 0
    else
      var m := MaxRun(s[..|s| - 1]);
      var t := Tail(s);
      if m < t then t else m
  }

  /** backend/time_table_solver.py: count_max_consecutive_slots, the loop as written. */
  method CountMaxConsecutive(slots: seq<int>) returns (maxCount: nat)
    ensures maxCount == MaxRun(slots)
  {
    if |slots| == 0 {
      return 0;
    }
    var count := 1;
    maxCount := 1;
    assert slots[..1][..0] == [];
    var i := 1;
    while i < |slots|
      invariant 1 <= i <= |slots|
      invariant count == Tail(slots[..i])
      invariant maxCount == MaxRun(slots[..i])
    {
      assert slots[..i + 1][..i] == slots[..i];
      if slots[i] == slots[i - 1] + 1 {
        count := count + 1;
        maxCount := if maxCount < count then count else maxCount;
      } else {
        count := 1;
      }
      i := i + 1;
    }
    assert slots[..i] == slots;
  }

  lemma {:induction false} TailFacts(s: seq<int>)
    requires s != []
    ensures 1 <= Tail(s) <= |s|
    ensures Stretch(s, |s| - Tail(s), |s|)
    ensures forall i :: 0 <= i < |s| && Stretch(s, i, |s|) ==> |s| - i <= Tail(s)
  {
    var n := |s|;
    if n > 1 {
      var p := s[..n - 1];
      TailFacts(p);
      forall i | 0 <= i < n && Stretch(s, i, n)
        ensures n - i <= Tail(s)
      {
        if i < n - 1 {
          assert s[n - 1] == s[n - 2] + 1;
          assert Stretch(p, i, n - 1);
        }
      }
    }
  }

  /** count_max_consecutive_slots is 0 exactly for an empty list; otherwise it is the length of
      the longest stretch of +1 steps, so it lies in 1..len(slots). */
  lemma {:induction false} MaxRunIsLongest(s: seq<int>)
    ensures s == [] <==> MaxRun(s) == 0
    ensures s != [] ==> 1 <= MaxRun(s) <= |s|
    ensures s != [] ==> exists i, j :: Stretch(s, i, j) && j - i == MaxRun(s)
    ensures forall i, j :: Stretch(s, i, j) ==> j - i <= MaxRun(s)
  {
    if s != [] {
      var n := |s|;
      var p := s[..n - 1];
      TailFacts(s);
      MaxRunIsLongest(p);
      if MaxRun(p) < Tail(s) {
        assert Stretch(s, n - Tail(s), n);
      } else {
        var i, j :| Stretch(p, i, j) && j - i == MaxRun(p);
        assert Stretch(s, i, j);
      }
      forall i, j | Stretch(s, i, j)
        ensures j - i <= MaxRun(s)
      {
        if j < n {
          assert Stretch(p, i, j);
        } else {
          assert Stretch(s, i, n);
        }
      }
    }
  }

  ghost predicate StrictlyIncreasing(s: seq<int>)
  {
    forall i, j :: 0 <= i < j < |s| ==> s[i] < s[j]
  }

  /** Periods p, p+1, ..., p+n-1 are all in the set S. */
  ghost predicate AllOccupied(S: set<int>, p: int, n: nat)
  {
    forall q :: p <= q < p + n ==> q in S
  }

  ghost predicate Consecutive(s: seq<int>, p: int, n: nat)
  {
    forall q :: p <= q < p + n ==> q in s
  }

  lemma {:induction false} StretchValues(s: seq<int>, i: int, j: int)
    requires Stretch(s, i, j)
    ensures forall k :: i <= k < j ==> s[k] == s[i] + (k - i)
    decreases j - i
  {
    if j - 1 > i {
      assert Stretch(s, i, j - 1);
      StretchValues(s, i, j - 1);
      assert s[j - 1] == s[j - 2] + 1;
    }
  }

  lemma {:induction false} ConsecutiveIsStretch(s: seq<int>, i: nat, p: int, n: nat)
    requires StrictlyIncreasing(s) && i < |s| && s[i] == p && n >= 1
    requires Consecutive(s, p, n)
    ensures i + n <= |s| && Stretch(s, i, i + n)
    decreases n
  {
    if n > 1 {
      assert Consecutive(s, p, n - 1);
      ConsecutiveIsStretch(s, i, p, n - 1);
      var k := n - 1;
      StretchValues(s, i, i + k);
      assert p + k in s;
      var m :| 0 <= m < |s| && s[m] == p + k;
      assert s[i + k - 1] == p + k - 1;
      assert m > i + k - 1;
      assert s[i + k] <= s[m];
      assert s[i + k] > s[i + k - 1];
      assert s[i + k] == p + k;
    }
  }

  /** For the sorted periods of one day, a run of at least n (n >= 1) means exactly that n
      consecutive periods are all occupied. */
  lemma {:induction false} RunMeansConsecutive(s: seq<int>, n: nat)
    requires StrictlyIncreasing(s) && n >= 1
    ensures MaxRun(s) >= n <==> exists p :: Consecutive(s, p, n)
  {
    MaxRunIsLongest(s);
    if MaxRun(s) >= n {
      var i, j :| Stretch(s, i, j) && j - i == MaxRun(s);
      StretchValues(s, i, j);
      assert Consecutive(s, s[i], n) by {
        forall q | s[i] <= q < s[i] + n ensures q in s {
          assert s[i + (q - s[i])] == q;
        }
      }
    }
    if p :| Consecutive(s, p, n) {
      assert p in s;
      var i :| 0 <= i < |s| && s[i] == p;
      ConsecutiveIsStretch(s, i, p, n);
    }
  }

  lemma {:induction false} MinExists(S: set<int>)
    requires S != {}
    ensures exists m :: m in S && forall x :: x in S ==> m <= x
    decreases |S|
  {
    assert exists y :: y in S by {
      if forall y :: y !in S {
        assert false;
      }
    }
    var x :| x in S;
    if S != {x} {
      MinExists(S - {x});
      var r :| r in S - {x} && forall y :: y in S - {x} ==> r <= y;
      var m := if x < r then x else r;
      forall y | y in S ensures m <= y {
        if y != x {
          assert y in S - {x};
        }
      }
      assert m in S;
    } else {
      assert forall y :: y in S ==> x <= y;
    }
  }

  /** The smallest element of a non-empty set. */
  function MinOf(S: set<int>): (m: int)
    requires S != {}
    ensures m in S && forall x :: x in S ==> m <= x
  {
    MinExists(S);
    var m :| m in S && forall x :: x in S ==> m <= x;
    m
  }

  /** Python's `sorted(slots)` on a set of periods. */
  function SortedSet(S: set<int>): (r: seq<int>)
    ensures |r| == |S|
    ensures forall x :: x in r <==> x in S
    ensures StrictlyIncreasing(r)
    decreases |S|
  {
    if S == {} then []
    else
      var m := MinOf(S);
      var t := SortedSet(S - {m});
      SortedCons(m, t);
      [m] + t
  }

  lemma SortedCons(m: int, t: seq<int>)
    requires StrictlyIncreasing(t) && forall x :: x in t ==> m < x
    ensures StrictlyIncreasing([m] + t)
  {
    var r := [m] + t;
    forall i, j | 0 <= i < j < |r| ensures r[i] < r[j] {
      assert r[j] == t[j - 1];
      if i > 0 { assert r[i] == t[i - 1]; } else { assert t[j - 1] in t; }
    }
  }

  /** On a day's set of occupied periods, the run computed from the sorted periods reaches n
      exactly when n consecutive periods are occupied. */
  lemma {:induction false} SetRunMeansConsecutive(S: set<int>, n: nat)
    requires n >= 1
    ensures MaxRun(SortedSet(S)) >= n <==> exists p :: AllOccupied(S, p, n)
  {
    var s := SortedSet(S);
    RunMeansConsecutive(s, n);
    if p :| Consecutive(s, p, n) {
      assert AllOccupied(S, p, n);
    }
    if p :| AllOccupied(S, p, n) {
      assert Consecutive(s, p, n);
    }
  }
}
