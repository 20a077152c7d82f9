/** Sequence facts used by the domain-pruning code: list.remove, comprehension filters, and
    the "obtained by deleting elements, order kept" relation. */
module Seqs {

  /** `a` is obtained from `b` by deleting elements, without adding or reordering any. */
  predicate Sub<T(==)>(a: seq<T>, b: seq<T>)
    decreases |b|
  {
    if b == [] then a == []
    else (a != [] && a[0] == b[0] && Sub(a[1..], b[1..])) || Sub(a, b[1..])
  }

  lemma {:induction false} SubRefl<T>(s: seq<T>)
    ensures Sub(s, s)
  {
    if s != [] {
      SubRefl(s[1..]);
    }
  }

  lemma {:induction false} SubTrans<T>(a: seq<T>, b: seq<T>, c: seq<T>)
    requires Sub(a, b) && Sub(b, c)
    ensures Sub(a, c)
    decreases |c|
  {
    if c != [] {
      if Sub(b, c[1..]) {
        SubTrans(a, b, c[1..]);
      } else {
        assert b != [] && b[0] == c[0] && Sub(b[1..], c[1..]);
        if a != [] && a[0] == b[0] && Sub(a[1..], b[1..]) {
          SubTrans(a[1..], b[1..], c[1..]);
        } else {
          SubTrans(a, b[1..], c[1..]);
        }
      }
    }
  }

  /** Deleting elements never adds a value, never makes the sequence longer, and a deletion
      that keeps the length deletes nothing. */
  lemma {:induction false} SubFacts<T>(a: seq<T>, b: seq<T>)
    requires Sub(a, b)
    ensures |a| <= |b|
    ensures multiset(a) <= multiset(b)
    ensures forall x :: x in a ==> x in b
    ensures |a| == |b| ==> a == b
    decreases |b|
  {
    if b != [] {
      if a != [] && a[0] == b[0] && Sub(a[1..], b[1..]) {
        SubFacts(a[1..], b[1..]);
        assert a == [a[0]] + a[1..];
        assert b == [b[0]] + b[1..];
      } else {
        SubFacts(a, b[1..]);
        assert b == [b[0]] + b[1..];
      }
    }
  }

  /** Python's `list.remove(x)`: deletes the first occurrence of `x` (the caller ensures `x`
      occurs, otherwise Python raises ValueError). */
  function RemoveFirst<T(==)>(s: seq<T>, x: T): (r: seq<T>)
    ensures x in s ==> multiset(r) == multiset(s) - multiset{x}
    ensures x in s ==> |r| == |s| - 1
  {
    if s == [] then []
    else if s[0] == x then
      assert s == [s[0]] + s[1..];
      s[1..]
    else
      assert s == [s[0]] + s[1..];
      [s[0]] + RemoveFirst(s[1..], x)
  }

  lemma {:induction false} RemoveFirstSub<T>(s: seq<T>, x: T)
    ensures Sub(RemoveFirst(s, x), s)
  {
    if s != [] {
      if s[0] == x {
        SubRefl(s[1..]);
      } else {
        RemoveFirstSub(s[1..], x);
        assert RemoveFirst(s, x)[1..] == RemoveFirst(s[1..], x);
      }
    }
  }

  /** `[v for v in s if p(v)]`. */
  function Filter<T(!new)>(s: seq<T>, p: T -> bool): (r: seq<T>)
    ensures forall x :: x in r <==> x in s && p(x)
    ensures Sub(r, s)
  {
    if s == [] then []
    else if p(s[0]) then
      var t := Filter(s[1..], p);
      assert ([s[0]] + t)[1..] == t;
      assert forall x :: x in s <==> x == s[0] || x in s[1..];
      [s[0]] + t
    else
      assert forall x :: x in s <==> x == s[0] || x in s[1..];
      Filter(s[1..], p)
  }
}
