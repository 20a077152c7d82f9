/** AC-3 (Mackworth, 1977) as both solver generations implement it: a queue of arcs and a
    `revise` that deletes unsupported values from the live domain, plus the MRV selector. The
    algorithm is generic in the variable type K, the value type V and the constraint kind C;
    `sat(c, x, y)` is the constraint's predicate. */
module ArcConsistency {
  import opened Wrappers
  import opened Seqs

  /** A queue entry `(xi, xj, constraint)`. */
  datatype Arc<K, C> = Arc(xi: K, xj: K, c: C)

  /** `any(constraint(x, y) for y in d)`. */
  predicate HasSupport<V(==,!new), C>(sat: (C, V, V) -> bool, c: C, x: V, d: seq<V>)
  {
    exists y :: y in d && sat(c, x, y)
  }

  /** The `for x in domain_copy` loop of `revise`. `cur` is the live D(xi); the live D(xj) is
      `cur` itself when xi == xj (`same`) and the fixed `dj` otherwise. Returns the final D(xi)
      and whether anything was removed. */
  function Scan<V(==,!new), C>(sat: (C, V, V) -> bool, c: C, copy: seq<V>, cur: seq<V>, dj: seq<V>,
                            same: bool): (seq<V>, bool)
    requires multiset(copy) <= multiset(cur)
    decreases |copy|
  {
    if copy == [] then (cur, false)
    else
      var x := copy[0];
      assert copy == [x] + copy[1..];
      var live := if same then cur else dj;
      if HasSupport(sat, c, x, live) then Scan(sat, c, copy[1..], cur, dj, same)
      else
        assert x in multiset(cur);
        var r := Scan(sat, c, copy[1..], RemoveFirst(cur, x), dj, same);
        (r.0, true)
  }

  lemma ScanKeep<V(!new), C>(sat: (C, V, V) -> bool, c: C, copy: seq<V>, cur: seq<V>, dj: seq<V>,
                             same: bool)
    requires copy != [] && multiset(copy) <= multiset(cur)
    requires HasSupport(sat, c, copy[0], if same then cur else dj)
    ensures multiset(copy[1..]) <= multiset(cur)
    ensures Scan(sat, c, copy, cur, dj, same) == Scan(sat, c, copy[1..], cur, dj, same)
  {
    assert copy == [copy[0]] + copy[1..];
  }

  lemma ScanDrop<V(!new), C>(sat: (C, V, V) -> bool, c: C, copy: seq<V>, cur: seq<V>, dj: seq<V>,
                             same: bool)
    requires copy != [] && multiset(copy) <= multiset(cur)
    requires !HasSupport(sat, c, copy[0], if same then cur else dj)
    ensures copy[0] in cur
    ensures multiset(copy[1..]) <= multiset(RemoveFirst(cur, copy[0]))
    ensures Scan(sat, c, copy, cur, dj, same) ==
            (Scan(sat, c, copy[1..], RemoveFirst(cur, copy[0]), dj, same).0, true)
  {
    assert copy == [copy[0]] + copy[1..];
    assert copy[0] in multiset(cur);
  }

  /** The state of the `revise` loop after `i` elements of the copy: `cur` is the live D(xi),
      `revised` says whether anything was removed, and finishing the scan from here gives
      `whole`, the result of the scan from the start. */
  ghost predicate ScanAt<V(!new), C>(sat: (C, V, V) -> bool, c: C, copy: seq<V>, i: nat,
                                        cur: seq<V>, dj: seq<V>, same: bool, revised: bool,
                                        whole: (seq<V>, bool))
  {
    i <= |copy| && multiset(copy[i..]) <= multiset(cur) &&
    whole.0 == Scan(sat, c, copy[i..], cur, dj, same).0 &&
    whole.1 == (revised || Scan(sat, c, copy[i..], cur, dj, same).1)
  }

  lemma ScanAtStart<V(!new), C>(sat: (C, V, V) -> bool, c: C, copy: seq<V>, dj: seq<V>,
                                same: bool)
    ensures ScanAt(sat, c, copy, 0, copy, dj, same, false, Scan(sat, c, copy, copy, dj, same))
  {
    assert copy[0..] == copy;
  }

  /** One element of the copy: kept when it has support in the live D(xj), else removed from
      the live D(xi). */
  lemma ScanAtNext<V(!new), C>(sat: (C, V, V) -> bool, c: C, copy: seq<V>, i: nat, cur: seq<V>,
                               dj: seq<V>, same: bool, revised: bool, whole: (seq<V>, bool),
                               live: seq<V>, cur': seq<V>, revised': bool)
    requires i < |copy| && ScanAt(sat, c, copy, i, cur, dj, same, revised, whole)
    requires live == if same then cur else dj
    requires cur' == if HasSupport(sat, c, copy[i], live) then cur else RemoveFirst(cur, copy[i])
    requires revised' == (revised || !HasSupport(sat, c, copy[i], live))
    ensures !HasSupport(sat, c, copy[i], live) ==> copy[i] in cur
    ensures ScanAt(sat, c, copy, i + 1, cur', dj, same, revised', whole)
  {
    var rest := copy[i..];
    assert rest[0] == copy[i] && rest[1..] == copy[i + 1..];
    if HasSupport(sat, c, rest[0], live) {
      ScanKeep(sat, c, rest, cur, dj, same);
    } else {
      ScanDrop(sat, c, rest, cur, dj, same);
    }
  }

  lemma ScanAtEnd<V(!new), C>(sat: (C, V, V) -> bool, c: C, copy: seq<V>, cur: seq<V>,
                              dj: seq<V>, same: bool, revised: bool, whole: (seq<V>, bool))
    requires ScanAt(sat, c, copy, |copy|, cur, dj, same, revised, whole)
    ensures cur == whole.0 && revised == whole.1
  {
    assert copy[|copy|..] == [];
  }

  /** `revise` only deletes from D(xi), keeping the order of what is left, and it reports True
      exactly when it deleted something. */
  lemma {:induction false} ScanShrinks<V(!new), C>(sat: (C, V, V) -> bool, c: C, copy: seq<V>,
                                                  cur: seq<V>, dj: seq<V>, same: bool)
    requires multiset(copy) <= multiset(cur)
    ensures Sub(Scan(sat, c, copy, cur, dj, same).0, cur)
    ensures Scan(sat, c, copy, cur, dj, same).1 <==> |Scan(sat, c, copy, cur, dj, same).0| < |cur|
    decreases |copy|
  {
    if copy == [] {
      SubRefl(cur);
    } else {
      var x := copy[0];
      assert copy == [x] + copy[1..];
      var live := if same then cur else dj;
      if HasSupport(sat, c, x, live) {
        ScanShrinks(sat, c, copy[1..], cur, dj, same);
      } else {
        assert x in multiset(cur);
        var next := RemoveFirst(cur, x);
        ScanShrinks(sat, c, copy[1..], next, dj, same);
        RemoveFirstSub(cur, x);
        SubTrans(Scan(sat, c, copy[1..], next, dj, same).0, next, cur);
        SubFacts(Scan(sat, c, copy[1..], next, dj, same).0, next);
      }
    }
  }

  lemma SupportGrows<V(!new), C>(sat: (C, V, V) -> bool, c: C, x: V, a: seq<V>, b: seq<V>)
    requires HasSupport(sat, c, x, a) && forall y :: y in a ==> y in b
    ensures HasSupport(sat, c, x, b)
  {
  }

  /** Every value `revise` deleted had no support in D(xj) as it stands when `revise` returns;
      for a self-arc (xi == xj) that is the pruned D(xi) itself. */
  lemma {:induction false} ScanDeletesUnsupported<V(!new), C>(sat: (C, V, V) -> bool, c: C,
      copy: seq<V>, cur: seq<V>, dj: seq<V>, same: bool, z: V)
    requires multiset(copy) <= multiset(cur)
    requires z in cur && z !in Scan(sat, c, copy, cur, dj, same).0
    ensures !HasSupport(sat, c, z, if same then Scan(sat, c, copy, cur, dj, same).0 else dj)
    decreases |copy|
  {
    var r := Scan(sat, c, copy, cur, dj, same).0;
    if copy == [] {
    } else {
      var x := copy[0];
      assert copy == [x] + copy[1..];
      var live := if same then cur else dj;
      if HasSupport(sat, c, x, live) {
        ScanDeletesUnsupported(sat, c, copy[1..], cur, dj, same, z);
      } else {
        assert x in multiset(cur);
        var next := RemoveFirst(cur, x);
        ScanShrinks(sat, c, copy[1..], next, dj, same);
        SubFacts(r, next);
        RemoveFirstSub(cur, x);
        SubFacts(next, cur);
        if z == x {
          if HasSupport(sat, c, z, if same then r else dj) {
            SupportGrows(sat, c, z, if same then r else dj, live);
          }
        } else {
          assert z in multiset(next);
          ScanDeletesUnsupported(sat, c, copy[1..], next, dj, same, z);
        }
      }
    }
  }

  /** The live D(xi) after `revise` has looked at the first `i` values of its copy `d`. */
  function Trace<V(==,!new), C>(sat: (C, V, V) -> bool, c: C, d: seq<V>, dj: seq<V>, same: bool,
                               i: nat): (t: seq<V>)
    requires i <= |d|
    ensures multiset(d[i..]) <= multiset(t)
    decreases i
  {
    if i == 0 then
      assert d[0..] == d;
      d
    else
      var prev := Trace(sat, c, d, dj, same, i - 1);
      var x := d[i - 1];
      assert d[i - 1..] == [x] + d[i..];
      if HasSupport(sat, c, x, if same then prev else dj) then prev
      else RemoveFirst(prev, x)
  }

  /** `d[i]` finds no support in D(xj) as it is when `revise` reaches it. */
  ghost predicate DroppedAt<V(!new), C>(sat: (C, V, V) -> bool, c: C, d: seq<V>, dj: seq<V>,
                                        same: bool, i: nat)
    requires i < |d|
  {
    !HasSupport(sat, c, d[i], if same then Trace(sat, c, d, dj, same, i) else dj)
  }

  /** Some of the first `k` steps of `revise` deleted its value. */
  ghost predicate DroppedBefore<V(!new), C>(sat: (C, V, V) -> bool, c: C, d: seq<V>, dj: seq<V>,
                                            same: bool, k: nat)
    requires k <= |d|
  {
    exists i :: 0 <= i < k && DroppedAt(sat, c, d, dj, same, i)
  }

  lemma DroppedBeforeNext<V(!new), C>(sat: (C, V, V) -> bool, c: C, d: seq<V>, dj: seq<V>,
                                      same: bool, k: nat)
    requires k < |d|
    ensures DroppedBefore(sat, c, d, dj, same, k + 1) ==
            (DroppedBefore(sat, c, d, dj, same, k) || DroppedAt(sat, c, d, dj, same, k))
  {
  }

  lemma {:induction false} TraceAt<V(!new), C>(sat: (C, V, V) -> bool, c: C, d: seq<V>,
                                              dj: seq<V>, same: bool, k: nat)
    requires k <= |d|
    ensures ScanAt(sat, c, d, k, Trace(sat, c, d, dj, same, k), dj, same,
                   DroppedBefore(sat, c, d, dj, same, k), Scan(sat, c, d, d, dj, same))
  {
    var whole := Scan(sat, c, d, d, dj, same);
    if k == 0 {
      ScanAtStart(sat, c, d, dj, same);
      assert Trace(sat, c, d, dj, same, 0) == d;
    } else {
      TraceAt(sat, c, d, dj, same, k - 1);
      var prev := Trace(sat, c, d, dj, same, k - 1);
      var live := if same then prev else dj;
      DroppedBeforeNext(sat, c, d, dj, same, k - 1);
      ScanAtNext(sat, c, d, k - 1, prev, dj, same, DroppedBefore(sat, c, d, dj, same, k - 1),
                 whole, live, Trace(sat, c, d, dj, same, k), DroppedBefore(sat, c, d, dj, same, k));
    }
  }

  /** `revise` step by step: the value at step `i` is deleted from D(xi) exactly when it has
      no support in D(xj) as it is at that step (the partly pruned D(xi) on a self-arc); the
      final D(xi) is the domain after the last step, and `revise` returns True exactly when
      some step deleted. */
  lemma ScanStepwise<V(!new), C>(sat: (C, V, V) -> bool, c: C, d: seq<V>, dj: seq<V>,
                                 same: bool)
    ensures forall i :: 0 <= i < |d| ==>
              (|Trace(sat, c, d, dj, same, i + 1)| < |Trace(sat, c, d, dj, same, i)| <==>
               DroppedAt(sat, c, d, dj, same, i))
    ensures Scan(sat, c, d, d, dj, same).0 == Trace(sat, c, d, dj, same, |d|)
    ensures Scan(sat, c, d, d, dj, same).1 <==> DroppedBefore(sat, c, d, dj, same, |d|)
  {
    forall i | 0 <= i < |d|
      ensures |Trace(sat, c, d, dj, same, i + 1)| < |Trace(sat, c, d, dj, same, i)| <==>
              DroppedAt(sat, c, d, dj, same, i)
    {
      var prev := Trace(sat, c, d, dj, same, i);
      assert d[i..] == [d[i]] + d[i + 1..];
      assert d[i] in multiset(prev);
    }
    TraceAt(sat, c, d, dj, same, |d|);
    ScanAtEnd(sat, c, d, Trace(sat, c, d, dj, same, |d|), dj, same,
              DroppedBefore(sat, c, d, dj, same, |d|), Scan(sat, c, d, d, dj, same));
  }

  /** The values of `s` that have a support in `dj`, in their original order. */
  function Supported<V(==,!new), C>(sat: (C, V, V) -> bool, c: C, s: seq<V>, dj: seq<V>): seq<V>
  {
    if s == [] then []
    else if HasSupport(sat, c, s[0], dj) then [s[0]] + Supported(sat, c, s[1..], dj)
    else Supported(sat, c, s[1..], dj)
  }

  lemma {:induction false} RemoveFirstAfter<T>(a: seq<T>, b: seq<T>, x: T)
    requires x !in a
    ensures RemoveFirst(a + b, x) == a + RemoveFirst(b, x)
  {
    if a != [] {
      var t := a + b;
      assert t[0] == a[0] && t[0] != x;
      assert t[1..] == a[1..] + b;
      RemoveFirstAfter(a[1..], b, x);
      assert RemoveFirst(t, x) == [a[0]] + RemoveFirst(t[1..], x);
      assert [a[0]] + (a[1..] + RemoveFirst(b, x)) == a + RemoveFirst(b, x);
    } else {
      assert a + b == b;
    }
  }

  lemma {:induction false} ScanAgainstOther<V(!new), C>(sat: (C, V, V) -> bool, c: C,
      done: seq<V>, copy: seq<V>, cur: seq<V>, dj: seq<V>)
    requires cur == done + copy
    requires forall y :: y in done ==> HasSupport(sat, c, y, dj)
    ensures multiset(copy) <= multiset(cur)
    ensures Scan(sat, c, copy, cur, dj, false).0 == done + Supported(sat, c, copy, dj)
    decreases |copy|
  {
    if copy == [] {
      assert cur == done;
    } else if HasSupport(sat, c, copy[0], dj) {
      var done' := done + [copy[0]];
      assert cur == done' + copy[1..] by {
        assert copy == [copy[0]] + copy[1..];
      }
      assert forall y :: y in done' ==> y in done || y == copy[0];
      ScanAgainstOther(sat, c, done', copy[1..], cur, dj);
      AgainstOtherKeep(sat, c, done, copy, cur, dj);
    } else {
      ScanAgainstOther(sat, c, done, copy[1..], done + copy[1..], dj);
      AgainstOtherDrop(sat, c, done, copy, cur, dj);
    }
  }

  lemma AgainstOtherKeep<V(!new), C>(sat: (C, V, V) -> bool, c: C, done: seq<V>, copy: seq<V>,
                                     cur: seq<V>, dj: seq<V>)
    requires copy != [] && HasSupport(sat, c, copy[0], dj) && multiset(copy) <= multiset(cur)
    requires multiset(copy[1..]) <= multiset(cur)
    requires Scan(sat, c, copy[1..], cur, dj, false).0 ==
             done + [copy[0]] + Supported(sat, c, copy[1..], dj)
    ensures Scan(sat, c, copy, cur, dj, false).0 == done + Supported(sat, c, copy, dj)
  {
    ScanKeep(sat, c, copy, cur, dj, false);
    SupportedKeep(sat, c, done, copy, dj);
  }

  lemma SupportedKeep<V(!new), C>(sat: (C, V, V) -> bool, c: C, done: seq<V>, copy: seq<V>,
                                  dj: seq<V>)
    requires copy != [] && HasSupport(sat, c, copy[0], dj)
    ensures done + [copy[0]] + Supported(sat, c, copy[1..], dj) == done + Supported(sat, c, copy, dj)
  {
    var t := Supported(sat, c, copy[1..], dj);
    assert Supported(sat, c, copy, dj) == [copy[0]] + t;
    assert done + [copy[0]] + t == done + ([copy[0]] + t);
  }

  lemma AgainstOtherDrop<V(!new), C>(sat: (C, V, V) -> bool, c: C, done: seq<V>, copy: seq<V>,
                                     cur: seq<V>, dj: seq<V>)
    requires copy != [] && !HasSupport(sat, c, copy[0], dj) && cur == done + copy
    requires forall y :: y in done ==> HasSupport(sat, c, y, dj)
    requires multiset(copy[1..]) <= multiset(done + copy[1..])
    requires Scan(sat, c, copy[1..], done + copy[1..], dj, false).0 ==
             done + Supported(sat, c, copy[1..], dj)
    ensures multiset(copy) <= multiset(cur)
    ensures Scan(sat, c, copy, cur, dj, false).0 == done + Supported(sat, c, copy, dj)
  {
    var x := copy[0];
    assert copy == [x] + copy[1..];
    assert multiset(cur) == multiset(done) + multiset(copy);
    ScanDrop(sat, c, copy, cur, dj, false);
    assert x !in done;
    RemoveFirstAfter(done, copy, x);
    assert RemoveFirst(cur, x) == done + copy[1..];
  }

  /** For an arc between two different variables, `revise` leaves in D(xi) exactly the values
      with a support in D(xj), in their original order. */
  lemma ReviseOtherIsFilter<V(!new), C>(sat: (C, V, V) -> bool, c: C, di: seq<V>, dj: seq<V>)
    ensures Scan(sat, c, di, di, dj, false).0 == Supported(sat, c, di, dj)
  {
    ScanAgainstOther(sat, c, [], di, di, dj);
    assert [] + di == di;
  }

  /** The arcs the inner `for xk, xl, c in self.constraints` loop of `ac3` appends after D(xi)
      shrank while revising against xj. */
  function Requeue<K(==), C>(cs: seq<Arc<K, C>>, xi: K, xj: K): seq<Arc<K, C>>
  {
    if cs == [] then []
    else
      var a := cs[|cs| - 1];
      Requeue(cs[..|cs| - 1], xi, xj) +
        (if a.xi == xi && a.xj != xj then [Arc(a.xj, xi, a.c)]
         else if a.xj == xi && a.xi != xj then [Arc(a.xi, xi, a.c)]
         else [])
  }

  /** Sum of the domain sizes of the listed variables: the measure that makes AC-3 stop. */
  function TotalSize<K, V>(d: map<K, seq<V>>, keys: seq<K>): nat
    requires forall k :: k in keys ==> k in d
  {
    if keys == [] then 0 else |d[keys[0]]| + TotalSize(d, keys[1..])
  }

  lemma {:induction false} TotalSizeShrinks<K, V>(d: map<K, seq<V>>, keys: seq<K>, x: K, s: seq<V>)
    requires forall k :: k in keys ==> k in d
    requires x in d && |s| <= |d[x]|
    ensures TotalSize(d[x := s], keys) <= TotalSize(d, keys)
    ensures x in keys && |s| < |d[x]| ==> TotalSize(d[x := s], keys) < TotalSize(d, keys)
  {
    if keys != [] {
      TotalSizeShrinks(d, keys[1..], x, s);
    }
  }

  /** Every domain of `d1` is one of `d0` with values deleted; no variable added or lost. */
  ghost predicate Shrunk<K, V>(d0: map<K, seq<V>>, d1: map<K, seq<V>>)
  {
    d1.Keys == d0.Keys && forall k :: k in d1 ==> Sub(d1[k], d0[k])
  }

  lemma ShrunkRefl<K, V>(d: map<K, seq<V>>)
    ensures Shrunk(d, d)
  {
    forall k | k in d ensures Sub(d[k], d[k]) {
      SubRefl(d[k]);
    }
  }

  lemma ShrunkUpdate<K, V>(d0: map<K, seq<V>>, d1: map<K, seq<V>>, x: K, s: seq<V>)
    requires Shrunk(d0, d1) && x in d1 && Sub(s, d1[x])
    ensures Shrunk(d0, d1[x := s])
  {
    SubTrans(s, d1[x], d0[x]);
  }

  /** The constraint network of one solver: its domains, updated in place. */
  class Network<K(==,!new), V(==,!new), C(==)> {
    const sat: (C, V, V) -> bool
    /** The variables, in creation order; they are exactly the keys of `domains`. */
    const keys: seq<K>
    const constraints: seq<Arc<K, C>>
    var domains: map<K, seq<V>>

    ghost predicate ArcsIn(q: seq<Arc<K, C>>)
      reads this
    {
      forall a :: a in q ==> a.xi in domains && a.xj in domains
    }

    ghost predicate Valid()
      reads this
    {
      (forall k :: k in keys <==> k in domains) && ArcsIn(constraints)
    }

    constructor (sat: (C, V, V) -> bool, keys: seq<K>, constraints: seq<Arc<K, C>>,
                 domains: map<K, seq<V>>)
      requires forall k :: k in keys <==> k in domains
      requires forall a :: a in constraints ==> a.xi in domains && a.xj in domains
      ensures Valid()
      ensures this.sat == sat && this.keys == keys && this.constraints == constraints
      ensures this.domains == domains
    {
      this.sat := sat;
      this.keys := keys;
      this.constraints := constraints;
      this.domains := domains;
    }

    /** `revise(xi, xj, constraint)`. */
    method Revise(xi: K, xj: K, c: C) returns (revised: bool)
      requires xi in domains && xj in domains
      modifies this
      ensures domains == old(domains)[xi := Scan(sat, c, old(domains[xi]), old(domains[xi]),
                                                 old(domains[xj]), xi == xj).0]
      ensures revised == Scan(sat, c, old(domains[xi]), old(domains[xi]), old(domains[xj]), xi == xj).1
    {
      var copy := domains[xi];
      ghost var dj := domains[xj];
      ghost var same := xi == xj;
      ghost var whole := Scan(sat, c, copy, copy, dj, same);
      var cur := copy;
      revised := false;
      var i := 0;
      ScanAtStart(sat, c, copy, dj, same);
      while i < |copy|
        invariant 0 <= i <= |copy|
        invariant domains == old(domains)[xi := cur]
        invariant ScanAt(sat, c, copy, i, cur, dj, same, revised, whole)
      {
        var x := copy[i];
        var live := domains[xj];
        ghost var cur0, revised0 := cur, revised;
        if !HasSupport(sat, c, x, live) {
          cur := RemoveFirst(cur, x);
          domains := domains[xi := cur];
          revised := true;
        }
        ScanAtNext(sat, c, copy, i, cur0, dj, same, revised0, whole, live, cur, revised);
        i := i + 1;
      }
      ScanAtEnd(sat, c, copy, cur, dj, same, revised, whole);
    }

    /** The inner loop of `ac3` that re-enqueues the arcs into xi. */
    method RequeueInto(queue: seq<Arc<K, C>>, xi: K, xj: K) returns (q: seq<Arc<K, C>>)
      requires ArcsIn(constraints) && ArcsIn(queue) && xi in domains
      ensures q == queue + Requeue(constraints, xi, xj)
      ensures ArcsIn(q)
    {
      q := queue;
      var m := 0;
      while m < |constraints|
        invariant 0 <= m <= |constraints|
        invariant q == queue + Requeue(constraints[..m], xi, xj)
        invariant ArcsIn(q)
      {
        var a := constraints[m];
        assert constraints[..m + 1][..m] == constraints[..m];
        assert a in constraints;
        if a.xi == xi && a.xj != xj {
          q := q + [Arc(a.xj, xi, a.c)];
        } else if a.xj == xi && a.xi != xj {
          q := q + [Arc(a.xi, xi, a.c)];
        }
        m := m + 1;
      }
      assert constraints[..m] == constraints;
    }

    /** `ac3()`: True after the queue drains, False as soon as a revision empties a domain. */
    method Ac3() returns (ok: bool)
      requires Valid()
      modifies this
      ensures Valid()
      ensures domains.Keys == old(domains).Keys
      ensures forall k :: k in domains ==> Sub(domains[k], old(domains)[k])
      ensures !ok ==> exists k :: k in domains && domains[k] == []
    {
      var queue := constraints;
      ShrunkRefl(domains);
      while queue != []
        invariant Valid() && ArcsIn(queue)
        invariant Shrunk(old(domains), domains)
        decreases TotalSize(domains, keys), |queue|
      {
        var arc := queue[0];
        queue := queue[1..];
        var xi, xj := arc.xi, arc.xj;
        ghost var before := domains;
        ScanShrinks(sat, arc.c, domains[xi], domains[xi], domains[xj], xi == xj);
        var revised := Revise(xi, xj, arc.c);
        ShrunkUpdate(old(domains), before, xi, domains[xi]);
        SubFacts(domains[xi], before[xi]);
        TotalSizeShrinks(before, keys, xi, domains[xi]);
        if revised {
          if |domains[xi]| == 0 {
            return false;
          }
          queue := RequeueInto(queue, xi, xj);
        } else {
          assert domains == before;
        }
      }
      return true;
    }
  }

  /** `min(candidates, key=lambda var: len(domains[var]))`: the index of the first variable of
      smallest domain. */
  function FirstMinIndex<K, V>(s: seq<K>, d: map<K, seq<V>>): (i: nat)
    requires s != [] && forall k :: k in s ==> k in d
    ensures i < |s|
    ensures forall j :: 0 <= j < |s| ==> |d[s[i]]| <= |d[s[j]]|
    ensures forall j :: 0 <= j < i ==> |d[s[i]]| < |d[s[j]]|
  {
    if |s| == 1 then 0
    else
      var p := s[..|s| - 1];
      assert forall k :: k in p ==> k in s;
      var j := FirstMinIndex(p, d);
      assert forall t :: 0 <= t < |p| ==> p[t] == s[t];
      if |d[s[|s| - 1]]| < |d[s[j]]| then |s| - 1 else j
  }

  /** Python's `min` with the domain-size key; an empty candidate list raises ValueError. */
  function Mrv<K, V>(s: seq<K>, d: map<K, seq<V>>): (r: Result<K>)
    requires forall k :: k in s ==> k in d
    ensures r.Err? <==> s == []
    ensures r.Ok? ==> r.value in s && forall k :: k in s ==> |d[r.value]| <= |d[k]|
    ensures r.Ok? ==> exists i :: 0 <= i < |s| && s[i] == r.value &&
                                  forall j :: 0 <= j < i ==> |d[s[i]]| < |d[s[j]]|
  {
    if s == [] then Err(ValueError) else Ok(s[FirstMinIndex(s, d)])
  }
}
