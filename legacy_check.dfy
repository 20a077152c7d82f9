/** main.py: the checks `_backtrack` makes before it places a value (`check_successive_slots`,
    `check_teacher_workdays`, `is_consistent`) and the value order it tries (`lcv_heuristic`). */
module LegacyCheck {
  import opened Wrappers
  import opened Runs
  import opened ArcConsistency
  import opened Legacy

  /** One `var: (day, slot)` item of the assignment dictionary. */
  datatype Placement = Placement(name: string, time: Time)

  /** The assignment dictionary, in insertion order. */
  type Placements = seq<Placement>

  function Names(a: Placements): set<string>
  {
    set e | e in a :: e.name
  }

  // ---------------------------------------------------------------------------------------
  // Sorting a list of periods (`list.sort()`)

  predicate Sorted(s: seq<int>)
  {
    forall i, j :: 0 <= i < j < |s| ==> s[i] <= s[j]
  }

  function InsertSorted(x: int, s: seq<int>): (r: seq<int>)
    requires Sorted(s)
    ensures Sorted(r) && multiset(r) == multiset(s) + multiset{x}
  {
    if s == [] || x <= s[0] then
      SortedCons(x, s);
      [x] + s
    else
      var t := InsertSorted(x, s[1..]);
      assert s == [s[0]] + s[1..];
      HeadBelow(s);
      forall y | y in t ensures s[0] <= y {
        assert y in multiset(t);
        assert y == x || y in multiset(s[1..]);
      }
      SortedCons(s[0], t);
      [s[0]] + t
  }

  lemma HeadBelow(s: seq<int>)
    requires Sorted(s) && s != []
    ensures forall y :: y in s[1..] ==> s[0] <= y
  {
    forall y | y in s[1..] ensures s[0] <= y {
      var k :| 0 <= k < |s[1..]| && s[1..][k] == y;
      assert s[k + 1] == y;
    }
  }

  lemma SortedCons(x: int, s: seq<int>)
    requires Sorted(s) && forall y :: y in s ==> x <= y
    ensures Sorted([x] + s)
  {
    var r := [x] + s;
    forall i, j | 0 <= i < j < |r| ensures r[i] <= r[j] {
      if i == 0 {
        assert r[j] == s[j - 1] && r[j] in s;
      } else {
        assert r[i] == s[i - 1] && r[j] == s[j - 1];
      }
    }
  }

  /** `list.sort()` on integers. */
  function SortInts(s: seq<int>): (r: seq<int>)
    ensures Sorted(r) && multiset(r) == multiset(s)
  {
    if s == [] then []
    else
      assert s == [s[0]] + s[1..];
      InsertSorted(s[0], SortInts(s[1..]))
  }

  // ---------------------------------------------------------------------------------------
  // check_successive_slots

  /** `[s[1] for v, s in assignment.items() if get_teacher_for_session(v) == teacher and
      s[0] == day]`: the teacher is looked up for every item, so any lookup error escapes. */
  function TeacherDaySlots(cs: seq<Course>, a: Placements, t: Option<string>, day: string)
    : Result<seq<int>>
  {
    if a == [] then Ok([])
    else
      var init :- TeacherDaySlots(cs, a[..|a| - 1], t, day);
      var e := a[|a| - 1];
      var u :- TeacherFor(cs, e.name);
      Ok(init + if u == t && e.time.day == day then [e.time.slot] else [])
  }

  /** main.py: `check_successive_slots`: the longest +1 run over the sorted periods the
      teacher of `v` already has that day, plus the new period, is at most 3. */
  function CheckSuccessive(cs: seq<Course>, a: Placements, v: string, value: Time): Result<bool>
  {
    var slots :- DaySlotsWith(cs, a, v, value);
    Ok(MaxRun(SortInts(slots)) <= 3)
  }

  /** The periods the teacher of `v` already has on the day of `value`, plus its period. */
  function DaySlotsWith(cs: seq<Course>, a: Placements, v: string, value: Time): Result<seq<int>>
  {
    var t :- TeacherFor(cs, v);
    var slots :- TeacherDaySlots(cs, a, t, value.day);
    Ok(slots + [value.slot])
  }

  ghost predicate NoRepeats(s: seq<int>)
  {
    forall i, j :: 0 <= i < j < |s| ==> s[i] != s[j]
  }

  /** main.py: `check_successive_slots`, the comprehension and the counting loop as written
      (the loop is `count_max_consecutive_slots` again, on a non-empty list). */
  method CheckSuccessiveSlots(cs: seq<Course>, a: Placements, v: string, value: Time)
    returns (r: Result<bool>)
    ensures r == CheckSuccessive(cs, a, v, value)
  {
    var t := TeacherFor(cs, v);
    if t.Err? {
      return Err(t.error);
    }
    var slots: seq<int> := [];
    var i := 0;
    while i < |a|
      invariant 0 <= i <= |a|
      invariant TeacherDaySlots(cs, a[..i], t.value, value.day) == Ok(slots)
    {
      assert a[..i + 1][..i] == a[..i];
      var u := TeacherFor(cs, a[i].name);
      if u.Err? {
        SlotsErrExtends(cs, a, t.value, value.day, i + 1);
        return Err(u.error);
      }
      ghost var add := if u.value == t.value && a[i].time.day == value.day
                       then [a[i].time.slot] else [];
      assert TeacherDaySlots(cs, a[..i + 1], t.value, value.day) == Ok(slots + add);
      if u.value == t.value && a[i].time.day == value.day {
        slots := slots + [a[i].time.slot];
      } else {
        assert slots + add == slots;
      }
      i := i + 1;
    }
    assert a[..i] == a;
    slots := slots + [value.slot];
    var sorted := SortInts(slots);
    var longest := CountMaxConsecutive(sorted);
    r := Ok(longest <= 3);
  }

  lemma {:induction false} SlotsErrExtends(cs: seq<Course>, a: Placements, t: Option<string>,
                                           day: string, i: nat)
    requires 1 <= i <= |a| && TeacherDaySlots(cs, a[..i - 1], t, day).Ok?
    requires TeacherFor(cs, a[i - 1].name).Err?
    ensures TeacherDaySlots(cs, a, t, day) == Err(TeacherFor(cs, a[i - 1].name).error)
    decreases |a|
  {
    if i < |a| {
      var init := a[..|a| - 1];
      assert init[..i - 1] == a[..i - 1] && init[i - 1] == a[i - 1];
      SlotsErrExtends(cs, init, t, day, i);
    } else {
      assert a[..i - 1] == a[..|a| - 1];
    }
  }

  /** The periods the comprehension collects are exactly those of the items taught by `t`
      on `day`, in assignment order. */
  lemma {:induction false} TeacherDaySlotsMembers(cs: seq<Course>, a: Placements,
                                                  t: Option<string>, day: string)
    requires TeacherDaySlots(cs, a, t, day).Ok?
    ensures forall e :: e in a ==> TeacherFor(cs, e.name).Ok?
    ensures forall p :: p in TeacherDaySlots(cs, a, t, day).value <==>
              exists e :: e in a && TeacherFor(cs, e.name) == Ok(t) && e.time == Time(day, p)
  {
    if a != [] {
      var init := a[..|a| - 1];
      TeacherDaySlotsMembers(cs, init, t, day);
      assert forall e :: e in a <==> e in init || e == a[|a| - 1];
    }
  }

  /** On a list without repeats, the sorted run is at least 4 exactly when four consecutive
      periods are all in the list. */
  lemma FourInSorted(s: seq<int>)
    requires NoRepeats(s)
    ensures MaxRun(SortInts(s)) >= 4 <==> exists p :: Consecutive(s, p, 4)
  {
    var sorted := SortInts(s);
    DistinctSortedIncreasing(s, sorted);
    RunMeansConsecutive(sorted, 4);
    forall q ensures q in sorted <==> q in s {
      assert q in sorted <==> q in multiset(sorted);
      assert q in s <==> q in multiset(s);
    }
    forall p ensures Consecutive(s, p, 4) <==> Consecutive(sorted, p, 4) {
    }
  }

  /** With no period twice in the list, `check_successive_slots` rejects exactly when the
      teacher would teach four consecutive periods that day. */
  lemma SuccessiveMeans(cs: seq<Course>, a: Placements, v: string, value: Time)
    requires DaySlotsWith(cs, a, v, value).Ok? && NoRepeats(DaySlotsWith(cs, a, v, value).value)
    ensures CheckSuccessive(cs, a, v, value) == Ok(false) <==>
              exists p :: Consecutive(DaySlotsWith(cs, a, v, value).value, p, 4)
  {
    FourInSorted(DaySlotsWith(cs, a, v, value).value);
  }

  lemma DistinctSortedIncreasing(s: seq<int>, sorted: seq<int>)
    requires NoRepeats(s)
    requires Sorted(sorted) && multiset(sorted) == multiset(s)
    ensures StrictlyIncreasing(sorted)
  {
    forall i, j | 0 <= i < j < |sorted| ensures sorted[i] < sorted[j] {
      if sorted[i] == sorted[j] {
        TwoOccurrences(sorted, i, j);
        Once(s, sorted[i]);
        assert false;
      }
    }
  }

  lemma TwoOccurrences(s: seq<int>, i: nat, j: nat)
    requires i < j < |s| && s[i] == s[j]
    ensures multiset(s)[s[i]] >= 2
  {
    assert s == s[..j] + s[j..];
    assert s[i] in s[..j] && s[j] in s[j..];
    assert multiset(s) == multiset(s[..j]) + multiset(s[j..]);
  }

  lemma {:induction false} Once(s: seq<int>, x: int)
    requires NoRepeats(s)
    ensures multiset(s)[x] <= 1
  {
    if s != [] {
      var t := s[1..];
      Once(t, x);
      assert s == [s[0]] + t;
      if s[0] == x {
        assert x !in t;
      }
    }
  }

  /** A repeated period breaks a run: four consecutive periods taught with one of them twice
      pass the check. */
  lemma RepeatedPeriodHidesRun()
    ensures MaxRun(SortInts([1, 2, 2, 3, 4])) == 3
  {
    var s := [1, 2, 2, 3, 4];
    assert Sorted(s);
    SortedFixed(s);
    RunOfExample();
  }

  lemma RunOfExample()
    ensures MaxRun([1, 2, 2, 3, 4]) == 3
  {
    var s := [1, 2, 2, 3, 4];
    assert s[..4] == [1, 2, 2, 3];
    assert [1, 2, 2, 3][..3] == [1, 2, 2];
    assert [1, 2, 2][..2] == [1, 2];
    assert [1, 2][..1] == [1];
    assert [1][..0] == [];
    assert MaxRun([1]) == 1;
    assert Tail([1, 2]) == 2;
    assert MaxRun([1, 2]) == 2;
    assert Tail([1, 2, 2]) == 1;
    assert MaxRun([1, 2, 2]) == 2;
    assert Tail([1, 2, 2, 3]) == 2;
    assert MaxRun([1, 2, 2, 3]) == 2;
    assert Tail([1, 2, 2, 3, 4]) == 3;
  }

  lemma SortedFixed(s: seq<int>)
    requires Sorted(s)
    ensures SortInts(s) == s
  {
    SortedUnique(SortInts(s), s);
  }

  lemma {:induction false} SortedUnique(a: seq<int>, b: seq<int>)
    requires Sorted(a) && Sorted(b) && multiset(a) == multiset(b)
    ensures a == b
    decreases |a|
  {
    if a != [] {
      SameHead(a, b);
      DropHead(a);
      DropHead(b);
      assert Sorted(a[1..]) && Sorted(b[1..]);
      SortedUnique(a[1..], b[1..]);
      assert a == [a[0]] + a[1..] && b == [b[0]] + b[1..];
    } else {
      assert |b| == |multiset(b)| == 0;
    }
  }

  /** Two sorted lists with the same elements start with the same, least, element. */
  lemma SameHead(a: seq<int>, b: seq<int>)
    requires Sorted(a) && Sorted(b) && multiset(a) == multiset(b) && a != []
    ensures b != [] && a[0] == b[0]
  {
    assert |b| == |multiset(b)| == |multiset(a)| == |a|;
    assert a[0] in multiset(b) && b[0] in multiset(a);
    var i :| 0 <= i < |b| && b[i] == a[0];
    var j :| 0 <= j < |a| && a[j] == b[0];
    assert b[0] <= b[i] && a[0] <= a[j];
  }

  lemma DropHead(a: seq<int>)
    requires a != []
    ensures multiset(a[1..]) == multiset(a) - multiset{a[0]}
  {
    assert a == [a[0]] + a[1..];
  }

  // ---------------------------------------------------------------------------------------
  // check_teacher_workdays

  /** `{s[0] for v, s in assignment.items() if get_teacher_for_session(v) == teacher}`. */
  function TeacherDays(cs: seq<Course>, a: Placements, t: Option<string>): (r: Result<set<string>>)
    ensures r.Ok? <==> LookupsOk(cs, a)
    ensures r.Ok? ==> r.value == DaysWorked(cs, a, t)
  {
    if a == [] then Ok({})
    else
      var init := TeacherDays(cs, a[..|a| - 1], t);
      var e := a[|a| - 1];
      var u := TeacherFor(cs, e.name);
      LookupsOkLast(cs, a);
      DaysWhereLast(a, TaughtBy(cs, t));
      if init.Err? then Err(init.error)
      else if u.Err? then Err(u.error)
      else Ok(init.value + if u.value == t then {e.time.day} else {})
  }

  /** Every placed variable has a teacher lookup that does not raise. */
  ghost predicate LookupsOk(cs: seq<Course>, a: Placements)
  {
    forall e :: e in a ==> TeacherFor(cs, e.name).Ok?
  }

  lemma LookupsOkLast(cs: seq<Course>, a: Placements)
    requires a != []
    ensures LookupsOk(cs, a) <==> LookupsOk(cs, a[..|a| - 1]) && TeacherFor(cs, a[|a| - 1].name).Ok?
  {
    assert a == a[..|a| - 1] + [a[|a| - 1]];
  }

  /** The days of the placements that `keep` selects, read off the whole list. */
  ghost function DaysWhere(a: Placements, keep: Placement -> bool): set<string>
  {
    set i | 0 <= i < |a| && keep(a[i]) :: a[i].time.day
  }

  /** Whether `t` is the teacher `get_teacher_for_session` gives a placed variable. */
  ghost function TaughtBy(cs: seq<Course>, t: Option<string>): Placement -> bool
  {
    (e: Placement) => TeacherFor(cs, e.name) == Ok(t)
  }

  /** The days on which `t` teaches some placed variable. */
  ghost function DaysWorked(cs: seq<Course>, a: Placements, t: Option<string>): set<string>
  {
    DaysWhere(a, TaughtBy(cs, t))
  }

  lemma DaysWhereLast(a: Placements, keep: Placement -> bool)
    requires a != []
    ensures DaysWhere(a, keep) ==
            DaysWhere(a[..|a| - 1], keep) + (if keep(a[|a| - 1]) then {a[|a| - 1].time.day} else {})
  {
    var n := |a| - 1;
    var init := a[..n];
    forall d | d in DaysWhere(a, keep) ensures d in DaysWhere(init, keep) || d == a[n].time.day {
      var i :| 0 <= i < |a| && keep(a[i]) && a[i].time.day == d;
      if i < n {
        assert init[i] == a[i];
      }
    }
    forall d | d in DaysWhere(init, keep) ensures d in DaysWhere(a, keep) {
      var i :| 0 <= i < n && keep(init[i]) && init[i].time.day == d;
      assert a[i] == init[i];
    }
  }

  /** main.py: `check_teacher_workdays`: the teacher of `v` works on at most two days. */
  function CheckWorkdays(cs: seq<Course>, a: Placements, v: string, value: Time): (r: Result<bool>)
    ensures r.Ok? <==> TeacherFor(cs, v).Ok? && LookupsOk(cs, a)
    ensures r.Ok? ==> (r.value <==> |DaysWorked(cs, a, TeacherFor(cs, v).value) + {value.day}| <= 2)
  {
    var t :- TeacherFor(cs, v);
    var days :- TeacherDays(cs, a, t);
    Ok(|days + {value.day}| <= 2)
  }

  lemma {:induction false} DaysWhenSlots(cs: seq<Course>, a: Placements, t: Option<string>,
                                         day: string)
    requires TeacherDaySlots(cs, a, t, day).Ok?
    ensures TeacherDays(cs, a, t).Ok?
  {
    if a != [] {
      DaysWhenSlots(cs, a[..|a| - 1], t, day);
    }
  }

  /** `check_teacher_workdays` makes the same lookups `check_successive_slots` made, so
      once the latter returned it cannot raise. */
  lemma WorkdaysNoNewError(cs: seq<Course>, a: Placements, v: string, value: Time)
    requires CheckSuccessive(cs, a, v, value).Ok?
    ensures CheckWorkdays(cs, a, v, value).Ok?
  {
    DaysWhenSlots(cs, a, TeacherFor(cs, v).value, value.day);
  }

  // ---------------------------------------------------------------------------------------
  // is_consistent

  /** Some constraint joins `x` and `y`, in either direction. */
  predicate Linked(arcs: seq<Arc<string, Relation>>, x: string, y: string)
  {
    exists c :: c in arcs && ((c.xi == x && c.xj == y) || (c.xi == y && c.xj == x))
  }

  /** Placing `value` on `v` breaks `a != b` with an assigned item. */
  predicate Clashes(arcs: seq<Arc<string, Relation>>, v: string, value: Time, a: Placements)
  {
    exists e :: e in a && e.time == value && Linked(arcs, v, e.name)
  }

  /** main.py: `is_consistent`: the binary constraints first, then the successive-slot rule;
      the workday rule is evaluated (and may raise) but its answer is ignored. */
  function Consistent(cs: seq<Course>, arcs: seq<Arc<string, Relation>>, v: string,
                      value: Time, a: Placements): Result<bool>
  {
    if Clashes(arcs, v, value, a) then Ok(false)
    else
      var ok :- CheckSuccessive(cs, a, v, value);
      if !ok then Ok(false)
      else
        var _ :- CheckWorkdays(cs, a, v, value);
        Ok(true)
  }

  /** main.py: `is_consistent`, the loops as written. */
  method IsConsistent(cs: seq<Course>, arcs: seq<Arc<string, Relation>>, v: string,
                      value: Time, a: Placements) returns (r: Result<bool>)
    ensures r == Consistent(cs, arcs, v, value, a)
  {
    var i := 0;
    while i < |a|
      invariant 0 <= i <= |a|
      invariant forall k :: 0 <= k < i ==> !(a[k].time == value && Linked(arcs, v, a[k].name))
    {
      var e := a[i];
      var j := 0;
      while j < |arcs|
        invariant 0 <= j <= |arcs|
        invariant e.time == value ==>
                    forall m :: 0 <= m < j ==>
                      !((arcs[m].xi == v && arcs[m].xj == e.name) ||
                        (arcs[m].xi == e.name && arcs[m].xj == v))
      {
        var c := arcs[j];
        if (c.xi == v && c.xj == e.name) || (c.xi == e.name && c.xj == v) {
          if c.xi == v {
            if !Holds(c.c, value, e.time) {
              assert Clashes(arcs, v, value, a);
              return Ok(false);
            }
          } else {
            if !Holds(c.c, e.time, value) {
              assert Clashes(arcs, v, value, a);
              return Ok(false);
            }
          }
        }
        j := j + 1;
      }
      i := i + 1;
    }
    assert !Clashes(arcs, v, value, a);
    var ok := CheckSuccessiveSlots(cs, a, v, value);
    if ok.Err? {
      return Err(ok.error);
    }
    if !ok.value {
      return Ok(false);
    }
    var days := CheckWorkdays(cs, a, v, value);
    if days.Err? {
      return Err(days.error);
    }
    if !days.value {
      // the workday rule is soft: a violation is noted and ignored
    }
    return Ok(true);
  }

  /** `is_consistent` accepts exactly the values that clash with no constrained assigned
      item and pass the successive-slot rule: a violated workday rule never rejects. */
  lemma AcceptsExactly(cs: seq<Course>, arcs: seq<Arc<string, Relation>>, v: string,
                       value: Time, a: Placements)
    ensures Consistent(cs, arcs, v, value, a) == Ok(true) <==>
              !Clashes(arcs, v, value, a) && CheckSuccessive(cs, a, v, value) == Ok(true)
    ensures Consistent(cs, arcs, v, value, a).Err? <==>
              !Clashes(arcs, v, value, a) && CheckSuccessive(cs, a, v, value).Err?
  {
    if !Clashes(arcs, v, value, a) && CheckSuccessive(cs, a, v, value).Ok? {
      WorkdaysNoNewError(cs, a, v, value);
    }
  }

  /** The workday rule is really ignored: a value the teacher could only take on a third
      day is still accepted when nothing else objects. */
  lemma WorkdaysIgnored(cs: seq<Course>, arcs: seq<Arc<string, Relation>>, v: string,
                        value: Time, a: Placements)
    requires !Clashes(arcs, v, value, a) && CheckSuccessive(cs, a, v, value) == Ok(true)
    requires CheckWorkdays(cs, a, v, value) == Ok(false)
    ensures Consistent(cs, arcs, v, value, a) == Ok(true)
  {
  }

  // ---------------------------------------------------------------------------------------
  // lcv_heuristic

  /** How many entries of `s` equal `value` (`not (value != other_value)`). */
  function Equal(value: Time, s: seq<Time>): nat
  {
    if s == [] then 0 else Equal(value, s[..|s| - 1]) + if s[|s| - 1] == value then 1 else 0
  }

  /** `count_conflicts(value)`: over the constraints touching `v`, the values of the other
      end's domain (when it has one) that equal `value`. */
  function ConflictCount(arcs: seq<Arc<string, Relation>>, domains: map<string, seq<Time>>,
                         v: string, value: Time): nat
  {
    if arcs == [] then 0
    else
      var c := arcs[|arcs| - 1];
      var other := if c.xi != v then c.xi else c.xj;
      ConflictCount(arcs[..|arcs| - 1], domains, v, value) +
        if (c.xi == v || c.xj == v) && other in domains then Equal(value, domains[other]) else 0
  }

  /** `Equal` counts occurrences. */
  lemma {:induction false} EqualIsCount(value: Time, s: seq<Time>)
    ensures Equal(value, s) == multiset(s)[value]
  {
    if s != [] {
      EqualIsCount(value, s[..|s| - 1]);
      assert s == s[..|s| - 1] + [s[|s| - 1]];
    }
  }

  /** main.py: `count_conflicts`, the nested loops as written. */
  method CountConflicts(arcs: seq<Arc<string, Relation>>, domains: map<string, seq<Time>>,
                        v: string, value: Time) returns (conflicts: nat)
    ensures conflicts == ConflictCount(arcs, domains, v, value)
  {
    conflicts := 0;
    var i := 0;
    while i < |arcs|
      invariant 0 <= i <= |arcs|
      invariant conflicts == ConflictCount(arcs[..i], domains, v, value)
    {
      assert arcs[..i + 1][..i] == arcs[..i];
      var c := arcs[i];
      if c.xi == v || c.xj == v {
        var other := if c.xi != v then c.xi else c.xj;
        if other in domains {
          var dom := domains[other];
          var j := 0;
          ghost var before := conflicts;
          while j < |dom|
            invariant 0 <= j <= |dom|
            invariant conflicts == before + Equal(value, dom[..j])
          {
            assert dom[..j + 1][..j] == dom[..j];
            if !Holds(c.c, value, dom[j]) {
              conflicts := conflicts + 1;
            }
            j := j + 1;
          }
          assert dom[..j] == dom;
        }
      }
      i := i + 1;
    }
    assert arcs[..i] == arcs;
  }

  /** Stable insertion by key: `x` goes before the first element whose key is not smaller. */
  function InsertByKey(x: (Time, nat), s: seq<(Time, nat)>): seq<(Time, nat)>
  {
    if s == [] || x.1 <= s[0].1 then [x] + s else [s[0]] + InsertByKey(x, s[1..])
  }

  /** Python's `sorted` on (value, key) pairs by key: stable. */
  function SortByKey(s: seq<(Time, nat)>): seq<(Time, nat)>
  {
    if s == [] then [] else InsertByKey(s[0], SortByKey(s[1..]))
  }

  /** Each domain value with its `count_conflicts` key. */
  function Keyed(arcs: seq<Arc<string, Relation>>, domains: map<string, seq<Time>>, v: string,
                 dom: seq<Time>): (r: seq<(Time, nat)>)
    ensures |r| == |dom|
    ensures forall i :: 0 <= i < |dom| ==> r[i] == (dom[i], ConflictCount(arcs, domains, v, dom[i]))
  {
    seq(|dom|, i requires 0 <= i < |dom| => (dom[i], ConflictCount(arcs, domains, v, dom[i])))
  }

  function Values(s: seq<(Time, nat)>): (r: seq<Time>)
    ensures |r| == |s| && forall i :: 0 <= i < |s| ==> r[i] == s[i].0
  {
    seq(|s|, i requires 0 <= i < |s| => s[i].0)
  }

  /** `sorted(self.domains[var], key=count_conflicts)`. */
  function LcvOrder(arcs: seq<Arc<string, Relation>>, domains: map<string, seq<Time>>,
                    v: string, dom: seq<Time>): seq<Time>
  {
    Values(SortByKey(Keyed(arcs, domains, v, dom)))
  }

  /** main.py: `lcv_heuristic`: the key of every value, then the stable sort. */
  method Lcv(arcs: seq<Arc<string, Relation>>, domains: map<string, seq<Time>>, v: string,
             dom: seq<Time>) returns (order: seq<Time>)
    ensures order == LcvOrder(arcs, domains, v, dom)
  {
    var keyed: seq<(Time, nat)> := [];
    var i := 0;
    while i < |dom|
      invariant 0 <= i <= |dom|
      invariant keyed == Keyed(arcs, domains, v, dom)[..i]
    {
      var k := CountConflicts(arcs, domains, v, dom[i]);
      keyed := keyed + [(dom[i], k)];
      i := i + 1;
    }
    assert keyed == Keyed(arcs, domains, v, dom);
    order := Values(SortByKey(keyed));
  }

  /** Entries are in non-decreasing key order. */
  ghost predicate KeySorted(s: seq<(Time, nat)>)
  {
    forall i, j :: 0 <= i < j < |s| ==> s[i].1 <= s[j].1
  }

  lemma {:induction false} InsertByKeyMultiset(x: (Time, nat), s: seq<(Time, nat)>)
    ensures multiset(InsertByKey(x, s)) == multiset(s) + multiset{x}
  {
    if s != [] && x.1 > s[0].1 {
      InsertByKeyMultiset(x, s[1..]);
      assert s == [s[0]] + s[1..];
    }
  }

  lemma KeyHeadBelow(s: seq<(Time, nat)>)
    requires KeySorted(s) && s != []
    ensures KeySorted(s[1..])
    ensures forall y :: y in s ==> s[0].1 <= y.1
  {
    forall y | y in s ensures s[0].1 <= y.1 {
      var k :| 0 <= k < |s| && s[k] == y;
      if k > 0 {
        assert s[0].1 <= s[k].1;
      }
    }
    var tail := s[1..];
    forall i, j | 0 <= i < j < |tail| ensures tail[i].1 <= tail[j].1 {
      assert tail[i] == s[i + 1] && tail[j] == s[j + 1];
    }
  }

  lemma KeySortedCons(x: (Time, nat), s: seq<(Time, nat)>)
    requires KeySorted(s) && forall y :: y in s ==> x.1 <= y.1
    ensures KeySorted([x] + s)
  {
    var r := [x] + s;
    forall i, j | 0 <= i < j < |r| ensures r[i].1 <= r[j].1 {
      if i == 0 {
        assert r[j] == s[j - 1] && r[j] in s;
      } else {
        assert r[i] == s[i - 1] && r[j] == s[j - 1];
      }
    }
  }

  lemma {:induction false} InsertByKeySorted(x: (Time, nat), s: seq<(Time, nat)>)
    requires KeySorted(s)
    ensures KeySorted(InsertByKey(x, s))
  {
    if s == [] || x.1 <= s[0].1 {
      if s != [] {
        KeyHeadBelow(s);
      }
      KeySortedCons(x, s);
    } else {
      KeyHeadBelow(s);
      InsertByKeySorted(x, s[1..]);
      InsertByKeyMultiset(x, s[1..]);
      var t := InsertByKey(x, s[1..]);
      forall y | y in t ensures s[0].1 <= y.1 {
        assert y in multiset(t);
        assert y == x || y in s[1..];
      }
      KeySortedCons(s[0], t);
    }
  }

  lemma {:induction false} SortByKeyFacts(s: seq<(Time, nat)>)
    ensures multiset(SortByKey(s)) == multiset(s)
    ensures KeySorted(SortByKey(s))
  {
    if s != [] {
      SortByKeyFacts(s[1..]);
      InsertByKeyMultiset(s[0], SortByKey(s[1..]));
      InsertByKeySorted(s[0], SortByKey(s[1..]));
      assert s == [s[0]] + s[1..];
    }
  }

  lemma {:induction false} InsertValues(x: (Time, nat), s: seq<(Time, nat)>)
    ensures multiset(Values(InsertByKey(x, s))) == multiset(Values(s)) + multiset{x.0}
  {
    if s == [] || x.1 <= s[0].1 {
      assert Values([x] + s) == [x.0] + Values(s);
    } else {
      InsertValues(x, s[1..]);
      assert Values([s[0]] + InsertByKey(x, s[1..])) == [s[0].0] + Values(InsertByKey(x, s[1..]));
      assert Values(s) == [s[0].0] + Values(s[1..]);
    }
  }

  lemma {:induction false} SortValues(s: seq<(Time, nat)>)
    ensures multiset(Values(SortByKey(s))) == multiset(Values(s))
  {
    if s != [] {
      SortValues(s[1..]);
      InsertValues(s[0], SortByKey(s[1..]));
      assert Values(s) == [s[0].0] + Values(s[1..]);
    }
  }

  /** The entries of `s` with key `n`, in their order in `s`. */
  function KeyFilter(s: seq<(Time, nat)>, n: nat): seq<(Time, nat)>
  {
    if s == [] then []
    else (if s[0].1 == n then [s[0]] else []) + KeyFilter(s[1..], n)
  }

  /** The values of `s` with `count_conflicts` equal to `n`, in their order in `s`. */
  function Ties(arcs: seq<Arc<string, Relation>>, domains: map<string, seq<Time>>, v: string,
                s: seq<Time>, n: nat): seq<Time>
  {
    if s == [] then []
    else (if ConflictCount(arcs, domains, v, s[0]) == n then [s[0]] else []) +
         Ties(arcs, domains, v, s[1..], n)
  }

  /** Insertion puts `x` before every entry of its own key. */
  lemma {:induction false} InsertByKeyFilter(x: (Time, nat), s: seq<(Time, nat)>, n: nat)
    ensures KeyFilter(InsertByKey(x, s), n) ==
            (if x.1 == n then [x] else []) + KeyFilter(s, n)
  {
    var hx: seq<(Time, nat)> := if x.1 == n then [x] else [];
    if s == [] || x.1 <= s[0].1 {
      var t := [x] + s;
      assert t[0] == x && t[1..] == s;
      assert KeyFilter(t, n) == hx + KeyFilter(s, n);
    } else {
      var h0: seq<(Time, nat)> := if s[0].1 == n then [s[0]] else [];
      var rest := InsertByKey(x, s[1..]);
      InsertByKeyFilter(x, s[1..], n);
      var t := [s[0]] + rest;
      assert t[0] == s[0] && t[1..] == rest;
      assert KeyFilter(t, n) == h0 + KeyFilter(rest, n);
      assert KeyFilter(s, n) == h0 + KeyFilter(s[1..], n);
      assert h0 == [] || hx == [];
      assert h0 + (hx + KeyFilter(s[1..], n)) == hx + (h0 + KeyFilter(s[1..], n));
    }
  }

  /** The sort is stable: the entries of each key keep their relative order. */
  lemma {:induction false} SortByKeyStable(s: seq<(Time, nat)>, n: nat)
    ensures KeyFilter(SortByKey(s), n) == KeyFilter(s, n)
  {
    if s != [] {
      SortByKeyStable(s[1..], n);
      InsertByKeyFilter(s[0], SortByKey(s[1..]), n);
    }
  }

  lemma {:induction false} ValuesKeyFilter(arcs: seq<Arc<string, Relation>>,
                                           domains: map<string, seq<Time>>, v: string,
                                           s: seq<(Time, nat)>, n: nat)
    requires forall i :: 0 <= i < |s| ==> s[i].1 == ConflictCount(arcs, domains, v, s[i].0)
    ensures Values(KeyFilter(s, n)) == Ties(arcs, domains, v, Values(s), n)
  {
    if s != [] {
      var t := s[1..];
      assert forall i :: 0 <= i < |t| ==> t[i] == s[i + 1];
      ValuesKeyFilter(arcs, domains, v, t, n);
      assert Values(s)[1..] == Values(t);
      var head: seq<(Time, nat)> := if s[0].1 == n then [s[0]] else [];
      assert Values(head + KeyFilter(t, n)) == Values(head) + Values(KeyFilter(t, n));
    }
  }

  /** `lcv_heuristic` returns a permutation of the domain, ordered by non-decreasing
      `count_conflicts`, and values with equal counts keep their domain order. */
  lemma LcvPermutes(arcs: seq<Arc<string, Relation>>, domains: map<string, seq<Time>>,
                    v: string, dom: seq<Time>)
    ensures multiset(LcvOrder(arcs, domains, v, dom)) == multiset(dom)
    ensures var r := LcvOrder(arcs, domains, v, dom);
            forall i, j :: 0 <= i < j < |r| ==>
              ConflictCount(arcs, domains, v, r[i]) <= ConflictCount(arcs, domains, v, r[j])
    ensures forall n: nat :: Ties(arcs, domains, v, LcvOrder(arcs, domains, v, dom), n) ==
                             Ties(arcs, domains, v, dom, n)
  {
    var k := Keyed(arcs, domains, v, dom);
    var sorted := SortByKey(k);
    SortByKeyFacts(k);
    SortValues(k);
    assert Values(k) == dom;
    var r := Values(sorted);
    forall i, j | 0 <= i < j < |r|
      ensures ConflictCount(arcs, domains, v, r[i]) <= ConflictCount(arcs, domains, v, r[j])
    {
      KeyOfSorted(k, sorted, arcs, domains, v, dom, i);
      KeyOfSorted(k, sorted, arcs, domains, v, dom, j);
    }
    forall i | 0 <= i < |sorted|
      ensures sorted[i].1 == ConflictCount(arcs, domains, v, sorted[i].0)
    {
      KeyOfSorted(k, sorted, arcs, domains, v, dom, i);
    }
    forall n: nat
      ensures Ties(arcs, domains, v, r, n) == Ties(arcs, domains, v, dom, n)
    {
      SortByKeyStable(k, n);
      ValuesKeyFilter(arcs, domains, v, sorted, n);
      ValuesKeyFilter(arcs, domains, v, k, n);
    }
  }

  lemma KeyOfSorted(k: seq<(Time, nat)>, sorted: seq<(Time, nat)>,
                    arcs: seq<Arc<string, Relation>>, domains: map<string, seq<Time>>,
                    v: string, dom: seq<Time>, i: nat)
    requires k == Keyed(arcs, domains, v, dom) && multiset(sorted) == multiset(k)
    requires i < |sorted|
    ensures sorted[i].1 == ConflictCount(arcs, domains, v, sorted[i].0)
  {
    assert sorted[i] in multiset(sorted);
    assert sorted[i] in k;
  }
}
