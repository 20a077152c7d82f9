/** main.py, the search of the legacy solver: the solver object built by `__init__`,
    `_backtrack` with MRV selection and LCV ordering, and `backtracking_search` with AC-3
    preprocessing. The assignment dict is a list of placements in insertion order. */
module LegacySearch {
  import opened Wrappers
  import opened Seqs
  import opened ArcConsistency
  import opened Runs
  import opened Legacy
  import opened LegacyCheck

  type Arcs = seq<Arc<string, Relation>>

  /** Every variable starts with the whole calendar (`copy.deepcopy(self.all_slots)`). */
  function InitialDomains(vars: seq<string>, slots: seq<Time>): (d: map<string, seq<Time>>)
    ensures forall v :: v in d <==> v in vars
  {
    map v | v in vars :: slots
  }

  /** `[var for var in self.variables if var not in assignment]`. */
  function Unassigned(variables: seq<string>, a: Placements): (r: seq<string>)
    ensures forall k :: k in r <==> k in variables && k !in Names(a)
  {
    Filter(variables, (k: string) => k !in Names(a))
  }

  /** `del assignment[var]`. */
  function Delete(a: Placements, v: string): (r: Placements)
    ensures forall e :: e in r <==> e in a && e.name != v
  {
    Filter(a, (e: Placement) => e.name != v)
  }

  /** The variables the search has still to place. */
  ghost function Open(variables: seq<string>, a: Placements): set<string>
  {
    set k | k in variables && k !in Names(a)
  }

  /** A dict has each key once. */
  ghost predicate Unique(a: Placements)
  {
    forall i, j :: 0 <= i < j < |a| ==> a[i].name != a[j].name
  }

  /** Each entry is a variable with a value of its domain. */
  ghost predicate Within(a: Placements, variables: seq<string>, domains: map<string, seq<Time>>)
  {
    forall e :: e in a ==> e.name in variables && e.name in domains && e.time in domains[e.name]
  }

  /** No two entries share a time slot across a `!=` constraint. */
  ghost predicate Separated(arcs: Arcs, a: Placements)
  {
    forall i, j :: 0 <= i < j < |a| ==> !(a[i].time == a[j].time && Linked(arcs, a[j].name, a[i].name))
  }

  /** On every day, the sorted periods of every teacher have no run longer than three, as
      `check_successive_slots` counts them. */
  ghost predicate RunsCapped(cs: seq<Course>, a: Placements)
  {
    forall t: Option<string>, d: string :: TeacherDaySlots(cs, a, t, d).Ok? ==>
      MaxRun(SortInts(TeacherDaySlots(cs, a, t, d).value)) <= 3
  }

  /** What every assignment the search builds satisfies. */
  ghost predicate Sound(cs: seq<Course>, arcs: Arcs, variables: seq<string>,
                        domains: map<string, seq<Time>>, a: Placements)
  {
    Unique(a) && Within(a, variables, domains) && Separated(arcs, a) && RunsCapped(cs, a)
  }

  lemma NamesSnoc(a: Placements, e: Placement)
    ensures Names(a + [e]) == Names(a) + {e.name}
  {
    assert forall x :: x in a + [e] <==> x in a || x == e;
  }

  lemma SoundStart(cs: seq<Course>, arcs: Arcs, variables: seq<string>,
                   domains: map<string, seq<Time>>)
    ensures Sound(cs, arcs, variables, domains, [])
  {
    assert MaxRun(SortInts([])) == 0;
  }

  /** Appending one entry changes only the period list of its own teacher on its own day. */
  lemma TeacherDaySlotsSnoc(cs: seq<Course>, a: Placements, e: Placement, t: Option<string>,
                            d: string)
    ensures TeacherDaySlots(cs, a + [e], t, d) ==
              (var init :- TeacherDaySlots(cs, a, t, d);
               var u :- TeacherFor(cs, e.name);
               Ok(init + if u == t && e.time.day == d then [e.time.slot] else []))
  {
    assert (a + [e])[..|a|] == a;
  }

  lemma RunsAfterCommit(cs: seq<Course>, a: Placements, v: string, value: Time)
    requires RunsCapped(cs, a) && CheckSuccessive(cs, a, v, value) == Ok(true)
    ensures RunsCapped(cs, a + [Placement(v, value)])
  {
    var e := Placement(v, value);
    assert DaySlotsWith(cs, a, v, value).Ok?;
    assert TeacherFor(cs, v).Ok?;
    var tv := TeacherFor(cs, v).value;
    forall t: Option<string>, d: string | TeacherDaySlots(cs, a + [e], t, d).Ok?
      ensures MaxRun(SortInts(TeacherDaySlots(cs, a + [e], t, d).value)) <= 3
    {
      TeacherDaySlotsSnoc(cs, a, e, t, d);
      if tv == t && value.day == d {
        assert TeacherDaySlots(cs, a + [e], t, d).value == DaySlotsWith(cs, a, v, value).value;
      } else {
        var init := TeacherDaySlots(cs, a, t, d).value;
        assert TeacherDaySlots(cs, a + [e], t, d).value == init + [];
        assert init + [] == init;
      }
    }
  }

  /** A value `is_consistent` accepts keeps the assignment sound. */
  lemma CommitSound(cs: seq<Course>, arcs: Arcs, variables: seq<string>,
                    domains: map<string, seq<Time>>, a: Placements, v: string, value: Time)
    requires Sound(cs, arcs, variables, domains, a)
    requires v in variables && v in domains && value in domains[v] && v !in Names(a)
    requires Consistent(cs, arcs, v, value, a) == Ok(true)
    ensures Sound(cs, arcs, variables, domains, a + [Placement(v, value)])
  {
    AcceptsExactly(cs, arcs, v, value, a);
    var a' := a + [Placement(v, value)];
    forall i, j | 0 <= i < j < |a'| ensures a'[i].name != a'[j].name {
      if j == |a| {
        assert a[i] in a;
      }
    }
    forall i, j | 0 <= i < j < |a'|
      ensures !(a'[i].time == a'[j].time && Linked(arcs, a'[j].name, a'[i].name))
    {
      if j == |a| {
        assert a[i] in a;
      }
    }
    RunsAfterCommit(cs, a, v, value);
  }

  /** Committing a value the LCV order offers and `is_consistent` accepts: the assignment
      stays sound, one variable fewer is open, and `del` undoes it. */
  lemma Step(cs: seq<Course>, arcs: Arcs, variables: seq<string>,
             domains: map<string, seq<Time>>, a: Placements, v: string, order: seq<Time>,
             value: Time)
    requires Sound(cs, arcs, variables, domains, a)
    requires v in variables && v in domains && v !in Names(a)
    requires multiset(order) == multiset(domains[v]) && value in order
    requires Consistent(cs, arcs, v, value, a) == Ok(true)
    ensures Sound(cs, arcs, variables, domains, a + [Placement(v, value)])
    ensures |Open(variables, a + [Placement(v, value)])| < |Open(variables, a)|
    ensures Delete(a + [Placement(v, value)], v) == a
  {
    var e := Placement(v, value);
    assert value in multiset(order);
    CommitSound(cs, arcs, variables, domains, a, v, value);
    OpenShrinks(variables, a, e);
    forall x | x in a ensures x.name != v {
      assert x.name in Names(a);
    }
    DeleteLast(a, e);
  }

  lemma PrefixOfSnoc(a: Placements, e: Placement, b: Placements)
    requires a + [e] <= b
    ensures a <= b
  {
    assert (a + [e])[..|a|] == a;
  }

  lemma OpenShrinks(variables: seq<string>, a: Placements, e: Placement)
    requires e.name in variables && e.name !in Names(a)
    ensures Open(variables, a + [e]) == Open(variables, a) - {e.name}
    ensures e.name in Open(variables, a)
  {
    NamesSnoc(a, e);
  }

  /** Deleting the key just added gives back the dict it was added to. */
  lemma {:induction false} DeleteLast(a: Placements, e: Placement)
    requires forall x :: x in a ==> x.name != e.name
    ensures Delete(a + [e], e.name) == a
  {
    if a == [] {
      assert [] + [e] == [e];
      assert [e][1..] == [];
    } else {
      DeleteLast(a[1..], e);
      assert (a + [e])[1..] == a[1..] + [e];
      assert [a[0]] + a[1..] == a;
    }
  }

  /** With distinct variable names, a sound assignment as long as the variable list assigns
      every variable. */
  lemma Complete(cs: seq<Course>, arcs: Arcs, variables: seq<string>,
                 domains: map<string, seq<Time>>, a: Placements)
    requires Sound(cs, arcs, variables, domains, a) && |a| == |variables|
    requires NoDuplicates(variables)
    ensures forall v :: v in variables ==> v in Names(a)
  {
    UniqueNames(a);
    DistinctCard(variables);
    var all := set v | v in variables;
    assert Names(a) <= all;
    if exists v :: v in variables && v !in Names(a) {
      var v :| v in variables && v !in Names(a);
      SubsetCard(Names(a), all - {v});
      assert false;
    }
  }

  lemma {:induction false} SubsetCard<T>(x: set<T>, y: set<T>)
    requires x <= y
    ensures |x| <= |y|
    decreases x
  {
    if x != {} {
      var k :| k in x;
      SubsetCard(x - {k}, y - {k});
    }
  }

  lemma {:induction false} UniqueNames(a: Placements)
    requires Unique(a)
    ensures |Names(a)| == |a|
  {
    if a != [] {
      var init := a[..|a| - 1];
      var e := a[|a| - 1];
      assert Unique(init);
      UniqueNames(init);
      assert a == init + [e];
      NamesSnoc(init, e);
      assert e.name !in Names(init);
    }
  }

  lemma {:induction false} DistinctCard(s: seq<string>)
    requires NoDuplicates(s)
    ensures |set v | v in s| == |s|
  {
    if s != [] {
      var init := s[..|s| - 1];
      DistinctCard(init);
      assert s == init + [s[|s| - 1]];
      assert (set v | v in s) == (set v | v in init) + {s[|s| - 1]};
      assert s[|s| - 1] !in init;
    }
  }

  // ---------------------------------------------------------------------------------------
  // What a sound assignment means for the timetable built by `__init__`

  /** Every assigned name parses and has a teacher lookup that does not raise. */
  ghost predicate Resolved(cs: seq<Course>, a: Placements)
  {
    forall e :: e in a ==> ParseVariable(e.name).Ok? && TeacherFor(cs, e.name).Ok?
  }

  lemma ShouldAddSymmetric(cs: seq<Course>, x: string, y: string)
    requires ParseVariable(x).Ok? && ParseVariable(y).Ok?
    requires TeacherFor(cs, x).Ok? && TeacherFor(cs, y).Ok?
    ensures ShouldAdd(cs, x, y) == ShouldAdd(cs, y, x)
  {
  }

  /** Two distinct variables that `_should_add_constraint` relates are joined by an arc,
      whichever of them comes first in the variable list. */
  lemma LinkedWhenConstrained(cs: seq<Course>, vars: seq<string>, arcs: Arcs, x: string,
                              y: string)
    requires ConstraintsOf(cs, vars) == Ok(arcs)
    requires x in vars && y in vars && x != y
    requires ParseVariable(x).Ok? && ParseVariable(y).Ok?
    requires TeacherFor(cs, x).Ok? && TeacherFor(cs, y).Ok?
    requires ShouldAdd(cs, x, y) == Ok(true)
    ensures Linked(arcs, x, y)
  {
    ShouldAddSymmetric(cs, x, y);
    var p :| 0 <= p < |vars| && vars[p] == x;
    var q :| 0 <= q < |vars| && vars[q] == y;
    if p < q {
      ArcOfPair(cs, vars, p, q);
      assert Arc(x, y, NotEqual) in arcs;
    } else {
      ArcOfPair(cs, vars, q, p);
      assert Arc(y, x, NotEqual) in arcs;
    }
  }

  lemma ArcOfPair(cs: seq<Course>, vars: seq<string>, i: nat, j: nat)
    requires ConstraintsOf(cs, vars).Ok? && i < j < |vars|
    requires ShouldAdd(cs, vars[i], vars[j]) == Ok(true)
    ensures Arc(vars[i], vars[j], NotEqual) in ConstraintsOf(cs, vars).value
  {
    ConstraintsMembers(cs, vars);
  }

  /** In a sound assignment over the arcs of `_create_constraints`, two entries that the
      constraint rule relates never share a time slot. */
  lemma ApartWhenConstrained(cs: seq<Course>, vars: seq<string>, arcs: Arcs,
                             domains: map<string, seq<Time>>, a: Placements)
    requires ConstraintsOf(cs, vars) == Ok(arcs)
    requires Sound(cs, arcs, vars, domains, a) && Resolved(cs, a)
    ensures forall i, j :: 0 <= i < j < |a| && ShouldAdd(cs, a[i].name, a[j].name) == Ok(true) ==>
              a[i].time != a[j].time
  {
    forall i, j | 0 <= i < j < |a| && ShouldAdd(cs, a[i].name, a[j].name) == Ok(true)
      ensures a[i].time != a[j].time
    {
      assert a[i] in a && a[j] in a;
      LinkedWhenConstrained(cs, vars, arcs, a[j].name, a[i].name);
    }
  }

  /** The same, spelled out: no teacher is in two places at once, no group has two sessions
      at once, and a lecture never overlaps a group session of its own course. */
  lemma NoOverlaps(cs: seq<Course>, vars: seq<string>, arcs: Arcs,
                   domains: map<string, seq<Time>>, a: Placements)
    requires ConstraintsOf(cs, vars) == Ok(arcs)
    requires Sound(cs, arcs, vars, domains, a) && Resolved(cs, a)
    ensures forall i, j :: 0 <= i < j < |a| && TeacherFor(cs, a[i].name) == TeacherFor(cs, a[j].name) ==>
              a[i].time != a[j].time
    ensures forall i, j :: 0 <= i < j < |a| && ParseVariable(a[i].name).value.group.Some? &&
                           ParseVariable(a[i].name).value.group == ParseVariable(a[j].name).value.group ==>
              a[i].time != a[j].time
    ensures forall i, j :: 0 <= i < j < |a| &&
                           ParseVariable(a[i].name).value.course == ParseVariable(a[j].name).value.course &&
                           ParseVariable(a[i].name).value.session == "lecture" &&
                           ParseVariable(a[j].name).value.group.Some? ==>
              a[i].time != a[j].time
  {
    ApartWhenConstrained(cs, vars, arcs, domains, a);
    forall i, j | 0 <= i < j < |a|
      ensures ShouldAdd(cs, a[i].name, a[j].name).Ok?
    {
      assert a[i] in a && a[j] in a;
    }
  }

  /** When no two entries of one teacher share a time slot, the periods of that teacher on a
      day have no repeats. */
  lemma {:induction false} DaySlotsDistinct(cs: seq<Course>, a: Placements, t: Option<string>,
                                            d: string)
    requires TeacherDaySlots(cs, a, t, d).Ok?
    requires forall i, j :: 0 <= i < j < |a| && TeacherFor(cs, a[i].name) == TeacherFor(cs, a[j].name) ==>
               a[i].time != a[j].time
    ensures NoRepeats(TeacherDaySlots(cs, a, t, d).value)
  {
    if a != [] {
      var init := a[..|a| - 1];
      var e := a[|a| - 1];
      DaySlotsDistinct(cs, init, t, d);
      var s := TeacherDaySlots(cs, init, t, d).value;
      if TeacherFor(cs, e.name) == Ok(t) && e.time.day == d {
        TeacherDaySlotsMembers(cs, init, t, d);
        var s' := s + [e.time.slot];
        forall i, j | 0 <= i < j < |s'| ensures s'[i] != s'[j] {
          if j == |s| {
            assert s'[i] in s;
          }
        }
      } else {
        assert TeacherDaySlots(cs, a, t, d).value == s + [];
        assert s + [] == s;
      }
    }
  }

  /** In a sound assignment over the arcs of `_create_constraints`, no teacher has four
      consecutive periods on any day. */
  lemma NoFourInARow(cs: seq<Course>, vars: seq<string>, arcs: Arcs,
                     domains: map<string, seq<Time>>, a: Placements, t: Option<string>, d: string)
    requires ConstraintsOf(cs, vars) == Ok(arcs)
    requires Sound(cs, arcs, vars, domains, a) && Resolved(cs, a)
    requires TeacherDaySlots(cs, a, t, d).Ok?
    ensures !exists p :: Consecutive(TeacherDaySlots(cs, a, t, d).value, p, 4)
  {
    NoOverlaps(cs, vars, arcs, domains, a);
    DaySlotsDistinct(cs, a, t, d);
    FourInSorted(TeacherDaySlots(cs, a, t, d).value);
  }

  /** For a well-formed catalog, every sound assignment over the problem `__init__` builds
      resolves, so the facts above apply to it. */
  lemma SetupResolves(n: nat, days: seq<string>, perDay: map<string, int>, catalog: seq<Course>,
                      domains: map<string, seq<Time>>, a: Placements)
    requires WellFormed(catalog, n) && Setup(n, days, perDay, catalog).Ok?
    requires var p := Setup(n, days, perDay, catalog).value;
             Sound(p.courses, p.constraints, p.variables, domains, a)
    ensures Resolved(Setup(n, days, perDay, catalog).value.courses, a)
  {
    var p := Setup(n, days, perDay, catalog).value;
    AssignKeepsShape(catalog, n);
    forall e | e in a
      ensures ParseVariable(e.name).Ok? && TeacherFor(p.courses, e.name).Ok?
    {
      VariableResolves(catalog, n, e.name);
    }
  }

  /** For a well-formed catalog, a sound assignment as long as the variable list of
      `__init__` gives every variable exactly one time slot. */
  lemma SolvedComplete(n: nat, days: seq<string>, perDay: map<string, int>, catalog: seq<Course>,
                       domains: map<string, seq<Time>>, a: Placements)
    requires WellFormed(catalog, n) && Setup(n, days, perDay, catalog).Ok?
    requires var p := Setup(n, days, perDay, catalog).value;
             Sound(p.courses, p.constraints, p.variables, domains, a) && |a| == |p.variables|
    ensures forall v :: v in Setup(n, days, perDay, catalog).value.variables ==> v in Names(a)
  {
    var p := Setup(n, days, perDay, catalog).value;
    AssignKeepsShape(catalog, n);
    VariablesDistinct(catalog, n);
    Complete(p.courses, p.constraints, p.variables, domains, a);
  }

  /** The solver object. */
  class Solver {
    const numGroups: nat
    const slots: seq<Time>
    const courses: seq<Course>
    const variables: seq<string>
    const net: Network<string, Time, Relation>
    /** The dict `_backtrack` mutates. */
    var assignment: Placements

    ghost predicate Valid()
      reads this, net
    {
      net.Valid() && net.keys == variables
    }

    ghost predicate SoundNow(a: Placements)
      reads this, net
    {
      Sound(courses, net.constraints, variables, net.domains, a)
    }

    constructor (n: nat, slots: seq<Time>, courses: seq<Course>, variables: seq<string>,
                 constraints: Arcs)
      requires forall c :: c in constraints ==> c.xi in variables && c.xj in variables
      ensures Valid() && fresh(net)
      ensures numGroups == n && this.slots == slots && this.courses == courses
      ensures this.variables == variables && net.constraints == constraints
      ensures net.domains == InitialDomains(variables, slots) && assignment == []
    {
      var sat := (c: Relation, x: Time, y: Time) => Holds(c, x, y);
      numGroups := n;
      this.slots := slots;
      this.courses := courses;
      this.variables := variables;
      net := new Network(sat, variables, constraints, InitialDomains(variables, slots));
      assignment := [];
    }

    /** main.py: `__init__`: the calendar, the group teachers, the variables, the initial
        domains and the constraints, in that order; the first step that raises ends it. */
    static method Create(n: nat, days: seq<string>, perDay: map<string, int>,
                         catalog: seq<Course>) returns (r: Result<Solver>)
      ensures r.Err? <==> Setup(n, days, perDay, catalog).Err?
      ensures r.Err? ==> r.error == Setup(n, days, perDay, catalog).error
      ensures r.Ok? ==> fresh(r.value) && fresh(r.value.net) && r.value.Valid()
      ensures r.Ok? ==>
                var p := Setup(n, days, perDay, catalog).value;
                r.value.slots == p.slots && r.value.courses == p.courses &&
                r.value.variables == p.variables && r.value.net.constraints == p.constraints &&
                r.value.net.domains == InitialDomains(p.variables, p.slots) &&
                r.value.numGroups == n && r.value.assignment == []
    {
      var slots := AllSlots(days, perDay);
      if slots.Err? {
        return Err(slots.error);
      }
      var courses := AssignGroupTeachers(catalog, n);
      if courses.Err? {
        return Err(courses.error);
      }
      var vars := CreateVariables(courses.value, n);
      var arcs := CreateConstraints(courses.value, vars);
      if arcs.Err? {
        return Err(arcs.error);
      }
      ConstraintsMembers(courses.value, vars);
      forall c | c in arcs.value ensures c.xi in vars && c.xj in vars {
        var i, j :| 0 <= i < j < |vars| && c == Arc(vars[i], vars[j], NotEqual) &&
                    ShouldAdd(courses.value, vars[i], vars[j]) == Ok(true);
      }
      var s := new Solver(n, slots.value, courses.value, vars, arcs.value);
      return Ok(s);
    }

    /** main.py: `_backtrack`. Every exit leaves a sound extension of the assignment it
        started from; a failed branch leaves it as it was. */
    method Backtrack() returns (r: Outcome)
      requires Valid() && SoundNow(assignment)
      modifies this
      ensures SoundNow(assignment) && old(assignment) <= assignment
      ensures r.Solved? ==> |assignment| == |variables|
      ensures r.Unsat? ==> assignment == old(assignment)
      decreases |Open(variables, assignment)|
    {
      if |assignment| == |variables| {
        return Solved;
      }
      var unassigned := Unassigned(variables, assignment);
      var sel := Mrv(unassigned, net.domains);
      if sel.Err? {
        return Raised(sel.error);
      }
      var v := sel.value;
      var order := Lcv(net.constraints, net.domains, v, net.domains[v]);
      LcvPermutes(net.constraints, net.domains, v, net.domains[v]);
      assert v in variables && v !in Names(assignment);
      ghost var a0 := assignment;
      var i := 0;
      while i < |order|
        invariant 0 <= i <= |order|
        invariant assignment == a0
      {
        var value := order[i];
        var ok := IsConsistent(courses, net.constraints, v, value, assignment);
        if ok.Err? {
          return Raised(ok.error);
        }
        if ok.value {
          var e := Placement(v, value);
          Step(courses, net.constraints, variables, net.domains, a0, v, order, value);
          assignment := assignment + [e];
          r := Backtrack();
          if r != Unsat {
            PrefixOfSnoc(a0, e, assignment);
            return r;
          }
          assignment := Delete(assignment, v);
        }
        i := i + 1;
      }
      return Unsat;
    }

    /** main.py: `backtracking_search`: AC-3 first, where an emptied domain means no
        solution; then `_backtrack` from an empty dict. `pruned` records that AC-3 returned
        False, in which case `_backtrack` is never called. */
    method BacktrackingSearch() returns (r: Outcome, ghost pruned: bool)
      requires Valid()
      modifies this, net
      ensures Valid()
      ensures pruned ==> r == Unsat && exists k :: k in net.domains && net.domains[k] == []
      ensures net.domains.Keys == old(net.domains).Keys
      ensures forall k :: k in net.domains ==> Sub(net.domains[k], old(net.domains)[k])
      ensures SoundNow(assignment)
      ensures r.Solved? ==> |assignment| == |variables|
      ensures r.Unsat? ==> assignment == []
    {
      assignment := [];
      var consistent := net.Ac3();
      SoundStart(courses, net.constraints, variables, net.domains);
      pruned := !consistent;
      if !consistent {
        return Unsat, pruned;
      }
      r := Backtrack();
    }
  }
}
