/** main.py, `MultiGroupTimeTableCSP`: the earlier string-keyed solver. This module holds its
    problem set-up: the slot calendar, the derived per-group teacher names, the variable names,
    the name parser, the teacher lookup and the constraint graph. */
module Legacy {
  import opened Wrappers
  import opened Strings
  import opened ArcConsistency

  /** A `(day, slot)` pair. */
  datatype Time = Time(day: string, slot: int)

  /** One entry of the `courses` dictionary: session counts (a missing count is 0) and the
      optional teacher entries; the two group lists are filled in by `_assign_group_teachers`. */
  datatype Course = Course(name: string, lecture: int, td: int, tp: int,
                           teacherLecture: Option<string>, teacherTd: Option<string>,
                           teacherTp: Option<seq<string>>,
                           groupTeachersTd: Option<seq<string>>,
                           groupTeachersTp: Option<seq<string>>)

  /** The only constraint main.py creates: `lambda a, b: a != b`. */
  datatype Relation = NotEqual

  function Holds(c: Relation, x: Time, y: Time): bool
  {
    x != y
  }

  // ---------------------------------------------------------------------------------------
  // The slot calendar

  function SourceDays(): seq<string>
  {
    ["Sunday", "Monday", "Tuesday", "Wednesday", "Thursday"]
  }

  function SourceSlotsPerDay(): map<string, int>
  {
    map["Sunday" := 5, "Monday" := 5, "Tuesday" := 3, "Wednesday" := 5, "Thursday" := 5]
  }

  /** `[(day, s) for s in range(1, n + 1)]`. */
  function DaySlots(day: string, n: int): (r: seq<Time>)
    ensures |r| == (if n < 0 then 0 else n)
    ensures forall k :: 0 <= k < |r| ==> r[k] == Time(day, k + 1)
    ensures forall t :: t in r <==> t.day == day && 1 <= t.slot <= n
  {
    var r := seq(if n < 0 then 0 else n, k => Time(day, k + 1));
    assert forall t: Time :: t.day == day && 1 <= t.slot <= n ==> r[t.slot - 1] == t;
    r
  }

  /** The `all_slots` list: day by day, in the order of `days`; a day missing from the
      per-day table raises KeyError. */
  function SlotsOf(days: seq<string>, perDay: map<string, int>): Result<seq<Time>>
  {
    if days == [] then Ok([])
    else
      var init :- SlotsOf(days[..|days| - 1], perDay);
      var day := days[|days| - 1];
      if day in perDay then Ok(init + DaySlots(day, perDay[day])) else Err(KeyError)
  }

  /** main.py: the nested loop of `__init__` that fills `all_slots`. */
  method AllSlots(days: seq<string>, perDay: map<string, int>) returns (r: Result<seq<Time>>)
    ensures r == SlotsOf(days, perDay)
  {
    var all: seq<Time> := [];
    var i := 0;
    while i < |days|
      invariant 0 <= i <= |days|
      invariant SlotsOf(days[..i], perDay) == Ok(all)
    {
      var day := days[i];
      assert days[..i + 1][..i] == days[..i];
      if day !in perDay {
        SlotsErrExtends(days, perDay, i + 1);
        return Err(KeyError);
      }
      var s := 1;
      ghost var before := all;
      while s <= perDay[day]
        invariant 1 <= s <= (if perDay[day] < 0 then 0 else perDay[day]) + 1
        invariant all == before + DaySlots(day, s - 1)
      {
        assert DaySlots(day, s) == DaySlots(day, s - 1) + [Time(day, s)];
        all := all + [Time(day, s)];
        s := s + 1;
      }
      assert DaySlots(day, s - 1) == DaySlots(day, perDay[day]);
      i := i + 1;
    }
    assert days[..i] == days;
    r := Ok(all);
  }

  lemma {:induction false} SlotsErrExtends(days: seq<string>, perDay: map<string, int>, i: nat)
    requires i <= |days| && SlotsOf(days[..i], perDay) == Err(KeyError)
    ensures SlotsOf(days, perDay) == Err(KeyError)
    decreases |days| - i
  {
    if i < |days| {
      assert days[..i + 1][..i] == days[..i];
      SlotsErrExtends(days, perDay, i + 1);
    } else {
      assert days[..i] == days;
    }
  }

  /** `all_slots` exists exactly when every day has a slot count, and then it holds every
      `(day, s)` with `1 <= s <= slots_per_day[day]` and nothing else. */
  lemma {:induction false} SlotsMembers(days: seq<string>, perDay: map<string, int>)
    ensures SlotsOf(days, perDay).Ok? <==> forall d :: d in days ==> d in perDay
    ensures SlotsOf(days, perDay).Ok? ==>
              forall t :: t in SlotsOf(days, perDay).value <==>
                            t.day in days && 1 <= t.slot <= perDay[t.day]
  {
    if days != [] {
      var init := days[..|days| - 1];
      SlotsMembers(init, perDay);
      assert forall d :: d in days <==> d in init || d == days[|days| - 1];
    }
  }

  /** Distinct days give distinct `(day, slot)` pairs, ordered by day and then by slot. */
  lemma {:induction false} SlotsOrdered(days: seq<string>, perDay: map<string, int>,
                                        i: nat, j: nat)
    requires forall a, b :: 0 <= a < b < |days| ==> days[a] != days[b]
    requires SlotsOf(days, perDay).Ok?
    requires i < j < |SlotsOf(days, perDay).value|
    ensures SlotsOf(days, perDay).value[i] != SlotsOf(days, perDay).value[j]
    ensures SlotsOf(days, perDay).value[i].day == SlotsOf(days, perDay).value[j].day ==>
              SlotsOf(days, perDay).value[i].slot < SlotsOf(days, perDay).value[j].slot
  {
    var init := days[..|days| - 1];
    var day := days[|days| - 1];
    var head := SlotsOf(init, perDay).value;
    var r := SlotsOf(days, perDay).value;
    assert r == head + DaySlots(day, perDay[day]);
    SlotsMembers(init, perDay);
    assert forall t :: t in head ==> t.day in init;
    if j < |head| {
      SlotsOrdered(init, perDay, i, j);
    } else if i < |head| {
      assert r[i] in head;
      assert r[j] in DaySlots(day, perDay[day]);
    }
  }

  /** main.py's calendar: 23 slots; Tuesday has exactly slots 1 to 3. */
  lemma SourceCalendar()
    ensures SlotsOf(SourceDays(), SourceSlotsPerDay()).Ok?
    ensures |SlotsOf(SourceDays(), SourceSlotsPerDay()).value| == 23
    ensures var r := SlotsOf(SourceDays(), SourceSlotsPerDay()).value;
            forall k :: Time("Tuesday", k) in r <==> 1 <= k <= 3
  {
    var days := SourceDays();
    var perDay := SourceSlotsPerDay();
    SlotsMembers(days, perDay);
    var d1: seq<string> := ["Sunday"];
    var d2 := d1 + ["Monday"];
    var d3 := d2 + ["Tuesday"];
    var d4 := d3 + ["Wednesday"];
    assert [] + d1 == d1;
    SlotsSnoc([], "Sunday", perDay);
    SlotsSnoc(d1, "Monday", perDay);
    SlotsSnoc(d2, "Tuesday", perDay);
    SlotsSnoc(d3, "Wednesday", perDay);
    SlotsSnoc(d4, "Thursday", perDay);
    assert d4 + ["Thursday"] == days;
  }

  lemma SlotsSnoc(days: seq<string>, d: string, perDay: map<string, int>)
    requires SlotsOf(days, perDay).Ok? && d in perDay
    ensures SlotsOf(days + [d], perDay) == Ok(SlotsOf(days, perDay).value + DaySlots(d, perDay[d]))
  {
    assert (days + [d])[..|days|] == days;
  }

  // ---------------------------------------------------------------------------------------
  // Derived per-group teacher names

  /** `details.get("teacher_td", details.get("teacher_lecture"))`, formatted by an f-string
      (a missing entry prints as "None"). */
  function TdBase(c: Course): string
  {
    match c.teacherTd
    case Some(t) => t
    case None => match c.teacherLecture case Some(t) => t case None => "None"
  }

  /** `f"{base}_Group{g}"`. */
  function GroupTeacher(base: string, g: nat): string
  {
    base + "_Group" + NatToString(g)
  }

  /** The TD list comprehension `[f"{base}_Group{g}" for g in range(1, n + 1)]`. */
  function TdTeachers(base: string, n: nat): (r: seq<string>)
    ensures |r| == n && forall g :: 1 <= g <= n ==> r[g - 1] == GroupTeacher(base, g)
  {
    if n == 0 then [] else TdTeachers(base, n - 1) + [GroupTeacher(base, n)]
  }

  /** The TP list the loop of `_assign_group_teachers` builds: `teacher_tp` is read on every
      iteration (KeyError when absent) and indexed by `g % len(...)` (ZeroDivisionError when
      empty); with no groups the loop body never runs. */
  function TpTeachers(tps: Option<seq<string>>, n: nat): (r: Result<seq<string>>)
    ensures r.Ok? ==> |r.value| == n
  {
    if n == 0 then Ok([])
    else
      var init :- TpTeachers(tps, n - 1);
      match tps
      case None => Err(KeyError)
      case Some(ts) =>
        if ts == [] then Err(ZeroDivisionError)
        else Ok(init + [GroupTeacher(ts[n % |ts|], n)])
  }

  /** `_assign_group_teachers` on one course. */
  function WithGroupTeachers(c: Course, n: nat): Result<Course>
  {
    var c1 := if c.td > 0 then c.(groupTeachersTd := Some(TdTeachers(TdBase(c), n))) else c;
    if c.tp > 0 then
      var tps :- TpTeachers(c.teacherTp, n);
      Ok(c1.(groupTeachersTp := Some(tps)))
    else Ok(c1)
  }

  /** `_assign_group_teachers` over the whole catalog, course by course. */
  function AssignAll(cs: seq<Course>, n: nat): Result<seq<Course>>
  {
    if cs == [] then Ok([])
    else
      var init :- AssignAll(cs[..|cs| - 1], n);
      var c :- WithGroupTeachers(cs[|cs| - 1], n);
      Ok(init + [c])
  }

  /** main.py: the inner loop of `_assign_group_teachers` for the TP list. */
  method TpLoop(tps: Option<seq<string>>, n: nat) returns (r: Result<seq<string>>)
    ensures r == TpTeachers(tps, n)
  {
    var list: seq<string> := [];
    var g := 1;
    while g <= n
      invariant 1 <= g <= n + 1
      invariant TpTeachers(tps, g - 1) == Ok(list)
    {
      if tps.None? {
        TpErrExtends(tps, g, n);
        return Err(KeyError);
      }
      var base := tps.value;
      if |base| == 0 {
        TpErrExtends(tps, g, n);
        return Err(ZeroDivisionError);
      }
      list := list + [GroupTeacher(base[g % |base|], g)];
      g := g + 1;
    }
    r := Ok(list);
  }

  lemma {:induction false} TpErrExtends(tps: Option<seq<string>>, g: nat, n: nat)
    requires 1 <= g <= n && TpTeachers(tps, g - 1).Ok?
    requires tps.None? || tps.value == []
    ensures TpTeachers(tps, n) == Err(if tps.None? then KeyError else ZeroDivisionError)
    decreases n
  {
    if n > g {
      TpErrExtends(tps, g, n - 1);
    }
  }

  /** main.py: `_assign_group_teachers`, which rewrites the entries of `self.courses` in
      order; the first course that raises ends it. */
  method AssignGroupTeachers(cs: seq<Course>, n: nat) returns (r: Result<seq<Course>>)
    ensures r == AssignAll(cs, n)
  {
    var done: seq<Course> := [];
    var i := 0;
    while i < |cs|
      invariant 0 <= i <= |cs|
      invariant AssignAll(cs[..i], n) == Ok(done)
    {
      var c := cs[i];
      assert cs[..i + 1][..i] == cs[..i];
      if c.td > 0 {
        c := c.(groupTeachersTd := Some(TdTeachers(TdBase(cs[i]), n)));
      }
      if cs[i].tp > 0 {
        var tps := TpLoop(c.teacherTp, n);
        if tps.Err? {
          AssignErrExtends(cs, n, i + 1);
          return Err(tps.error);
        }
        c := c.(groupTeachersTp := Some(tps.value));
      }
      done := done + [c];
      i := i + 1;
    }
    assert cs[..i] == cs;
    r := Ok(done);
  }

  lemma {:induction false} AssignErrExtends(cs: seq<Course>, n: nat, i: nat)
    requires 1 <= i <= |cs| && AssignAll(cs[..i - 1], n).Ok?
    requires WithGroupTeachers(cs[i - 1], n).Err?
    ensures AssignAll(cs, n) == Err(WithGroupTeachers(cs[i - 1], n).error)
    decreases |cs| - i
  {
    if i < |cs| {
      assert cs[..|cs| - 1][..i - 1] == cs[..i - 1];
      assert cs[..|cs| - 1][i - 1] == cs[i - 1];
      AssignErrExtends(cs[..|cs| - 1], n, i);
    } else {
      assert cs[..i - 1] == cs[..|cs| - 1];
    }
  }

  /** Each course gets `num_groups` TD names `"<teacher_td or teacher_lecture>_Group<g>"` and
      `num_groups` TP names built from `teacher_tp[g % len(teacher_tp)]` (so group 1 gets the
      second TP teacher); nothing else in the entry changes. */
  lemma {:induction false} GroupTeacherNames(c: Course, n: nat)
    requires WithGroupTeachers(c, n).Ok?
    ensures var d := WithGroupTeachers(c, n).value;
            d.name == c.name && d.lecture == c.lecture && d.td == c.td && d.tp == c.tp &&
            d.teacherLecture == c.teacherLecture && d.teacherTd == c.teacherTd &&
            d.teacherTp == c.teacherTp
    ensures var d := WithGroupTeachers(c, n).value;
            c.td > 0 ==> d.groupTeachersTd.Some? && |d.groupTeachersTd.value| == n &&
                         forall g :: 1 <= g <= n ==>
                           d.groupTeachersTd.value[g - 1] == GroupTeacher(TdBase(c), g)
    ensures var d := WithGroupTeachers(c, n).value;
            c.tp > 0 ==> d.groupTeachersTp.Some? && |d.groupTeachersTp.value| == n &&
                         (n > 0 ==> c.teacherTp.Some? && c.teacherTp.value != []) &&
                         forall g :: 1 <= g <= n ==>
                           d.groupTeachersTp.value[g - 1] ==
                             GroupTeacher(c.teacherTp.value[g % |c.teacherTp.value|], g)
  {
    if c.tp > 0 {
      TpNames(c.teacherTp, n);
    }
  }

  lemma {:induction false} TpNames(tps: Option<seq<string>>, n: nat)
    requires TpTeachers(tps, n).Ok?
    ensures n > 0 ==> tps.Some? && tps.value != []
    ensures forall g :: 1 <= g <= n ==>
              TpTeachers(tps, n).value[g - 1] == GroupTeacher(tps.value[g % |tps.value|], g)
  {
    if n > 0 {
      TpNames(tps, n - 1);
    }
  }

  /** The TP error cases: a TP course with groups but no `teacher_tp` raises KeyError, and an
      empty `teacher_tp` list raises ZeroDivisionError. */
  lemma TpErrors(c: Course, n: nat)
    requires c.tp > 0 && n > 0
    ensures c.teacherTp.None? ==> WithGroupTeachers(c, n) == Err(KeyError)
    ensures c.teacherTp == Some([]) ==> WithGroupTeachers(c, n) == Err(ZeroDivisionError)
  {
    if c.teacherTp.None? || c.teacherTp == Some([]) {
      TpErrExtends(c.teacherTp, 1, n);
    }
  }

  lemma {:induction false} AssignAllFacts(cs: seq<Course>, n: nat)
    requires AssignAll(cs, n).Ok?
    ensures |AssignAll(cs, n).value| == |cs|
    ensures forall i :: 0 <= i < |cs| ==>
              WithGroupTeachers(cs[i], n) == Ok(AssignAll(cs, n).value[i])
  {
    if cs != [] {
      var init := cs[..|cs| - 1];
      AssignAllFacts(init, n);
    }
  }

  // ---------------------------------------------------------------------------------------
  // Variable names

  function LectureVar(course: string): string
  {
    course + "_lecture"
  }

  /** `f"{course}_td_group{g}"` (kind "td") and `f"{course}_tp_group{g}"` (kind "tp"). */
  function GroupVar(course: string, kind: string, g: nat): string
  {
    course + "_" + kind + "_group" + NatToString(g)
  }

  function LectureVars(cs: seq<Course>): seq<string>
  {
    if cs == [] then []
    else
      var c := cs[|cs| - 1];
      LectureVars(cs[..|cs| - 1]) + (if c.lecture > 0 then [LectureVar(c.name)] else [])
  }

  function CourseGroupVars(c: Course, g: nat): seq<string>
  {
    (if c.td > 0 then [GroupVar(c.name, "td", g)] else []) +
    (if c.tp > 0 then [GroupVar(c.name, "tp", g)] else [])
  }

  function GroupVars(cs: seq<Course>, g: nat): seq<string>
  {
    if cs == [] then [] else GroupVars(cs[..|cs| - 1], g) + CourseGroupVars(cs[|cs| - 1], g)
  }

  function AllGroupVars(cs: seq<Course>, n: nat): seq<string>
  {
    if n == 0 then [] else AllGroupVars(cs, n - 1) + GroupVars(cs, n)
  }

  /** The `variables` list of `_create_variables`: every lecture first, in course order; then
      group by group, each course's TD variable followed by its TP variable. */
  function VariablesOf(cs: seq<Course>, n: nat): seq<string>
  {
    LectureVars(cs) + AllGroupVars(cs, n)
  }

  /** `v` is one of the names `_create_variables` makes for course `c`. */
  ghost predicate IsVariableOf(c: Course, n: nat, v: string)
  {
    (c.lecture > 0 && v == LectureVar(c.name)) ||
    exists g :: 1 <= g <= n && ((c.td > 0 && v == GroupVar(c.name, "td", g)) ||
                                (c.tp > 0 && v == GroupVar(c.name, "tp", g)))
  }

  /** main.py: `_create_variables`, the two loops as written. */
  method CreateVariables(cs: seq<Course>, n: nat) returns (vars: seq<string>)
    ensures vars == VariablesOf(cs, n)
  {
    var lectures := LectureLoop(cs);
    var groups: seq<string> := [];
    var g := 1;
    while g <= n
      invariant 1 <= g <= n + 1
      invariant groups == AllGroupVars(cs, g - 1)
    {
      var more := GroupLoop(cs, g);
      AllGroupVarsUnfold(cs, g);
      groups := groups + more;
      g := g + 1;
    }
    vars := lectures + groups;
  }

  lemma AllGroupVarsUnfold(cs: seq<Course>, g: nat)
    requires g >= 1
    ensures AllGroupVars(cs, g) == AllGroupVars(cs, g - 1) + GroupVars(cs, g)
  {
  }

  /** The first loop of `_create_variables`. */
  method LectureLoop(cs: seq<Course>) returns (vars: seq<string>)
    ensures vars == LectureVars(cs)
  {
    vars := [];
    var i := 0;
    while i < |cs|
      invariant 0 <= i <= |cs|
      invariant vars == LectureVars(cs[..i])
    {
      assert cs[..i + 1][..i] == cs[..i];
      if cs[i].lecture > 0 {
        vars := vars + [LectureVar(cs[i].name)];
      }
      i := i + 1;
    }
    assert cs[..i] == cs;
  }

  /** One round of the second loop of `_create_variables`, for group `g`. */
  method GroupLoop(cs: seq<Course>, g: nat) returns (vars: seq<string>)
    ensures vars == GroupVars(cs, g)
  {
    vars := [];
    var j := 0;
    while j < |cs|
      invariant 0 <= j <= |cs|
      invariant vars == GroupVars(cs[..j], g)
    {
      assert cs[..j + 1][..j] == cs[..j];
      if cs[j].td > 0 {
        vars := vars + [GroupVar(cs[j].name, "td", g)];
      }
      if cs[j].tp > 0 {
        vars := vars + [GroupVar(cs[j].name, "tp", g)];
      }
      j := j + 1;
    }
    assert cs[..j] == cs;
  }

  lemma {:induction false} LectureVarsMembers(cs: seq<Course>, v: string)
    ensures v in LectureVars(cs) <==> exists c :: c in cs && c.lecture > 0 && v == LectureVar(c.name)
  {
    if cs != [] {
      LectureVarsMembers(cs[..|cs| - 1], v);
      assert forall c :: c in cs <==> c in cs[..|cs| - 1] || c == cs[|cs| - 1];
    }
  }

  lemma {:induction false} GroupVarsMembers(cs: seq<Course>, g: nat, v: string)
    ensures v in GroupVars(cs, g) <==>
              exists c :: c in cs && ((c.td > 0 && v == GroupVar(c.name, "td", g)) ||
                                      (c.tp > 0 && v == GroupVar(c.name, "tp", g)))
  {
    if cs != [] {
      GroupVarsMembers(cs[..|cs| - 1], g, v);
      assert forall c :: c in cs <==> c in cs[..|cs| - 1] || c == cs[|cs| - 1];
    }
  }

  lemma {:induction false} AllGroupVarsMembers(cs: seq<Course>, n: nat, v: string, g: nat)
    requires 1 <= g <= n && v in GroupVars(cs, g)
    ensures v in AllGroupVars(cs, n)
  {
    var prev := AllGroupVars(cs, n - 1);
    assert AllGroupVars(cs, n) == prev + GroupVars(cs, n);
    if g < n {
      AllGroupVarsMembers(cs, n - 1, v, g);
      assert v in prev;
    }
  }

  lemma {:induction false} AllGroupVarsFrom(cs: seq<Course>, n: nat, v: string) returns (g: nat)
    requires v in AllGroupVars(cs, n)
    ensures 1 <= g <= n && v in GroupVars(cs, g)
  {
    if v in AllGroupVars(cs, n - 1) {
      g := AllGroupVarsFrom(cs, n - 1, v);
    } else {
      g := n;
    }
  }

  /** The variables are exactly the lecture names of courses with a lecture and the TD/TP
      names, for groups 1..num_groups, of courses with TD/TP sessions. */
  lemma VariablesMembers(cs: seq<Course>, n: nat, v: string)
    ensures v in VariablesOf(cs, n) <==> exists c :: c in cs && IsVariableOf(c, n, v)
  {
    LectureVarsMembers(cs, v);
    if v in AllGroupVars(cs, n) {
      var g := AllGroupVarsFrom(cs, n, v);
      GroupVarsMembers(cs, g, v);
      var c :| c in cs && ((c.td > 0 && v == GroupVar(c.name, "td", g)) ||
                           (c.tp > 0 && v == GroupVar(c.name, "tp", g)));
      assert IsVariableOf(c, n, v);
    }
    if c :| c in cs && IsVariableOf(c, n, v) {
      if !(c.lecture > 0 && v == LectureVar(c.name)) {
        var g :| 1 <= g <= n && ((c.td > 0 && v == GroupVar(c.name, "td", g)) ||
                                 (c.tp > 0 && v == GroupVar(c.name, "tp", g)));
        GroupVarsMembers(cs, g, v);
        AllGroupVarsMembers(cs, n, v, g);
      }
    }
  }

  lemma {:induction false} GroupVarsLength(cs: seq<Course>, g: nat, h: nat)
    ensures |GroupVars(cs, g)| == |GroupVars(cs, h)|
  {
    if cs != [] {
      GroupVarsLength(cs[..|cs| - 1], g, h);
    }
  }

  /** Every group contributes the same number of variables. */
  lemma {:induction false} VariablesLength(cs: seq<Course>, n: nat)
    ensures |AllGroupVars(cs, n)| == n * |GroupVars(cs, 1)|
  {
    if n > 0 {
      VariablesLength(cs, n - 1);
      GroupVarsLength(cs, n, 1);
      var k := |GroupVars(cs, 1)|;
      assert |AllGroupVars(cs, n)| == (n - 1) * k + k;
    }
  }

  // ---------------------------------------------------------------------------------------
  // Parsing a variable name

  /** `(course, session_type, group)`. */
  datatype Parsed = Parsed(course: string, session: string, group: Option<int>)

  /** main.py: `_parse_variable`. A middle part that is not a session word is glued to the
      first with a space; a name without `_` raises IndexError on `parts[1]`; a third part
      starting with "group" is read with `int`, which raises ValueError on a non-number. */
  function ParseVariable(v: string): (r: Result<Parsed>)
    ensures r == Err(IndexError) <==> '_' !in v
    ensures r.Err? ==> r.error == IndexError || r.error == ValueError
  {
    var raw := Split(v, '_');
    SeparatorParts(v);
    var parts := if |raw| > 2 && raw[1] !in ["lecture", "td", "tp"]
                 then [raw[0] + " " + raw[1]] + raw[2..] else raw;
    if |parts| < 2 then Err(IndexError)
    else if |parts| > 2 && IsPrefix("group", parts[2]) then
      var g :- ParseInt(parts[2][5..]);
      Ok(Parsed(parts[0], parts[1], Some(g)))
    else Ok(Parsed(parts[0], parts[1], None))
  }

  /** `Split` yields one part exactly when the separator is absent. */
  lemma SeparatorParts(v: string)
    ensures '_' in v ==> |Split(v, '_')| >= 2
    ensures '_' !in v ==> Split(v, '_') == [v]
  {
    if '_' in v {
      SplitWithSeparator(v, '_');
    } else {
      SplitNoSeparator(v, '_');
    }
  }

  /** `_parse_variable` inverts the lecture names, for course names without `_`. */
  lemma ParseLecture(course: string)
    requires '_' !in course
    ensures ParseVariable(LectureVar(course)) == Ok(Parsed(course, "lecture", None))
  {
    SplitLectureVar(course);
  }

  lemma SplitLectureVar(course: string)
    requires '_' !in course
    ensures Split(LectureVar(course), '_') == [course, "lecture"]
  {
    assert LectureVar(course) == course + ['_'] + "lecture";
    SplitAtFirst(course, '_', "lecture");
    SplitNoSeparator("lecture", '_');
  }

  /** `_parse_variable` inverts the TD/TP names, for course names without `_`. */
  lemma ParseGroup(course: string, kind: string, g: nat)
    requires '_' !in course && (kind == "td" || kind == "tp")
    ensures ParseVariable(GroupVar(course, kind, g)) == Ok(Parsed(course, kind, Some(g)))
  {
    var tail := "group" + NatToString(g);
    SplitGroupVar(course, kind, g);
    assert IsPrefix("group", tail) && tail[5..] == NatToString(g);
    ParseIntOfNat(g);
  }

  lemma SplitGroupVar(course: string, kind: string, g: nat)
    requires '_' !in course && '_' !in kind
    ensures Split(GroupVar(course, kind, g), '_') == [course, kind, "group" + NatToString(g)]
  {
    var tail := "group" + NatToString(g);
    assert GroupVar(course, kind, g) == course + ['_'] + (kind + ['_'] + tail);
    SplitAtFirst(course, '_', kind + ['_'] + tail);
    SplitAtFirst(kind, '_', tail);
    assert '_' !in tail;
    SplitNoSeparator(tail, '_');
  }

  /** A name with no `_` at all cannot be parsed. */
  lemma ParseNoSeparator(v: string)
    requires '_' !in v
    ensures ParseVariable(v) == Err(IndexError)
  {
    SplitNoSeparator(v, '_');
  }

  // ---------------------------------------------------------------------------------------
  // Distinct variable names

  ghost predicate NoDuplicates(s: seq<string>)
  {
    forall i, j :: 0 <= i < j < |s| ==> s[i] != s[j]
  }

  lemma DistinctAppend(a: seq<string>, b: seq<string>)
    requires NoDuplicates(a) && NoDuplicates(b) && forall x :: x in a ==> x !in b
    ensures NoDuplicates(a + b)
  {
    var s := a + b;
    forall i, j | 0 <= i < j < |s| ensures s[i] != s[j] {
      if i < |a| && |a| <= j {
        assert s[i] in a && s[j] == b[j - |a|];
      }
    }
  }

  /** Through `_parse_variable`, a lecture name determines its course. */
  lemma LectureVarInjective(a: string, b: string)
    requires '_' !in a && '_' !in b
    ensures LectureVar(a) == LectureVar(b) ==> a == b
  {
    ParseLecture(a);
    ParseLecture(b);
  }

  /** Through `_parse_variable`, a TD/TP name determines its course, kind and group. */
  lemma GroupVarInjective(a: string, k: string, g: nat, b: string, l: string, h: nat)
    requires '_' !in a && '_' !in b && (k == "td" || k == "tp") && (l == "td" || l == "tp")
    ensures GroupVar(a, k, g) == GroupVar(b, l, h) ==> a == b && k == l && g == h
  {
    ParseGroup(a, k, g);
    ParseGroup(b, l, h);
  }

  lemma LectureNotGroup(a: string, b: string, k: string, g: nat)
    requires '_' !in a && '_' !in b && (k == "td" || k == "tp")
    ensures LectureVar(a) != GroupVar(b, k, g)
  {
    ParseLecture(a);
    ParseGroup(b, k, g);
  }

  /** The last course of a catalog with distinct names differs in name from all the others. */
  lemma LastNameFresh(cs: seq<Course>)
    requires DistinctNames(cs) && cs != []
    ensures DistinctNames(cs[..|cs| - 1])
    ensures forall d :: d in cs[..|cs| - 1] ==> d.name != cs[|cs| - 1].name
  {
    var init := cs[..|cs| - 1];
    forall d | d in init ensures d.name != cs[|cs| - 1].name {
      var k :| 0 <= k < |init| && init[k] == d;
      assert cs[k] == d;
    }
  }

  lemma {:induction false} LectureVarsDistinct(cs: seq<Course>)
    requires DistinctNames(cs) && forall c :: c in cs ==> '_' !in c.name
    ensures NoDuplicates(LectureVars(cs))
  {
    if cs != [] {
      var init := cs[..|cs| - 1];
      var c := cs[|cs| - 1];
      LastNameFresh(cs);
      assert forall d :: d in init ==> d in cs;
      LectureVarsDistinct(init);
      var tail := if c.lecture > 0 then [LectureVar(c.name)] else [];
      forall x | x in LectureVars(init) ensures x !in tail {
        LectureVarsMembers(init, x);
        var d :| d in init && d.lecture > 0 && x == LectureVar(d.name);
        LectureVarInjective(d.name, c.name);
      }
      DistinctAppend(LectureVars(init), tail);
    }
  }

  lemma {:induction false} GroupVarsDistinct(cs: seq<Course>, g: nat)
    requires DistinctNames(cs) && forall c :: c in cs ==> '_' !in c.name
    ensures NoDuplicates(GroupVars(cs, g))
  {
    if cs != [] {
      var init := cs[..|cs| - 1];
      var c := cs[|cs| - 1];
      LastNameFresh(cs);
      assert forall d :: d in init ==> d in cs;
      GroupVarsDistinct(init, g);
      GroupVarInjective(c.name, "td", g, c.name, "tp", g);
      forall x | x in GroupVars(init, g) ensures x !in CourseGroupVars(c, g) {
        GroupVarsMembers(init, g, x);
        var d :| d in init && ((d.td > 0 && x == GroupVar(d.name, "td", g)) ||
                               (d.tp > 0 && x == GroupVar(d.name, "tp", g)));
        GroupVarInjective(d.name, "td", g, c.name, "td", g);
        GroupVarInjective(d.name, "td", g, c.name, "tp", g);
        GroupVarInjective(d.name, "tp", g, c.name, "td", g);
        GroupVarInjective(d.name, "tp", g, c.name, "tp", g);
      }
      DistinctAppend(GroupVars(init, g), CourseGroupVars(c, g));
    }
  }

  /** A TD/TP name of group `g <= n` is not a name of group `n + 1`. */
  lemma OtherGroup(cs: seq<Course>, x: string, d: Course, k: string, g: nat, h: nat)
    requires forall c :: c in cs ==> '_' !in c.name
    requires '_' !in d.name && (k == "td" || k == "tp") && x == GroupVar(d.name, k, g) && g != h
    ensures x !in GroupVars(cs, h)
  {
    GroupVarsMembers(cs, h, x);
    forall c | c in cs ensures x != GroupVar(c.name, "td", h) && x != GroupVar(c.name, "tp", h) {
      GroupVarInjective(d.name, k, g, c.name, "td", h);
      GroupVarInjective(d.name, k, g, c.name, "tp", h);
    }
  }

  lemma {:induction false} AllGroupVarsDistinct(cs: seq<Course>, n: nat)
    requires DistinctNames(cs) && forall c :: c in cs ==> '_' !in c.name
    ensures NoDuplicates(AllGroupVars(cs, n))
  {
    if n > 0 {
      AllGroupVarsDistinct(cs, n - 1);
      GroupVarsDistinct(cs, n);
      forall x | x in AllGroupVars(cs, n - 1) ensures x !in GroupVars(cs, n) {
        EarlierGroupVar(cs, n, x);
      }
      DistinctAppend(AllGroupVars(cs, n - 1), GroupVars(cs, n));
    }
  }

  /** A name of groups `1..n-1` is not a name of group `n`. */
  lemma EarlierGroupVar(cs: seq<Course>, n: nat, x: string)
    requires n > 0 && forall c :: c in cs ==> '_' !in c.name
    requires x in AllGroupVars(cs, n - 1)
    ensures x !in GroupVars(cs, n)
  {
    var g := AllGroupVarsFrom(cs, n - 1, x);
    GroupVarsMembers(cs, g, x);
    var d :| d in cs && ((d.td > 0 && x == GroupVar(d.name, "td", g)) ||
                         (d.tp > 0 && x == GroupVar(d.name, "tp", g)));
    if x == GroupVar(d.name, "td", g) {
      OtherGroup(cs, x, d, "td", g, n);
    } else {
      OtherGroup(cs, x, d, "tp", g, n);
    }
  }

  /** For a well-formed catalog, `_create_variables` never makes the same name twice. */
  lemma VariablesDistinct(cs: seq<Course>, n: nat)
    requires WellFormed(cs, n)
    ensures NoDuplicates(VariablesOf(cs, n))
  {
    LectureVarsDistinct(cs);
    AllGroupVarsDistinct(cs, n);
    forall x | x in LectureVars(cs) ensures x !in AllGroupVars(cs, n) {
      LectureVarsMembers(cs, x);
      var c :| c in cs && c.lecture > 0 && x == LectureVar(c.name);
      if x in AllGroupVars(cs, n) {
        var g := AllGroupVarsFrom(cs, n, x);
        GroupVarsMembers(cs, g, x);
        var d :| d in cs && ((d.td > 0 && x == GroupVar(d.name, "td", g)) ||
                             (d.tp > 0 && x == GroupVar(d.name, "tp", g)));
        LectureNotGroup(c.name, d.name, "td", g);
        LectureNotGroup(c.name, d.name, "tp", g);
      }
    }
    DistinctAppend(LectureVars(cs), AllGroupVars(cs, n));
  }

  // ---------------------------------------------------------------------------------------
  // Teacher lookup

  /** `self.courses[name]`: the entry with that name, or KeyError. */
  function Find(cs: seq<Course>, name: string): (r: Result<Course>)
    ensures r.Err? <==> forall c :: c in cs ==> c.name != name
    ensures r.Err? ==> r.error == KeyError
    ensures r.Ok? ==> r.value.name == name &&
                      exists i :: 0 <= i < |cs| && cs[i] == r.value &&
                                  forall j :: 0 <= j < i ==> cs[j].name != name
  {
    if cs == [] then Err(KeyError)
    else if cs[0].name == name then Ok(cs[0])
    else
      var r := Find(cs[1..], name);
      assert forall c :: c in cs <==> c == cs[0] || c in cs[1..];
      if r.Ok? then
        var i :| 0 <= i < |cs[1..]| && cs[1..][i] == r.value &&
                 forall j :: 0 <= j < i ==> cs[1..][j].name != name;
        assert cs[i + 1] == r.value && forall j :: 0 <= j < i + 1 ==> cs[j].name != name;
        r
      else r
  }

  /** A dictionary has each course name once. */
  ghost predicate DistinctNames(cs: seq<Course>)
  {
    forall i, j :: 0 <= i < j < |cs| ==> cs[i].name != cs[j].name
  }

  lemma FindDistinct(cs: seq<Course>, i: nat)
    requires DistinctNames(cs) && i < |cs|
    ensures Find(cs, cs[i].name) == Ok(cs[i])
  {
  }

  /** Python indexing `s[i]`, negative indices counting from the end. */
  function PyIndex<T>(s: seq<T>, i: int): (r: Result<T>)
    ensures r.Ok? <==> -|s| <= i < |s|
    ensures r.Err? ==> r.error == IndexError
    ensures 0 <= i < |s| ==> r == Ok(s[i])
    ensures -|s| <= i < 0 ==> r == Ok(s[|s| + i])
  {
    if 0 <= i < |s| then Ok(s[i]) else if -|s| <= i < 0 then Ok(s[|s| + i]) else Err(IndexError)
  }

  /** A present list entry of a course, or KeyError. */
  function Entry(o: Option<seq<string>>): Result<seq<string>>
  {
    match o case Some(s) => Ok(s) case None => Err(KeyError)
  }

  /** `t` appears somewhere in the teacher entries of `c`. */
  predicate Teaches(c: Course, t: string)
  {
    c.teacherLecture == Some(t) || c.teacherTd == Some(t) ||
    (c.teacherTp.Some? && t in c.teacherTp.value) ||
    (c.groupTeachersTd.Some? && t in c.groupTeachersTd.value) ||
    (c.groupTeachersTp.Some? && t in c.groupTeachersTp.value)
  }

  /** main.py: `get_teacher_for_session`. None stands for Python's None, returned for an
      unknown session word. A TD name without group evaluates the `get` default
      `courses[course]["teacher_lecture"]` first, so a missing lecture teacher raises
      KeyError even when `teacher_td` is present. */
  function TeacherFor(cs: seq<Course>, v: string): (r: Result<Option<string>>)
    ensures r.Ok? ==> ParseVariable(v).Ok?
    ensures r == Ok(None) <==>
              ParseVariable(v).Ok? && ParseVariable(v).value.session !in ["lecture", "td", "tp"]
    ensures r.Ok? && r.value.Some? ==>
              Find(cs, ParseVariable(v).value.course).Ok? &&
              Teaches(Find(cs, ParseVariable(v).value.course).value, r.value.value)
    ensures r.Err? ==> r.error != ZeroDivisionError
  {
    var p :- ParseVariable(v);
    if p.session == "lecture" then
      var c :- Find(cs, p.course);
      match c.teacherLecture
      case None => Err(KeyError)
      case Some(t) => Ok(Some(t))
    else if p.session == "td" then
      var c :- Find(cs, p.course);
      match p.group
      case Some(g) =>
        var names :- Entry(c.groupTeachersTd);
        var t :- PyIndex(names, g - 1);
        Ok(Some(t))
      case None =>
        match c.teacherLecture
        case None => Err(KeyError)
        case Some(l) => Ok(Some(match c.teacherTd case Some(t) => t case None => l))
    else if p.session == "tp" then
      var c :- Find(cs, p.course);
      match p.group
      case Some(g) =>
        var names :- Entry(c.groupTeachersTp);
        var t :- PyIndex(names, g - 1);
        Ok(Some(t))
      case None =>
        var tps :- Entry(c.teacherTp);
        var t :- PyIndex(tps, 0);
        Ok(Some(t))
    else Ok(None)
  }

  /** What `_assign_group_teachers` demands for every course to get its teacher lists and
      every variable name to resolve: course names without `_`, a lecture teacher for a course
      with lectures, and a non-empty `teacher_tp` for a course with TP sessions and groups. */
  ghost predicate WellFormed(cs: seq<Course>, n: nat)
  {
    DistinctNames(cs) &&
    forall c :: c in cs ==>
      '_' !in c.name &&
      (c.lecture > 0 ==> c.teacherLecture.Some?) &&
      (c.tp > 0 && n > 0 ==> c.teacherTp.Some? && c.teacherTp.value != [])
  }

  /** The teacher `get_teacher_for_session` finds for a generated name of course `c`. */
  function SessionTeacher(c: Course, n: nat, kind: string, g: nat): string
    requires 1 <= g <= n && (kind == "td" || kind == "tp")
    requires kind == "tp" ==> c.teacherTp.Some? && c.teacherTp.value != []
  {
    if kind == "td" then GroupTeacher(TdBase(c), g)
    else GroupTeacher(c.teacherTp.value[g % |c.teacherTp.value|], g)
  }

  lemma AssignedFind(cs: seq<Course>, n: nat, c: Course) returns (d: Course)
    requires DistinctNames(cs) && AssignAll(cs, n).Ok? && c in cs
    ensures WithGroupTeachers(c, n) == Ok(d)
    ensures Find(AssignAll(cs, n).value, c.name) == Ok(d)
  {
    AssignAllFacts(cs, n);
    var r := AssignAll(cs, n).value;
    var i :| 0 <= i < |cs| && cs[i] == c;
    d := r[i];
    forall a, b | 0 <= a < b < |r| ensures r[a].name != r[b].name {
      GroupTeacherNames(cs[a], n);
      GroupTeacherNames(cs[b], n);
    }
    GroupTeacherNames(c, n);
    FindDistinct(r, i);
  }

  /** On a well-formed catalog a lecture name resolves to `teacher_lecture`. */
  lemma ResolvesLecture(cs: seq<Course>, n: nat, c: Course)
    requires WellFormed(cs, n) && AssignAll(cs, n).Ok? && c in cs && c.lecture > 0
    ensures TeacherFor(AssignAll(cs, n).value, LectureVar(c.name)) == Ok(c.teacherLecture)
  {
    var d := AssignedFind(cs, n, c);
    GroupTeacherNames(c, n);
    ParseLecture(c.name);
  }

  /** On a well-formed catalog the TD name of group g resolves to
      `"<teacher_td or teacher_lecture>_Group<g>"` and the TP name to
      `"<teacher_tp[g % len]>_Group<g>"`. */
  lemma ResolvesGroup(cs: seq<Course>, n: nat, c: Course, kind: string, g: nat)
    requires WellFormed(cs, n) && AssignAll(cs, n).Ok? && c in cs && 1 <= g <= n
    requires (kind == "td" && c.td > 0) || (kind == "tp" && c.tp > 0)
    ensures TeacherFor(AssignAll(cs, n).value, GroupVar(c.name, kind, g)) ==
              Ok(Some(SessionTeacher(c, n, kind, g)))
  {
    var d := AssignedFind(cs, n, c);
    GroupTeacherNames(c, n);
    TeacherForGroup(AssignAll(cs, n).value, c.name, kind, g, d);
  }

  /** The lookup of a TD/TP name goes through the course record `_parse_variable` names. */
  lemma TeacherForGroup(r: seq<Course>, name: string, kind: string, g: nat, d: Course)
    requires '_' !in name && (kind == "td" || kind == "tp") && g >= 1
    requires Find(r, name) == Ok(d)
    requires kind == "td" ==> d.groupTeachersTd.Some? && g <= |d.groupTeachersTd.value|
    requires kind == "tp" ==> d.groupTeachersTp.Some? && g <= |d.groupTeachersTp.value|
    ensures TeacherFor(r, GroupVar(name, kind, g)) ==
              Ok(Some(if kind == "td" then d.groupTeachersTd.value[g - 1]
                      else d.groupTeachersTp.value[g - 1]))
  {
    ParseGroup(name, kind, g);
  }

  /** On a well-formed catalog every variable `_create_variables` makes has a teacher. */
  lemma VariableResolves(cs: seq<Course>, n: nat, v: string)
    requires WellFormed(cs, n) && AssignAll(cs, n).Ok? && v in VariablesOf(cs, n)
    ensures ParseVariable(v).Ok?
    ensures TeacherFor(AssignAll(cs, n).value, v).Ok?
    ensures TeacherFor(AssignAll(cs, n).value, v).value.Some?
  {
    VariablesMembers(cs, n, v);
    var c :| c in cs && IsVariableOf(c, n, v);
    if c.lecture > 0 && v == LectureVar(c.name) {
      ParseLecture(c.name);
      ResolvesLecture(cs, n, c);
    } else {
      var g :| 1 <= g <= n && ((c.td > 0 && v == GroupVar(c.name, "td", g)) ||
                               (c.tp > 0 && v == GroupVar(c.name, "tp", g)));
      if c.td > 0 && v == GroupVar(c.name, "td", g) {
        ParseGroup(c.name, "td", g);
        ResolvesGroup(cs, n, c, "td", g);
      } else {
        ParseGroup(c.name, "tp", g);
        ResolvesGroup(cs, n, c, "tp", g);
      }
    }
  }

  // ---------------------------------------------------------------------------------------
  // The constraint graph

  /** main.py: `_should_add_constraint`: a shared non-None group, then a shared teacher (two
      Nones count as equal), then a lecture paired with a group session of the same course. */
  function ShouldAdd(cs: seq<Course>, v1: string, v2: string): (r: Result<bool>)
    ensures r.Ok? ==> ParseVariable(v1).Ok? && ParseVariable(v2).Ok?
    ensures TeacherFor(cs, v1).Ok? && TeacherFor(cs, v2).Ok? ==> r.Ok?
    ensures TeacherFor(cs, v1).Ok? && TeacherFor(cs, v1) == TeacherFor(cs, v2) ==> r == Ok(true)
    ensures v1 == v2 && TeacherFor(cs, v1).Ok? ==> r == Ok(true)
    ensures r.Err? ==> r.error != ZeroDivisionError
  {
    var p1 :- ParseVariable(v1);
    var p2 :- ParseVariable(v2);
    if p1.group == p2.group && p1.group.Some? then Ok(true)
    else
      var t1 :- TeacherFor(cs, v1);
      var t2 :- TeacherFor(cs, v2);
      if t1 == t2 then Ok(true)
      else Ok(p1.course == p2.course &&
              ((p1.session == "lecture" && p2.group.Some?) ||
               (p2.session == "lecture" && p1.group.Some?)))
  }

  /** Two sessions of the same group are always constrained, whoever teaches them. */
  lemma GroupmatesConstrained(cs: seq<Course>, c1: string, k1: string, c2: string,
                              k2: string, g: nat)
    requires '_' !in c1 && '_' !in c2
    requires (k1 == "td" || k1 == "tp") && (k2 == "td" || k2 == "tp")
    ensures ShouldAdd(cs, GroupVar(c1, k1, g), GroupVar(c2, k2, g)) == Ok(true)
  {
    ParseGroup(c1, k1, g);
    ParseGroup(c2, k2, g);
  }

  /** Sessions of different groups are constrained exactly when their teachers coincide. */
  lemma OtherGroupsByTeacher(cs: seq<Course>, n: nat, c1: Course, k1: string, g1: nat,
                             c2: Course, k2: string, g2: nat)
    requires WellFormed(cs, n) && AssignAll(cs, n).Ok? && c1 in cs && c2 in cs
    requires 1 <= g1 <= n && 1 <= g2 <= n && g1 != g2
    requires (k1 == "td" && c1.td > 0) || (k1 == "tp" && c1.tp > 0)
    requires (k2 == "td" && c2.td > 0) || (k2 == "tp" && c2.tp > 0)
    ensures ShouldAdd(AssignAll(cs, n).value, GroupVar(c1.name, k1, g1), GroupVar(c2.name, k2, g2)) ==
              Ok(SessionTeacher(c1, n, k1, g1) == SessionTeacher(c2, n, k2, g2))
  {
    ParseGroup(c1.name, k1, g1);
    ParseGroup(c2.name, k2, g2);
    ResolvesGroup(cs, n, c1, k1, g1);
    ResolvesGroup(cs, n, c2, k2, g2);
  }

  /** Two lectures are constrained exactly when they share a teacher. */
  lemma LecturesByTeacher(cs: seq<Course>, n: nat, c1: Course, c2: Course)
    requires WellFormed(cs, n) && AssignAll(cs, n).Ok? && c1 in cs && c2 in cs
    requires c1.lecture > 0 && c2.lecture > 0
    ensures ShouldAdd(AssignAll(cs, n).value, LectureVar(c1.name), LectureVar(c2.name)) ==
              Ok(c1.teacherLecture == c2.teacherLecture)
  {
    ParseLecture(c1.name);
    ParseLecture(c2.name);
    ResolvesLecture(cs, n, c1);
    ResolvesLecture(cs, n, c2);
  }

  /** A lecture and a group session are constrained exactly when they belong to the same
      course or share a teacher. */
  lemma LectureAndSession(cs: seq<Course>, n: nat, c1: Course, c2: Course, k: string, g: nat)
    requires WellFormed(cs, n) && AssignAll(cs, n).Ok? && c1 in cs && c2 in cs
    requires c1.lecture > 0 && 1 <= g <= n
    requires (k == "td" && c2.td > 0) || (k == "tp" && c2.tp > 0)
    ensures ShouldAdd(AssignAll(cs, n).value, LectureVar(c1.name), GroupVar(c2.name, k, g)) ==
              Ok(c1.name == c2.name || c1.teacherLecture == Some(SessionTeacher(c2, n, k, g)))
  {
    ParseLecture(c1.name);
    ParseGroup(c2.name, k, g);
    ResolvesLecture(cs, n, c1);
    ResolvesGroup(cs, n, c2, k, g);
  }

  /** The arcs `_create_constraints` adds for `var1` against each later `var2`. */
  function PairArcs(cs: seq<Course>, v: string, ws: seq<string>): Result<seq<Arc<string, Relation>>>
  {
    if ws == [] then Ok([])
    else
      var add :- ShouldAdd(cs, v, ws[0]);
      var rest :- PairArcs(cs, v, ws[1..]);
      Ok((if add then [Arc(v, ws[0], NotEqual)] else []) + rest)
  }

  /** The `constraints` list of `_create_constraints`. */
  function ConstraintsOf(cs: seq<Course>, vs: seq<string>): Result<seq<Arc<string, Relation>>>
  {
    if vs == [] then Ok([])
    else
      var row :- PairArcs(cs, vs[0], vs[1..]);
      var rest :- ConstraintsOf(cs, vs[1..]);
      Ok(row + rest)
  }

  /** `acc` followed by the result of `r`, or the error of `r`. */
  function Prepend<T>(acc: seq<T>, r: Result<seq<T>>): Result<seq<T>>
  {
    match r case Ok(x) => Ok(acc + x) case Err(e) => Err(e)
  }

  lemma PrependFacts<T>(a: seq<T>, b: seq<T>, r: Result<seq<T>>)
    ensures Prepend([], r) == r
    ensures Prepend(a, Prepend(b, r)) == Prepend(a + b, r)
    ensures Prepend(a, Ok([])) == Ok(a)
  {
    assert a + [] == a;
    if r.Ok? {
      assert [] + r.value == r.value;
      assert a + (b + r.value) == (a + b) + r.value;
    }
  }

  /** main.py: `_create_constraints`, the two loops as written. */
  method CreateConstraints(cs: seq<Course>, vars: seq<string>)
    returns (r: Result<seq<Arc<string, Relation>>>)
    ensures r == ConstraintsOf(cs, vars)
  {
    var acc: seq<Arc<string, Relation>> := [];
    var i := 0;
    assert vars[0..] == vars;
    PrependFacts(acc, acc, ConstraintsOf(cs, vars));
    while i < |vars|
      invariant 0 <= i <= |vars|
      invariant ConstraintsOf(cs, vars) == Prepend(acc, ConstraintsOf(cs, vars[i..]))
    {
      assert vars[i..][1..] == vars[i + 1..];
      var row := PairLoop(cs, vars[i], vars[i + 1..]);
      if row.Err? {
        return row;
      }
      PrependFacts(acc, row.value, ConstraintsOf(cs, vars[i + 1..]));
      acc := acc + row.value;
      i := i + 1;
    }
    assert vars[i..] == [];
    PrependFacts(acc, acc, Ok([]));
    return Ok(acc);
  }

  /** The inner loop of `_create_constraints`, for one `var1`. */
  method PairLoop(cs: seq<Course>, v: string, ws: seq<string>)
    returns (r: Result<seq<Arc<string, Relation>>>)
    ensures r == PairArcs(cs, v, ws)
  {
    var acc: seq<Arc<string, Relation>> := [];
    var j := 0;
    assert ws[0..] == ws;
    PrependFacts(acc, acc, PairArcs(cs, v, ws));
    while j < |ws|
      invariant 0 <= j <= |ws|
      invariant PairArcs(cs, v, ws) == Prepend(acc, PairArcs(cs, v, ws[j..]))
    {
      assert ws[j..][1..] == ws[j + 1..];
      var add := ShouldAdd(cs, v, ws[j]);
      if add.Err? {
        return Err(add.error);
      }
      var one := if add.value then [Arc(v, ws[j], NotEqual)] else [];
      PrependFacts(acc, one, PairArcs(cs, v, ws[j + 1..]));
      if add.value {
        acc := acc + [Arc(v, ws[j], NotEqual)];
      } else {
        assert acc + one == acc;
      }
      j := j + 1;
    }
    assert ws[j..] == [];
    PrependFacts(acc, acc, Ok([]));
    return Ok(acc);
  }

  lemma {:induction false} PairArcsMembers(cs: seq<Course>, v: string, ws: seq<string>)
    ensures PairArcs(cs, v, ws).Ok? <==> forall j :: 0 <= j < |ws| ==> ShouldAdd(cs, v, ws[j]).Ok?
    ensures PairArcs(cs, v, ws).Ok? ==>
              forall a :: a in PairArcs(cs, v, ws).value <==>
                exists j :: 0 <= j < |ws| && a == Arc(v, ws[j], NotEqual) &&
                            ShouldAdd(cs, v, ws[j]) == Ok(true)
  {
    if ws != [] {
      PairArcsMembers(cs, v, ws[1..]);
      assert forall j :: 1 <= j < |ws| ==> ws[j] == ws[1..][j - 1];
      if PairArcs(cs, v, ws).Ok? {
        forall a | a in PairArcs(cs, v, ws).value
          ensures exists j :: 0 <= j < |ws| && a == Arc(v, ws[j], NotEqual) &&
                              ShouldAdd(cs, v, ws[j]) == Ok(true)
        {
          if a !in PairArcs(cs, v, ws[1..]).value {
            assert a == Arc(v, ws[0], NotEqual) && ShouldAdd(cs, v, ws[0]) == Ok(true);
          } else {
            var j :| 0 <= j < |ws[1..]| && a == Arc(v, ws[1..][j], NotEqual) &&
                     ShouldAdd(cs, v, ws[1..][j]) == Ok(true);
            assert a == Arc(v, ws[j + 1], NotEqual);
          }
        }
      }
    }
  }

  /** `_create_constraints` succeeds exactly when every pair `i < j` can be classified, and
      then holds `(vars[i], vars[j], !=)` exactly for the pairs `_should_add_constraint`
      accepts. */
  lemma {:induction false} ConstraintsMembers(cs: seq<Course>, vs: seq<string>)
    ensures ConstraintsOf(cs, vs).Ok? <==>
              forall i, j :: 0 <= i < j < |vs| ==> ShouldAdd(cs, vs[i], vs[j]).Ok?
    ensures ConstraintsOf(cs, vs).Ok? ==>
              forall a :: a in ConstraintsOf(cs, vs).value <==>
                exists i, j :: 0 <= i < j < |vs| && a == Arc(vs[i], vs[j], NotEqual) &&
                               ShouldAdd(cs, vs[i], vs[j]) == Ok(true)
  {
    if vs != [] {
      ConstraintsMembers(cs, vs[1..]);
      PairArcsMembers(cs, vs[0], vs[1..]);
      ConstraintsOkStep(cs, vs);
      if ConstraintsOf(cs, vs).Ok? {
        ConstraintsArcsStep(cs, vs);
      }
    }
  }

  /** The first half of one step of `ConstraintsMembers`: which calls raise. */
  lemma ConstraintsOkStep(cs: seq<Course>, vs: seq<string>)
    requires vs != []
    requires ConstraintsOf(cs, vs[1..]).Ok? <==>
               forall i, j :: 0 <= i < j < |vs[1..]| ==> ShouldAdd(cs, vs[1..][i], vs[1..][j]).Ok?
    requires PairArcs(cs, vs[0], vs[1..]).Ok? <==>
               forall j :: 0 <= j < |vs[1..]| ==> ShouldAdd(cs, vs[0], vs[1..][j]).Ok?
    ensures ConstraintsOf(cs, vs).Ok? <==>
              forall i, j :: 0 <= i < j < |vs| ==> ShouldAdd(cs, vs[i], vs[j]).Ok?
  {
    var t := vs[1..];
    assert forall j :: 1 <= j < |vs| ==> vs[j] == t[j - 1];
    if forall i, j :: 0 <= i < j < |vs| ==> ShouldAdd(cs, vs[i], vs[j]).Ok? {
      assert forall j :: 0 <= j < |t| ==> ShouldAdd(cs, vs[0], t[j]).Ok? by {
        forall j | 0 <= j < |t| ensures ShouldAdd(cs, vs[0], t[j]).Ok? {
          assert ShouldAdd(cs, vs[0], vs[j + 1]).Ok?;
        }
      }
      assert forall i, j :: 0 <= i < j < |t| ==> ShouldAdd(cs, t[i], t[j]).Ok? by {
        forall i, j | 0 <= i < j < |t| ensures ShouldAdd(cs, t[i], t[j]).Ok? {
          assert ShouldAdd(cs, vs[i + 1], vs[j + 1]).Ok?;
        }
      }
    }
    if ConstraintsOf(cs, vs).Ok? {
      forall i, j | 0 <= i < j < |vs| ensures ShouldAdd(cs, vs[i], vs[j]).Ok? {
        if i == 0 {
          assert ShouldAdd(cs, vs[0], t[j - 1]).Ok?;
        } else {
          assert ShouldAdd(cs, t[i - 1], t[j - 1]).Ok?;
        }
      }
    }
  }

  /** The second half of one step of `ConstraintsMembers`: which arcs the list holds. */
  lemma ConstraintsArcsStep(cs: seq<Course>, vs: seq<string>)
    requires vs != [] && ConstraintsOf(cs, vs).Ok?
    requires forall a :: a in ConstraintsOf(cs, vs[1..]).value <==>
               exists i, j :: 0 <= i < j < |vs[1..]| && a == Arc(vs[1..][i], vs[1..][j], NotEqual) &&
                              ShouldAdd(cs, vs[1..][i], vs[1..][j]) == Ok(true)
    requires forall a :: a in PairArcs(cs, vs[0], vs[1..]).value <==>
               exists j :: 0 <= j < |vs[1..]| && a == Arc(vs[0], vs[1..][j], NotEqual) &&
                           ShouldAdd(cs, vs[0], vs[1..][j]) == Ok(true)
    ensures forall a :: a in ConstraintsOf(cs, vs).value <==>
              exists i, j :: 0 <= i < j < |vs| && a == Arc(vs[i], vs[j], NotEqual) &&
                             ShouldAdd(cs, vs[i], vs[j]) == Ok(true)
  {
    var t := vs[1..];
    assert forall j :: 1 <= j < |vs| ==> vs[j] == t[j - 1];
    var row := PairArcs(cs, vs[0], t).value;
    var rest := ConstraintsOf(cs, t).value;
    assert ConstraintsOf(cs, vs).value == row + rest;
    forall a | a in row + rest
      ensures exists i, j :: 0 <= i < j < |vs| && a == Arc(vs[i], vs[j], NotEqual) &&
                             ShouldAdd(cs, vs[i], vs[j]) == Ok(true)
    {
      if a in row {
        var j :| 0 <= j < |t| && a == Arc(vs[0], t[j], NotEqual) &&
                 ShouldAdd(cs, vs[0], t[j]) == Ok(true);
        assert a == Arc(vs[0], vs[j + 1], NotEqual);
      } else {
        var i, j :| 0 <= i < j < |t| && a == Arc(t[i], t[j], NotEqual) &&
                    ShouldAdd(cs, t[i], t[j]) == Ok(true);
        assert a == Arc(vs[i + 1], vs[j + 1], NotEqual);
      }
    }
    forall i, j | 0 <= i < j < |vs| && ShouldAdd(cs, vs[i], vs[j]) == Ok(true)
      ensures Arc(vs[i], vs[j], NotEqual) in row + rest
    {
      if i == 0 {
        assert Arc(vs[i], vs[j], NotEqual) == Arc(vs[0], t[j - 1], NotEqual);
        assert Arc(vs[i], vs[j], NotEqual) in row;
      } else {
        assert Arc(vs[i], vs[j], NotEqual) == Arc(t[i - 1], t[j - 1], NotEqual);
        assert Arc(vs[i], vs[j], NotEqual) in rest;
      }
    }
  }

  // ---------------------------------------------------------------------------------------
  // Set-up

  /** What `__init__` computes before the domains: the slot calendar, the catalog with its
      group teacher lists, the variables and the constraints. */
  datatype Problem = Problem(slots: seq<Time>, courses: seq<Course>, variables: seq<string>,
                             constraints: seq<Arc<string, Relation>>)

  /** main.py: `__init__` up to the domains, step by step; the first step that raises ends
      it. */
  function Setup(n: nat, days: seq<string>, perDay: map<string, int>, catalog: seq<Course>)
    : Result<Problem>
  {
    var slots :- SlotsOf(days, perDay);
    var courses :- AssignAll(catalog, n);
    var vars := VariablesOf(courses, n);
    var arcs :- ConstraintsOf(courses, vars);
    Ok(Problem(slots, courses, vars, arcs))
  }

  lemma {:induction false} AssignAllOk(cs: seq<Course>, n: nat)
    requires forall c :: c in cs ==> (c.tp > 0 && n > 0 ==> c.teacherTp.Some? && c.teacherTp.value != [])
    ensures AssignAll(cs, n).Ok?
  {
    if cs != [] {
      AssignAllOk(cs[..|cs| - 1], n);
      var c := cs[|cs| - 1];
      if c.tp > 0 && n > 0 {
        TpOk(c.teacherTp.value, n);
      }
    }
  }

  lemma {:induction false} TpOk(ts: seq<string>, n: nat)
    requires ts != []
    ensures TpTeachers(Some(ts), n).Ok?
  {
    if n > 0 {
      TpOk(ts, n - 1);
    }
  }

  /** Assigning teachers keeps the names, the session counts and the teacher entries. */
  lemma {:induction false} AssignKeepsShape(cs: seq<Course>, n: nat)
    requires AssignAll(cs, n).Ok?
    ensures VariablesOf(AssignAll(cs, n).value, n) == VariablesOf(cs, n)
    ensures WellFormed(cs, n) ==> WellFormed(AssignAll(cs, n).value, n)
  {
    var r := AssignAll(cs, n).value;
    AssignAllFacts(cs, n);
    forall i | 0 <= i < |cs| ensures r[i].name == cs[i].name && r[i].lecture == cs[i].lecture &&
                                     r[i].td == cs[i].td && r[i].tp == cs[i].tp &&
                                     r[i].teacherLecture == cs[i].teacherLecture &&
                                     r[i].teacherTp == cs[i].teacherTp {
      GroupTeacherNames(cs[i], n);
    }
    SameShapeVariables(cs, r, n);
  }

  lemma {:induction false} SameShapeVariables(cs: seq<Course>, ds: seq<Course>, n: nat)
    requires |cs| == |ds|
    requires forall i :: 0 <= i < |cs| ==>
               (ds[i].name == cs[i].name && ds[i].lecture == cs[i].lecture &&
                ds[i].td == cs[i].td && ds[i].tp == cs[i].tp)
    ensures VariablesOf(ds, n) == VariablesOf(cs, n)
  {
    LectureVarsShape(cs, ds);
    var g := 0;
    while g < n
      invariant g <= n
      invariant AllGroupVars(ds, g) == AllGroupVars(cs, g)
    {
      g := g + 1;
      GroupVarsShape(cs, ds, g);
    }
  }

  lemma {:induction false} LectureVarsShape(cs: seq<Course>, ds: seq<Course>)
    requires |cs| == |ds|
    requires forall i :: 0 <= i < |cs| ==> ds[i].name == cs[i].name && ds[i].lecture == cs[i].lecture
    ensures LectureVars(ds) == LectureVars(cs)
  {
    if cs != [] {
      LectureVarsShape(cs[..|cs| - 1], ds[..|ds| - 1]);
    }
  }

  lemma {:induction false} GroupVarsShape(cs: seq<Course>, ds: seq<Course>, g: nat)
    requires |cs| == |ds|
    requires forall i :: 0 <= i < |cs| ==>
               (ds[i].name == cs[i].name && ds[i].td == cs[i].td && ds[i].tp == cs[i].tp)
    ensures GroupVars(ds, g) == GroupVars(cs, g)
  {
    if cs != [] {
      GroupVarsShape(cs[..|cs| - 1], ds[..|ds| - 1], g);
    }
  }

  /** On a well-formed catalog whose days all have a slot count, `__init__` raises
      nothing. */
  lemma SetupSucceeds(n: nat, days: seq<string>, perDay: map<string, int>, catalog: seq<Course>)
    requires WellFormed(catalog, n) && forall d :: d in days ==> d in perDay
    ensures Setup(n, days, perDay, catalog).Ok?
  {
    SlotsMembers(days, perDay);
    AssignAllOk(catalog, n);
    AssignKeepsShape(catalog, n);
    var courses := AssignAll(catalog, n).value;
    var vars := VariablesOf(courses, n);
    forall i, j | 0 <= i < j < |vars| ensures ShouldAdd(courses, vars[i], vars[j]).Ok? {
      VariableResolves(catalog, n, vars[i]);
      VariableResolves(catalog, n, vars[j]);
    }
    ConstraintsMembers(courses, vars);
  }

  // ---------------------------------------------------------------------------------------
  // The catalog main.py ships

  /** A course with one lecture and, when `td > 0`, one TD taught by the same teacher. */
  function Taught(name: string, td: int, teacher: string): Course
  {
    Course(name, 1, td, 0, Some(teacher), if td > 0 then Some(teacher) else None, None, None, None)
  }

  /** A course with a lecture, a TD and a TP, and three TP teachers to rotate through. */
  function WithLab(name: string, teacher: string, tps: seq<string>): Course
  {
    Course(name, 1, 1, 1, Some(teacher), Some(teacher), Some(tps), None, None)
  }

  /** main.py's `self.courses`, in insertion order (the longer names are written word by word,
      which lets each piece be checked for `_` on its own). */
  function SourceCatalog(): seq<Course>
  {
    [Taught("Sécurité", 1, "Teacher 1"),
     Taught("Méthodes" + " formelles", 1, "Teacher 2"),
     Taught("Analyse" + " numérique", 1, "Teacher 3"),
     Taught("Entrepreneuriat", 0, "Teacher 4"),
     Taught("Recherche" + " opérationnelle" + " 2", 1, "Teacher 5"),
     Taught("Distributed" + " Architecture" + " & Intensive" + " Computing", 1, "Teacher 6"),
     WithLab("Réseaux 2", "Teacher 7", ["Teacher 8", "Teacher 9", "Teacher 10"]),
     WithLab("Artificial" + " Intelligence", "Teacher 11",
             ["Teacher 12", "Teacher 13", "Teacher 14"])]
  }

  lemma SourceWellFormed()
    ensures WellFormed(SourceCatalog(), 6)
  {
    var cs := SourceCatalog();
    SourceDistinct();
    forall c | c in cs
      ensures '_' !in c.name && (c.lecture > 0 ==> c.teacherLecture.Some?) &&
              (c.tp > 0 ==> c.teacherTp.Some? && c.teacherTp.value != [])
    {
      var i :| 0 <= i < |cs| && cs[i] == c;
      NoUnderscoreAt(i);
    }
  }

  lemma NoUnderscoreAt(i: nat)
    requires i < 8
    ensures '_' !in SourceCatalog()[i].name
    ensures SourceCatalog()[i].teacherLecture.Some?
    ensures SourceCatalog()[i].tp > 0 ==>
              SourceCatalog()[i].teacherTp.Some? && SourceCatalog()[i].teacherTp.value != []
  {
    var cs := SourceCatalog();
    if i == 0 {
      assert cs[0].name == "Sécurité";
    } else if i == 1 {
      assert '_' !in "Méthodes" && '_' !in " formelles";
    } else if i == 2 {
      assert '_' !in "Analyse" && '_' !in " numérique";
    } else if i == 3 {
      assert cs[3].name == "Entrepreneuriat";
    } else if i == 4 {
      assert '_' !in "Recherche" && '_' !in " opérationnelle" && '_' !in " 2";
    } else if i == 5 {
      assert '_' !in "Distributed" && '_' !in " Architecture";
      assert '_' !in " & Intensive" && '_' !in " Computing";
    } else if i == 6 {
      assert cs[6].name == "Réseaux 2";
    } else {
      assert '_' !in "Artificial" && '_' !in " Intelligence";
    }
  }

  lemma SourceDistinct()
    ensures DistinctNames(SourceCatalog())
  {
  }

  lemma {:induction false} EveryLecture(cs: seq<Course>)
    requires forall c :: c in cs ==> c.lecture > 0
    ensures |LectureVars(cs)| == |cs|
  {
    if cs != [] {
      assert forall c :: c in cs[..|cs| - 1] ==> c in cs;
      EveryLecture(cs[..|cs| - 1]);
    }
  }

  lemma GroupVarsSnoc(cs: seq<Course>, c: Course, g: nat)
    ensures GroupVars(cs + [c], g) == GroupVars(cs, g) + CourseGroupVars(c, g)
  {
    assert (cs + [c])[..|cs|] == cs;
  }

  /** Seven of main.py's courses have a TD and two have a TP: nine names per group. */
  lemma SourceGroupCount()
    ensures |GroupVars(SourceCatalog(), 1)| == 9
  {
    var cs := SourceCatalog();
    var p1 := [cs[0]];
    var p2 := p1 + [cs[1]];
    var p3 := p2 + [cs[2]];
    var p4 := p3 + [cs[3]];
    var p5 := p4 + [cs[4]];
    var p6 := p5 + [cs[5]];
    var p7 := p6 + [cs[6]];
    assert [] + p1 == p1;
    GroupVarsSnoc([], cs[0], 1);
    GroupVarsSnoc(p1, cs[1], 1);
    GroupVarsSnoc(p2, cs[2], 1);
    GroupVarsSnoc(p3, cs[3], 1);
    GroupVarsSnoc(p4, cs[4], 1);
    GroupVarsSnoc(p5, cs[5], 1);
    GroupVarsSnoc(p6, cs[6], 1);
    GroupVarsSnoc(p7, cs[7], 1);
    assert p7 + [cs[7]] == cs;
  }

  /** With six groups, main.py's own problem is well formed, its set-up does not raise, and
      it has 8 lecture variables and 6 * 9 TD/TP variables. */
  lemma SourceProblem()
    ensures WellFormed(SourceCatalog(), 6)
    ensures Setup(6, SourceDays(), SourceSlotsPerDay(), SourceCatalog()).Ok?
    ensures |VariablesOf(SourceCatalog(), 6)| == 62
  {
    SourceWellFormed();
    SourceSetup();
    SourceCount();
  }

  lemma SourceSetup()
    requires WellFormed(SourceCatalog(), 6)
    ensures Setup(6, SourceDays(), SourceSlotsPerDay(), SourceCatalog()).Ok?
  {
    SetupSucceeds(6, SourceDays(), SourceSlotsPerDay(), SourceCatalog());
  }

  lemma SourceCount()
    ensures |VariablesOf(SourceCatalog(), 6)| == 62
  {
    var cs := SourceCatalog();
    VariablesLength(cs, 6);
    SourceGroupCount();
    assert |AllGroupVars(cs, 6)| == 54;
    assert forall c :: c in cs ==> c.lecture > 0 by {
      forall c | c in cs ensures c.lecture > 0 {
        var i :| 0 <= i < |cs| && cs[i] == c;
      }
    }
    EveryLecture(cs);
  }
}
