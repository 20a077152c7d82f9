/** backend/time_table_solver.py, the consistency oracle: per-teacher and per-group
    consecutive-run tables and `is_consistent`. */
module Oracle {
  import opened Wrappers
  import opened Strings
  import opened Runs
  import opened Timetable

  /** Which field of an entry a run table is keyed by. */
  datatype Axis = ByTeacher | ByGroup

  function Who(e: Value, axis: Axis): int
  {
    match axis
    case ByTeacher => e.teacher
    case ByGroup => e.group
  }

  function Elems(s: seq<Value>): set<Value>
  {
    set e | e in s
  }

  /** The entries listed under the given keys. */
  function EntriesOf(a: Assignment, keys: set<Key>): set<Value>
  {
    set k, e | k in keys && k in a && e in a[k] :: e
  }

  function Entries(a: Assignment): set<Value>
  {
    EntriesOf(a, a.Keys)
  }

  /** The periods `w` occupies on day `d`. */
  function Periods(es: set<Value>, axis: Axis, w: int, d: int): set<int>
  {
    set e | e in es && Who(e, axis) == w && e.slot.day == d :: e.slot.period
  }

  function Owners(es: set<Value>, axis: Axis): set<int>
  {
    set e | e in es :: Who(e, axis)
  }

  function DaysOf(es: set<Value>, axis: Axis, w: int): set<int>
  {
    set e | e in es && Who(e, axis) == w :: e.slot.day
  }

  lemma NonEmpty<T>(s: set<T>)
    requires s != {}
    ensures exists x :: x in s
  {
    var x :| x in s;
  }

  /** `teacher_schedule` / `group_schedule`: owner -> day -> set of periods. */
  type Schedule = map<int, map<int, set<int>>>

  function ScheduleOf(es: set<Value>, axis: Axis): Schedule
  {
    map w | w in Owners(es, axis) :: RowOf(es, axis, w)
  }

  /** `schedule[w]`: day -> periods. */
  function RowOf(es: set<Value>, axis: Axis, w: int): map<int, set<int>>
  {
    map d | d in DaysOf(es, axis, w) :: Periods(es, axis, w, d)
  }

  /** `schedule[who][day].add(period)` on the nested defaultdict. */
  function Insert(s: Schedule, e: Value, axis: Axis): Schedule
  {
    var w := Who(e, axis);
    var days := if w in s then s[w] else map[];
    var ps := if e.slot.day in days then days[e.slot.day] else {};
    s[w := days[e.slot.day := ps + {e.slot.period}]]
  }

  lemma OwnersInsert(es: set<Value>, e: Value, axis: Axis)
    ensures Owners(es + {e}, axis) == Owners(es, axis) + {Who(e, axis)}
  {
  }

  lemma DaysInsert(es: set<Value>, e: Value, axis: Axis, w: int)
    ensures DaysOf(es + {e}, axis, w)
         == if w == Who(e, axis) then DaysOf(es, axis, w) + {e.slot.day} else DaysOf(es, axis, w)
  {
  }

  lemma PeriodsInsert(es: set<Value>, e: Value, axis: Axis, w: int, d: int)
    ensures Periods(es + {e}, axis, w, d)
         == if w == Who(e, axis) && d == e.slot.day then Periods(es, axis, w, d) + {e.slot.period}
            else Periods(es, axis, w, d)
  {
  }

  lemma RowInsert(es: set<Value>, e: Value, axis: Axis, w: int)
    ensures RowOf(es + {e}, axis, w)
         == if w == Who(e, axis) then
              var row := RowOf(es, axis, w);
              row[e.slot.day := (if e.slot.day in row then row[e.slot.day] else {}) + {e.slot.period}]
            else RowOf(es, axis, w)
  {
    DaysInsert(es, e, axis, w);
    var l := RowOf(es + {e}, axis, w);
    var row := RowOf(es, axis, w);
    if w == Who(e, axis) {
      var r := row[e.slot.day := (if e.slot.day in row then row[e.slot.day] else {}) + {e.slot.period}];
      assert l.Keys == r.Keys;
      forall d | d in l ensures l[d] == r[d] {
        PeriodsInsert(es, e, axis, w, d);
      }
      assert l == r;
    } else {
      assert l.Keys == row.Keys;
      forall d | d in l ensures l[d] == row[d] {
        PeriodsInsert(es, e, axis, w, d);
      }
      assert l == row;
    }
  }

  lemma RowOfNonOwner(es: set<Value>, axis: Axis, w: int)
    requires w !in Owners(es, axis)
    ensures RowOf(es, axis, w) == map[]
  {
    assert DaysOf(es, axis, w) == {};
  }

  lemma InsertSchedule(es: set<Value>, e: Value, axis: Axis)
    ensures ScheduleOf(es + {e}, axis) == Insert(ScheduleOf(es, axis), e, axis)
  {
    var l := ScheduleOf(es + {e}, axis);
    var r := Insert(ScheduleOf(es, axis), e, axis);
    OwnersInsert(es, e, axis);
    if Who(e, axis) !in Owners(es, axis) {
      RowOfNonOwner(es, axis, Who(e, axis));
    }
    forall w | w in l ensures l[w] == r[w] {
      RowInsert(es, e, axis, w);
    }
    assert l.Keys == r.Keys;
  }

  /** One owner's row of the result: the longest run of each day. */
  function RunsOfDays(days: map<int, set<int>>): map<int, nat>
  {
    map d | d in days :: Longest(days[d])
  }

  /** `count_max_consecutive_slots(sorted(periods))`. */
  function Longest(periods: set<int>): nat
  {
    MaxRun(SortedSet(periods))
  }

  /** What `get_teacher_consecutive_slots` / `get_group_consecutive_slots` return. */
  function RunTable(a: Assignment, axis: Axis): map<int, map<int, nat>>
  {
    RunsOf(ScheduleOf(Entries(a), axis))
  }

  function RunsOf(s: Schedule): map<int, map<int, nat>>
  {
    map w | w in s :: RunsOfDays(s[w])
  }

  /** The inner loop over `days.items()`. */
  method DayRuns(days: map<int, set<int>>) returns (r: map<int, nat>)
    ensures r == RunsOfDays(days)
  {
    r := map[];
    var todo := days.Keys;
    while todo != {}
      invariant todo <= days.Keys
      invariant r.Keys == days.Keys - todo
      invariant forall d :: d in r ==> r[d] == Longest(days[d])
      decreases |todo|
    {
      var d := MinOf(todo);
      var count := CountMaxConsecutive(SortedSet(days[d]));
      r := r[d := count];
      todo := todo - {d};
    }
    assert r.Keys == RunsOfDays(days).Keys;
    assert forall d :: d in r ==> r[d] == RunsOfDays(days)[d];
  }

  /** The inner `for (day, slot), teacher, group in entries` loop. */
  method AddEntries(sched: Schedule, ghost seen: set<Value>, entries: seq<Value>, axis: Axis)
      returns (r: Schedule)
    requires sched == ScheduleOf(seen, axis)
    ensures r == ScheduleOf(seen + Elems(entries), axis)
  {
    r := sched;
    ghost var cur := seen;
    var j := 0;
    while j < |entries|
      invariant 0 <= j <= |entries|
      invariant cur == seen + Elems(entries[..j])
      invariant r == ScheduleOf(cur, axis)
    {
      InsertSchedule(cur, entries[j], axis);
      r := Insert(r, entries[j], axis);
      cur := cur + {entries[j]};
      assert entries[..j + 1] == entries[..j] + [entries[j]];
      j := j + 1;
    }
    assert entries[..j] == entries;
  }

  /** The outer `for key, entries in assignments.items()` loop. */
  method FillSchedule(a: Assignment, axis: Axis) returns (sched: Schedule)
    ensures sched == ScheduleOf(Entries(a), axis)
  {
    sched := map[];
    var todo := a.Keys;
    ghost var done: set<Key> := {};
    while todo != {}
      invariant todo + done == a.Keys && todo !! done
      invariant sched == ScheduleOf(EntriesOf(a, done), axis)
      decreases |todo|
    {
      var k :| k in todo;
      sched := AddEntries(sched, EntriesOf(a, done), a[k], axis);
      assert EntriesOf(a, done + {k}) == EntriesOf(a, done) + Elems(a[k]);
      todo := todo - {k};
      done := done + {k};
    }
    assert done == a.Keys;
  }

  /** backend/time_table_solver.py: `get_teacher_consecutive_slots` (axis ByTeacher) and
      `get_group_consecutive_slots` (axis ByGroup). */
  method ConsecutiveSlots(a: Assignment, axis: Axis) returns (consec: map<int, map<int, nat>>)
    ensures consec == RunTable(a, axis)
  {
    var sched := FillSchedule(a, axis);
    consec := ScheduleRuns(sched);
  }

  /** The `for teacher, days in teacher_schedule.items()` loop. */
  method ScheduleRuns(sched: Schedule) returns (consec: map<int, map<int, nat>>)
    ensures consec == RunsOf(sched)
  {
    consec := map[];
    var todo := sched.Keys;
    while todo != {}
      invariant todo <= sched.Keys
      invariant consec.Keys == sched.Keys - todo
      invariant forall w :: w in consec ==> consec[w] == RunsOfDays(sched[w])
      decreases |todo|
    {
      var w := MinOf(todo);
      var row := DayRuns(sched[w]);
      consec := consec[w := row];
      todo := todo - {w};
    }
    assert consec.Keys == RunsOf(sched).Keys;
    assert forall w :: w in consec ==> consec[w] == RunsOf(sched)[w];
  }

  /** `w` works four or more consecutive periods on some day. */
  ghost predicate FourInARow(es: set<Value>, axis: Axis, w: int)
  {
    exists d, p :: AllOccupied(Periods(es, axis, w, d), p, 4)
  }

  /** Some day of `w` in a run table reaches 4 (`for hours in ...values(): if hours >= 4`). */
  predicate OverCap(runs: map<int, map<int, nat>>, w: int)
  {
    w in runs && exists d :: d in runs[w] && runs[w][d] >= 4
  }

  /** The run tables flag exactly the owners with four consecutive occupied periods on one
      day. */
  lemma OverCapMeansFour(a: Assignment, axis: Axis, w: int)
    ensures OverCap(RunTable(a, axis), w) <==> FourInARow(Entries(a), axis, w)
  {
    if OverCap(RunTable(a, axis), w) {
      OverCapGivesFour(a, axis, w);
    }
    if FourInARow(Entries(a), axis, w) {
      FourGivesOverCap(a, axis, w);
    }
  }

  lemma OverCapGivesFour(a: Assignment, axis: Axis, w: int)
    requires OverCap(RunTable(a, axis), w)
    ensures FourInARow(Entries(a), axis, w)
  {
    var es := Entries(a);
    var d :| d in RunTable(a, axis)[w] && RunTable(a, axis)[w][d] >= 4;
    SetRunMeansConsecutive(Periods(es, axis, w, d), 4);
    var p :| AllOccupied(Periods(es, axis, w, d), p, 4);
  }

  lemma FourGivesOverCap(a: Assignment, axis: Axis, w: int)
    requires FourInARow(Entries(a), axis, w)
    ensures OverCap(RunTable(a, axis), w)
  {
    var es := Entries(a);
    var d, p :| AllOccupied(Periods(es, axis, w, d), p, 4);
    assert p in Periods(es, axis, w, d);
    var e :| e in es && Who(e, axis) == w && e.slot.day == d && e.slot.period == p;
    assert w in Owners(es, axis) && d in DaysOf(es, axis, w);
    SetRunMeansConsecutive(Periods(es, axis, w, d), 4);
    assert RunTable(a, axis)[w][d] == Longest(Periods(es, axis, w, d));
  }

  /** The session type a key name is read as: the first of `_lecture`, `_td`, `_tp` it
      contains. */
  datatype Role = LectureRole | TdRole | TpRole

  function RoleOf(name: string): Option<Role>
  {
    if Contains(name, "_lecture") then Some(LectureRole)
    else if Contains(name, "_td") then Some(TdRole)
    else if Contains(name, "_tp") then Some(TpRole)
    else None
  }

  function Suffix(r: Role): string
  {
    match r
    case LectureRole => "_lecture"
    case TdRole => "_td"
    case TpRole => "_tp"
  }

  function TeacherOf(c: Course, r: Role): Option<Allowed>
  {
    match r
    case LectureRole => c.teacherLecture
    case TdRole => c.teacherTd
    case TpRole => c.teacherTp
  }

  /** `self.courses[course_key.replace(suffix, "")]["teacher_<type>"]`; each subscript
      raises KeyError when the entry is missing. */
  function AllowedFor(catalog: seq<Course>, name: string, r: Role): Result<Allowed>
  {
    match Lookup(catalog, DeleteAll(name, Suffix(r)))
    case None => Err(KeyError)
    case Some(c) =>
      match TeacherOf(c, r)
      case None => Err(KeyError)
      case Some(t) => Ok(t)
  }

  /** `teacher_id in teacher_allowed` for a list, `teacher_id == teacher_allowed` otherwise. */
  predicate Eligible(allowed: Allowed, t: int)
  {
    match allowed
    case One(id) => t == id
    case AnyOf(ids) => t in ids
  }

  /** Same slot, and the same teacher or the same group. */
  predicate Clash(a: Value, b: Value)
  {
    a.slot == b.slot && (a.teacher == b.teacher || a.group == b.group)
  }

  predicate ClashesWith(v: Value, a: Assignment)
  {
    exists k, e :: k in a && e in a[k] && Clash(v, e)
  }

  /** The verdict `is_consistent` computes, checks in source order. */
  function Consistent(catalog: seq<Course>, key: Key, v: Value, a: Assignment): Result<bool>
  {
    match RoleOf(key.name)
    case None => Ok(false)
    case Some(r) =>
      match AllowedFor(catalog, key.name, r)
      case Err(e) => Err(e)
      case Ok(allowed) =>
        if !Eligible(allowed, v.teacher) then Ok(false)
        else if ClashesWith(v, a) then Ok(false)
        else if key.group != v.group then Ok(false)
        else Ok(WithinCaps(key, v, a))
  }

  /** The two run caps, on the assignment with the key's entry replaced by `[v]`; the
      teacher cap is waived for a key whose name contains `lecture`. */
  function WithinCaps(key: Key, v: Value, a: Assignment): bool
  {
    var temp := a[key := [v]];
    !(OverCap(RunTable(temp, ByTeacher), v.teacher) && !Contains(key.name, "lecture")) &&
    !OverCap(RunTable(temp, ByGroup), v.group)
  }

  /** The double loop over `assignment.items()` and each entry list. */
  method FindClash(v: Value, a: Assignment) returns (found: bool)
    ensures found == ClashesWith(v, a)
  {
    var todo := a.Keys;
    while todo != {}
      invariant todo <= a.Keys
      invariant forall k, e :: k in a && k !in todo && e in a[k] ==> !Clash(v, e)
      decreases |todo|
    {
      var k :| k in todo;
      var entries := a[k];
      var j := 0;
      while j < |entries|
        invariant 0 <= j <= |entries|
        invariant forall i :: 0 <= i < j ==> !Clash(v, entries[i])
      {
        if Clash(v, entries[j]) {
          return true;
        }
        j := j + 1;
      }
      todo := todo - {k};
    }
    return false;
  }

  /** `for hours in row.values(): if hours >= 4`. */
  method ReachesFour(row: map<int, nat>) returns (b: bool)
    ensures b <==> exists d :: d in row && row[d] >= 4
  {
    var todo := row.Keys;
    while todo != {}
      invariant todo <= row.Keys
      invariant forall d :: d in row && d !in todo ==> row[d] < 4
      decreases |todo|
    {
      var d := MinOf(todo);
      if row[d] >= 4 {
        return true;
      }
      todo := todo - {d};
    }
    return false;
  }

  /** The tail of `is_consistent` from the temporary copy on. */
  method CheckCaps(key: Key, v: Value, a: Assignment) returns (ok: bool)
    ensures ok == WithinCaps(key, v, a)
  {
    var temp := a[key := [v]];
    var teachersHours := ConsecutiveSlots(temp, ByTeacher);
    var over := ReachesFour(if v.teacher in teachersHours then teachersHours[v.teacher] else map[]);
    if over && !Contains(key.name, "lecture") {
      return false;
    }
    var groupHours := ConsecutiveSlots(temp, ByGroup);
    over := ReachesFour(if v.group in groupHours then groupHours[v.group] else map[]);
    return !over;
  }

  /** backend/time_table_solver.py: `is_consistent`. */
  method IsConsistent(catalog: seq<Course>, key: Key, v: Value, a: Assignment) returns (r: Result<bool>)
    ensures r == Consistent(catalog, key, v, a)
  {
    var role := RoleOf(key.name);
    if role.None? {
      return Ok(false);
    }
    var allowed :- AllowedFor(catalog, key.name, role.value);
    match allowed {
      case AnyOf(ids) =>
        if v.teacher !in ids {
          return Ok(false);
        }
      case One(id) =>
        if v.teacher != id {
          return Ok(false);
        }
    }
    var clash := FindClash(v, a);
    if clash {
      return Ok(false);
    }
    if key.group != v.group {
      return Ok(false);
    }
    var ok := CheckCaps(key, v, a);
    return Ok(ok);
  }

  /** What an accepted candidate satisfies, with the run caps read as "no four consecutive
      occupied periods on any day". */
  ghost predicate Admissible(catalog: seq<Course>, key: Key, v: Value, a: Assignment)
  {
    var temp := a[key := [v]];
    RoleOf(key.name).Some? &&
    AllowedFor(catalog, key.name, RoleOf(key.name).value).Ok? &&
    Eligible(AllowedFor(catalog, key.name, RoleOf(key.name).value).value, v.teacher) &&
    (forall k, e :: k in a && e in a[k] ==> !Clash(v, e)) &&
    key.group == v.group &&
    (!Contains(key.name, "lecture") ==> !FourInARow(Entries(temp), ByTeacher, v.teacher)) &&
    !FourInARow(Entries(temp), ByGroup, v.group)
  }

  /** `is_consistent` returns True exactly for admissible candidates. */
  lemma AcceptsExactly(catalog: seq<Course>, key: Key, v: Value, a: Assignment)
    ensures Consistent(catalog, key, v, a) == Ok(true) <==> Admissible(catalog, key, v, a)
  {
    CapsMeanFour(key, v, a);
  }

  /** The run caps of `is_consistent` reject exactly four consecutive occupied periods. */
  lemma CapsMeanFour(key: Key, v: Value, a: Assignment)
    ensures WithinCaps(key, v, a) <==>
              (!Contains(key.name, "lecture") ==>
                 !FourInARow(Entries(a[key := [v]]), ByTeacher, v.teacher)) &&
              !FourInARow(Entries(a[key := [v]]), ByGroup, v.group)
  {
    var temp := a[key := [v]];
    OverCapMeansFour(temp, ByTeacher, v.teacher);
    OverCapMeansFour(temp, ByGroup, v.group);
  }

  /** It raises only when the session type is known and the course or its teacher entry is
      missing, and then raises KeyError. */
  lemma RaisesExactly(catalog: seq<Course>, key: Key, v: Value, a: Assignment)
    ensures Consistent(catalog, key, v, a).Err? <==>
            RoleOf(key.name).Some? && AllowedFor(catalog, key.name, RoleOf(key.name).value).Err?
    ensures Consistent(catalog, key, v, a).Err? ==> Consistent(catalog, key, v, a).error == KeyError
  {
  }

  /** The early rejections: unknown type, ineligible teacher, a clash, a group mismatch. */
  lemma RejectionCases(catalog: seq<Course>, key: Key, v: Value, a: Assignment)
    ensures RoleOf(key.name).None? ==> Consistent(catalog, key, v, a) == Ok(false)
    ensures RoleOf(key.name).Some? && AllowedFor(catalog, key.name, RoleOf(key.name).value).Ok? ==>
              var allowed := AllowedFor(catalog, key.name, RoleOf(key.name).value).value;
              (!Eligible(allowed, v.teacher) ==> Consistent(catalog, key, v, a) == Ok(false)) &&
              (forall k, e :: k in a && e in a[k] && Clash(v, e) ==> Consistent(catalog, key, v, a) == Ok(false)) &&
              (key.group != v.group ==> Consistent(catalog, key, v, a) == Ok(false))
  {
  }

  /** The cap rejections, as consecutive occupied periods after replacing the key's
      entry by `[v]`; the teacher cap looks at every day of that teacher. */
  lemma CapRejections(catalog: seq<Course>, key: Key, v: Value, a: Assignment, d: int, p: int)
    ensures AllOccupied(Periods(Entries(a[key := [v]]), ByGroup, v.group, d), p, 4) ==>
              Consistent(catalog, key, v, a) != Ok(true)
    ensures AllOccupied(Periods(Entries(a[key := [v]]), ByTeacher, v.teacher, d), p, 4) &&
            !Contains(key.name, "lecture") ==>
              Consistent(catalog, key, v, a) != Ok(true)
  {
    AcceptsExactly(catalog, key, v, a);
  }

  /** A key whose name is exactly `lecture` matches no session type and is always rejected. */
  lemma PlainLectureRejected(catalog: seq<Course>, g: int, v: Value, a: Assignment)
    ensures Consistent(catalog, Key("lecture", g), v, a) == Ok(false)
  {
    NoStartChar("lecture", "_lecture");
    NoStartChar("lecture", "_td");
    NoStartChar("lecture", "_tp");
  }

  /** Course names are keys of a dict, hence distinct. */
  ghost predicate DistinctNames(catalog: seq<Course>)
  {
    forall i, j :: 0 <= i < j < |catalog| ==> catalog[i].name != catalog[j].name
  }

  lemma {:induction false} LookupFinds(catalog: seq<Course>, c: Course)
    requires DistinctNames(catalog) && c in catalog
    ensures Lookup(catalog, c.name) == Some(c)
  {
    if catalog[0] != c {
      var i :| 0 <= i < |catalog| && catalog[i] == c;
      assert catalog[1..][i - 1] == c;
      assert DistinctNames(catalog[1..]) by {
        forall i, j | 0 <= i < j < |catalog[1..]|
          ensures catalog[1..][i].name != catalog[1..][j].name
        {
          assert catalog[1..][i] == catalog[i + 1] && catalog[1..][j] == catalog[j + 1];
        }
      }
      LookupFinds(catalog[1..], c);
    }
  }

  /** How the three suffixes read against each other. */
  lemma SuffixFacts()
    ensures Contains("_lecture", "_lecture") && DeleteAll("_lecture", "_lecture") == []
    ensures !Contains("_td", "_lecture") && Contains("_td", "_td") && DeleteAll("_td", "_td") == []
    ensures !Contains("_tp", "_lecture") && !Contains("_tp", "_td") && Contains("_tp", "_tp")
    ensures DeleteAll("_tp", "_tp") == []
  {
    assert IsPrefix("_lecture", "_lecture");
    assert IsPrefix("_td", "_td");
    assert IsPrefix("_tp", "_tp");
    NoStartChar("td", "_lecture");
    NoStartChar("tp", "_lecture");
    NoStartChar("tp", "_td");
    assert !IsPrefix("_lecture", "_td") && !IsPrefix("_lecture", "_tp") && !IsPrefix("_td", "_tp");
    assert "_td"[1..] == "td" && "_tp"[1..] == "tp";
  }

  /** `<name><suffix>` with no `_` in the name is read back as that suffix's type, and
      deleting the suffix gives the name back. */
  lemma SuffixRead(name: string, r: Role)
    requires '_' !in name
    ensures RoleOf(name + Suffix(r)) == Some(r)
    ensures DeleteAll(name + Suffix(r), Suffix(r)) == name
  {
    SuffixFacts();
    PrefixWithoutStart(name, Suffix(r), "_lecture");
    PrefixWithoutStart(name, Suffix(r), "_td");
    PrefixWithoutStart(name, Suffix(r), "_tp");
    assert name + [] == name;
  }

  /** The type a variable of `c` was built with. */
  function RoleBuilt(c: Course, k: Key): Role
  {
    if k == Key(c.name + "_lecture", 1) then LectureRole
    else if k.name == c.name + "_td" then TdRole
    else TpRole
  }

  /** A variable of a course whose name has no `_` is read as the session type it was built
      with, and names back that course's teacher entry for the type. */
  lemma VariableResolves(catalog: seq<Course>, c: Course, k: Key)
    requires DistinctNames(catalog) && c in catalog && '_' !in c.name && IsVariableOf(c, k)
    ensures RoleOf(k.name) == Some(RoleBuilt(c, k))
    ensures AllowedFor(catalog, k.name, RoleBuilt(c, k))
         == match TeacherOf(c, RoleBuilt(c, k))
            case None => Err(KeyError)
            case Some(t) => Ok(t)
  {
    LookupFinds(catalog, c);
    var r := RoleBuilt(c, k);
    assert k.name == c.name + Suffix(r) by {
      if k != Key(c.name + "_lecture", 1) && k.name != c.name + "_td" {
        assert c.tp > 0 && k.name == c.name + "_tp";
      }
    }
    SuffixRead(c.name, r);
  }
}
