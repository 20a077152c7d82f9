/** backend/time_table_solver.py, problem model: slots, candidate values, variables keyed by
    (course_role, group), the mega domain and its per-group filter, and the two conflict
    predicates AC-3 runs on. */
module Timetable {
  import opened Wrappers
  import opened Seqs
  import opened ArcConsistency

  /** `(day, period)`. */
  datatype Slot = Slot(day: int, period: int)

  /** A candidate value `((day, period), teacher, group)`. */
  datatype Value = Value(slot: Slot, teacher: int, group: int)

  /** A variable `(course_role, group)`, e.g. `("Sécurité_td", 3)`. */
  datatype Key = Key(name: string, group: int)

  /** The search state: each key maps to the list of entries committed for it. */
  type Assignment = map<Key, seq<Value>>

  /** The eligible teacher of a role: a single id, or a list of ids (TP roles). */
  datatype Allowed = One(id: int) | AnyOf(ids: seq<int>)

  /** One entry of `self.courses`; a missing count reads as 0, a missing teacher as None. */
  datatype Course = Course(name: string, lecture: int, td: int, tp: int,
                           teacherLecture: Option<Allowed>, teacherTd: Option<Allowed>,
                           teacherTp: Option<Allowed>)

  /** `self.courses[name]`: None where Python raises KeyError. */
  function Lookup(catalog: seq<Course>, name: string): (r: Option<Course>)
    ensures r.Some? ==> r.value in catalog && r.value.name == name
    ensures r.None? ==> forall c :: c in catalog ==> c.name != name
  {
    if catalog == [] then None
    else if catalog[0].name == name then Some(catalog[0])
    else Lookup(catalog[1..], name)
  }

  /** The module-level SLOTS list: days 1..5, day 3 with three periods. */
  function SourceSlots(): seq<Slot>
  {
    [Slot(1, 1), Slot(1, 2), Slot(1, 3), Slot(1, 4), Slot(1, 5),
     Slot(2, 1), Slot(2, 2), Slot(2, 3), Slot(2, 4), Slot(2, 5),
     Slot(3, 1), Slot(3, 2), Slot(3, 3),
     Slot(4, 1), Slot(4, 2), Slot(4, 3), Slot(4, 4), Slot(4, 5),
     Slot(5, 1), Slot(5, 2), Slot(5, 3), Slot(5, 4), Slot(5, 5)]
  }

  /** `list(range(lo, hi))`. */
  function Range(lo: int, hi: int): (r: seq<int>)
    ensures |r| == if lo <= hi then hi - lo else 0
    ensures forall i :: 0 <= i < |r| ==> r[i] == lo + i
    decreases hi - lo
  {
    if lo >= hi then [] else [lo] + Range(lo + 1, hi)
  }

  /** TEACHERS = 1..14 and GROUPS = 1..6. */
  function SourceTeachers(): seq<int> { Range(1, 15) }
  function SourceGroups(): seq<int> { Range(1, 7) }

  /** Teacher ids of the catalog below (`teacher_tp` lists for the two TP courses). */
  function SourceCatalog(): seq<Course>
  {
    [Course("Sécurité", 1, 1, 0, Some(One(1)), Some(One(1)), None),
     Course("Méthodes formelles", 1, 1, 0, Some(One(2)), Some(One(2)), None),
     Course("Analyse numérique", 1, 1, 0, Some(One(3)), Some(One(3)), None),
     Course("Entrepreneuriat", 1, 0, 0, Some(One(4)), None, None),
     Course("Recherche opérationnelle 2", 1, 1, 0, Some(One(5)), Some(One(5)), None),
     Course("Distributed Architecture & Intensive Computing", 1, 1, 0, Some(One(6)), Some(One(6)), None),
     Course("Réseaux 2", 1, 1, 1, Some(One(7)), Some(One(7)), Some(AnyOf([8, 9, 10]))),
     Course("Artificial Intelligence", 1, 1, 1, Some(One(11)), Some(One(11)), Some(AnyOf([12, 13, 14])))]
  }

  /** Six entries sharing one slot and teacher, for groups 1..6, in order. */
  function AllGroups(day: int, period: int, teacher: int): seq<Value>
  {
    seq(6, i => Value(Slot(day, period), teacher, i + 1))
  }

  /** The preset `self.assignments` the search starts from: every lecture already placed;
      the `Réseaux 2_lecture` entry lists groups 1, 2, 3, 4 and 6 only. */
  function SourcePreset(): Assignment
  {
    map[Key("Sécurité_lecture", 1) := AllGroups(1, 1, 1),
        Key("Méthodes formelles_lecture", 1) := AllGroups(1, 3, 2),
        Key("Analyse numérique_lecture", 1) := AllGroups(2, 1, 3),
        Key("Entrepreneuriat_lecture", 1) := AllGroups(2, 3, 4),
        Key("Recherche opérationnelle 2_lecture", 1) := AllGroups(2, 5, 5),
        Key("Distributed Architecture & Intensive Computing_lecture", 1) :=
          AllGroups(3, 2, 6),
        Key("Réseaux 2_lecture", 1) :=
          [Value(Slot(4, 1), 7, 1), Value(Slot(4, 1), 7, 2), Value(Slot(4, 1), 7, 3),
           Value(Slot(4, 1), 7, 4), Value(Slot(4, 1), 7, 6)],
        Key("Artificial Intelligence_lecture", 1) := AllGroups(4, 5, 11)]
  }

  /** The keys `_create_variables` appends for one course, in order. */
  function CourseVariables(c: Course): seq<Key>
  {
    (if c.lecture > 0 then [Key(c.name + "_lecture", 1)] else []) +
    GroupKeys(c.td, c.name + "_td") + GroupKeys(c.tp, c.name + "_tp")
  }

  /** One key per group 1..6 when the session count is positive. */
  function GroupKeys(count: int, name: string): seq<Key>
  {
    if count > 0 then seq(6, i => Key(name, i + 1)) else []
  }

  function VariablesOf(catalog: seq<Course>): seq<Key>
  {
    if catalog == [] then [] else CourseVariables(catalog[0]) + VariablesOf(catalog[1..])
  }

  /** The keys one course contributes: its lecture (always for group 1) and, for every group
      1..6 (whatever `num_groups` is), its TD and TP sessions. */
  ghost predicate IsVariableOf(c: Course, k: Key)
  {
    (c.lecture > 0 && k == Key(c.name + "_lecture", 1)) ||
    (c.td > 0 && k.name == c.name + "_td" && 1 <= k.group <= 6) ||
    (c.tp > 0 && k.name == c.name + "_tp" && 1 <= k.group <= 6)
  }

  lemma CourseVariablesMembers(c: Course, k: Key)
    ensures k in CourseVariables(c) <==> IsVariableOf(c, k)
  {
    var l := if c.lecture > 0 then [Key(c.name + "_lecture", 1)] else [];
    var d := GroupKeys(c.td, c.name + "_td");
    var p := GroupKeys(c.tp, c.name + "_tp");
    assert CourseVariables(c) == l + d + p;
    if c.td > 0 && k.name == c.name + "_td" && 1 <= k.group <= 6 {
      assert d[k.group - 1] == k;
    }
    if c.tp > 0 && k.name == c.name + "_tp" && 1 <= k.group <= 6 {
      assert p[k.group - 1] == k;
    }
  }

  /** `_create_variables` emits exactly the keys of the catalog's courses. */
  lemma {:induction false} VariablesOfMembers(catalog: seq<Course>, k: Key)
    ensures k in VariablesOf(catalog) <==> exists c :: c in catalog && IsVariableOf(c, k)
  {
    if catalog != [] {
      CourseVariablesMembers(catalog[0], k);
      VariablesOfMembers(catalog[1..], k);
      assert forall c :: c in catalog <==> c == catalog[0] || c in catalog[1..];
    }
  }

  /** The inner `for group in range(1, 7)` loop of `_create_variables`. */
  method AppendGroups(variables: seq<Key>, name: string) returns (r: seq<Key>)
    ensures r == variables + seq(6, i => Key(name, i + 1))
  {
    r := variables;
    var g := 1;
    while g < 7
      invariant 1 <= g <= 7
      invariant r == variables + seq(g - 1, i => Key(name, i + 1))
    {
      r := r + [Key(name, g)];
      g := g + 1;
    }
  }

  lemma Assoc<T>(a: seq<T>, b: seq<T>, c: seq<T>)
    ensures (a + b) + c == a + (b + c)
  {
  }

  /** The body of the `for course_key, data in self.courses.items()` loop: lecture key,
      then the TD keys, then the TP keys. */
  method AppendCourse(variables: seq<Key>, c: Course) returns (r: seq<Key>)
    ensures r == variables + CourseVariables(c)
  {
    r := variables;
    if c.lecture > 0 {
      r := r + [Key(c.name + "_lecture", 1)];
    }
    ghost var lectures := r;
    if c.td > 0 {
      r := AppendGroups(r, c.name + "_td");
    }
    assert r == lectures + GroupKeys(c.td, c.name + "_td");
    ghost var tds := r;
    if c.tp > 0 {
      r := AppendGroups(r, c.name + "_tp");
    }
    assert r == tds + GroupKeys(c.tp, c.name + "_tp");
  }

  /** backend/time_table_solver.py: `_create_variables`, the loop as written. */
  method CreateVariables(catalog: seq<Course>) returns (variables: seq<Key>)
    ensures variables == VariablesOf(catalog)
  {
    variables := [];
    var n := 0;
    while n < |catalog|
      invariant 0 <= n <= |catalog|
      invariant variables + VariablesOf(catalog[n..]) == VariablesOf(catalog)
    {
      var c := catalog[n];
      assert catalog[n..][0] == c && catalog[n..][1..] == catalog[n + 1..];
      assert VariablesOf(catalog[n..]) == CourseVariables(c) + VariablesOf(catalog[n + 1..]);
      ghost var before := variables;
      variables := AppendCourse(variables, c);
      Assoc(before, CourseVariables(c), VariablesOf(catalog[n + 1..]));
      n := n + 1;
    }
    assert catalog[n..] == [];
  }

  /** `[(s, t, g) for s in slots for t in teachers for g in groups]`. */
  function MegaDomain(slots: seq<Slot>, teachers: seq<int>, groups: seq<int>): (r: seq<Value>)
    ensures forall v :: v in r <==> v.slot in slots && v.teacher in teachers && v.group in groups
    ensures |r| == |slots| * (|teachers| * |groups|)
  {
    if slots == [] then []
    else
      var row := RowFor(slots[0], teachers, groups);
      var rest := MegaDomain(slots[1..], teachers, groups);
      assert forall s :: s in slots <==> s == slots[0] || s in slots[1..];
      var k := |teachers| * |groups|;
      assert |row + rest| == |slots| * k by {
        assert |rest| == (|slots| - 1) * k;
      }
      row + rest
  }

  function RowFor(s: Slot, teachers: seq<int>, groups: seq<int>): (r: seq<Value>)
    ensures forall v :: v in r <==> v.slot == s && v.teacher in teachers && v.group in groups
    ensures |r| == |teachers| * |groups|
  {
    if teachers == [] then []
    else
      var cell := seq(|groups|, i requires 0 <= i < |groups| => Value(s, teachers[0], groups[i]));
      assert forall v: Value :: v in cell <==> v.slot == s && v.teacher == teachers[0] && v.group in groups by {
        forall v: Value | v.slot == s && v.teacher == teachers[0] && v.group in groups ensures v in cell {
          var i :| 0 <= i < |groups| && groups[i] == v.group;
          assert cell[i] == v;
        }
      }
      assert forall t :: t in teachers <==> t == teachers[0] || t in teachers[1..];
      cell + RowFor(s, teachers[1..], groups)
  }

  /** `{var: copy.deepcopy(self.mega_domain) for var in self.variables}`. */
  function InitialDomains(variables: seq<Key>, mega: seq<Value>): (d: map<Key, seq<Value>>)
    ensures forall k :: k in d <==> k in variables
    ensures forall k :: k in d ==> d[k] == mega
  {
    map k | k in variables :: mega
  }

  /** backend/time_table_solver.py: `filter_domains_by_group`. The keys stay the same; each
      domain keeps, in order, exactly its values whose group is the key's group. */
  function FilterByGroup(domains: map<Key, seq<Value>>): (r: map<Key, seq<Value>>)
    ensures r.Keys == domains.Keys
    ensures forall k, v :: k in r && v in r[k] ==> v.group == k.group
    ensures forall k, v :: k in domains && v in domains[k] && v.group == k.group ==> v in r[k]
    ensures forall k :: k in r ==> Sub(r[k], domains[k])
  {
    map k | k in domains :: Filter(domains[k], (v: Value) => v.group == k.group)
  }

  /** teacher_same_slot_diff_group: True (satisfied) unless both share teacher and slot. */
  predicate TeacherSameSlotDiffGroup(a: Value, b: Value)
  {
    !(a.teacher == b.teacher && a.slot == b.slot)
  }

  /** diffrent_lectre_same_groupe: True (satisfied) unless both share group and slot. */
  predicate DifferentLectureSameGroup(a: Value, b: Value)
  {
    !(a.group == b.group && a.slot == b.slot)
  }

  /** The two constraint functions of `self.constraint_functions`, in order. */
  datatype Kind = TeacherSlot | GroupSlot

  function Sat(k: Kind, a: Value, b: Value): bool
  {
    match k
    case TeacherSlot => TeacherSameSlotDiffGroup(a, b)
    case GroupSlot => DifferentLectureSameGroup(a, b)
  }

  /** Both predicates are symmetric; the teacher one ignores the groups, the group one the
      teachers, and each is violated exactly on a shared slot. */
  lemma ConflictPredicates(a: Value, b: Value, g: int, t: int)
    ensures TeacherSameSlotDiffGroup(a, b) == TeacherSameSlotDiffGroup(b, a)
    ensures DifferentLectureSameGroup(a, b) == DifferentLectureSameGroup(b, a)
    ensures !TeacherSameSlotDiffGroup(a, b) <==> a.teacher == b.teacher && a.slot == b.slot
    ensures !DifferentLectureSameGroup(a, b) <==> a.group == b.group && a.slot == b.slot
    ensures TeacherSameSlotDiffGroup(a.(group := g), b) == TeacherSameSlotDiffGroup(a, b)
    ensures DifferentLectureSameGroup(a.(teacher := t), b) == DifferentLectureSameGroup(a, b)
  {
  }

  function ArcsFrom(a: Key, bs: seq<Key>): seq<Arc<Key, Kind>>
  {
    if bs == [] then []
    else [Arc(a, bs[0], TeacherSlot), Arc(a, bs[0], GroupSlot)] + ArcsFrom(a, bs[1..])
  }

  /** `[(v1, v2, c) for v1 in keys for v2 in keys for c in constraint_functions]`. */
  function AllArcs(xs: seq<Key>, keys: seq<Key>): seq<Arc<Key, Kind>>
  {
    if xs == [] then [] else ArcsFrom(xs[0], keys) + AllArcs(xs[1..], keys)
  }

  lemma {:induction false} ArcsFromMembers(a: Key, bs: seq<Key>)
    ensures |ArcsFrom(a, bs)| == 2 * |bs|
    ensures forall arc :: arc in ArcsFrom(a, bs) <==> arc.xi == a && arc.xj in bs
  {
    if bs != [] {
      ArcsFromMembers(a, bs[1..]);
      var head := [Arc(a, bs[0], TeacherSlot), Arc(a, bs[0], GroupSlot)];
      assert ArcsFrom(a, bs) == head + ArcsFrom(a, bs[1..]);
      forall arc: Arc<Key, Kind>
        ensures arc in ArcsFrom(a, bs) <==> arc.xi == a && arc.xj in bs
      {
        if arc.xi == a && arc.xj == bs[0] {
          if arc.c == TeacherSlot { assert arc == head[0]; } else { assert arc == head[1]; }
        }
        assert arc.xj in bs <==> arc.xj == bs[0] || arc.xj in bs[1..];
      }
    }
  }

  lemma Distribute(n: int, m: int)
    ensures 2 * (n + 1) * m == 2 * m + 2 * n * m
  {
  }

  lemma {:induction false} AllArcsLength(xs: seq<Key>, keys: seq<Key>)
    ensures |AllArcs(xs, keys)| == 2 * |xs| * |keys|
  {
    if xs != [] {
      ArcsFromMembers(xs[0], keys);
      AllArcsLength(xs[1..], keys);
      Distribute(|xs| - 1, |keys|);
    }
  }

  /** The constraint list holds both kinds for every ordered pair of variables, self-pairs
      included: 2 * n * n arcs. */
  lemma {:induction false} AllArcsMembers(xs: seq<Key>, keys: seq<Key>)
    ensures |AllArcs(xs, keys)| == 2 * |xs| * |keys|
    ensures forall arc :: arc in AllArcs(xs, keys) <==> arc.xi in xs && arc.xj in keys
  {
    AllArcsLength(xs, keys);
    if xs != [] {
      ArcsFromMembers(xs[0], keys);
      AllArcsMembers(xs[1..], keys);
      forall arc: Arc<Key, Kind>
        ensures arc in AllArcs(xs, keys) <==> arc.xi in xs && arc.xj in keys
      {
        assert arc.xi in xs <==> arc.xi == xs[0] || arc.xi in xs[1..];
      }
    }
  }

  /** The preset's `Réseaux 2` lecture lists five entries, none of them for group 5. */
  lemma PresetMissesGroupFive()
    ensures Key("Réseaux 2_lecture", 1) in SourcePreset()
    ensures var e := SourcePreset()[Key("Réseaux 2_lecture", 1)];
      |e| == 5 && forall x :: x in e ==> x.group != 5
  {
  }

  /** The catalog yields 8 lecture keys, 7 * 6 TD keys and 2 * 6 TP keys. */
  lemma SourceVariableCount()
    ensures |VariablesOf(SourceCatalog())| == 62
  {
  }
}
