/** backend/time_table_solver.py, the search: `backtrack` over the preset assignment, MRV
    selection, and `backtracking_search` with AC-3 preprocessing. */
module Search {
  import opened Wrappers
  import opened Seqs
  import opened ArcConsistency
  import opened Timetable
  import opened Oracle
  import opened Runs
  import opened Strings

  /** Keys still to be searched: missing, or mapped to an empty list. */
  ghost function UnfilledSet(variables: seq<Key>, a: Assignment): set<Key>
  {
    set k | k in variables && (k !in a || a[k] == [])
  }

  /** What a failed branch leaves behind: a sub-map of the state it started from that lacks
      only keys which were mapped to an empty list. */
  ghost predicate Restored(before: Assignment, after: Assignment)
  {
    (forall k :: k in after ==> k in before && after[k] == before[k]) &&
    (forall k :: k in before && k !in after ==> before[k] == [])
  }

  /** Every non-empty entry of `before` is still there, unchanged. */
  ghost predicate KeepsFilled(before: Assignment, after: Assignment)
  {
    forall k :: k in before && before[k] != [] ==> k in after && after[k] == before[k]
  }

  /** `k` was filled by the search, not by the preset `p`. */
  ghost predicate IsNew(p: Assignment, a: Assignment, k: Key)
  {
    k in a && (k !in p || p[k] == [])
  }

  /** No entry the search committed shares a slot and a teacher or a group with an entry of
      another key. */
  ghost predicate ClashFree(p: Assignment, a: Assignment)
  {
    forall k1, k2, e1, e2 ::
      (k1 in a && k2 in a && k1 != k2 && (IsNew(p, a, k1) || IsNew(p, a, k2)) &&
       e1 in a[k1] && e2 in a[k2]) ==> !Clash(e1, e2)
  }

  /** No group of an entry the search committed has four consecutive periods on a day. */
  ghost predicate GroupCapped(p: Assignment, a: Assignment)
  {
    forall k, e :: IsNew(p, a, k) && e in a[k] ==> !FourInARow(Entries(a), ByGroup, e.group)
  }

  /** Every single-entry commit of the search is a value of that key's domain, for the key's
      own group. */
  ghost predicate Placed(p: Assignment, a: Assignment, d: map<Key, seq<Value>>)
  {
    forall k :: IsNew(p, a, k) && k.name != "lecture" && a[k] != [] ==>
      k in d && |a[k]| == 1 && a[k][0] in d[k] && a[k][0].group == k.group
  }

  /** `t` may teach the session of key `k`: the key's type is known, its course and teacher
      entry exist, and `t` is that entry's teacher or one of its list. */
  ghost predicate Qualified(catalog: seq<Course>, k: Key, t: int)
  {
    RoleOf(k.name).Some? && AllowedFor(catalog, k.name, RoleOf(k.name).value).Ok? &&
    Eligible(AllowedFor(catalog, k.name, RoleOf(k.name).value).value, t)
  }

  /** Every entry the search committed has a teacher allowed for its key. */
  ghost predicate TeachersQualified(catalog: seq<Course>, p: Assignment, a: Assignment)
  {
    forall k, e :: IsNew(p, a, k) && e in a[k] ==> Qualified(catalog, k, e.teacher)
  }

  ghost predicate Sound(catalog: seq<Course>, p: Assignment, a: Assignment, d: map<Key, seq<Value>>)
  {
    KeepsFilled(p, a) && ClashFree(p, a) && GroupCapped(p, a) && Placed(p, a, d) &&
    TeachersQualified(catalog, p, a)
  }

  /** No teacher of an entry the search committed for a key without `lecture` in its name
      has four consecutive periods on a day. */
  ghost predicate TeacherCapped(p: Assignment, a: Assignment)
  {
    forall k, e :: IsNew(p, a, k) && !Contains(k.name, "lecture") && e in a[k] ==>
      !FourInARow(Entries(a), ByTeacher, e.teacher)
  }

  /** Every variable whose name contains `lecture` is filled by the preset, so the search
      only commits keys the teacher cap applies to. */
  ghost predicate LecturesPreset(variables: seq<Key>, p: Assignment)
  {
    forall k :: k in variables && Contains(k.name, "lecture") ==> k in p && p[k] != []
  }

  /** The teacher cap holds whenever the preset fills the lecture variables: a lecture
      committed by the search is exempt from the cap yet adds periods to its teacher, so
      without that premise an earlier commit's teacher could reach four in a row. */
  ghost predicate Capped(variables: seq<Key>, p: Assignment, a: Assignment)
  {
    LecturesPreset(variables, p) ==> TeacherCapped(p, a)
  }

  /** A course name lacking one letter of `lecture` gives TD and TP names without it. */
  lemma LacksLecture(name: string, ch: char)
    requires ch in "lecture" && ch !in "_td" && ch !in "_tp" && ch !in name
    ensures !Contains(name + "_td", "lecture") && !Contains(name + "_tp", "lecture")
  {
    MissingChar(name + "_td", "lecture", ch);
    MissingChar(name + "_tp", "lecture", ch);
  }

  /** No TD or TP key of the shipped catalog has `lecture` in its name: each course name
      lacks one of its letters. */
  lemma SessionNamesOfSource(i: nat)
    requires i < |SourceCatalog()|
    ensures var n := SourceCatalog()[i].name;
            !Contains(n + "_td", "lecture") && !Contains(n + "_tp", "lecture")
  {
    if i < 4 {
      FirstSessionNames(i);
    } else {
      LastSessionNames(i);
    }
  }

  lemma FirstSessionNames(i: nat)
    requires i < 4
    ensures var n := SourceCatalog()[i].name;
            !Contains(n + "_td", "lecture") && !Contains(n + "_tp", "lecture")
  {
    var n := SourceCatalog()[i].name;
    if i == 0 {
      assert n == "Sécurité" && 'l' !in n;
      LacksLecture(n, 'l');
    } else if i == 1 {
      assert n == "Méthodes formelles" && 'c' !in n;
      LacksLecture(n, 'c');
    } else if i == 2 {
      assert n == "Analyse numérique" && 'c' !in n;
      LacksLecture(n, 'c');
    } else {
      assert n == "Entrepreneuriat" && 'l' !in n;
      LacksLecture(n, 'l');
    }
  }

  lemma LastSessionNames(i: nat)
    requires 4 <= i < 8
    ensures var n := SourceCatalog()[i].name;
            !Contains(n + "_td", "lecture") && !Contains(n + "_tp", "lecture")
  {
    var n := SourceCatalog()[i].name;
    if i == 4 {
      ResearchNames();
    } else if i == 5 {
      ArchitectureNames();
    } else if i == 6 {
      assert n == "Réseaux 2" && 'l' !in n;
      LacksLecture(n, 'l');
    } else {
      assert n == "Artificial Intelligence" && 'u' !in n;
      LacksLecture(n, 'u');
    }
  }

  lemma ResearchNames()
    ensures var n := SourceCatalog()[4].name;
            !Contains(n + "_td", "lecture") && !Contains(n + "_tp", "lecture")
  {
    assert SourceCatalog()[4].name == "Recherche " + "opérationnelle 2";
    LacksLectureSplit("Recherche ", "opérationnelle 2", 'u');
  }

  lemma ArchitectureNames()
    ensures var n := SourceCatalog()[5].name;
            !Contains(n + "_td", "lecture") && !Contains(n + "_tp", "lecture")
  {
    assert SourceCatalog()[5].name == "Distributed Architecture" + " & Intensive Computing";
    LacksLectureSplit("Distributed Architecture", " & Intensive Computing", 'l');
  }

  /** `LacksLecture` for a name given in two pieces. */
  lemma LacksLectureSplit(a: string, b: string, ch: char)
    requires ch in "lecture" && ch !in "_td" && ch !in "_tp" && ch !in a && ch !in b
    ensures !Contains(a + b + "_td", "lecture") && !Contains(a + b + "_tp", "lecture")
  {
    LacksLecture(a + b, ch);
  }

  /** Every lecture key of the shipped catalog is a key of the shipped preset, with entries. */
  lemma PresetHasLecture(i: nat)
    requires i < |SourceCatalog()|
    ensures var k := Key(SourceCatalog()[i].name + "_lecture", 1);
            k in SourcePreset() && SourcePreset()[k] != []
  {
    var n := SourceCatalog()[i].name;
    if i == 0 {
      assert n + "_lecture" == "Sécurité_lecture";
    } else if i == 1 {
      assert n + "_lecture" == "Méthodes formelles_lecture";
    } else if i == 2 {
      assert n + "_lecture" == "Analyse numérique_lecture";
    } else if i == 3 {
      assert n + "_lecture" == "Entrepreneuriat_lecture";
    } else if i == 4 {
      assert n + "_lecture" == "Recherche opérationnelle 2_lecture";
    } else if i == 5 {
      assert n + "_lecture" == "Distributed Architecture & Intensive Computing_lecture";
    } else if i == 6 {
      assert n + "_lecture" == "Réseaux 2_lecture";
    } else {
      assert n + "_lecture" == "Artificial Intelligence_lecture";
    }
  }

  /** A preset that fills every lecture key of a catalog whose TD and TP names do not
      contain `lecture` fills every variable with `lecture` in its name. */
  lemma LecturesPresetOf(catalog: seq<Course>, p: Assignment)
    requires forall c :: c in catalog ==>
               !Contains(c.name + "_td", "lecture") && !Contains(c.name + "_tp", "lecture")
    requires forall c :: c in catalog && c.lecture > 0 ==>
               Key(c.name + "_lecture", 1) in p && p[Key(c.name + "_lecture", 1)] != []
    ensures LecturesPreset(VariablesOf(catalog), p)
  {
    forall k | k in VariablesOf(catalog) && Contains(k.name, "lecture")
      ensures k in p && p[k] != []
    {
      VariablesOfMembers(catalog, k);
    }
  }

  /** The shipped preset fills every variable with `lecture` in its name, so the teacher
      cap of the search holds for the shipped problem. */
  lemma SourceLecturesPreset()
    ensures LecturesPreset(VariablesOf(SourceCatalog()), SourcePreset())
  {
    var cat := SourceCatalog();
    forall c | c in cat
      ensures !Contains(c.name + "_td", "lecture") && !Contains(c.name + "_tp", "lecture")
      ensures c.lecture > 0 ==>
                Key(c.name + "_lecture", 1) in SourcePreset() &&
                SourcePreset()[Key(c.name + "_lecture", 1)] != []
    {
      var i :| 0 <= i < |cat| && cat[i] == c;
      SessionNamesOfSource(i);
      PresetHasLecture(i);
    }
    LecturesPresetOf(cat, SourcePreset());
  }

  /** The preset itself is a sound starting point, whatever it holds. */
  lemma SoundStart(catalog: seq<Course>, variables: seq<Key>, p: Assignment, d: map<Key, seq<Value>>)
    ensures Restored(p, p) && Sound(catalog, p, p, d) && Capped(variables, p, p)
  {
  }

  lemma {:induction false} RestoredFacts(variables: seq<Key>, a0: Assignment, a: Assignment)
    requires Restored(a0, a)
    ensures KeepsFilled(a0, a)
    ensures UnfilledSet(variables, a) == UnfilledSet(variables, a0)
    ensures Entries(a) <= Entries(a0)
  {
    forall e | e in Entries(a) ensures e in Entries(a0) {
      var k :| k in a.Keys && k in a && e in a[k];
      assert k in a0.Keys && e in a0[k];
    }
  }

  lemma KeepsFilledTrans(a: Assignment, b: Assignment, c: Assignment)
    requires KeepsFilled(a, b) && KeepsFilled(b, c)
    ensures KeepsFilled(a, c)
  {
  }

  /** Four in a row is monotone in the set of entries. */
  lemma FourMonotone(small: set<Value>, big: set<Value>, axis: Axis, w: int)
    requires small <= big && FourInARow(small, axis, w)
    ensures FourInARow(big, axis, w)
  {
    var d, p :| AllOccupied(Periods(small, axis, w, d), p, 4);
    assert Periods(small, axis, w, d) <= Periods(big, axis, w, d);
    assert AllOccupied(Periods(big, axis, w, d), p, 4);
  }

  /** A sound state stays sound when a failed branch drops keys from it. */
  lemma {:induction false} SoundAfterRestore(catalog: seq<Course>, p: Assignment, a0: Assignment,
                                             a: Assignment, d: map<Key, seq<Value>>)
    requires Sound(catalog, p, a0, d) && Restored(a0, a)
    ensures Sound(catalog, p, a, d)
  {
    RestoredFacts([], a0, a);
    forall k: Key, e: Value | IsNew(p, a, k) && e in a[k]
      ensures !FourInARow(Entries(a), ByGroup, e.group)
    {
      assert IsNew(p, a0, k) && e in a0[k];
      if FourInARow(Entries(a), ByGroup, e.group) {
        FourMonotone(Entries(a), Entries(a0), ByGroup, e.group);
      }
    }
  }

  /** Dropping keys on a failed branch keeps the teacher cap. */
  lemma {:induction false} CappedAfterRestore(variables: seq<Key>, p: Assignment, a0: Assignment,
                                              a: Assignment)
    requires Capped(variables, p, a0) && Restored(a0, a)
    ensures Capped(variables, p, a)
  {
    if LecturesPreset(variables, p) {
      RestoredFacts([], a0, a);
      forall k: Key, e: Value | IsNew(p, a, k) && !Contains(k.name, "lecture") && e in a[k]
        ensures !FourInARow(Entries(a), ByTeacher, e.teacher)
      {
        assert IsNew(p, a0, k) && e in a0[k];
        if FourInARow(Entries(a), ByTeacher, e.teacher) {
          FourMonotone(Entries(a), Entries(a0), ByTeacher, e.teacher);
        }
      }
    }
  }

  /** Replacing an empty or missing entry by `vals` adds exactly the entries of `vals`. */
  lemma EntriesCommit(a: Assignment, v: Key, vals: seq<Value>)
    requires v !in a || a[v] == []
    ensures Entries(a[v := vals]) == Entries(a) + Elems(vals)
  {
    var b := a[v := vals];
    forall e | e in Entries(b) ensures e in Entries(a) + Elems(vals) {
      var k :| k in b.Keys && k in b && e in b[k];
      if k != v {
        assert k in a.Keys && e in a[k];
      }
    }
    forall e | e in Entries(a) ensures e in Entries(b) {
      var k :| k in a.Keys && k in a && e in a[k];
      assert k != v;
      assert k in b.Keys && e in b[k];
    }
    forall e | e in Elems(vals) ensures e in Entries(b) {
      assert v in b.Keys && e in b[v];
    }
  }

  /** Periods of `w`, and hence its runs, depend only on the entries of `w`. */
  lemma FourOnlyOwn(e1: set<Value>, e2: set<Value>, axis: Axis, w: int)
    requires forall x :: Who(x, axis) == w ==> (x in e1 <==> x in e2)
    ensures FourInARow(e1, axis, w) == FourInARow(e2, axis, w)
  {
    forall d ensures Periods(e1, axis, w, d) == Periods(e2, axis, w, d) {
    }
  }

  /** The facts one accepted candidate gives about the state it was checked against. */
  lemma Accepted(catalog: seq<Course>, v: Key, x: Value, a: Assignment)
    requires v !in a || a[v] == []
    requires Consistent(catalog, v, x, a) == Ok(true)
    ensures forall k, e :: k in a && e in a[k] ==> !Clash(x, e) && !Clash(e, x)
    ensures v.group == x.group
    ensures !FourInARow(Entries(a) + {x}, ByGroup, x.group)
    ensures !Contains(v.name, "lecture") ==> !FourInARow(Entries(a) + {x}, ByTeacher, x.teacher)
    ensures Qualified(catalog, v, x.teacher)
  {
    AcceptsExactly(catalog, v, x, a);
    EntriesCommit(a, v, [x]);
    assert Elems([x]) == {x};
    forall k, e | k in a && e in a[k] ensures !Clash(x, e) && !Clash(e, x) {
      assert !Clash(x, e);
    }
  }

  lemma {:induction false} GroupCapCommit(catalog: seq<Course>, p: Assignment, a: Assignment,
                                          v: Key, vals: seq<Value>)
    requires GroupCapped(p, a)
    requires v !in a || a[v] == []
    requires forall i :: 0 <= i < |vals| ==> Consistent(catalog, v, vals[i], a) == Ok(true)
    requires forall i, j :: 0 <= i < j < |vals| ==> vals[i].group != vals[j].group
    ensures GroupCapped(p, a[v := vals])
  {
    var b := a[v := vals];
    EntriesCommit(a, v, vals);
    forall k: Key, e: Value | IsNew(p, b, k) && e in b[k]
      ensures !FourInARow(Entries(b), ByGroup, e.group)
    {
      var g := e.group;
      if i :| 0 <= i < |vals| && vals[i].group == g {
        Accepted(catalog, v, vals[i], a);
        assert forall x :: x in vals && Who(x, ByGroup) == g ==> x == vals[i];
        assert forall x :: Who(x, ByGroup) == g ==>
          (x in Entries(b) <==> x in Entries(a) + {vals[i]});
        FourOnlyOwn(Entries(b), Entries(a) + {vals[i]}, ByGroup, g);
      } else {
        assert k != v;
        assert IsNew(p, a, k) && e in a[k];
        assert forall x :: Who(x, ByGroup) == g ==> (x in Entries(b) <==> x in Entries(a));
        FourOnlyOwn(Entries(b), Entries(a), ByGroup, g);
      }
    }
  }

  /** Committing candidates that each passed `is_consistent` keeps a state sound. */
  lemma {:induction false} CommitSound(catalog: seq<Course>, p: Assignment, a: Assignment,
                                       d: map<Key, seq<Value>>, v: Key, vals: seq<Value>)
    requires Sound(catalog, p, a, d)
    requires v !in a || a[v] == []
    requires vals != []
    requires forall i :: 0 <= i < |vals| ==> Consistent(catalog, v, vals[i], a) == Ok(true)
    requires forall i, j :: 0 <= i < j < |vals| ==> vals[i].group != vals[j].group
    requires v.name != "lecture" ==> |vals| == 1 && v in d && vals[0] in d[v]
    ensures Sound(catalog, p, a[v := vals], d)
    ensures KeepsFilled(a, a[v := vals])
  {
    GroupCapCommit(catalog, p, a, v, vals);
    AcceptedAll(catalog, v, vals, a);
    QualifiedCommit(catalog, p, a, v, vals);
    ClashFreeCommit(p, a, v, vals);
    PlacedCommit(p, a, d, v, vals);
  }

  lemma AcceptedAll(catalog: seq<Course>, v: Key, vals: seq<Value>, a: Assignment)
    requires v !in a || a[v] == []
    requires forall i :: 0 <= i < |vals| ==> Consistent(catalog, v, vals[i], a) == Ok(true)
    ensures forall i :: 0 <= i < |vals| ==>
              forall k, e :: k in a && e in a[k] ==> !Clash(vals[i], e) && !Clash(e, vals[i])
    ensures forall i :: 0 <= i < |vals| ==> v.group == vals[i].group
  {
    forall i | 0 <= i < |vals|
      ensures (forall k, e :: k in a && e in a[k] ==> !Clash(vals[i], e) && !Clash(e, vals[i]))
      ensures v.group == vals[i].group
    {
      Accepted(catalog, v, vals[i], a);
    }
  }

  lemma QualifiedCommit(catalog: seq<Course>, p: Assignment, a: Assignment, v: Key,
                        vals: seq<Value>)
    requires TeachersQualified(catalog, p, a)
    requires forall i :: 0 <= i < |vals| ==> Qualified(catalog, v, vals[i].teacher)
    ensures TeachersQualified(catalog, p, a[v := vals])
  {
  }

  /** A single entry that passed `is_consistent` for a key without `lecture` in its name
      keeps the teacher cap: its own teacher was checked with the entry in place, and every
      other teacher's periods are unchanged. */
  lemma {:induction false} TeacherCapCommit(catalog: seq<Course>, p: Assignment, a: Assignment,
                                            v: Key, x: Value)
    requires TeacherCapped(p, a)
    requires v !in a || a[v] == []
    requires Consistent(catalog, v, x, a) == Ok(true) && !Contains(v.name, "lecture")
    ensures TeacherCapped(p, a[v := [x]])
  {
    var b := a[v := [x]];
    Accepted(catalog, v, x, a);
    EntriesCommit(a, v, [x]);
    assert Elems([x]) == {x};
    forall k: Key, e: Value | IsNew(p, b, k) && !Contains(k.name, "lecture") && e in b[k]
      ensures !FourInARow(Entries(b), ByTeacher, e.teacher)
    {
      var t := e.teacher;
      if t != x.teacher {
        assert k != v;
        assert IsNew(p, a, k) && e in a[k];
        assert forall y :: Who(y, ByTeacher) == t ==> (y in Entries(b) <==> y in Entries(a));
        FourOnlyOwn(Entries(b), Entries(a), ByTeacher, t);
      }
    }
  }

  /** A commit of the search keeps the teacher cap when the lecture variables are preset:
      the key it fills is unfilled, so its name has no `lecture`, and it commits one entry. */
  lemma {:induction false} CappedCommit(catalog: seq<Course>, variables: seq<Key>, p: Assignment,
                                        a: Assignment, v: Key, vals: seq<Value>)
    requires Capped(variables, p, a) && KeepsFilled(p, a)
    requires v in variables && (v !in a || a[v] == [])
    requires vals != [] && forall i :: 0 <= i < |vals| ==> Consistent(catalog, v, vals[i], a) == Ok(true)
    requires v.name != "lecture" ==> |vals| == 1
    ensures Capped(variables, p, a[v := vals])
  {
    if LecturesPreset(variables, p) {
      assert !Contains(v.name, "lecture");
      assert IsPrefix("lecture", "lecture");
      assert vals == [vals[0]];
      TeacherCapCommit(catalog, p, a, v, vals[0]);
    }
  }

  lemma PlacedCommit(p: Assignment, a: Assignment, d: map<Key, seq<Value>>, v: Key,
                     vals: seq<Value>)
    requires Placed(p, a, d)
    requires forall i :: 0 <= i < |vals| ==> v.group == vals[i].group
    requires v.name != "lecture" ==> |vals| == 1 && v in d && vals[0] in d[v]
    ensures Placed(p, a[v := vals], d)
  {
  }

  /** Entries that clash with nothing already placed keep the state clash-free. */
  lemma ClashFreeCommit(p: Assignment, a: Assignment, v: Key, vals: seq<Value>)
    requires ClashFree(p, a)
    requires forall i :: 0 <= i < |vals| ==>
               forall k, e :: k in a && e in a[k] ==> !Clash(vals[i], e) && !Clash(e, vals[i])
    ensures ClashFree(p, a[v := vals])
  {
    var b := a[v := vals];
    forall k1, k2, e1, e2 |
      k1 in b && k2 in b && k1 != k2 && (IsNew(p, b, k1) || IsNew(p, b, k2)) &&
      e1 in b[k1] && e2 in b[k2]
      ensures !Clash(e1, e2)
    {
      if k1 == v {
        var i :| 0 <= i < |vals| && vals[i] == e1;
        assert k2 in a && e2 in a[k2];
      } else if k2 == v {
        var i :| 0 <= i < |vals| && vals[i] == e2;
        assert k1 in a && e1 in a[k1];
      } else {
        assert IsNew(p, a, k1) || IsNew(p, a, k2);
      }
    }
  }

  /** A failed branch: the committed entry of `v` is deleted again, and the state is a
      restoration of the one before the commit. */
  lemma FailureRestores(cur: Assignment, v: Key, vals: seq<Value>, after: Assignment)
    requires (v !in cur || cur[v] == []) && vals != [] && Restored(cur[v := vals], after)
    ensures v in after
    ensures Restored(cur, after - {v})
  {
  }

  lemma RestoredTrans(a: Assignment, b: Assignment, c: Assignment)
    requires Restored(a, b) && Restored(b, c)
    ensures Restored(a, c)
  {
  }

  lemma UnfilledCommit(variables: seq<Key>, a: Assignment, v: Key, vals: seq<Value>)
    requires vals != []
    ensures UnfilledSet(variables, a[v := vals]) == UnfilledSet(variables, a) - {v}
  {
  }

  /** `all(self.is_consistent(var, gv, assignment) for gv in group_values)`: stops at the first
      False, and an exception stops it too. */
  function AllPass(catalog: seq<Course>, v: Key, vals: seq<Value>, a: Assignment): Result<bool>
  {
    if vals == [] then Ok(true)
    else
      match Consistent(catalog, v, vals[0], a)
      case Err(e) => Err(e)
      case Ok(b) => if b then AllPass(catalog, v, vals[1..], a) else Ok(false)
  }

  lemma {:induction false} AllPassMeans(catalog: seq<Course>, v: Key, vals: seq<Value>, a: Assignment)
    ensures AllPass(catalog, v, vals, a) == Ok(true) <==>
            forall i :: 0 <= i < |vals| ==> Consistent(catalog, v, vals[i], a) == Ok(true)
  {
    if vals != [] {
      AllPassMeans(catalog, v, vals[1..], a);
      if Consistent(catalog, v, vals[0], a) == Ok(true) {
        assert forall i :: 1 <= i < |vals| ==> vals[i] == vals[1..][i - 1];
      }
    }
  }

  lemma AllPassAt(catalog: seq<Course>, v: Key, vals: seq<Value>, i: nat, a: Assignment)
    requires i < |vals|
    ensures AllPass(catalog, v, vals[i..], a) ==
              match Consistent(catalog, v, vals[i], a)
              case Err(e) => Err(e)
              case Ok(b) => if b then AllPass(catalog, v, vals[i + 1..], a) else Ok(false)
  {
    assert vals[i..][0] == vals[i] && vals[i..][1..] == vals[i + 1..];
  }

  method AllConsistent(catalog: seq<Course>, v: Key, vals: seq<Value>, a: Assignment) returns (r: Result<bool>)
    ensures r == AllPass(catalog, v, vals, a)
  {
    var i := 0;
    while i < |vals|
      invariant 0 <= i <= |vals|
      invariant AllPass(catalog, v, vals, a) == AllPass(catalog, v, vals[i..], a)
    {
      AllPassAt(catalog, v, vals, i, a);
      var ok := IsConsistent(catalog, v, vals[i], a);
      if ok.Err? {
        return Err(ok.error);
      }
      if !ok.value {
        return Ok(false);
      }
      i := i + 1;
    }
    assert vals[i..] == [];
    return Ok(true);
  }

  /** The six broadcast entries share slot and teacher and cover groups 1..6 once each. */
  lemma BroadcastEntries(x: Value)
    ensures var gvs := AllGroups(x.slot.day, x.slot.period, x.teacher);
      |gvs| == 6 &&
      (forall i :: 0 <= i < 6 ==> gvs[i].slot == x.slot && gvs[i].teacher == x.teacher && gvs[i].group == i + 1) &&
      (forall i, j :: 0 <= i < j < 6 ==> gvs[i].group != gvs[j].group)
  {
  }

  /** No key `_create_variables` makes is named exactly `lecture`, so the tuple-membership
      test `"lecture" in var` is false for all of them and every key takes the single-entry
      branch. */
  lemma BroadcastUnreachable(catalog: seq<Course>, k: Key)
    requires k in VariablesOf(catalog)
    ensures k.name != "lecture"
  {
    VariablesOfMembers(catalog, k);
    var c :| c in catalog && IsVariableOf(c, k);
    var n := k.name;
    if n == c.name + "_lecture" {
      assert |n| >= 8;
    } else if n == c.name + "_td" {
      assert n[|n| - 1] == 'd';
    } else {
      assert n == c.name + "_tp";
      assert n[|n| - 1] == 'p';
    }
  }

  /** Even a key named `lecture` with a resolvable type would reach the group check with
      group 1, so the broadcast entries of groups 2..6 could never pass. */
  lemma BroadcastOnlyGroupOne(catalog: seq<Course>, k: Key, x: Value, a: Assignment, i: nat)
    requires k.group == 1 && 1 <= i < 6
    requires RoleOf(k.name).Some? && AllowedFor(catalog, k.name, RoleOf(k.name).value).Ok?
    ensures Consistent(catalog, k, AllGroups(x.slot.day, x.slot.period, x.teacher)[i], a) == Ok(false)
  {
    var v := AllGroups(x.slot.day, x.slot.period, x.teacher)[i];
    assert v.group == i + 1;
    RejectionCases(catalog, k, v, a);
  }

  /** `[var for var in self.variables if var not in assignment or len(assignment.get(var, [])) == 0]`. */
  function Unassigned(variables: seq<Key>, a: Assignment): (r: seq<Key>)
    ensures forall k :: k in r <==> k in variables && (k !in a || a[k] == [])
    ensures Sub(r, variables)
  {
    Filter(variables, (k: Key) => k !in a || a[k] == [])
  }

  /** The solver object: its catalog, variables, constraint network and the assignment the
      search mutates. */
  class Solver {
    const catalog: seq<Course>
    const variables: seq<Key>
    const net: Network<Key, Value, Kind>
    var assignment: Assignment

    ghost predicate Valid()
      reads this, net
    {
      net.Valid() && net.keys == variables
    }

    /** backend/time_table_solver.py: `__init__`, with the module constants SLOTS, TEACHERS
        and GROUPS, the course catalog and the preset assignment passed in. */
    constructor (slots: seq<Slot>, teachers: seq<int>, groups: seq<int>,
                 catalog: seq<Course>, preset: Assignment)
      ensures Valid() && fresh(net)
      ensures this.catalog == catalog && variables == VariablesOf(catalog)
      ensures net.domains == FilterByGroup(InitialDomains(variables, MegaDomain(slots, teachers, groups)))
      ensures net.constraints == AllArcs(variables, variables)
      ensures assignment == preset
    {
      var vars := CreateVariables(catalog);
      var mega := MegaDomain(slots, teachers, groups);
      var domains := FilterByGroup(InitialDomains(vars, mega));
      AllArcsMembers(vars, vars);
      var sat := (kind: Kind, x: Value, y: Value) => Sat(kind, x, y);
      this.catalog := catalog;
      variables := vars;
      net := new Network(sat, vars, AllArcs(vars, vars), domains);
      assignment := preset;
    }

    /** `select_unassigned_variable`: MRV over the unassigned variables; `min` of an empty
        list raises ValueError. */
    function SelectUnassigned(a: Assignment): (r: Result<Key>)
      reads this, net
      requires Valid()
      ensures r.Err? <==> forall k :: k in variables ==> k in a && a[k] != []
      ensures r.Err? ==> r.error == ValueError
      ensures r.Ok? ==> r.value in variables && (r.value !in a || a[r.value] == [])
      ensures r.Ok? ==> forall k :: k in variables && (k !in a || a[k] == []) ==>
                          |net.domains[r.value]| <= |net.domains[k]|
      ensures r.Ok? ==> var u := Unassigned(variables, a);
                exists i :: 0 <= i < |u| && u[i] == r.value &&
                  forall j :: 0 <= j < i ==> |net.domains[r.value]| < |net.domains[u[j]]|
    {
      Mrv(Unassigned(variables, a), net.domains)
    }

    /** backend/time_table_solver.py: `backtrack`. */
    method Backtrack(ghost p: Assignment) returns (r: Outcome)
      requires Valid()
      requires Sound(catalog, p, assignment, net.domains) && Capped(variables, p, assignment)
      modifies this
      ensures r.Solved? ==> |assignment| == |variables|
      ensures r.Solved? ==> Sound(catalog, p, assignment, net.domains) && KeepsFilled(old(assignment), assignment)
      ensures r.Solved? ==> Capped(variables, p, assignment)
      ensures r.Unsat? ==> Restored(old(assignment), assignment)
      decreases |UnfilledSet(variables, assignment)|, 2
    {
      if |assignment| == |variables| {
        return Solved;
      }
      var sel := SelectUnassigned(assignment);
      if sel.Err? {
        return Raised(sel.error);
      }
      var v := sel.value;
      var dom := net.domains[v];
      ghost var a0 := assignment;
      assert v in UnfilledSet(variables, a0);
      var i := 0;
      while i < |dom|
        invariant 0 <= i <= |dom|
        invariant Restored(a0, assignment)
      {
        RestoredFacts(variables, a0, assignment);
        r := TryValue(p, a0, v, dom[i]);
        if r != Unsat {
          return r;
        }
        i := i + 1;
      }
      return Unsat;
    }

    /** One round of the loop of `backtrack` over the domain of `var`: `Unsat` stands for
        going on with the next value, after a `continue` or a failed recursive call. */
    method TryValue(ghost p: Assignment, ghost a0: Assignment, v: Key, value: Value)
      returns (r: Outcome)
      requires Valid()
      requires Sound(catalog, p, a0, net.domains) && Capped(variables, p, a0) && Restored(a0, assignment)
      requires v in UnfilledSet(variables, a0) && v in net.domains && value in net.domains[v]
      modifies this
      ensures r.Solved? ==> |assignment| == |variables|
      ensures r.Solved? ==> Sound(catalog, p, assignment, net.domains) && KeepsFilled(a0, assignment)
      ensures r.Solved? ==> Capped(variables, p, assignment)
      ensures r.Unsat? ==> Restored(a0, assignment)
      decreases |UnfilledSet(variables, assignment)|, 1
    {
      var ok := IsConsistent(catalog, v, value, assignment);
      if ok.Err? {
        return Raised(ok.error);
      }
      if !ok.value {
        return Unsat;
      }
      ghost var cur := assignment;
      RestoredFacts(variables, a0, cur);
      SoundAfterRestore(catalog, p, a0, cur, net.domains);
      CappedAfterRestore(variables, p, a0, cur);
      var vals: seq<Value>;
      if v.name == "lecture" {
        vals := AllGroups(value.slot.day, value.slot.period, value.teacher);
        BroadcastEntries(value);
        var all := AllConsistent(catalog, v, vals, assignment);
        if all.Err? {
          return Raised(all.error);
        }
        if !all.value {
          return Unsat;
        }
        AllPassMeans(catalog, v, vals, assignment);
      } else {
        vals := [value];
      }
      CommitSound(catalog, p, cur, net.domains, v, vals);
      CappedCommit(catalog, variables, p, cur, v, vals);
      r := Place(p, v, vals);
      if r.Solved? {
        KeepsFilledTrans(a0, cur, assignment);
      } else if r.Unsat? {
        RestoredTrans(a0, cur, assignment);
      }
    }

    /** What `backtrack` does with a choice that passed the checks: `assignment[var] = vals`,
        the recursive call, and `del assignment[var]` when that call finds nothing. */
    method Place(ghost p: Assignment, v: Key, vals: seq<Value>) returns (r: Outcome)
      requires Valid()
      requires v in UnfilledSet(variables, assignment) && vals != []
      requires Sound(catalog, p, assignment[v := vals], net.domains)
      requires Capped(variables, p, assignment[v := vals])
      requires KeepsFilled(assignment, assignment[v := vals])
      modifies this
      ensures r.Solved? ==> |assignment| == |variables|
      ensures r.Solved? ==> Sound(catalog, p, assignment, net.domains) && KeepsFilled(old(assignment), assignment)
      ensures r.Solved? ==> Capped(variables, p, assignment)
      ensures r.Unsat? ==> Restored(old(assignment), assignment)
      decreases |UnfilledSet(variables, assignment)|, 0
    {
      ghost var cur := assignment;
      UnfilledCommit(variables, cur, v, vals);
      assignment := assignment[v := vals];
      r := Backtrack(p);
      if r.Solved? {
        KeepsFilledTrans(cur, cur[v := vals], assignment);
      } else if r.Unsat? {
        FailureRestores(cur, v, vals, assignment);
        assignment := assignment - {v};
      }
    }

    /** backend/time_table_solver.py: `backtracking_search`. AC-3 shrinks the domains first; a
        domain it empties ends the search with no solution. `pruned` records that AC-3
        returned False, in which case no search runs and the assignment is untouched. */
    method BacktrackingSearch() returns (r: Outcome, ghost pruned: bool)
      requires Valid()
      modifies this, net
      ensures Valid()
      ensures pruned ==> r == Unsat && assignment == old(assignment) &&
                         exists k :: k in net.domains && net.domains[k] == []
      ensures forall k :: k in net.domains ==> k in old(net.domains) && Sub(net.domains[k], old(net.domains)[k])
      ensures r.Solved? ==> |assignment| == |variables| &&
                            Sound(catalog, old(assignment), assignment, net.domains) &&
                            Capped(variables, old(assignment), assignment)
      ensures r.Unsat? ==> Restored(old(assignment), assignment)
    {
      var consistent := net.Ac3();
      pruned := !consistent;
      if !consistent {
        return Unsat, pruned;
      }
      SoundStart(catalog, variables, assignment, net.domains);
      r := Backtrack(assignment);
    }
  }
}
