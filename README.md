# Timetable CSP solver — a verified model

This project models the constraint-satisfaction engine of a weekly timetable solver in
Dafny. The solver places course sessions into (day, period) slots and picks teachers for
them. It does this for six student groups:

- lectures are shared by every group;
- TD (tutorial) and TP (lab) sessions belong to one group.

The repository has two generations of the solver, and both are modelled.

**The group-aware solver** (`backend/time_table_solver.py`):

- Variables are `(course_role, group)` keys. Candidate values are
  `((day, period), teacher, group)` triples.
- Every domain starts as the cross-product "mega domain", which is then filtered by group.
- Two conflict predicates forbid a shared (teacher, slot) or a shared (group, slot). They
  run over every ordered pair of variables, self-pairs included.
- AC-3 (Mackworth, 1977) prunes the domains in place.
- `is_consistent` checks four things: teacher eligibility, slot collisions, the group
  match, and caps on runs of consecutive periods per teacher and per group (lectures are
  exempt from the teacher cap).
- `backtrack` is chronological search with MRV variable selection. It starts from a preset
  assignment and mutates it in place.

**The earlier string-keyed solver** (`main.py`):

- It builds a day/period calendar, derived per-group teacher names and string variable
  names, plus a parser for those names.
- Its constraint graph holds only `!=` constraints.
- It runs the same AC-3, a successive-slot rule, an LCV value order and backtracking.

Modules:

| module | file | what it holds |
|---|---|---|
| `Wrappers` | wrappers.dfy | `Result`/`Option`, and the Python exceptions as an `Error` datatype |
| `Seqs` | seqs.dfy | `Sub` (delete elements, keep order), `list.remove`, comprehension filters |
| `Strings` | strings.dfy | `in`, `replace`, `split`, `str(n)`, `int(s)` on strings |
| `Runs` | runs.dfy | `count_max_consecutive_slots` and `sorted` on a set of periods |
| `ArcConsistency` | arc_consistency.dfy | the `Network` class with `revise`/`ac3`, and MRV; shared by both solvers |
| `Timetable` | timetable.dfy | backend keys, values, catalog, variables, domains and conflict predicates |
| `Oracle` | oracle.dfy | backend run tables and `is_consistent` |
| `Search` | search.dfy | backend `Solver` class, `backtrack`, `backtracking_search` |
| `Legacy` | legacy.dfy | main.py calendar, group teachers, variable names, parser, teacher lookup, constraints |
| `LegacyCheck` | legacy_check.dfy | main.py `check_successive_slots`, `check_teacher_workdays`, `is_consistent`, `lcv_heuristic` |
| `LegacySearch` | legacy_search.dfy | main.py `Solver` class, `_backtrack`, `backtracking_search` |

These source behaviours are reproduced as written:

- `"lecture" in var` tests membership in a `(str, int)` tuple, so it is true only for a
  key named exactly `lecture`. No generated key has that name, so the broadcast branch
  never runs.
- The backend search starts from the preset assignment. In that preset the `Réseaux 2`
  lecture lists only groups 1, 2, 3, 4 and 6.
- Self-arcs exist. `revise` reads the live domain of `xj`, so on a self-arc earlier
  deletions affect later support checks.
- The teacher cap looks at every day of the teacher, not only the candidate's day.
- Groups are always 1..6 in the backend, whatever `num_groups` is.
- A key mapped to an empty list counts as unassigned. A failed branch deletes such a key
  instead of restoring the empty list.
- In main.py, `g % len(teacher_tp)` gives group 1 the second TP teacher.
- main.py evaluates the two-workday rule but never rejects on it.

Python exceptions become `Err` values (`KeyError`, `IndexError`, `ValueError`,
`ZeroDivisionError`). They are not excluded by preconditions. A search that meets one ends
with `Raised`.

## Model

| member | source | states |
|---|---|---|
| `Runs.CountMaxConsecutive` | backend/time_table_solver.py:340-350 | the counting loop returns `MaxRun(slots)`, the running maximum of +1 stretches |
| `Runs.MaxRunIsLongest` | backend/time_table_solver.py:340-350 | 0 exactly for an empty list; otherwise in 1..len, attained by a stretch, and no +1 stretch is longer |
| `Runs.SortedSet` | backend/time_table_solver.py:313 | `sorted(periods)`: strictly increasing, with exactly the set's elements |
| `Runs.SetRunMeansConsecutive` | backend/time_table_solver.py:313-314 | on a day's set of periods, the sorted run reaches n iff n consecutive periods are all occupied |
| `Timetable.Lookup` | backend/time_table_solver.py:364 | `self.courses[name]` finds an entry with that name, or none exists (KeyError) |
| `Timetable.CreateVariables` | backend/time_table_solver.py:178-194 | the loop appends, course by course, the lecture key (group 1), then TD keys and TP keys for groups 1..6 |
| `Timetable.VariablesOfMembers` | backend/time_table_solver.py:178-194 | a key is created iff some course has that role, with group 1 for lectures and 1..6 for TD/TP |
| `Timetable.SourceVariableCount` | backend/time_table_solver.py:109-124 | the shipped catalog yields 62 variables |
| `Timetable.MegaDomain` | backend/time_table_solver.py:129 | holds exactly the (slot, teacher, group) triples of the three lists; its length is their product |
| `Timetable.InitialDomains` | backend/time_table_solver.py:130 | every variable, and nothing else, starts with the mega domain |
| `Timetable.FilterByGroup` | backend/time_table_solver.py:95-102 | same keys; every survivor has the key's group; no value of the key's group is dropped; survivors keep their order |
| `Timetable.ConflictPredicates` | backend/time_table_solver.py:149-174 | both predicates are symmetric; each is false exactly on a shared teacher+slot (resp. group+slot); the teacher one ignores groups, the group one ignores teachers |
| `Timetable.AllArcsMembers` | backend/time_table_solver.py:143-145 | the constraint list has both kinds for every ordered pair of variables, self-pairs included: 2·n² arcs |
| `Timetable.PresetMissesGroupFive` | backend/time_table_solver.py:141 | the preset `Réseaux 2_lecture` entry has five entries, none for group 5 |
| `ArcConsistency.Network.Revise` | backend/time_table_solver.py:215-224 | the loop leaves `D(xi)` as the scan of its copy against the live `D(xj)` and reports whether it removed anything; no other domain changes |
| `ArcConsistency.ScanShrinks` | backend/time_table_solver.py:215-224 | `revise` only deletes from `D(xi)` and keeps the order; it returns True iff the domain got shorter |
| `ArcConsistency.ScanStepwise` | backend/time_table_solver.py:215-224 | the scan deletes the value at step `i` exactly when it has no support in `D(xj)` as it is at that step (the partly pruned `D(xi)` on a self-arc), and its result and flag are the last step's |
| `ArcConsistency.ScanDeletesUnsupported` | backend/time_table_solver.py:219-221 | every deleted value has no support in `D(xj)` as it is when `revise` returns (the pruned `D(xi)` on a self-arc) |
| `ArcConsistency.ReviseOtherIsFilter` | backend/time_table_solver.py:215-224 | for two different variables, `revise` keeps exactly the supported values, in order |
| `ArcConsistency.Network.RequeueInto` | backend/time_table_solver.py:208-212 | appends, in constraint order, the reversed arcs into `xi` from every constraint touching `xi` other than the one from `xj` |
| `ArcConsistency.Network.Ac3` | backend/time_table_solver.py:198-213 | terminates; never adds a variable or a value, and keeps domain order; returns False only with an empty domain (also main.py:214-266) |
| `ArcConsistency.FirstMinIndex` | backend/time_table_solver.py:227-228 | the index of a minimal domain with no earlier minimal one: `min` keeps the first minimum |
| `ArcConsistency.Mrv` | backend/time_table_solver.py:227-228 | ValueError iff there are no candidates; otherwise the first candidate of smallest domain |
| `Oracle.ConsecutiveSlots` | backend/time_table_solver.py:296-338 | `get_teacher_consecutive_slots`/`get_group_consecutive_slots` return, for every owner and day, the longest run of that day's sorted periods |
| `Oracle.FillSchedule` | backend/time_table_solver.py:299-304 | the nested-defaultdict loop yields owner → day → set of occupied periods over all entries |
| `Oracle.AddEntries` | backend/time_table_solver.py:303-304 | adding one key's entries adds exactly their periods |
| `Oracle.InsertSchedule` | backend/time_table_solver.py:304 | `schedule[w][day].add(period)` is the schedule of the entry set with that entry added |
| `Oracle.DayRuns` | backend/time_table_solver.py:312-315 | one owner's row maps each day to the longest run of its sorted periods |
| `Oracle.ScheduleRuns` | backend/time_table_solver.py:310-317 | the outer loop computes every owner's row |
| `Oracle.OverCapMeansFour` | backend/time_table_solver.py:406-415 | a run table flags an owner (some day ≥ 4) iff that owner occupies four consecutive periods on one day |
| `Oracle.FindClash` | backend/time_table_solver.py:385-392 | true iff some committed entry shares the slot and the teacher or the group |
| `Oracle.ReachesFour` | backend/time_table_solver.py:407-409 | true iff some day of the row reaches 4 |
| `Oracle.CheckCaps` | backend/time_table_solver.py:401-417 | with the key's entry replaced by `[value]`: teacher cap unless the name contains `lecture`, then the group cap |
| `Oracle.IsConsistent` | backend/time_table_solver.py:356-417 | computes `Consistent`, the checks in source order, and changes nothing |
| `Oracle.AcceptsExactly` | backend/time_table_solver.py:356-417 | True exactly when: type known, teacher eligible, no clash, group matches, and no four-in-a-row for the group or (non-lecture) the teacher |
| `Oracle.CapsMeanFour` | backend/time_table_solver.py:401-415 | the two run caps reject exactly four consecutive occupied periods |
| `Oracle.RaisesExactly` | backend/time_table_solver.py:362-371 | raises only when the type is known but the course or its teacher entry is missing, and then it is KeyError |
| `Oracle.RejectionCases` | backend/time_table_solver.py:362-397 | unknown type, ineligible teacher (id or list), any same-slot teacher/group clash, or a group mismatch each give False |
| `Oracle.CapRejections` | backend/time_table_solver.py:401-415 | four consecutive periods of the group on any day reject; so do the teacher's on any day for a non-lecture key |
| `Oracle.PlainLectureRejected` | backend/time_table_solver.py:362-373 | a key named exactly `lecture` has no known type and is always rejected |
| `Oracle.LookupFinds` | backend/time_table_solver.py:364 | with distinct course names the lookup finds the course itself |
| `Oracle.SuffixRead` | backend/time_table_solver.py:362-371 | `<name><suffix>` with no `_` in the name reads as that type, and `replace` gives the name back |
| `Oracle.VariableResolves` | backend/time_table_solver.py:178-194 | a generated key reads as the role it was built with and resolves to that course's teacher entry |
| `Search.Unassigned` | backend/time_table_solver.py:231 | exactly the variables that are missing or map to an empty list, in variable order |
| `Search.Solver.SelectUnassigned` | backend/time_table_solver.py:230-232 | ValueError iff nothing is unassigned; otherwise an unassigned variable of minimal domain, the first such in variable order |
| `Search.AllConsistent` | backend/time_table_solver.py:471 | `all(...)` over the entries: stops at the first False or exception |
| `Search.AllPassMeans` | backend/time_table_solver.py:471 | `all(...)` is True iff every entry passes `is_consistent` |
| `Search.BroadcastEntries` | backend/time_table_solver.py:467-468 | the six entries share slot and teacher and cover groups 1..6 once each |
| `Search.BroadcastUnreachable` | backend/time_table_solver.py:465 | no generated key is named `lecture`, so the broadcast branch is never taken |
| `Search.BroadcastOnlyGroupOne` | backend/time_table_solver.py:396 | for a group-1 key, every broadcast entry of groups 2..6 fails the group check |
| `Search.CommitSound` | backend/time_table_solver.py:461-479 | committing entries that each passed `is_consistent` keeps the search state sound: no clash, group runs capped, domain values only, every committed teacher allowed for its key |
| `Search.Accepted` | backend/time_table_solver.py:376-415 | a value `is_consistent` accepts has a teacher allowed for the key, clashes with no committed entry, carries the key's group, gives its group no four consecutive periods, and, for a key without `lecture` in its name, gives its teacher none either |
| `Search.QualifiedCommit` | backend/time_table_solver.py:376-381 | committing entries whose teachers are allowed for the key keeps every committed teacher allowed |
| `Search.TeacherCapCommit` | backend/time_table_solver.py:403-409 | one accepted entry for a key without `lecture` keeps every non-lecture commit's teacher below four consecutive periods; other teachers' periods do not change |
| `Search.CappedCommit` | backend/time_table_solver.py:403-409 | when the preset fills every lecture variable, each search commit keeps the teacher cap |
| `Search.CappedAfterRestore` | backend/time_table_solver.py:476-483 | dropping keys on a failed branch keeps the teacher cap |
| `Search.SourceLecturesPreset` | backend/time_table_solver.py:141 | the shipped preset fills every variable whose name contains `lecture`, and no TD/TP name contains it |
| `Search.SoundStart` | backend/time_table_solver.py:141 | the preset itself is a sound, capped starting point |
| `Search.GroupCapCommit` | backend/time_table_solver.py:411-415 | no group of a search-committed entry gets four consecutive periods after the commit |
| `Search.ClashFreeCommit` | backend/time_table_solver.py:385-392 | entries that clash with nothing committed keep the state clash-free |
| `Search.SoundAfterRestore` | backend/time_table_solver.py:476-483 | dropping keys on a failed branch keeps the state sound |
| `Search.FailureRestores` | backend/time_table_solver.py:483 | `del assignment[var]` after a failed recursive call gives back a restoration of the state before the commit |
| `Search.Solver.constructor` | backend/time_table_solver.py:104-145 | variables, filtered mega-domain domains, all-pairs constraint list, and the given preset |
| `Search.Solver.Backtrack` | backend/time_table_solver.py:453-483 | on success the key count equals the variable count and every search commit is sound (no clash, group cap, allowed teacher, domain value) and teacher-capped whenever the preset fills the lecture variables; on failure only keys mapped to `[]` may be gone |
| `Search.Solver.TryValue` | backend/time_table_solver.py:460-483 | one candidate: skip unless consistent; the broadcast branch commits six entries only if all pass, else one entry; soundness and the teacher cap carry through |
| `Search.Solver.Place` | backend/time_table_solver.py:472-483 | assign, recurse, and delete the key when the recursion fails |
| `Search.Solver.BacktrackingSearch` | backend/time_table_solver.py:419-431 | AC-3 first (shrink-only domains); when AC-3 returns False (a domain is empty) the result is Unsat, the assignment is untouched and no search runs; otherwise search from the preset, and a solution is sound and teacher-capped (given a preset filling the lecture variables, as `Search.SourceLecturesPreset` shows the shipped one does) |
| `Legacy.AllSlots` | main.py:31-34 | the nested loop builds `SlotsOf(days, slots_per_day)`, or KeyError for a day with no count |
| `Legacy.SlotsMembers` | main.py:31-34 | `all_slots` exists iff every day has a count; it holds exactly `(day, 1..count)` |
| `Legacy.SlotsOrdered` | main.py:31-34 | for distinct days the pairs are distinct, with periods ascending within a day |
| `Legacy.SourceCalendar` | main.py:19-34 | 23 slots; Tuesday has exactly periods 1..3 |
| `Legacy.TdTeachers` | main.py:81-83 | the TD list has `num_groups` names, `"<teacher_td or teacher_lecture>_Group<g>"` at index g-1 |
| `Legacy.TpLoop` | main.py:86-92 | the TP loop builds `TpTeachers`: KeyError without `teacher_tp`, ZeroDivisionError on an empty one |
| `Legacy.AssignGroupTeachers` | main.py:74-92 | rewrites each course in order; the first course that raises ends it |
| `Legacy.GroupTeacherNames` | main.py:74-92 | the name, counts and teacher entries are unchanged; TD names use the TD/lecture base; TP names use `teacher_tp[g % len]` |
| `Legacy.TpErrors` | main.py:86-92 | a TP course with groups raises KeyError without `teacher_tp` and ZeroDivisionError with an empty one |
| `Legacy.CreateVariables` | main.py:94-111 | all lecture names first in course order, then per group 1..n each course's TD then TP name |
| `Legacy.LectureLoop` | main.py:101-103 | the lecture loop emits the lecture names in course order |
| `Legacy.GroupLoop` | main.py:107-111 | one group's round emits each course's TD name followed by its TP name |
| `Legacy.VariablesMembers` | main.py:94-111 | a name is created iff some course has a lecture with that name, or a TD/TP for a group 1..n with it |
| `Legacy.VariablesLength` | main.py:106-111 | every group contributes the same number of names |
| `Legacy.VariablesDistinct` | main.py:94-111 | on a well-formed catalog no name is created twice |
| `Legacy.ParseVariable` | main.py:159-185 | IndexError exactly for a name without `_`; the only other error is ValueError from the group number |
| `Legacy.TeacherFor` | main.py:187-212 | None exactly for a parsed name with an unknown session word; a teacher found is listed on that course; errors come only from parsing, lookup and indexing |
| `Legacy.ShouldAdd` | main.py:128-157 | raises only if a name does not parse or a teacher lookup raises; a shared teacher (two Nones included) is always constrained, so is a variable with itself |
| `Legacy.ParseLecture` | main.py:159-185 | `"<course>_lecture"` parses to (course, "lecture", None) when the course has no `_` |
| `Legacy.ParseGroup` | main.py:159-185 | `"<course>_<td/tp>_group<g>"` parses to (course, type, g) when the course has no `_` |
| `Legacy.ParseNoSeparator` | main.py:169-178 | a name with no `_` raises IndexError |
| `Legacy.Find` | main.py:200 | `courses[name]`: the first entry with that name, or KeyError iff none exists |
| `Legacy.PyIndex` | main.py:204 | Python list indexing, negative indices from the end, IndexError outside |
| `Legacy.ResolvesLecture` | main.py:199-200 | a lecture name resolves to `teacher_lecture` |
| `Legacy.ResolvesGroup` | main.py:201-210 | the TD/TP name of group g resolves to that group's derived teacher name |
| `Legacy.VariableResolves` | main.py:187-212 | on a well-formed catalog every generated name parses and has a teacher |
| `Legacy.GroupmatesConstrained` | main.py:142-144 | two TD/TP sessions of the same group are always constrained |
| `Legacy.OtherGroupsByTeacher` | main.py:146-150 | sessions of different groups are constrained iff their derived teachers coincide |
| `Legacy.LecturesByTeacher` | main.py:146-150 | two lectures are constrained iff they share the lecture teacher |
| `Legacy.LectureAndSession` | main.py:146-155 | a lecture and a group session are constrained iff same course or same teacher |
| `Legacy.CreateConstraints` | main.py:113-126 | the double loop builds `ConstraintsOf`, or the first error a pair raises |
| `Legacy.PairLoop` | main.py:123-126 | one `var1` against every later `var2` |
| `Legacy.ConstraintsMembers` | main.py:113-157 | succeeds iff every pair i < j classifies; then holds `(vars[i], vars[j], !=)` exactly for the accepted pairs |
| `Legacy.SetupSucceeds` | main.py:6-72 | on a well-formed catalog whose days all have counts, set-up raises nothing |
| `Legacy.SourceProblem` | main.py:38-72 | the shipped catalog is well formed, its set-up succeeds, and it has 62 variables |
| `LegacyCheck.SortInts` | main.py:330 | `list.sort()`: sorted, same multiset |
| `LegacyCheck.CheckSuccessiveSlots` | main.py:307-344 | the loops compute `CheckSuccessive`: longest +1 run of the sorted same-teacher same-day periods plus the new one is ≤ 3 |
| `LegacyCheck.TeacherDaySlotsMembers` | main.py:325-326 | the collected periods are exactly those of items with that teacher on that day |
| `LegacyCheck.FourInSorted` | main.py:330-344 | on a list without repeats, the sorted run reaches 4 iff four consecutive periods are present |
| `LegacyCheck.SuccessiveMeans` | main.py:307-344 | with no repeated period, the check rejects iff the teacher would have four consecutive periods that day |
| `LegacyCheck.RepeatedPeriodHidesRun` | main.py:336-341 | a repeated period breaks the count: `[1,2,2,3,4]` has run 3 |
| `LegacyCheck.WorkdaysNoNewError` | main.py:359-364 | once the successive check returned, the workday check cannot raise |
| `LegacyCheck.IsConsistent` | main.py:370-404 | the loops compute `Consistent`: constraint clash first, then successive slots, workdays evaluated and ignored |
| `LegacyCheck.AcceptsExactly` | main.py:370-404 | True iff no linked assigned item has the same value and the successive check passes; raises iff the successive check raises |
| `LegacyCheck.WorkdaysIgnored` | main.py:398-402 | a third workday alone never causes rejection |
| `LegacyCheck.EqualIsCount` | main.py:299-301 | the inner count is the number of equal values in the other domain |
| `LegacyCheck.CountConflicts` | main.py:293-302 | the nested loops compute `ConflictCount` |
| `LegacyCheck.Lcv` | main.py:281-305 | computes `LcvOrder`: each value paired with its conflict count, then insertion-sorted by that count |
| `LegacyCheck.LcvPermutes` | main.py:281-305 | the LCV order is a permutation of the domain, by non-decreasing conflict count, and values with equal counts keep their domain order (`sorted` is stable) |
| `LegacyCheck.SortByKeyStable` | main.py:305 | sorting by key keeps the relative order of entries with the same key |
| `LegacyCheck.TeacherDays` | main.py:361-362 | the set comprehension is the set of days of the placements with the same teacher; it raises iff some placement's teacher lookup raises |
| `LegacyCheck.CheckWorkdays` | main.py:346-368 | raises iff a teacher lookup raises; otherwise True iff the teacher's days plus the new day number at most two |
| `LegacySearch.Unassigned` | main.py:435 | exactly the variables not yet in the assignment |
| `LegacySearch.Delete` | main.py:451 | `del assignment[var]` removes exactly that key's item |
| `LegacySearch.DeleteLast` | main.py:443-451 | deleting the key just added gives the previous dict back |
| `LegacySearch.CommitSound` | main.py:441-443 | an accepted value keeps the assignment sound: unique keys, domain values, no linked clash, teacher runs ≤ 3 |
| `LegacySearch.Step` | main.py:439-451 | committing an LCV-offered accepted value keeps soundness, closes one variable, and `del` undoes it |
| `LegacySearch.Complete` | main.py:431-432 | a sound assignment with as many items as variables assigns every variable |
| `LegacySearch.NoOverlaps` | main.py:113-157 | in a sound assignment no teacher, no group, and no lecture/own-session pair shares a slot |
| `LegacySearch.NoFourInARow` | main.py:307-344 | in a sound assignment no teacher has four consecutive periods on a day |
| `LegacySearch.SetupResolves` | main.py:187-212 | every item of a sound assignment over a well-formed set-up resolves |
| `LegacySearch.SolvedComplete` | main.py:431-432 | on a well-formed catalog, a sound full-length assignment gives every variable exactly one slot |
| `LegacySearch.Solver.Create` | main.py:6-72 | `__init__`: calendar, group teachers, variables, full-calendar domains, constraints; errors as in `Setup` |
| `LegacySearch.Solver.Backtrack` | main.py:420-453 | every exit leaves a sound extension; success means all variables are placed; failure leaves the dict unchanged |
| `LegacySearch.Solver.BacktrackingSearch` | main.py:406-418 | AC-3 shrinks the domains only; when AC-3 returns False (a domain is empty) the result is Unsat and `_backtrack` is never called; otherwise search from `{}`; the dict ends sound, full length on success, empty on Unsat |

## Left out

- `serialize_schedule`, `print_solution`, `_evaluate_soft_constraints`,
  `_check_consecutive_slots` and the `__main__` blocks: these are output formatting and
  console printing. The backend `print_solution` also uses attributes that do not exist.
- The Flask front end in `backend/main.py`: HTTP routing, CORS and JSON responses.
- `assign_lectures_across_week` and `complete_lecture_assignments`: no code path calls them.
- The backend `lcv_heuristic`: `backtrack` never calls it and walks the domain in its own
  order. The main.py `lcv_heuristic`, which its search does use, is modelled.
- `random`, `copy.deepcopy` and `sys.setrecursionlimit`: copies are value semantics.
  Recursion depth is unbounded.
- Completeness of the search: the model proves soundness of what the search returns, not
  that it finds a solution when one exists.
- Dict iteration order in the backend run tables and clash scan: these loops visit keys in
  an arbitrary order. Their results do not depend on the order.
- `ArcConsistency.ScanDeletesUnsupported`: proves that a deleted value has no support in
  `D(xj)` as it is after `revise`. On a self-arc, the source checks the larger domain as it
  was at that step. `ArcConsistency.ScanStepwise` states that per-step fact.
- `Search.Solver.Backtrack`: the teacher cap on committed entries is proved only when the
  preset fills every variable whose name contains `lecture`. Without that, a lecture placed
  by the search is exempt from the cap, yet it adds periods to its teacher, so an earlier
  commit's teacher could reach four in a row. The shipped preset meets the premise.
- `Search.Solver.Backtrack`: does not state which solution is found. It also does not
  check the preset's own entries against each other; the preset is taken as given.
- `Timetable.Lookup` and `Legacy.Find` take the first course with a name. A Python dict
  literal with a repeated key keeps the last value instead. The two agree when course names
  are distinct. `Legacy.SourceDistinct` proves this for the main.py catalog, and the
  backend catalog also lists each name once.
- Python's `int` on strings is modelled only for an optional sign and ASCII digits. Python
  also accepts surrounding whitespace, `_` between digits and non-ASCII digits. Variable
  names built by the solver never contain those forms.
