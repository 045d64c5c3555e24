# Timetable scheduler: model builder and solver contract

This project models `generate_timetable`, the core of a timetable scheduler for one student group.
The function takes three inputs:

- a list of courses;
- a teacher roster, mapping each course to its teacher list;
- the days each course may use.

It builds a constraint-satisfaction problem from them and asks a solver for one assignment of
weekly time slots to sessions.

The week has five days, Sun, Mon, Tue, Wed and Thu, with 5, 5, 3, 5 and 5 slots: 23 slots in all.
Each slot is named `Day_position`. Every course gets a lecture variable and a TD variable. It also
gets a TP variable when its teacher list contains the exact string `"TP"`. All variables of a
course share one domain: the catalog slots whose day is among the course's allowed days.

The program registers four kinds of constraint:

- `max_three_successive` per course;
- per-course distinctness, written as a lambda;
- `AllDifferentConstraint` for every pair of courses, comparing lecture with lecture, TD with TD,
  and TP with TP when both courses have a TP;
- `max_two_days` per roster entry.

Adding a course whose `allowed_slots` is empty raises `ValueError` in the solver library, before
any search. Otherwise the solve call returns one solution or `None`, and always `None` when there
are no courses, so no variables. `Timetable.GenerateTimetable` returns these three outcomes.

The modules follow that structure:

- `Wrappers`: `Option`.
- `Seqs`: pairwise distinctness.
- `Strings`: splitting on a separator, and decimal rendering and parsing. These model the
  f-string names, `split('_')` and `int(...)`.
- `Slots`: the slot catalog, slot names and the per-course day filter.
- `Rules`: the four constraint predicates over tuples of slots, each with an independent
  characterisation.
- `Csp`: variables, constraints, problems, and what a valid solution is.
- `Solver`: a backtracking search of the model's own, proved sound and complete, and
  `GetSolution`, which stands in for the library's `getSolution`.
- `Timetable`: the model builder and `GenerateTimetable`. It also states the timetable rules
  directly, per course and per course pair, and proves that the built problem's solutions are
  exactly the assignments meeting them.
- `Scenarios`: end-to-end consequences for particular requests.

Slots are modelled as a datatype `Slot(day, pos)`. The source works with the strings `"Day_pos"`.
`Slots.FormatRoundTrip` and `Slots.AllowedNamesAgree` show that nothing is lost: splitting a slot
name gives back the day and position, and filtering names by the day prefix keeps exactly the
names of the slots on allowed days.

Behaviours of the code the model keeps as they are:

- The code checks no input. An unknown or empty allowed-day list gives an empty `allowed_slots`,
  which the solver library then rejects when the course's variables are added.
  `Scenarios.UnknownDaysRejected` states when that happens.
- The TP rule is list membership of the exact string `"TP"`, not a test on parts of teacher names.
- `max_three_successive` compares positions with the day ignored. Equal positions pass, on the
  same day or on different days. It does not check per-course distinctness; the separate lambda
  does.
- `max_two_days` sits under the code's "Soft Constraints" comment but is registered like every
  other constraint, so the model treats it as a hard rule.

## Model

| member | source | states |
|---|---|---|
| Strings.Split | script.py:21 | `split` on a separator yields at least one piece; the pieces, rejoined with the separator, give back the input; and no piece contains the separator |
| Strings.SplitAtFirst | script.py:21 | splitting a string whose first separator follows `head` gives `head` as the first piece, followed by the pieces of the rest |
| Strings.SplitWithoutSeparator | script.py:21 | a string without the separator splits into itself alone |
| Strings.NatToDecimal | script.py:16-17 | the decimal rendering of a slot number is a non-empty digit string, with a leading zero only for 0 itself |
| Strings.ParseNatToDecimal | script.py:31 | `int` of the decimal rendering of a number gives back that number |
| Slots.CatalogShape | script.py:10-17 | the catalog has 23 slots; a slot is in it exactly when its day is one of the five week days and its position is between 1 and that day's capacity (so Tue has 1..3); and the order is strictly day-major, then position |
| Slots.CatalogMembership | script.py:14-17 | for any day list and capacity table, the nested loop produces exactly the slots (d, p) with d listed and 1 <= p <= capacity[d] |
| Slots.CatalogOrdered | script.py:15-17 | with distinct days, every earlier catalog entry precedes every later one: an earlier day, or the same day and a lower position |
| Slots.CatalogOfSnoc | script.py:15-17 | handling one more day appends exactly that day's slots, positions 1 upwards |
| Slots.BuildTimeSlotsOf | script.py:14-17 | the nested loop's `time_slots` list is the list of names of the catalog slots, in catalog order |
| Slots.BuildTimeSlots | script.py:10-17 | with the program's days and capacities, `time_slots` names the 23 catalog slots in order |
| Slots.FormatRoundTrip | script.py:17-21 | for a day without `'_'`, splitting `f"{day}_{slot}"` on `'_'` gives exactly two pieces; piece 0 is the day and `int` of piece 1 is the position |
| Slots.DaysWithoutSeparator | script.py:10 | no week day name contains `'_'` |
| Slots.FormatInjective | script.py:17 | distinct slots get distinct names |
| Slots.AllowedSlots | script.py:21 | a slot is kept exactly when it is in the input and its day is allowed; the result is no longer than the input |
| Slots.AllowedNamesAgree | script.py:21 | filtering slot names by the part before `'_'` keeps exactly the names of the slots on allowed days, in the same order |
| Slots.AllowedSlotsOrdered | script.py:21 | the filtered domain keeps the catalog's day-major order |
| Slots.NoAllowedDayKeepsNothing | script.py:21 | when no allowed day occurs among the slots' days, the filter keeps nothing |
| Slots.UnknownDaysGiveNoSlots | script.py:21 | allowed days outside the week give an empty domain |
| Slots.EmptyDomainIffNoWeekDay | script.py:21 | a course's `allowed_slots` is empty exactly when none of its allowed days is a day of the week |
| Slots.CatalogNamesAgree | script.py:14-21 | on the program's own `time_slots`, filtering names by the day before `'_'` keeps exactly the names of the catalog slots on the allowed days, in catalog order |
| Rules.SortInts | script.py:31 | `sorted` returns an ascending permutation of its input |
| Rules.SortTwo | script.py:31 | `sorted` on two positions puts the smaller first |
| Rules.UnitStepsCoverRange | script.py:32 | in an ascending list whose neighbours differ by at most 1, every integer between the first and last element occurs |
| Rules.SortedUnitStepsIffGapFree | script.py:32 | an ascending list has neighbours at most 1 apart exactly when every integer between two of its elements is also an element |
| Rules.MaxThreeSuccessiveMeaning | script.py:30-32 | `max_three_successive` accepts a tuple exactly when it has at most 3 slots and its positions leave no gap; days play no part |
| Rules.SuccessivePair | script.py:30-38 | for two slots, `max_three_successive` holds exactly when their positions are at most 1 apart |
| Rules.SuccessiveIgnoresDay | script.py:31-32 | `Sun_1` and `Mon_1` pass `max_three_successive` together |
| Rules.SuccessiveRejectsGap | script.py:31-32 | `Sun_1` and `Sun_3` fail `max_three_successive` together |
| Rules.SessionsDistinctIsDistinct | script.py:43-45 | the two- and three-argument lambdas accept exactly the tuples whose slots are pairwise different |
| Rules.DaySetBound | script.py:59-60 | a tuple touches no more days than it has slots |
| Rules.MaxTwoDaysMeaning | script.py:58-60 | `max_two_days` holds exactly when two days exist that cover the day of every slot in the tuple |
| Rules.MaxTwoDaysForTwoSessions | script.py:58-67 | `max_two_days` always holds for a course with only a lecture and a TD |
| Csp.AllSatisfiedConcat | script.py:34-67 | a sequence of registered constraints is met exactly when each part of it is met |
| Csp.ConsistentTotal | script.py:70 | once every variable has a value, checking the covered constraints is the same as checking all constraints |
| Timetable.VarNameInjective | script.py:23-25 | different session variables get different names, whatever the course names contain, so keying variables by course and kind loses nothing |
| Timetable.VariablesMembership | script.py:20-25 | the course loop creates exactly the lecture and TD of every course, and a TP for the courses whose teacher list contains `"TP"` |
| Timetable.VariablesDistinct | script.py:20-25 | with distinct courses, no variable is added twice |
| Timetable.DomainsMembership | script.py:21-25 | every variable's domain holds exactly the catalog slots on its course's allowed days |
| Timetable.TeacherListOfEntry | script.py:63-64 | with unique roster keys, the list an entry of `teachers.items()` carries is `teachers[course]` |
| Timetable.CrossMembership | script.py:49-53 | the inner loop registers exactly the pair constraints of the first course with each later course |
| Timetable.PairMembership | script.py:48-53 | the double loop registers exactly the pair constraints of courses i < j |
| Timetable.ScopesRegistered | script.py:34-67 | every registered constraint reads a non-empty list of variables that all exist |
| Timetable.BuildDomainsOrdered | script.py:21-25 | with a day-major catalog, every variable's domain lists its slots in catalog order |
| Timetable.Build | script.py:5-67 | the built problem is well formed; its variables are exactly the session variables; and a variable's domain holds a slot exactly when the slot is in the catalog and on one of the course's allowed days |
| Timetable.SuccessiveGroup | script.py:34-38 | the `max_three_successive` constraints hold exactly when every course's sessions pass it |
| Timetable.DistinctGroup | script.py:41-45 | the distinctness lambdas hold exactly when every course's sessions sit in pairwise different slots |
| Timetable.TwoDaysGroup | script.py:63-67 | when the roster's keys are exactly the courses, the `max_two_days` constraints hold exactly when every course spans at most two days |
| Timetable.AllDifferentPair | script.py:50-51 | an `AllDifferentConstraint` on two variables holds exactly when both have values and the values differ |
| Timetable.PairOfMeaning | script.py:50-53 | one course pair's constraints hold exactly when their lectures differ, their TDs differ, and their TPs differ when both have one |
| Timetable.PairGroup | script.py:48-53 | all pair constraints hold exactly when every two different courses meet the cross-course rules |
| Timetable.RegisteredMeaning | script.py:34-67 | all registered constraints hold exactly when every course meets its own rules and every course pair meets the cross-course rules |
| Timetable.DomainsMeaning | script.py:20-25 | an assignment of exactly the session variables respects the domains exactly when every slot is a catalog slot on its course's allowed days |
| Timetable.BuildMeaning | script.py:5-67 | an assignment solves the built problem exactly when it meets the timetable rules stated directly, per course and per course pair |
| Timetable.RegisteredScopes | script.py:34-67 | every registered constraint reads either variables of one course or variables of one session kind |
| Timetable.PairScopes | script.py:48-53 | every pair constraint compares one session kind |
| Timetable.TwoDaysScopes | script.py:63-67 | every `max_two_days` constraint reads one course's variables |
| Timetable.PerCourseScopes | script.py:34-45 | every `max_three_successive` and distinctness constraint reads one course's variables |
| Timetable.LectureAndTDUnrelated | script.py:48-53 | no constraint relates one course's lecture to another course's TD, so they may share a slot |
| Timetable.FirstEmptyFrom | script.py:20-25 | continuing the course loop at course `j`, with every earlier course having allowed slots, it finds the first course whose `allowed_slots` is empty, or finds none when every course has an allowed slot |
| Timetable.FirstEmptyDomain | script.py:20-25 | finds the first course, in loop order, whose `allowed_slots` is empty, and finds none exactly when every course has an allowed slot |
| Timetable.GenerateTimetable | script.py:5-71 | the build stops at an empty domain exactly when some course has no allowed slot, and it names the first such course; with no courses there is no solution; a returned timetable meets every rule over the program's catalog; and with courses, `None` comes only when no assignment meets the rules |
| Solver.Search | script.py:70 | every assignment the backtracking search returns solves the problem |
| Solver.SearchFinds | script.py:70 | when a solution extends the current partial assignment and its next value has not yet been passed over, the search returns some solution |
| Solver.SearchFindsAt | script.py:70 | when the value tried next for variable `i` is a solution's value, and the rest of the assignment agrees with that solution, the search returns some solution |
| Solver.Solve | script.py:70 | the model's search returns a valid solution, and returns nothing only when the problem has no solution |
| Solver.GetSolution | script.py:70-71 | `getSolution` returns `None` for a problem without variables; otherwise a returned assignment is a valid solution, and `None` comes only when the problem has none |
| Scenarios.UnknownDaysRejected | script.py:20-25 | the build stops at an empty domain exactly when some course names no day of the week, and the course it stops at names none |
| Scenarios.SomeTimetableFound | script.py:20-71 | for a request with courses, whenever some assignment meets every rule, a timetable is returned |
| Scenarios.FirstTwoSlotsInCatalog | script.py:10-17 | the first two slots of every week day are catalog slots |
| Scenarios.NeighboursMeetCourseRules | script.py:34-67 | a course without TP whose lecture and TD sit in positions 1 and 2 of one day meets its own rules |
| Scenarios.SameDaySessionsAdjacent | script.py:30-45 | for a course without TP that meets `max_three_successive` and keeps its sessions apart, a lecture and TD on the same day sit in neighbouring positions |
| Scenarios.FirstTwoSlotsMeetRules | script.py:5-67 | for a single course without TP allowed on one week day, lecture and TD in that day's first two slots meet every rule |
| Scenarios.OneDaySessionsAdjacent | script.py:21-45 | any timetable for such a request puts lecture and TD on that day, in neighbouring positions |
| Scenarios.OneCourseOneDay | script.py:5-71 | such a request is well formed, and `generate_timetable` returns a timetable with lecture and TD on that day, in neighbouring positions |

## Left out

- The Streamlit interface (script.py:73-117) is left out: the default courses and roster, the input widgets and the table rendering. It is presentation and I/O.
- The solver library's internals are left out: `Problem`, `getSolution`'s variable and value ordering and heuristics, and how `AllDifferentConstraint` is implemented. The library is foreign code. Of it the model keeps what `generate_timetable` can observe: `addVariables` rejects an empty domain, which is `Timetable.Outcome.EmptyDomain`; `getSolution` returns `None` for a problem without variables; and otherwise it returns a solution exactly when one exists. `Solver.Solve` is a search of the model's own that meets that contract. Which solution the library returns is not modelled.
- The rejection of an empty domain is a Python `ValueError`. The model returns it as the `EmptyDomain` outcome, naming the course, not as an exception.
- `Strings.ParseNat` accepts only digit strings. Python's `int` also accepts signs, surrounding whitespace and underscores. Slot names never contain them.
- Timetable.GenerateTimetable requires a well-formed request: distinct courses, distinct roster keys, and roster keys that are exactly the courses, each with an allowed-day entry. The source raises instead of returning in each excluded case: a `KeyError` for a missing day or roster entry, and a library error for a duplicate variable or for a `max_two_days` constraint naming a course that has no variables.
- Scenarios.SomeTimetableFound requires at least one course, because for a request without courses `getSolution` returns `None` although the empty assignment meets every rule.
- Teacher names other than the exact string `"TP"` play no part. The roster is used only through `"TP" in teachers[course]` and `teachers.items()`.
- The model builder takes the slot catalog as a parameter. `Timetable.GenerateTimetable` passes the program's own catalog, `Slots.Catalog`.
