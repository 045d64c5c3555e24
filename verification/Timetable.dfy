/**
  The model builder `generate_timetable`: from a course list, a teacher roster and the allowed
  days of each course it registers the session variables, their domains and the constraints, and
  asks the solver for an assignment. The main theorem states, rule by rule, what a returned
  timetable satisfies.
 */
module Timetable {
  import opened Wrappers
  import opened Seqs
  import opened Slots
  import opened Rules
  import opened Csp
  import opened Solver

  /** The teacher roster: a Python dict, kept as its entries in insertion order. */
  type Roster = seq<(string, seq<string>)>

  /** `"TP" in teacher_list`: membership of the exact string `"TP"` in the list, not a substring search. */
  predicate HasTP(teacherList: seq<string>)
  {
    "TP" in teacherList
  }

  /** `teachers[course]`: the list of the first entry with that key (keys are unique in a dict). */
  function TeacherList(teachers: Roster, course: string): seq<string>
  {
    if |teachers| == 0 then []
    else if teachers[0].0 == course then teachers[0].1
    else TeacherList(teachers[1..], course)
  }

  /** The roster's keys, in order. */
  function RosterKeys(teachers: Roster): seq<string>
  {
    seq(|teachers|, i requires 0 <= i < |teachers| => teachers[i].0)
  }

  /** Whether the course gets a TP variable. */
  predicate NeedsTP(teachers: Roster, course: string)
  {
    HasTP(TeacherList(teachers, course))
  }

  /** A course's variables in registration order: lecture, TD and, with a TP teacher, TP. */
  function CourseVars(course: string, tp: bool): seq<Var>
  {
    if tp then [Var(course, Lecture), Var(course, TD), Var(course, TP)]
    else [Var(course, Lecture), Var(course, TD)]
  }

  function SessionVars(teachers: Roster, course: string): seq<Var>
  {
    CourseVars(course, NeedsTP(teachers, course))
  }

  /** The variables the program creates: every course's lecture and TD, and TP where needed. */
  predicate IsSessionVar(courses: seq<string>, teachers: Roster, v: Var)
  {
    v.course in courses && (v.kind == TP ==> NeedsTP(teachers, v.course))
  }

  function KindSuffix(k: Kind): string
  {
    match k
    case Lecture => "_lecture"
    case TD => "_TD"
    case TP => "_TP"
  }

  /** The variable names `f"{course}_lecture"`, `f"{course}_TD"`, `f"{course}_TP"`. */
  function VarName(v: Var): string
  {
    v.course + KindSuffix(v.kind)
  }

  /**
    Different variables get different names, whatever the course names contain: the last letter
    tells the kind, and the length then fixes the course part. So keying the model by `Var`
    loses nothing against the program's string keys.
   */
  lemma VarNameInjective(v: Var, w: Var)
    ensures VarName(v) == VarName(w) ==> v == w
  {
    if VarName(v) == VarName(w) {
      var n := VarName(v);
      var sv := KindSuffix(v.kind);
      var sw := KindSuffix(w.kind);
      assert n[|n| - 1] == sv[|sv| - 1];
      assert n[|n| - 1] == sw[|sw| - 1];
      assert v.kind == w.kind;
      assert |v.course| == |w.course|;
      assert v.course == n[..|v.course|];
      assert w.course == n[..|w.course|];
    }
  }

  /**
    What the program needs of its input. A course missing from the roster or the day table is a
    `KeyError`; a repeated course would register a variable twice, and a roster key that is not a
    course would make `max_two_days` name unknown variables, both of which the solver library
    rejects.
   */
  predicate WellFormedRequest(courses: seq<string>, teachers: Roster, days: map<string, seq<string>>)
  {
    && Distinct(courses)
    && Distinct(RosterKeys(teachers))
    && (forall c :: c in RosterKeys(teachers) ==> c in courses)
    && (forall c :: c in courses ==> c in RosterKeys(teachers) && c in days)
  }

  /** The variables, in the order the course loop adds them. */
  function Variables(courses: seq<string>, teachers: Roster): seq<Var>
  {
    if |courses| == 0 then []
    else SessionVars(teachers, courses[0]) + Variables(courses[1..], teachers)
  }

  /** Every variable of a course shares the course's domain: the catalog slots on its allowed days. */
  function Domains(catalog: seq<Slot>, courses: seq<string>, teachers: Roster, days: map<string, seq<string>>): map<Var, seq<Slot>>
  {
    map v | v in Variables(courses, teachers) && v.course in days :: AllowedSlots(catalog, days[v.course])
  }

  /** One `max_three_successive` constraint per course, over all its variables. */
  function SuccessiveConstraints(courses: seq<string>, teachers: Roster): seq<Constraint>
  {
    seq(|courses|, i requires 0 <= i < |courses| =>
      Constraint(MaxThreeSuccessiveRule, SessionVars(teachers, courses[i])))
  }

  /** One distinctness lambda per course, over all its variables. */
  function DistinctConstraints(courses: seq<string>, teachers: Roster): seq<Constraint>
  {
    seq(|courses|, i requires 0 <= i < |courses| =>
      Constraint(SessionsDistinctRule, SessionVars(teachers, courses[i])))
  }

  /** The `AllDifferentConstraint`s of one course pair: lectures, TDs, and TPs when both have one. */
  function PairOf(teachers: Roster, c1: string, c2: string): seq<Constraint>
  {
    [Constraint(AllDifferentRule, [Var(c1, Lecture), Var(c2, Lecture)]),
     Constraint(AllDifferentRule, [Var(c1, TD), Var(c2, TD)])]
    + (if NeedsTP(teachers, c1) && NeedsTP(teachers, c2)
       then [Constraint(AllDifferentRule, [Var(c1, TP), Var(c2, TP)])]
       else [])
  }

  /** The inner loop: `first` paired with each later course. */
  function CrossConstraints(teachers: Roster, first: string, others: seq<string>): seq<Constraint>
  {
    if |others| == 0 then []
    else PairOf(teachers, first, others[0]) + CrossConstraints(teachers, first, others[1..])
  }

  /** The double loop over course pairs `i < j`. */
  function PairConstraints(courses: seq<string>, teachers: Roster): seq<Constraint>
  {
    if |courses| == 0 then []
    else CrossConstraints(teachers, courses[0], courses[1..]) + PairConstraints(courses[1..], teachers)
  }

  /** One `max_two_days` constraint per roster entry, in the roster's order. */
  function TwoDaysConstraints(teachers: Roster): seq<Constraint>
  {
    seq(|teachers|, i requires 0 <= i < |teachers| =>
      Constraint(MaxTwoDaysRule, CourseVars(teachers[i].0, HasTP(teachers[i].1))))
  }

  /** All constraints, in the order the program registers them. */
  function Registered(courses: seq<string>, teachers: Roster): seq<Constraint>
  {
    SuccessiveConstraints(courses, teachers) + DistinctConstraints(courses, teachers)
      + PairConstraints(courses, teachers) + TwoDaysConstraints(teachers)
  }

  /**
    The problem `generate_timetable` builds before calling the solver. Each domain keeps the
    catalog's order (`BuildDomainsOrdered`).
   */
  function Build(catalog: seq<Slot>, courses: seq<string>, teachers: Roster, days: map<string, seq<string>>): (p: Problem)
    requires WellFormedRequest(courses, teachers, days)
    ensures WellFormed(p)
    ensures forall v :: v in p.variables <==> IsSessionVar(courses, teachers, v)
    ensures forall v :: v in p.variables ==> v.course in days
    ensures forall v, s :: v in p.variables ==>
      (s in p.domains[v] <==> s in catalog && s.day in days[v.course])
  {
    VariablesMembership(courses, teachers);
    VariablesDistinct(courses, teachers);
    ScopesRegistered(courses, teachers);
    DomainsMembership(catalog, courses, teachers, days);
    Problem(Variables(courses, teachers), Domains(catalog, courses, teachers, days), Registered(courses, teachers))
  }

  /** Every domain lists its slots in catalog order when the catalog is day-major. */
  lemma BuildDomainsOrdered(catalog: seq<Slot>, courses: seq<string>, teachers: Roster, days: map<string, seq<string>>)
    requires WellFormedRequest(courses, teachers, days)
    requires DayMajor(catalog)
    ensures forall v :: v in Build(catalog, courses, teachers, days).variables ==>
      DayMajor(Build(catalog, courses, teachers, days).domains[v])
  {
    var p := Build(catalog, courses, teachers, days);
    forall v | v in p.variables ensures DayMajor(p.domains[v]) {
      assert p.domains[v] == AllowedSlots(catalog, days[v.course]);
      AllowedSlotsOrdered(catalog, days[v.course]);
    }
  }

  lemma DomainsMembership(catalog: seq<Slot>, courses: seq<string>, teachers: Roster, days: map<string, seq<string>>)
    requires forall c :: c in courses ==> c in days
    ensures forall v :: v in Variables(courses, teachers) ==> v in Domains(catalog, courses, teachers, days)
    ensures forall v, s :: v in Variables(courses, teachers) ==>
      (s in Domains(catalog, courses, teachers, days)[v] <==> s in catalog && s.day in days[v.course])
  {
    VariablesMembership(courses, teachers);
  }

  lemma {:induction false} VariablesMembership(courses: seq<string>, teachers: Roster)
    ensures forall v :: v in Variables(courses, teachers) <==> IsSessionVar(courses, teachers, v)
    decreases |courses|
  {
    if |courses| > 0 {
      VariablesMembership(courses[1..], teachers);
      assert courses == [courses[0]] + courses[1..];
    }
  }

  lemma {:induction false} VariablesDistinct(courses: seq<string>, teachers: Roster)
    requires Distinct(courses)
    ensures Distinct(Variables(courses, teachers))
    decreases |courses|
  {
    if |courses| > 0 {
      var rest := courses[1..];
      assert Distinct(rest) by {
        forall i, j | 0 <= i < j < |rest| ensures rest[i] != rest[j] {
          assert rest[i] == courses[i + 1] && rest[j] == courses[j + 1];
        }
      }
      VariablesDistinct(rest, teachers);
      VariablesMembership(rest, teachers);
      assert courses[0] !in rest;
      DistinctConcat(SessionVars(teachers, courses[0]), Variables(rest, teachers));
    }
  }

  /** A roster entry's list is what `teachers[key]` returns for its key. */
  lemma {:induction false} TeacherListOfEntry(teachers: Roster, i: nat)
    requires Distinct(RosterKeys(teachers))
    requires i < |teachers|
    ensures TeacherList(teachers, teachers[i].0) == teachers[i].1
    decreases i
  {
    if i > 0 {
      assert RosterKeys(teachers)[0] != RosterKeys(teachers)[i];
      assert RosterKeys(teachers[1..]) == RosterKeys(teachers)[1..];
      TeacherListOfEntry(teachers[1..], i - 1);
    }
  }

  lemma {:induction false} CrossMembership(teachers: Roster, first: string, others: seq<string>, con: Constraint)
    ensures con in CrossConstraints(teachers, first, others) <==>
      exists k :: 0 <= k < |others| && con in PairOf(teachers, first, others[k])
    decreases |others|
  {
    if |others| > 0 {
      CrossMembership(teachers, first, others[1..], con);
      if con in CrossConstraints(teachers, first, others[1..]) {
        var k :| 0 <= k < |others[1..]| && con in PairOf(teachers, first, others[1..][k]);
        assert others[k + 1] == others[1..][k];
      }
      if k :| 0 <= k < |others| && con in PairOf(teachers, first, others[k]) {
        if k > 0 {
          assert others[1..][k - 1] == others[k];
        }
      }
    }
  }

  /** The registered pair constraints are exactly those of the pairs `i < j`. */
  lemma {:induction false} PairMembership(courses: seq<string>, teachers: Roster, con: Constraint)
    ensures con in PairConstraints(courses, teachers) <==>
      exists i, j :: 0 <= i < j < |courses| && con in PairOf(teachers, courses[i], courses[j])
    decreases |courses|
  {
    if |courses| > 0 {
      var rest := courses[1..];
      PairMembership(rest, teachers, con);
      CrossMembership(teachers, courses[0], rest, con);
      if con in CrossConstraints(teachers, courses[0], rest) {
        var k :| 0 <= k < |rest| && con in PairOf(teachers, courses[0], rest[k]);
        assert courses[k + 1] == rest[k];
      }
      if con in PairConstraints(rest, teachers) {
        var i, j :| 0 <= i < j < |rest| && con in PairOf(teachers, rest[i], rest[j]);
        assert courses[i + 1] == rest[i] && courses[j + 1] == rest[j];
      }
      if i, j :| 0 <= i < j < |courses| && con in PairOf(teachers, courses[i], courses[j]) {
        if i == 0 {
          assert rest[j - 1] == courses[j];
        } else {
          assert rest[i - 1] == courses[i] && rest[j - 1] == courses[j];
        }
      }
    }
  }

  /** The constraint reads at least one variable, and only variables the program created. */
  predicate ReadsSessionVars(courses: seq<string>, teachers: Roster, con: Constraint)
  {
    |con.scope| > 0 && forall v :: v in con.scope ==> IsSessionVar(courses, teachers, v)
  }

  /** Every registered constraint reads at least one variable, and only variables the program created. */
  lemma ScopesRegistered(courses: seq<string>, teachers: Roster)
    requires Distinct(RosterKeys(teachers))
    requires forall c :: c in RosterKeys(teachers) ==> c in courses
    ensures forall c :: c in Registered(courses, teachers) ==>
      |c.scope| > 0 && forall v :: v in c.scope ==> IsSessionVar(courses, teachers, v)
  {
    var s, d := SuccessiveConstraints(courses, teachers), DistinctConstraints(courses, teachers);
    var p, t := PairConstraints(courses, teachers), TwoDaysConstraints(teachers);
    assert forall con :: con in s ==> ReadsSessionVars(courses, teachers, con);
    assert forall con :: con in d ==> ReadsSessionVars(courses, teachers, con);
    PairScopesRegistered(courses, teachers);
    TwoDaysScopesRegistered(courses, teachers);
    forall con | con in Registered(courses, teachers)
      ensures ReadsSessionVars(courses, teachers, con)
    {
      assert con in s || con in d || con in p || con in t;
    }
  }

  lemma PairScopesRegistered(courses: seq<string>, teachers: Roster)
    ensures forall con :: con in PairConstraints(courses, teachers) ==> ReadsSessionVars(courses, teachers, con)
  {
    forall con | con in PairConstraints(courses, teachers)
      ensures ReadsSessionVars(courses, teachers, con)
    {
      PairMembership(courses, teachers, con);
    }
  }

  lemma TwoDaysScopesRegistered(courses: seq<string>, teachers: Roster)
    requires Distinct(RosterKeys(teachers))
    requires forall c :: c in RosterKeys(teachers) ==> c in courses
    ensures forall con :: con in TwoDaysConstraints(teachers) ==> ReadsSessionVars(courses, teachers, con)
  {
    forall con | con in TwoDaysConstraints(teachers)
      ensures ReadsSessionVars(courses, teachers, con)
    {
      var i :| 0 <= i < |teachers| && TwoDaysConstraints(teachers)[i] == con;
      TeacherListOfEntry(teachers, i);
      assert RosterKeys(teachers)[i] in RosterKeys(teachers);
    }
  }

  /** `max_three_successive` holds for the course's slots. */
  predicate SuccessiveOk(a: Assignment, teachers: Roster, course: string)
  {
    var vs := SessionVars(teachers, course);
    Covers(a, vs) && MaxThreeSuccessive(Values(a, vs))
  }

  /** The course's sessions sit in pairwise different slots. */
  predicate SessionsApart(a: Assignment, teachers: Roster, course: string)
  {
    var vs := SessionVars(teachers, course);
    Covers(a, vs) && Distinct(Values(a, vs))
  }

  /** The course's sessions span at most two days. */
  predicate TwoDaysOk(a: Assignment, teachers: Roster, course: string)
  {
    var vs := SessionVars(teachers, course);
    Covers(a, vs) && MaxTwoDays(Values(a, vs))
  }

  /** Both variables have values, and the values differ. */
  predicate Differ(a: Assignment, v: Var, w: Var)
  {
    v in a && w in a && a[v] != a[w]
  }

  /**
    Two different courses: their lectures differ, their TDs differ, and their TPs differ when both
    have one. Nothing relates one course's lecture to the other's TD.
   */
  predicate CrossRules(a: Assignment, teachers: Roster, c1: string, c2: string)
  {
    && Differ(a, Var(c1, Lecture), Var(c2, Lecture))
    && Differ(a, Var(c1, TD), Var(c2, TD))
    && (NeedsTP(teachers, c1) && NeedsTP(teachers, c2) ==> Differ(a, Var(c1, TP), Var(c2, TP)))
  }

  /**
    What a timetable for the request must satisfy, rule by rule, with no reference to the
    constraint registry: exactly the program's variables have slots; each slot is a catalog slot on
    one of its course's allowed days; within a course the sessions pass `max_three_successive`, are
    pairwise different and span at most two days; across courses the same session kinds differ.
   */
  ghost predicate TimetableRules(catalog: seq<Slot>, courses: seq<string>, teachers: Roster, days: map<string, seq<string>>, a: Assignment)
  {
    && AssignsSessions(a, courses, teachers)
    && OnAllowedDays(a, catalog, days)
    && CourseRules(a, teachers, courses)
    && CrossCourseRules(a, teachers, courses)
  }

  /** Exactly the program's variables have slots. */
  ghost predicate AssignsSessions(a: Assignment, courses: seq<string>, teachers: Roster)
  {
    forall v :: v in a <==> IsSessionVar(courses, teachers, v)
  }

  /** Every slot is a catalog slot on one of its course's allowed days. */
  predicate OnAllowedDays(a: Assignment, catalog: seq<Slot>, days: map<string, seq<string>>)
  {
    forall v :: v in a ==> v.course in days && a[v] in catalog && a[v].day in days[v.course]
  }

  /** Every course meets `max_three_successive`, keeps its sessions apart and uses at most two days. */
  predicate CourseRules(a: Assignment, teachers: Roster, courses: seq<string>)
  {
    forall c :: c in courses ==>
      SuccessiveOk(a, teachers, c) && SessionsApart(a, teachers, c) && TwoDaysOk(a, teachers, c)
  }

  /** Every two different courses meet the cross-course rules. */
  predicate CrossCourseRules(a: Assignment, teachers: Roster, courses: seq<string>)
  {
    forall c1, c2 :: c1 in courses && c2 in courses && c1 != c2 ==> CrossRules(a, teachers, c1, c2)
  }

  lemma SuccessiveGroup(courses: seq<string>, teachers: Roster, a: Assignment)
    ensures AllSatisfied(SuccessiveConstraints(courses, teachers), a)
      <==> (forall c :: c in courses ==> SuccessiveOk(a, teachers, c))
  {
    var cs := SuccessiveConstraints(courses, teachers);
    if AllSatisfied(cs, a) {
      forall c | c in courses ensures SuccessiveOk(a, teachers, c) {
        var i :| 0 <= i < |courses| && courses[i] == c;
        assert cs[i] in cs;
      }
    }
    if forall c :: c in courses ==> SuccessiveOk(a, teachers, c) {
      forall con | con in cs ensures Satisfied(con, a) {
        var i :| 0 <= i < |cs| && cs[i] == con;
        assert courses[i] in courses;
      }
    }
  }

  lemma DistinctGroup(courses: seq<string>, teachers: Roster, a: Assignment)
    ensures AllSatisfied(DistinctConstraints(courses, teachers), a)
      <==> (forall c :: c in courses ==> SessionsApart(a, teachers, c))
  {
    var cs := DistinctConstraints(courses, teachers);
    forall c ensures Covers(a, SessionVars(teachers, c)) ==>
      (SessionsDistinct(Values(a, SessionVars(teachers, c))) <==> Distinct(Values(a, SessionVars(teachers, c))))
    {
      if Covers(a, SessionVars(teachers, c)) {
        SessionsDistinctIsDistinct(Values(a, SessionVars(teachers, c)));
      }
    }
    if AllSatisfied(cs, a) {
      forall c | c in courses ensures SessionsApart(a, teachers, c) {
        var i :| 0 <= i < |courses| && courses[i] == c;
        assert cs[i] in cs;
      }
    }
    if forall c :: c in courses ==> SessionsApart(a, teachers, c) {
      forall con | con in cs ensures Satisfied(con, a) {
        var i :| 0 <= i < |cs| && cs[i] == con;
        assert courses[i] in courses;
      }
    }
  }

  lemma TwoDaysGroup(courses: seq<string>, teachers: Roster, a: Assignment)
    requires Distinct(RosterKeys(teachers))
    requires forall c :: c in RosterKeys(teachers) ==> c in courses
    requires forall c :: c in courses ==> c in RosterKeys(teachers)
    ensures AllSatisfied(TwoDaysConstraints(teachers), a)
      <==> (forall c :: c in courses ==> TwoDaysOk(a, teachers, c))
  {
    var cs := TwoDaysConstraints(teachers);
    if AllSatisfied(cs, a) {
      forall c | c in courses ensures TwoDaysOk(a, teachers, c) {
        var i :| 0 <= i < |teachers| && RosterKeys(teachers)[i] == c;
        TeacherListOfEntry(teachers, i);
        assert cs[i] in cs;
      }
    }
    if forall c :: c in courses ==> TwoDaysOk(a, teachers, c) {
      forall con | con in cs ensures Satisfied(con, a) {
        var i :| 0 <= i < |teachers| && cs[i] == con;
        TeacherListOfEntry(teachers, i);
        assert RosterKeys(teachers)[i] in RosterKeys(teachers);
      }
    }
  }

  /** A two-variable `AllDifferentConstraint` holds exactly when both values exist and differ. */
  lemma AllDifferentPair(a: Assignment, v: Var, w: Var)
    ensures Satisfied(Constraint(AllDifferentRule, [v, w]), a) <==> Differ(a, v, w)
  {
    assert v in [v, w] && w in [v, w];
    if Covers(a, [v, w]) {
      assert Values(a, [v, w]) == [a[v], a[w]];
      DistinctPair(a[v], a[w]);
    }
  }

  /** A pair's constraints hold exactly when the pair meets the cross-course rules. */
  lemma PairOfMeaning(a: Assignment, teachers: Roster, c1: string, c2: string)
    ensures AllSatisfied(PairOf(teachers, c1, c2), a) <==> CrossRules(a, teachers, c1, c2)
  {
    var cs := PairOf(teachers, c1, c2);
    AllDifferentPair(a, Var(c1, Lecture), Var(c2, Lecture));
    AllDifferentPair(a, Var(c1, TD), Var(c2, TD));
    AllDifferentPair(a, Var(c1, TP), Var(c2, TP));
    assert cs[0] in cs && cs[1] in cs;
    if NeedsTP(teachers, c1) && NeedsTP(teachers, c2) {
      assert cs[2] in cs;
    }
  }

  lemma PairGroup(courses: seq<string>, teachers: Roster, a: Assignment)
    requires Distinct(courses)
    ensures AllSatisfied(PairConstraints(courses, teachers), a)
      <==> CrossCourseRules(a, teachers, courses)
  {
    var cs := PairConstraints(courses, teachers);
    if AllSatisfied(cs, a) {
      forall c1, c2 | c1 in courses && c2 in courses && c1 != c2
        ensures CrossRules(a, teachers, c1, c2)
      {
        var i1 :| 0 <= i1 < |courses| && courses[i1] == c1;
        var i2 :| 0 <= i2 < |courses| && courses[i2] == c2;
        var lo, hi := if i1 < i2 then i1 else i2, if i1 < i2 then i2 else i1;
        forall con | con in PairOf(teachers, courses[lo], courses[hi]) ensures Satisfied(con, a) {
          PairMembership(courses, teachers, con);
        }
        PairOfMeaning(a, teachers, courses[lo], courses[hi]);
      }
    }
    if CrossCourseRules(a, teachers, courses) {
      forall con | con in cs ensures Satisfied(con, a) {
        PairMembership(courses, teachers, con);
        var i, j :| 0 <= i < j < |courses| && con in PairOf(teachers, courses[i], courses[j]);
        PairOfMeaning(a, teachers, courses[i], courses[j]);
      }
    }
  }

  /** The registered constraints all hold exactly when the per-course and cross-course rules do. */
  lemma RegisteredMeaning(courses: seq<string>, teachers: Roster, a: Assignment)
    requires Distinct(courses)
    requires Distinct(RosterKeys(teachers))
    requires forall c :: c in RosterKeys(teachers) ==> c in courses
    requires forall c :: c in courses ==> c in RosterKeys(teachers)
    ensures AllSatisfied(Registered(courses, teachers), a) <==>
      CourseRules(a, teachers, courses) && CrossCourseRules(a, teachers, courses)
  {
    var S, D, P, T := SuccessiveConstraints(courses, teachers), DistinctConstraints(courses, teachers),
      PairConstraints(courses, teachers), TwoDaysConstraints(teachers);
    AllSatisfiedConcat(S, D, a);
    AllSatisfiedConcat(S + D, P, a);
    AllSatisfiedConcat(S + D + P, T, a);
    SuccessiveGroup(courses, teachers, a);
    DistinctGroup(courses, teachers, a);
    PairGroup(courses, teachers, a);
    TwoDaysGroup(courses, teachers, a);
  }

  /**
    The main theorem: an assignment solves the problem `generate_timetable` builds exactly when
    it meets the timetable rules. Each registered constraint is accounted for, and nothing else
    is asked.
   */
  lemma BuildMeaning(catalog: seq<Slot>, courses: seq<string>, teachers: Roster, days: map<string, seq<string>>, a: Assignment)
    requires WellFormedRequest(courses, teachers, days)
    ensures ValidSolution(Build(catalog, courses, teachers, days), a) <==> TimetableRules(catalog, courses, teachers, days, a)
  {
    var p := Build(catalog, courses, teachers, days);
    assert p.constraints == Registered(courses, teachers);
    RegisteredMeaning(courses, teachers, a);
    assert AssignsExactly(a, p.variables) <==> AssignsSessions(a, courses, teachers);
    if AssignsSessions(a, courses, teachers) {
      DomainsMeaning(catalog, courses, teachers, days, a);
    }
  }

  /** With the right variables assigned, "in its domain" means "a catalog slot on an allowed day". */
  lemma DomainsMeaning(catalog: seq<Slot>, courses: seq<string>, teachers: Roster, days: map<string, seq<string>>, a: Assignment)
    requires WellFormedRequest(courses, teachers, days)
    requires AssignsSessions(a, courses, teachers)
    ensures InDomains(Build(catalog, courses, teachers, days), a) <==> OnAllowedDays(a, catalog, days)
  {
    var p := Build(catalog, courses, teachers, days);
    if InDomains(p, a) {
      forall v | v in a ensures v.course in days && a[v] in catalog && a[v].day in days[v.course] {
        assert v in p.variables;
      }
    }
    if OnAllowedDays(a, catalog, days) {
      forall v | v in p.variables ensures v in p.domains && v in a && a[v] in p.domains[v] {
        assert v in a;
      }
    }
  }

  /**
    How `generate_timetable` ends: `addVariables` raises `ValueError` for the first course, in
    loop order, whose `allowed_slots` is empty; otherwise `getSolution` returns `None` or a
    timetable.
   */
  datatype Outcome = EmptyDomain(course: string) | NoSolution | Solution(timetable: Assignment)

  /** Course `i` is the first in the list whose allowed slots are empty. */
  predicate FirstEmptyAt(catalog: seq<Slot>, courses: seq<string>, days: map<string, seq<string>>, i: nat)
    requires forall c :: c in courses ==> c in days
  {
    && i < |courses|
    && AllowedSlots(catalog, days[courses[i]]) == []
    && forall k :: 0 <= k < i ==> AllowedSlots(catalog, days[courses[k]]) != []
  }

  /**
    The course loop's first course with an empty domain, by index, if there is one; the search
    starts at course `j`, all courses before it having allowed slots.
   */
  function FirstEmptyFrom(catalog: seq<Slot>, courses: seq<string>, days: map<string, seq<string>>, j: nat): (r: Option<nat>)
    requires forall c :: c in courses ==> c in days
    requires j <= |courses|
    requires forall k :: 0 <= k < j ==> AllowedSlots(catalog, days[courses[k]]) != []
    ensures r.Some? ==> FirstEmptyAt(catalog, courses, days, r.value)
    ensures r.None? ==> forall k :: 0 <= k < |courses| ==> AllowedSlots(catalog, days[courses[k]]) != []
    decreases |courses| - j
  {
    if j == |courses| then None
    else if AllowedSlots(catalog, days[courses[j]]) == [] then Some(j)
    else FirstEmptyFrom(catalog, courses, days, j + 1)
  }

  /** The course loop's first course with an empty domain, by index, if there is one. */
  function FirstEmptyDomain(catalog: seq<Slot>, courses: seq<string>, days: map<string, seq<string>>): (r: Option<nat>)
    requires forall c :: c in courses ==> c in days
    ensures r.Some? ==> FirstEmptyAt(catalog, courses, days, r.value)
    ensures r.None? <==> forall c :: c in courses ==> AllowedSlots(catalog, days[c]) != []
  {
    var r := FirstEmptyFrom(catalog, courses, days, 0);
    assert r.Some? ==> courses[r.value] in courses;
    r
  }

  /**
    `generate_timetable`: builds the problem and solves it. The first course with no allowed slot
    stops the build; a request without courses gets no solution; otherwise a returned timetable
    meets every rule, and no timetable is returned only when none meets them.
   */
  function GenerateTimetable(courses: seq<string>, teachers: Roster, days: map<string, seq<string>>): (r: Outcome)
    requires WellFormedRequest(courses, teachers, days)
    ensures r.EmptyDomain? <==> exists c :: c in courses && AllowedSlots(Catalog(), days[c]) == []
    ensures r.EmptyDomain? ==> exists i :: 0 <= i < |courses| && FirstEmptyAt(Catalog(), courses, days, i) && courses[i] == r.course
    ensures |courses| == 0 ==> r == NoSolution
    ensures r.Solution? ==> TimetableRules(Catalog(), courses, teachers, days, r.timetable)
    ensures r.NoSolution? && |courses| > 0 ==> forall a :: !TimetableRules(Catalog(), courses, teachers, days, a)
  {
    var catalog := Catalog();
    match FirstEmptyDomain(catalog, courses, days)
    case Some(i) => EmptyDomain(courses[i])
    case None =>
      var p := Build(catalog, courses, teachers, days);
      assert |courses| > 0 ==> |p.variables| > 0 by {
        if |courses| > 0 {
          assert IsSessionVar(courses, teachers, Var(courses[0], Lecture));
        }
      }
      assert forall a :: ValidSolution(p, a) <==> TimetableRules(catalog, courses, teachers, days, a) by {
        forall a ensures ValidSolution(p, a) <==> TimetableRules(catalog, courses, teachers, days, a) {
          BuildMeaning(catalog, courses, teachers, days, a);
        }
      }
      match GetSolution(p)
      case Some(a) => Solution(a)
      case None => NoSolution
  }

  /** All variables of the scope belong to one course. */
  predicate OneCourse(scope: seq<Var>)
  {
    forall v, w :: v in scope && w in scope ==> v.course == w.course
  }

  /** All variables of the scope are of one session kind. */
  predicate OneKind(scope: seq<Var>)
  {
    forall v, w :: v in scope && w in scope ==> v.kind == w.kind
  }

  /**
    Every registered constraint reads either the variables of a single course (the per-course
    rules) or variables of a single session kind (the cross-course rules).
   */
  lemma RegisteredScopes(courses: seq<string>, teachers: Roster)
    ensures forall con :: con in Registered(courses, teachers) ==> OneCourse(con.scope) || OneKind(con.scope)
  {
    forall con | con in Registered(courses, teachers)
      ensures OneCourse(con.scope) || OneKind(con.scope)
    {
      if con in PairConstraints(courses, teachers) {
        PairScopes(courses, teachers, con);
      } else if con in TwoDaysConstraints(teachers) {
        TwoDaysScopes(teachers, con);
      } else {
        PerCourseScopes(courses, teachers, con);
      }
    }
  }

  lemma PairScopes(courses: seq<string>, teachers: Roster, con: Constraint)
    requires con in PairConstraints(courses, teachers)
    ensures OneKind(con.scope)
  {
    PairMembership(courses, teachers, con);
    var i, j :| 0 <= i < j < |courses| && con in PairOf(teachers, courses[i], courses[j]);
    PairOfOneKind(teachers, courses[i], courses[j], con);
  }

  lemma PairOfOneKind(teachers: Roster, c1: string, c2: string, con: Constraint)
    requires con in PairOf(teachers, c1, c2)
    ensures OneKind(con.scope)
  {
  }

  lemma TwoDaysScopes(teachers: Roster, con: Constraint)
    requires con in TwoDaysConstraints(teachers)
    ensures OneCourse(con.scope)
  {
    var i :| 0 <= i < |teachers| && TwoDaysConstraints(teachers)[i] == con;
  }

  lemma PerCourseScopes(courses: seq<string>, teachers: Roster, con: Constraint)
    requires con in SuccessiveConstraints(courses, teachers) || con in DistinctConstraints(courses, teachers)
    ensures OneCourse(con.scope)
  {
    if con in SuccessiveConstraints(courses, teachers) {
      var i :| 0 <= i < |courses| && SuccessiveConstraints(courses, teachers)[i] == con;
    } else {
      var i :| 0 <= i < |courses| && DistinctConstraints(courses, teachers)[i] == con;
    }
  }

  /** No registered constraint reads one course's lecture together with another course's TD. */
  lemma LectureAndTDUnrelated(catalog: seq<Slot>, courses: seq<string>, teachers: Roster, days: map<string, seq<string>>,
                              con: Constraint, c1: string, c2: string)
    requires WellFormedRequest(courses, teachers, days)
    requires con in Build(catalog, courses, teachers, days).constraints
    requires Var(c1, Lecture) in con.scope && Var(c2, TD) in con.scope
    ensures c1 == c2
  {
    RegisteredScopes(courses, teachers);
    assert con in Registered(courses, teachers);
    assert OneCourse(con.scope) || OneKind(con.scope);
  }
}
