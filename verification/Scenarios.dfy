/** End-to-end consequences of `generate_timetable`'s contract for particular requests. */
module Scenarios {
  import opened Wrappers
  import opened Seqs
  import opened Slots
  import opened Rules
  import opened Csp
  import opened Timetable

  /**
    The build stops with an empty domain exactly when some course names no day of the week; no
    input check rejects the day names themselves, and the course it stops at is such a course.
   */
  lemma UnknownDaysRejected(courses: seq<string>, teachers: Roster, days: map<string, seq<string>>)
    requires WellFormedRequest(courses, teachers, days)
    ensures GenerateTimetable(courses, teachers, days).EmptyDomain?
      <==> exists c :: c in courses && NoWeekDay(days[c])
    ensures GenerateTimetable(courses, teachers, days).EmptyDomain? ==>
      NoWeekDay(days[GenerateTimetable(courses, teachers, days).course])
  {
    forall c | c in courses ensures AllowedSlots(Catalog(), days[c]) == [] <==> NoWeekDay(days[c]) {
      EmptyDomainIffNoWeekDay(days[c]);
    }
  }

  /** Whenever some assignment meets every rule of a request with courses, a timetable is returned. */
  lemma SomeTimetableFound(courses: seq<string>, teachers: Roster, days: map<string, seq<string>>, a: Assignment)
    requires WellFormedRequest(courses, teachers, days)
    requires |courses| > 0
    requires TimetableRules(Catalog(), courses, teachers, days, a)
    ensures GenerateTimetable(courses, teachers, days).Solution?
  {
    forall c | c in courses ensures AllowedSlots(Catalog(), days[c]) != [] {
      var v := Var(c, Lecture);
      assert IsSessionVar(courses, teachers, v);
      assert a[v] in AllowedSlots(Catalog(), days[c]);
    }
  }

  /** The first two slots of any day of the week are catalog slots. */
  lemma FirstTwoSlotsInCatalog(d: string)
    requires d in Days
    ensures Slot(d, 1) in Catalog() && Slot(d, 2) in Catalog()
  {
    assert SlotsPerDay[d] >= 3;
    CatalogMembership(Days, SlotsPerDay, Slot(d, 1));
    CatalogMembership(Days, SlotsPerDay, Slot(d, 2));
  }

  /** A lecture and a TD in neighbouring slots of one day meet the course's own rules. */
  lemma NeighboursMeetCourseRules(c: string, list: seq<string>, d: string)
    requires !HasTP(list)
    ensures CourseRules(map[Var(c, Lecture) := Slot(d, 1), Var(c, TD) := Slot(d, 2)], [(c, list)], [c])
  {
    var a := map[Var(c, Lecture) := Slot(d, 1), Var(c, TD) := Slot(d, 2)];
    var teachers: Roster := [(c, list)];
    assert !NeedsTP(teachers, c);
    var vs := SessionVars(teachers, c);
    assert vs == [Var(c, Lecture), Var(c, TD)];
    assert Values(a, vs) == [Slot(d, 1), Slot(d, 2)];
    SuccessivePair(Slot(d, 1), Slot(d, 2));
    DistinctPair(Slot(d, 1), Slot(d, 2));
    MaxTwoDaysForTwoSessions(Values(a, vs));
    assert SuccessiveOk(a, teachers, c) && SessionsApart(a, teachers, c) && TwoDaysOk(a, teachers, c);
  }

  /** A lecture and a TD in the first two slots of day `d` meet every rule for a one-course request. */
  lemma FirstTwoSlotsMeetRules(c: string, list: seq<string>, d: string)
    requires d in Days && !HasTP(list)
    ensures TimetableRules(Catalog(), [c], [(c, list)], map[c := [d]],
      map[Var(c, Lecture) := Slot(d, 1), Var(c, TD) := Slot(d, 2)])
  {
    var a := map[Var(c, Lecture) := Slot(d, 1), Var(c, TD) := Slot(d, 2)];
    var teachers: Roster := [(c, list)];
    assert !NeedsTP(teachers, c);
    assert AssignsSessions(a, [c], teachers);
    FirstTwoSlotsInCatalog(d);
    assert OnAllowedDays(a, Catalog(), map[c := [d]]);
    NeighboursMeetCourseRules(c, list, d);
    assert CrossCourseRules(a, teachers, [c]);
  }

  /**
    A course without TP that meets `max_three_successive` and keeps its sessions apart has its
    lecture and TD in neighbouring positions whenever they share a day.
   */
  lemma SameDaySessionsAdjacent(a: Assignment, teachers: Roster, c: string)
    requires !NeedsTP(teachers, c)
    requires SuccessiveOk(a, teachers, c) && SessionsApart(a, teachers, c)
    ensures Var(c, Lecture) in a && Var(c, TD) in a
    ensures a[Var(c, Lecture)].day == a[Var(c, TD)].day ==>
      Abs(a[Var(c, Lecture)].pos - a[Var(c, TD)].pos) == 1
  {
    var vs := SessionVars(teachers, c);
    assert vs == [Var(c, Lecture), Var(c, TD)];
    var l, t := a[Var(c, Lecture)], a[Var(c, TD)];
    assert Values(a, vs) == [l, t];
    DistinctPair(l, t);
    SuccessivePair(l, t);
  }

  /** Any timetable for a one-course, one-day request without TP puts the two sessions next to each other on that day. */
  lemma OneDaySessionsAdjacent(catalog: seq<Slot>, c: string, list: seq<string>, d: string, a: Assignment)
    requires !HasTP(list)
    requires TimetableRules(catalog, [c], [(c, list)], map[c := [d]], a)
    ensures Var(c, Lecture) in a && Var(c, TD) in a
    ensures a[Var(c, Lecture)].day == d && a[Var(c, TD)].day == d
    ensures Abs(a[Var(c, Lecture)].pos - a[Var(c, TD)].pos) == 1
  {
    var teachers: Roster := [(c, list)];
    assert !NeedsTP(teachers, c);
    assert SuccessiveOk(a, teachers, c) && SessionsApart(a, teachers, c) by {
      assert CourseRules(a, teachers, [c]);
      assert c in [c];
    }
    SameDaySessionsAdjacent(a, teachers, c);
    assert OnAllowedDays(a, catalog, map[c := [d]]);
  }

  /** A one-course request whose roster has exactly that course is well formed. */
  lemma OneCourseRequest(c: string, list: seq<string>, d: string)
    ensures WellFormedRequest([c], [(c, list)], map[c := [d]])
  {
    assert RosterKeys([(c, list)]) == [c];
  }

  /**
    One course without a TP teacher, allowed on a single day of the week: a timetable exists,
    and it puts the lecture and the TD on that day in neighbouring slots.
   */
  lemma OneCourseOneDay(c: string, list: seq<string>, d: string)
    requires d in Days && !HasTP(list)
    ensures WellFormedRequest([c], [(c, list)], map[c := [d]])
    ensures var r := GenerateTimetable([c], [(c, list)], map[c := [d]]);
      && r.Solution?
      && Var(c, Lecture) in r.timetable && Var(c, TD) in r.timetable
      && r.timetable[Var(c, Lecture)].day == d && r.timetable[Var(c, TD)].day == d
      && Abs(r.timetable[Var(c, Lecture)].pos - r.timetable[Var(c, TD)].pos) == 1
  {
    OneCourseRequest(c, list, d);
    var r := GenerateTimetable([c], [(c, list)], map[c := [d]]);
    FirstTwoSlotsMeetRules(c, list, d);
    SomeTimetableFound([c], [(c, list)], map[c := [d]],
      map[Var(c, Lecture) := Slot(d, 1), Var(c, TD) := Slot(d, 2)]);
    OneDaySessionsAdjacent(Catalog(), c, list, d, r.timetable);
  }
}
