/**
  The slot catalog of `generate_timetable`: the fixed week, its per-day capacities, the day-major
  list of slots, the `"{day}_{slot}"` names the program gives them and the per-course filtering
  of that list by allowed days.
 */
module Slots {
  import opened Wrappers
  import opened Seqs
  import opened Strings

  /** One teaching slot: a day name and a 1-based position within that day. */
  datatype Slot = Slot(day: string, pos: nat)

  /** The week, in catalog order. */
  const Days: seq<string> := ["Sun", "Mon", "Tue", "Wed", "Thu"]

  /** Slots per day; Tuesday is the short day. */
  const SlotsPerDay: map<string, nat> := map["Sun" := 5, "Mon" := 5, "Tue" := 3, "Wed" := 5, "Thu" := 5]

  /** Positions 1..count of one day. */
  function DaySlots(day: string, count: nat): seq<Slot>
  {
    seq(count, i requires 0 <= i < count => Slot(day, i + 1))
  }

  /** The catalog built from a list of days and a capacity table: day-major, position-minor. */
  function CatalogOf(days: seq<string>, capacity: map<string, nat>): seq<Slot>
    requires forall d :: d in days ==> d in capacity
  {
    if |days| == 0 then []
    else DaySlots(days[0], capacity[days[0]]) + CatalogOf(days[1..], capacity)
  }

  /** The catalog of the program's week. */
  function Catalog(): seq<Slot>
  {
    CatalogOf(Days, SlotsPerDay)
  }

  /** Index of a day in the week list, or `|days|` when absent. */
  function IndexOf(days: seq<string>, d: string): nat
  {
    if |days| == 0 then 0
    else if days[0] == d then 0
    else 1 + IndexOf(days[1..], d)
  }

  /** Catalog order: earlier day first, then lower position. */
  predicate Earlier(days: seq<string>, s: Slot, t: Slot)
  {
    IndexOf(days, s.day) < IndexOf(days, t.day) || (s.day == t.day && s.pos < t.pos)
  }

  /** The catalog holds exactly the slots whose position lies within its day's capacity. */
  lemma {:induction false} CatalogMembership(days: seq<string>, capacity: map<string, nat>, s: Slot)
    requires forall d :: d in days ==> d in capacity
    ensures s in CatalogOf(days, capacity) <==> s.day in days && 1 <= s.pos <= capacity[s.day]
    decreases |days|
  {
    if |days| > 0 {
      CatalogMembership(days[1..], capacity, s);
      assert days == [days[0]] + days[1..];
      if s.day == days[0] && 1 <= s.pos <= capacity[s.day] {
        assert DaySlots(days[0], capacity[days[0]])[s.pos - 1] == s;
      }
    }
  }

  lemma {:induction false} IndexOfTail(days: seq<string>, d: string)
    requires |days| > 0 && d in days[1..] && d != days[0]
    ensures IndexOf(days, d) == 1 + IndexOf(days[1..], d)
  {
  }

  /** The catalog lists its slots strictly in day-major order, so no slot occurs twice. */
  lemma {:induction false} CatalogOrdered(days: seq<string>, capacity: map<string, nat>)
    requires forall d :: d in days ==> d in capacity
    requires Distinct(days)
    ensures forall i, j :: 0 <= i < j < |CatalogOf(days, capacity)| ==>
      Earlier(days, CatalogOf(days, capacity)[i], CatalogOf(days, capacity)[j])
    decreases |days|
  {
    if |days| > 0 {
      var head := DaySlots(days[0], capacity[days[0]]);
      var rest := CatalogOf(days[1..], capacity);
      var all := CatalogOf(days, capacity);
      assert all == head + rest;
      assert Distinct(days[1..]) by {
        forall i, j | 0 <= i < j < |days[1..]| ensures days[1..][i] != days[1..][j] {
          assert days[1..][i] == days[i + 1] && days[1..][j] == days[j + 1];
        }
      }
      CatalogOrdered(days[1..], capacity);
      forall i, j | 0 <= i < j < |all|
        ensures Earlier(days, all[i], all[j])
      {
        if j < |head| {
        } else {
          var t := all[j];
          assert t == rest[j - |head|];
          CatalogMembership(days[1..], capacity, t);
          assert t.day != days[0] by {
            var k :| 0 <= k < |days[1..]| && days[1..][k] == t.day;
            assert days[k + 1] == t.day;
          }
          IndexOfTail(days, t.day);
          if i < |head| {
            assert all[i].day == days[0];
          } else {
            var s := all[i];
            assert s == rest[i - |head|];
            CatalogMembership(days[1..], capacity, s);
            assert s.day != days[0] by {
              var k :| 0 <= k < |days[1..]| && days[1..][k] == s.day;
              assert days[k + 1] == s.day;
            }
            IndexOfTail(days, s.day);
            assert Earlier(days[1..], s, t);
          }
        }
      }
    }
  }

  /** The program's catalog: 5 + 5 + 3 + 5 + 5 = 23 slots, exactly the in-capacity slots of the
      week, listed day-major. */
  lemma CatalogShape()
    ensures |Catalog()| == 23
    ensures forall s :: s in Catalog() <==> s.day in Days && 1 <= s.pos <= SlotsPerDay[s.day]
    ensures forall i, j :: 0 <= i < j < |Catalog()| ==> Earlier(Days, Catalog()[i], Catalog()[j])
  {
    assert Days[1..][1..][1..][1..][1..] == [];
    forall s ensures s in Catalog() <==> s.day in Days && 1 <= s.pos <= SlotsPerDay[s.day] {
      CatalogMembership(Days, SlotsPerDay, s);
    }
    CatalogOrdered(Days, SlotsPerDay);
  }

  lemma {:induction false} CatalogOfSnoc(days: seq<string>, capacity: map<string, nat>, d: string)
    requires forall x :: x in days ==> x in capacity
    requires d in capacity
    ensures CatalogOf(days + [d], capacity) == CatalogOf(days, capacity) + DaySlots(d, capacity[d])
    decreases |days|
  {
    if |days| > 0 {
      assert (days + [d])[1..] == days[1..] + [d];
      CatalogOfSnoc(days[1..], capacity, d);
    }
  }

  /** The name `f"{day}_{slot}"` of a slot. */
  function Format(s: Slot): string
  {
    s.day + "_" + NatToDecimal(s.pos)
  }

  /** `name.split('_')[0]`: the day part of a slot name. */
  function DayOf(name: string): string
  {
    Split(name, '_')[0]
  }

  /** `int(name.split('_')[1])`: the position part; `None` where Python would raise. */
  function PositionOf(name: string): Option<nat>
  {
    var parts := Split(name, '_');
    if |parts| < 2 then None else ParseNat(parts[1])
  }

  /** A slot name splits into exactly its day and its position digits, so both parts read back. */
  lemma FormatRoundTrip(s: Slot)
    requires '_' !in s.day
    ensures Split(Format(s), '_') == [s.day, NatToDecimal(s.pos)]
    ensures DayOf(Format(s)) == s.day
    ensures PositionOf(Format(s)) == Some(s.pos)
  {
    var digits := NatToDecimal(s.pos);
    assert Format(s) == s.day + ['_'] + digits;
    SplitAtFirst(s.day, '_', digits);
    SplitWithoutSeparator(digits, '_');
    ParseNatToDecimal(s.pos);
  }

  /** No day of the week contains the separator. */
  lemma DaysWithoutSeparator()
    ensures forall d :: d in Days ==> '_' !in d
  {
  }

  /** Distinct catalog slots get distinct names. */
  lemma FormatInjective(s: Slot, t: Slot)
    requires '_' !in s.day && '_' !in t.day
    ensures Format(s) == Format(t) ==> s == t
  {
    FormatRoundTrip(s);
    FormatRoundTrip(t);
  }

  /** The names of a list of slots, in order. */
  function Names(slots: seq<Slot>): seq<string>
  {
    seq(|slots|, i requires 0 <= i < |slots| => Format(slots[i]))
  }

  /** The nested loops that build `time_slots`: each day in turn, positions 1 to its capacity. */
  method BuildTimeSlotsOf(days: seq<string>, capacity: map<string, nat>) returns (timeSlots: seq<string>)
    requires forall d :: d in days ==> d in capacity
    ensures timeSlots == Names(CatalogOf(days, capacity))
  {
    timeSlots := [];
    var k := 0;
    while k < |days|
      invariant 0 <= k <= |days|
      invariant timeSlots == Names(CatalogOf(days[..k], capacity))
    {
      var day := days[k];
      var slot := 1;
      ghost var before := timeSlots;
      while slot <= capacity[day]
        invariant 1 <= slot <= capacity[day] + 1
        invariant timeSlots == before + Names(DaySlots(day, slot - 1))
      {
        assert Names(DaySlots(day, slot)) == Names(DaySlots(day, slot - 1)) + [Format(Slot(day, slot))];
        timeSlots := timeSlots + [Format(Slot(day, slot))];
        slot := slot + 1;
      }
      assert days[..k + 1] == days[..k] + [day];
      CatalogOfSnoc(days[..k], capacity, day);
      assert Names(CatalogOf(days[..k], capacity) + DaySlots(day, capacity[day]))
        == Names(CatalogOf(days[..k], capacity)) + Names(DaySlots(day, capacity[day]));
      k := k + 1;
    }
    assert days[..k] == days;
  }

  /** `time_slots` for the program's week: the names of the 23 catalog slots, in catalog order. */
  method BuildTimeSlots() returns (timeSlots: seq<string>)
    ensures timeSlots == Names(Catalog())
    ensures |timeSlots| == 23
  {
    timeSlots := BuildTimeSlotsOf(Days, SlotsPerDay);
    CatalogShape();
  }

  /** `[slot for slot in time_slots if slot.split('_')[0] in allowed]`, on slot names. */
  function AllowedNames(timeSlots: seq<string>, allowed: seq<string>): seq<string>
  {
    if |timeSlots| == 0 then []
    else
      var head := if DayOf(timeSlots[0]) in allowed then [timeSlots[0]] else [];
      head + AllowedNames(timeSlots[1..], allowed)
  }

  /** The same filter on slots: those whose day is one of the allowed days, in their order. */
  function AllowedSlots(slots: seq<Slot>, allowed: seq<string>): (r: seq<Slot>)
    ensures forall s :: s in r <==> s in slots && s.day in allowed
    ensures |r| <= |slots|
  {
    if |slots| == 0 then []
    else
      var r := (if slots[0].day in allowed then [slots[0]] else []) + AllowedSlots(slots[1..], allowed);
      assert slots == [slots[0]] + slots[1..];
      r
  }

  /** Filtering the names by their split-off day keeps exactly the names of the allowed slots. */
  lemma {:induction false} AllowedNamesAgree(slots: seq<Slot>, allowed: seq<string>)
    requires forall i :: 0 <= i < |slots| ==> '_' !in slots[i].day
    ensures AllowedNames(Names(slots), allowed) == Names(AllowedSlots(slots, allowed))
    decreases |slots|
  {
    if |slots| > 0 {
      var names := Names(slots);
      assert names[1..] == Names(slots[1..]);
      AllowedNamesAgree(slots[1..], allowed);
      FormatRoundTrip(slots[0]);
      assert DayOf(names[0]) == slots[0].day;
      var head := if slots[0].day in allowed then [slots[0]] else [];
      assert AllowedNames(names, allowed) == Names(head) + AllowedNames(names[1..], allowed);
      NamesConcat(head, AllowedSlots(slots[1..], allowed));
    }
  }

  lemma NamesConcat(xs: seq<Slot>, ys: seq<Slot>)
    ensures Names(xs + ys) == Names(xs) + Names(ys)
  {
  }

  /** Strictly ordered by day of the week, then by position, as the catalog is. */
  predicate DayMajor(slots: seq<Slot>)
  {
    forall i, j :: 0 <= i < j < |slots| ==> Earlier(Days, slots[i], slots[j])
  }

  /** Filtering keeps the catalog's order. */
  lemma {:induction false} AllowedSlotsOrdered(slots: seq<Slot>, allowed: seq<string>)
    requires forall i, j :: 0 <= i < j < |slots| ==> Earlier(Days, slots[i], slots[j])
    ensures forall i, j :: 0 <= i < j < |AllowedSlots(slots, allowed)| ==>
      Earlier(Days, AllowedSlots(slots, allowed)[i], AllowedSlots(slots, allowed)[j])
    decreases |slots|
  {
    if |slots| > 0 {
      AllowedSlotsOrdered(slots[1..], allowed);
      var rest := AllowedSlots(slots[1..], allowed);
      forall t | t in rest ensures Earlier(Days, slots[0], t) {
        var k :| 0 <= k < |slots[1..]| && slots[1..][k] == t;
        assert slots[k + 1] == t;
      }
    }
  }

  /** A filter whose allowed days meet none of the slots' days keeps nothing. */
  lemma NoAllowedDayKeepsNothing(slots: seq<Slot>, allowed: seq<string>, week: seq<string>)
    requires forall s :: s in slots ==> s.day in week
    requires forall d :: d in allowed ==> d !in week
    ensures AllowedSlots(slots, allowed) == []
  {
  }

  /** A course whose allowed days all lie outside the week gets no slot at all. */
  lemma UnknownDaysGiveNoSlots(allowed: seq<string>)
    requires forall d :: d in allowed ==> d !in Days
    ensures AllowedSlots(Catalog(), allowed) == []
  {
    CatalogShape();
    NoAllowedDayKeepsNothing(Catalog(), allowed, Days);
  }

  /** None of the allowed days is a day of the week. */
  predicate NoWeekDay(allowed: seq<string>)
  {
    forall d :: d in allowed ==> d !in Days
  }

  /** A course's `allowed_slots` is empty exactly when none of its allowed days is a week day. */
  lemma EmptyDomainIffNoWeekDay(allowed: seq<string>)
    ensures AllowedSlots(Catalog(), allowed) == [] <==> NoWeekDay(allowed)
  {
    if NoWeekDay(allowed) {
      UnknownDaysGiveNoSlots(allowed);
    } else {
      var d :| d in allowed && d in Days;
      assert SlotsPerDay[d] >= 1;
      CatalogMembership(Days, SlotsPerDay, Slot(d, 1));
      assert Slot(d, 1) in AllowedSlots(Catalog(), allowed);
    }
  }

  /**
    On the program's own `time_slots`, filtering the names by the day before `'_'` keeps exactly
    the names of the catalog slots on the allowed days, in catalog order.
   */
  lemma CatalogNamesAgree(allowed: seq<string>)
    ensures AllowedNames(Names(Catalog()), allowed) == Names(AllowedSlots(Catalog(), allowed))
  {
    var catalog := Catalog();
    DaysWithoutSeparator();
    forall i | 0 <= i < |catalog| ensures '_' !in catalog[i].day {
      CatalogMembership(Days, SlotsPerDay, catalog[i]);
    }
    AllowedNamesAgree(catalog, allowed);
  }
}
