/**
  The predicates the program registers as constraints, evaluated on the tuple of slots a
  constraint's variables hold: `max_three_successive`, the per-course distinctness lambdas,
  `AllDifferentConstraint` and `max_two_days`.
 */
module Rules {
  import opened Seqs
  import opened Slots

  /** The positions of a tuple of slots, days dropped. */
  function Positions(vals: seq<Slot>): seq<int>
  {
    seq(|vals|, i requires 0 <= i < |vals| => vals[i].pos as int)
  }

  predicate Sorted(s: seq<int>)
  {
    forall i, j :: 0 <= i < j < |s| ==> s[i] <= s[j]
  }

  /** Inserts `x` into a sorted sequence. */
  function Insert(x: int, s: seq<int>): (r: seq<int>)
    requires Sorted(s)
    ensures Sorted(r)
    ensures multiset(r) == multiset(s) + multiset{x}
    ensures |r| == |s| + 1 && (r[0] == x || (|s| > 0 && r[0] == s[0]))
  {
    if |s| == 0 then [x]
    else if x <= s[0] then [x] + s
    else
      var tail := Insert(x, s[1..]);
      assert s == [s[0]] + s[1..];
      assert s[0] <= tail[0];
      [s[0]] + tail
  }

  /** Python's `sorted` on integers: an ascending permutation of the input. */
  function SortInts(s: seq<int>): (r: seq<int>)
    ensures Sorted(r)
    ensures multiset(r) == multiset(s)
  {
    if |s| == 0 then []
    else
      assert s == [s[0]] + s[1..];
      Insert(s[0], SortInts(s[1..]))
  }

  function Abs(x: int): nat
  {
    if x < 0 then -x else x
  }

  /** Neighbouring entries differ by at most one. */
  predicate UnitSteps(ps: seq<int>)
  {
    forall i :: 1 <= i < |ps| ==> Abs(ps[i] - ps[i - 1]) <= 1
  }

  /**
    `max_three_successive`: the positions, sorted with the day ignored, climb by at most one at a
    time, and there are at most three of them.
   */
  predicate MaxThreeSuccessive(vals: seq<Slot>)
  {
    var ps := SortInts(Positions(vals));
    UnitSteps(ps) && |ps| <= 3
  }

  /** Every integer between two positions that occur is itself a position that occurs. */
  ghost predicate GapFree(ps: seq<int>)
  {
    forall x, y, k :: x in ps && y in ps && x <= k <= y ==> k in ps
  }

  lemma {:induction false} UnitStepsCoverRange(r: seq<int>, k: int)
    requires Sorted(r) && UnitSteps(r) && |r| > 0
    requires r[0] <= k <= r[|r| - 1]
    ensures k in r
    decreases |r|
  {
    if |r| > 1 {
      var front := r[..|r| - 1];
      if k <= front[|front| - 1] {
        UnitStepsCoverRange(front, k);
      } else {
        assert Abs(r[|r| - 1] - r[|r| - 2]) <= 1;
        assert k == r[|r| - 1];
      }
    }
  }

  /** For a sorted sequence, unit steps and the absence of gaps say the same thing. */
  lemma SortedUnitStepsIffGapFree(r: seq<int>)
    requires Sorted(r)
    ensures UnitSteps(r) <==> GapFree(r)
  {
    if UnitSteps(r) {
      forall x, y, k | x in r && y in r && x <= k <= y
        ensures k in r
      {
        UnitStepsCoverRange(r, k);
      }
    }
    if GapFree(r) {
      forall i | 1 <= i < |r|
        ensures Abs(r[i] - r[i - 1]) <= 1
      {
        if r[i] - r[i - 1] > 1 {
          var k := r[i - 1] + 1;
          assert r[i - 1] in r && r[i] in r;
          assert k in r;
          var m :| 0 <= m < |r| && r[m] == k;
        }
      }
    }
  }

  /**
    What `max_three_successive` accepts, stated without sorting: at most three slots whose
    positions leave no gap. Days play no part, and equal positions are allowed.
   */
  lemma MaxThreeSuccessiveMeaning(vals: seq<Slot>)
    ensures MaxThreeSuccessive(vals) <==> |vals| <= 3 && GapFree(Positions(vals))
  {
    var ps := SortInts(Positions(vals));
    SortedUnitStepsIffGapFree(ps);
    assert |ps| == |multiset(ps)| == |Positions(vals)|;
    assert forall x :: x in ps <==> x in Positions(vals) by {
      forall x ensures x in ps <==> x in Positions(vals) {
        assert x in ps <==> x in multiset(ps);
        assert x in Positions(vals) <==> x in multiset(Positions(vals));
      }
    }
  }

  /** Sorting two integers puts the smaller first. */
  lemma SortTwo(x: int, y: int)
    ensures SortInts([x, y]) == if x <= y then [x, y] else [y, x]
  {
    assert [x, y][1..] == [y];
    assert [y][1..] == [];
    assert SortInts([y]) == [y];
  }

  /** Two slots pass `max_three_successive` exactly when their positions are at most one apart. */
  lemma SuccessivePair(s: Slot, t: Slot)
    ensures MaxThreeSuccessive([s, t]) <==> Abs(s.pos - t.pos) <= 1
  {
    var ps := Positions([s, t]);
    assert ps == [s.pos, t.pos];
    SortTwo(s.pos, t.pos);
    TwoUnitSteps(SortInts(ps));
  }

  /** Two entries take a unit step exactly when they differ by at most one. */
  lemma TwoUnitSteps(r: seq<int>)
    requires |r| == 2
    ensures UnitSteps(r) <==> Abs(r[1] - r[0]) <= 1
  {
  }

  /** Slots that share a position pass even on different days, as `Sun_1` and `Mon_1` do. */
  lemma SuccessiveIgnoresDay()
    ensures MaxThreeSuccessive([Slot("Sun", 1), Slot("Mon", 1)])
  {
    var vals := [Slot("Sun", 1), Slot("Mon", 1)];
    assert Positions(vals) == [1, 1];
    assert SortInts([1, 1]) == [1, 1];
  }

  /** A gap between positions fails, even on one day. */
  lemma SuccessiveRejectsGap()
    ensures !MaxThreeSuccessive([Slot("Sun", 1), Slot("Sun", 3)])
  {
    var vals := [Slot("Sun", 1), Slot("Sun", 3)];
    assert Positions(vals) == [1, 3];
    assert SortInts([1, 3]) == [1, 3];
  }

  /** The per-course lambdas: two or three values, pairwise unequal; other arities do not arise. */
  predicate SessionsDistinct(vals: seq<Slot>)
  {
    if |vals| == 3 then vals[0] != vals[1] && vals[0] != vals[2] && vals[1] != vals[2]
    else if |vals| == 2 then vals[0] != vals[1]
    else false
  }

  /** The spelled-out lambdas are the all-different condition on two or three values. */
  lemma SessionsDistinctIsDistinct(vals: seq<Slot>)
    requires |vals| == 2 || |vals| == 3
    ensures SessionsDistinct(vals) <==> Distinct(vals)
  {
  }

  /** The days a tuple of slots touches. */
  function DaySet(vals: seq<Slot>): set<string>
  {
    set s | s in vals :: s.day
  }

  /** `max_two_days`: the slots span at most two different days. */
  predicate MaxTwoDays(vals: seq<Slot>)
  {
    |DaySet(vals)| <= 2
  }

  /** Every slot lies on `d1` or on `d2`. */
  predicate WithinDays(vals: seq<Slot>, d1: string, d2: string)
  {
    forall s :: s in vals ==> s.day == d1 || s.day == d2
  }

  /** A tuple touches no more days than it has slots. */
  lemma {:induction false} DaySetBound(vals: seq<Slot>)
    ensures |DaySet(vals)| <= |vals|
    decreases |vals|
  {
    if |vals| > 0 {
      var front := vals[..|vals| - 1];
      DaySetBound(front);
      assert DaySet(vals) <= DaySet(front) + {vals[|vals| - 1].day} by {
        forall d | d in DaySet(vals) ensures d in DaySet(front) + {vals[|vals| - 1].day} {
          var s :| s in vals && s.day == d;
          var k :| 0 <= k < |vals| && vals[k] == s;
          if k < |vals| - 1 {
            assert front[k] == s;
          }
        }
      }
      SubsetCard(DaySet(vals), DaySet(front) + {vals[|vals| - 1].day});
    }
  }

  lemma SubsetCard<T>(a: set<T>, b: set<T>)
    requires a <= b
    ensures |a| <= |b|
  {
    assert b == a + (b - a);
  }

  /** `max_two_days` holds exactly when two days cover every slot. */
  lemma MaxTwoDaysMeaning(vals: seq<Slot>)
    ensures MaxTwoDays(vals) <==> exists d1, d2 :: WithinDays(vals, d1, d2)
  {
    var days := DaySet(vals);
    if MaxTwoDays(vals) {
      if |vals| == 0 {
        assert WithinDays(vals, "", "");
      } else {
        var d1 := vals[0].day;
        assert vals[0] in vals;
        var d2 := if days - {d1} == {} then d1 else var d :| d in days - {d1}; d;
        assert days <= {d1, d2} by {
          if d2 != d1 {
            var rest := days - {d1, d2};
            if rest != {} {
              var e :| e in rest;
              SubsetCard({d1, d2, e}, days);
            }
          }
        }
        forall s | s in vals ensures s.day == d1 || s.day == d2 {
          assert s.day in days;
        }
        assert WithinDays(vals, d1, d2);
      }
    }
    if d1, d2 :| WithinDays(vals, d1, d2) {
      assert days <= {d1, d2};
      SubsetCard(days, {d1, d2});
    }
  }

  /** A course with only a lecture and a TD always passes `max_two_days`. */
  lemma MaxTwoDaysForTwoSessions(vals: seq<Slot>)
    requires |vals| <= 2
    ensures MaxTwoDays(vals)
  {
    DaySetBound(vals);
  }
}
