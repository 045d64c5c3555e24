/**
  A depth-first backtracking search of this model's own for the problem the model builder
  produces. It assigns the variables in registration order, tries each domain value in domain
  order, and judges every constraint as soon as all of its variables hold values. `GetSolution`
  stands in for the solver library's `getSolution`: no answer for a problem without variables,
  otherwise a solution exactly when one exists. Which solution it returns is its own, not the
  library's.
 */
module Solver {
  import opened Wrappers
  import opened Slots
  import opened Csp

  /** The assigned variables are exactly the first `i`, each holding a value of its domain. */
  ghost predicate Partial(p: Problem, i: nat, a: Assignment)
    requires WellFormed(p) && i <= |p.variables|
  {
    && (forall v :: v in a <==> v in p.variables[..i])
    && (forall v :: v in a ==> a[v] in p.domains[v])
  }

  /** The number of values still to try for variable `i`, from domain index `j` on. */
  function Remaining(p: Problem, i: nat, j: nat): nat
    requires WellFormed(p)
  {
    if i < |p.variables| && j <= |p.domains[p.variables[i]]| then |p.domains[p.variables[i]]| - j else 0
  }

  /**
    Extends the consistent partial assignment `a` of the first `i` variables, trying the values of
    variable `i` from domain index `j` on; the first complete consistent extension found is
    returned, and every returned assignment is a solution.
   */
  function Search(p: Problem, i: nat, a: Assignment, j: nat): (r: Option<Assignment>)
    requires WellFormed(p)
    requires i <= |p.variables|
    requires Partial(p, i, a)
    requires Consistent(p, a)
    ensures r.Some? ==> ValidSolution(p, r.value)
    decreases |p.variables| - i, Remaining(p, i, j)
  {
    if i == |p.variables| then
      assert p.variables[..i] == p.variables;
      ConsistentTotal(p, a);
      Some(a)
    else
      var v := p.variables[i];
      var dom := p.domains[v];
      if j >= |dom| then None
      else
        var b := a[v := dom[j]];
        assert p.variables[..i + 1] == p.variables[..i] + [v];
        var deeper := if Consistent(p, b) then Search(p, i + 1, b, 0) else None;
        if deeper.Some? then deeper else Search(p, i, a, j + 1)
  }

  /** An assignment that agrees with a solution on its variables breaks no constraint it covers. */
  lemma ConsistentBelowSolution(p: Problem, b: Assignment, sol: Assignment)
    requires ValidSolution(p, sol)
    requires forall v :: v in b ==> v in sol && b[v] == sol[v]
    ensures Consistent(p, b)
  {
    forall c | c in p.constraints && Covers(b, c.scope)
      ensures Holds(c.rule, Values(b, c.scope))
    {
      assert Satisfied(c, sol);
      ValuesAgree(b, sol, c.scope);
    }
  }

  /** A value among the untried ones that is not the current one is among those after it. */
  lemma LaterValue(dom: seq<Slot>, j: nat, x: Slot)
    requires j < |dom|
    requires x in dom[j..] && x != dom[j]
    ensures x in dom[j + 1..]
  {
    var k :| j <= k < |dom| && dom[k] == x;
    assert dom[j + 1..][k - j - 1] == dom[k];
  }

  /** Giving variable `i` a value of its domain extends a partial assignment of the first `i` variables. */
  lemma ExtendPartial(p: Problem, i: nat, a: Assignment, x: Slot)
    requires WellFormed(p)
    requires i < |p.variables|
    requires Partial(p, i, a)
    requires x in p.domains[p.variables[i]]
    ensures Partial(p, i + 1, a[p.variables[i] := x])
  {
    assert p.variables[..i + 1] == p.variables[..i] + [p.variables[i]];
  }

  /**
    If a solution extends the partial assignment and its value for variable `i` is still among the
    untried ones, the search finds a solution (not necessarily that one).
   */
  lemma {:induction false} SearchFinds(p: Problem, i: nat, a: Assignment, j: nat, sol: Assignment)
    requires WellFormed(p)
    requires i <= |p.variables|
    requires Partial(p, i, a)
    requires Consistent(p, a)
    requires ValidSolution(p, sol)
    requires forall v :: v in a ==> a[v] == sol[v]
    requires i < |p.variables| ==> j <= |p.domains[p.variables[i]]|
    requires i < |p.variables| ==> sol[p.variables[i]] in p.domains[p.variables[i]][j..]
    ensures Search(p, i, a, j).Some?
    decreases |p.variables| - i, Remaining(p, i, j), 1
  {
    if i < |p.variables| {
      var v := p.variables[i];
      var dom := p.domains[v];
      if dom[j] == sol[v] {
        SearchFindsAt(p, i, a, j, sol);
      } else {
        LaterValue(dom, j, sol[v]);
        SearchFinds(p, i, a, j + 1, sol);
      }
    }
  }

  /** The case where the value tried next is the solution's: the search goes one variable deeper and succeeds there. */
  lemma {:induction false} SearchFindsAt(p: Problem, i: nat, a: Assignment, j: nat, sol: Assignment)
    requires WellFormed(p)
    requires i < |p.variables|
    requires Partial(p, i, a)
    requires Consistent(p, a)
    requires ValidSolution(p, sol)
    requires forall v :: v in a ==> a[v] == sol[v]
    requires j < |p.domains[p.variables[i]]|
    requires p.domains[p.variables[i]][j] == sol[p.variables[i]]
    ensures Search(p, i, a, j).Some?
    decreases |p.variables| - i, Remaining(p, i, j), 0
  {
    var v := p.variables[i];
    var b := a[v := sol[v]];
    ExtendPartial(p, i, a, sol[v]);
    assert v in sol;
    ConsistentBelowSolution(p, b, sol);
    if i + 1 < |p.variables| {
      assert p.domains[p.variables[i + 1]][0..] == p.domains[p.variables[i + 1]];
    }
    SearchFinds(p, i + 1, b, 0, sol);
  }

  /** `getSolution`: a solution of the problem, or `None` exactly when the problem has none. */
  function Solve(p: Problem): (r: Option<Assignment>)
    requires WellFormed(p)
    ensures r.Some? ==> ValidSolution(p, r.value)
    ensures r.None? ==> forall a :: !ValidSolution(p, a)
  {
    assert p.variables[..0] == [];
    var r := Search(p, 0, map[], 0);
    assert r.None? ==> forall a :: !ValidSolution(p, a) by {
      forall sol | ValidSolution(p, sol)
        ensures r.Some?
      {
        if 0 < |p.variables| {
          assert p.domains[p.variables[0]][0..] == p.domains[p.variables[0]];
        }
        SearchFinds(p, 0, map[], 0, sol);
      }
    }
    r
  }

  /**
    `problem.getSolution()`: `None` for a problem without variables; otherwise a solution, and
    `None` only when the problem has none.
   */
  function GetSolution(p: Problem): (r: Option<Assignment>)
    requires WellFormed(p)
    ensures r.Some? ==> ValidSolution(p, r.value)
    ensures |p.variables| == 0 ==> r.None?
    ensures |p.variables| > 0 && r.None? ==> forall a :: !ValidSolution(p, a)
  {
    if |p.variables| == 0 then None else Solve(p)
  }
}
