/**
  The constraint problem `generate_timetable` hands to its solver: session variables, their
  domains, the registered constraints, and what it means for an assignment to solve it.
 */
module Csp {
  import opened Seqs
  import opened Slots
  import opened Rules

  /** The session kinds; the variable names end in `_lecture`, `_TD` and `_TP`. */
  datatype Kind = Lecture | TD | TP

  /** One session variable: a course and a session kind. */
  datatype Var = Var(course: string, kind: Kind)

  /** The four predicates the program registers. */
  datatype Rule = MaxThreeSuccessiveRule | SessionsDistinctRule | AllDifferentRule | MaxTwoDaysRule

  /** A registered constraint: a predicate and the ordered variables it reads. */
  datatype Constraint = Constraint(rule: Rule, scope: seq<Var>)

  /** Variables in registration order, their domains, and the constraints in registration order. */
  datatype Problem = Problem(variables: seq<Var>, domains: map<Var, seq<Slot>>, constraints: seq<Constraint>)

  /** A (partial or total) assignment of slots to variables. */
  type Assignment = map<Var, Slot>

  /** Whether a rule accepts the tuple of slots its variables hold. */
  predicate Holds(rule: Rule, vals: seq<Slot>)
  {
    match rule
    case MaxThreeSuccessiveRule => MaxThreeSuccessive(vals)
    case SessionsDistinctRule => SessionsDistinct(vals)
    case AllDifferentRule => Distinct(vals)
    case MaxTwoDaysRule => MaxTwoDays(vals)
  }

  /** Every variable of the scope has a value. */
  predicate Covers(a: Assignment, scope: seq<Var>)
  {
    forall v :: v in scope ==> v in a
  }

  /** The values of the scope's variables, in scope order. */
  function Values(a: Assignment, scope: seq<Var>): seq<Slot>
    requires Covers(a, scope)
  {
    seq(|scope|, i requires 0 <= i < |scope| => a[scope[i]])
  }

  /** The constraint's variables all have values, and its predicate accepts them. */
  predicate Satisfied(c: Constraint, a: Assignment)
  {
    Covers(a, c.scope) && Holds(c.rule, Values(a, c.scope))
  }

  /** Every constraint of the list is satisfied. */
  predicate AllSatisfied(cs: seq<Constraint>, a: Assignment)
  {
    forall c :: c in cs ==> Satisfied(c, a)
  }

  lemma AllSatisfiedConcat(xs: seq<Constraint>, ys: seq<Constraint>, a: Assignment)
    ensures AllSatisfied(xs + ys, a) <==> AllSatisfied(xs, a) && AllSatisfied(ys, a)
  {
  }

  /** Every constraint whose variables are all assigned holds; the others are not yet judged. */
  predicate Consistent(p: Problem, a: Assignment)
  {
    forall c :: c in p.constraints && Covers(a, c.scope) ==> Holds(c.rule, Values(a, c.scope))
  }

  /**
    Each variable is registered once and has a domain; every constraint reads at least one
    variable, and only registered ones.
   */
  predicate WellFormed(p: Problem)
  {
    && Distinct(p.variables)
    && (forall v :: v in p.variables ==> v in p.domains)
    && (forall c :: c in p.constraints ==> |c.scope| > 0)
    && (forall c, v :: c in p.constraints && v in c.scope ==> v in p.variables)
  }

  /** A solution: exactly the problem's variables, each in its domain, every constraint satisfied. */
  ghost predicate ValidSolution(p: Problem, a: Assignment)
  {
    && AssignsExactly(a, p.variables)
    && InDomains(p, a)
    && AllSatisfied(p.constraints, a)
  }

  /** The assignment gives values to exactly the listed variables. */
  ghost predicate AssignsExactly(a: Assignment, vars: seq<Var>)
  {
    forall v :: v in a <==> v in vars
  }

  /** Every variable holds a value of its domain. */
  predicate InDomains(p: Problem, a: Assignment)
  {
    forall v :: v in p.variables ==> v in p.domains && v in a && a[v] in p.domains[v]
  }

  /** On a total assignment, consistency is satisfaction of every constraint. */
  lemma ConsistentTotal(p: Problem, a: Assignment)
    requires WellFormed(p)
    requires forall v :: v in p.variables ==> v in a
    ensures Consistent(p, a) <==> AllSatisfied(p.constraints, a)
  {
  }

  /** Values read through a scope depend only on the values of the scope's variables. */
  lemma ValuesAgree(a: Assignment, b: Assignment, scope: seq<Var>)
    requires Covers(a, scope)
    requires forall v :: v in scope ==> v in b && b[v] == a[v]
    ensures Values(a, scope) == Values(b, scope)
  {
  }
}
