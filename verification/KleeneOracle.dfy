/** The three-valued oracle (`kleene_oracle.rs`). */
module KleeneOracle {
  import opened Outcomes
  import opened Truth
  import opened Expressions
  import opened Bounds
  import opened FactStore
  import opened Oracle

  /** `KleeneDomain::fact_set`: divide the counter down, one digit per variable. */
  method KleeneFactSet(vars: seq<nat>, assignment: nat) returns (r: Policy<FactSet>)
    requires Distinct(vars) && forall id <- vars :: id < FAST_PREDICATE_CAPACITY
    ensures r.Success? && fresh(r.value) && r.value.Valid() && r.value.Contents() == Assignment(vars, true, assignment)
  {
    var facts := new FactSet();
    var rest := assignment;
    for i := 0 to |vars|
      invariant facts.Valid() && Unwritten(facts.Contents(), vars[i..])
      invariant facts.Contents() + Assignment(vars[i..], true, rest) == Assignment(vars, true, assignment)
    {
      assert vars[i..][1..] == vars[i + 1..] && vars[i] in vars;
      WriteDigit(facts.Contents(), vars[i..], true, rest);
      var written := facts.Set(vars[i], DigitValue(rest % 3));
      rest := rest / 3;
    }
    r := Success(facts);
  }

  /** The closures passed to `universal` by the three-valued queries. */
  method KleeneProperty(q: Query, facts: FactSet) returns (r: Policy<bool>)
    requires facts.Valid() && forall e <- q.Operands() :: Within(e, FAST_LIMITS)
    ensures r == Success(q.Holds(facts.Contents()))
  {
    assert q.lhs in q.Operands();
    var left := Evaluate(q.lhs, facts);
    match q
    case Tautology(_) => r := Success(left.value == True);
    case Contradiction(_) => r := Success(left.value != True);
    case Implication(_, _) | Equivalence(_, _) =>
      assert q.rhs in q.Operands();
      var right := Evaluate(q.rhs, facts);
      r := Success(Related(q.Equivalence?, left.value, right.value));
    case MutualExclusion(_, rhs) =>
      if left.value != True {
        return Success(true);
      }
      assert rhs in q.Operands();
      var right := Evaluate(rhs, facts);
      r := Success(right.value != True);
  }

  predicate Related(equivalence: bool, left: TruthValue, right: TruthValue) {
    if equivalence then left == right else left != True || right == True
  }

  /** `prepare` of the three-valued oracle: grow the space, failing at the first power past the limit. */
  method PrepareKleene(limits: OracleLimits, operands: seq<BoolExpr>) returns (r: Policy<Domain>)
    requires limits.Valid()
    ensures r == Prepare(limits, operands, true)
    ensures r.Success? <==> Answers(limits, operands, true)
  {
    PreparedExactly(limits, operands, true);
    var collected := CollectAll(operands);
    if collected.Failure? {
      return Failure(collected.error);
    }
    var predicates := Sorted(collected.value, FAST_PREDICATE_CAPACITY);
    if |predicates| > limits.maxVariables {
      return Failure(VariableLimit(|predicates|, limits.maxVariables));
    }
    var space := 1;
    for i := 0 to |predicates|
      invariant KleeneSpace(i, limits.maxAssignments) == Success(space)
      invariant space <= limits.maxAssignments
    {
      space := 3 * space;
      if space > limits.maxAssignments {
        SpaceStops(i + 1, |predicates|, limits.maxAssignments);
        return Failure(AssignmentLimit(space, limits.maxAssignments));
      }
    }
    r := Success(Domain(predicates, space));
  }

  lemma {:induction false} SpaceStops(i: nat, n: nat, maximum: nat)
    requires i <= n && KleeneSpace(i, maximum).Failure?
    ensures KleeneSpace(n, maximum) == KleeneSpace(i, maximum)
  {
    if i < n {
      SpaceStops(i, n - 1, maximum);
    }
  }

  /** One round of an enumeration: the query at one assignment, with a copy of the facts used. */
  method KleeneProbe(domain: Domain, q: Query, assignment: nat) returns (holds: bool, copy: FactCopy)
    requires Covers(domain, q.Operands(), true)
    ensures holds == q.Holds(Assignment(domain.predicates, true, assignment))
    ensures copy.Contents() == Assignment(domain.predicates, true, assignment)
  {
    var facts := KleeneFactSet(domain.predicates, assignment);
    var outcome := KleeneProperty(q, facts.value);
    holds, copy := outcome.value, FactCopy(facts.value.knownTrue, facts.value.knownFalse);
  }

  /** The loop of `universal`. */
  method KleeneEnumerate(domain: Domain, q: Query) returns (report: Report)
    requires Covers(domain, q.Operands(), true)
    ensures FirstRefutation(report, q, domain, true)
  {
    for assignment := 0 to domain.assignmentSpace
      invariant HoldsBelow(q, domain, true, assignment)
    {
      var holds, copy := KleeneProbe(domain, q, assignment);
      if !holds {
        return Report(|domain.predicates|, domain.assignmentSpace, assignment + 1, Some(copy));
      }
    }
    report := Report(|domain.predicates|, domain.assignmentSpace, domain.assignmentSpace, None);
  }

  /** `ExactKleeneOracle::universal`: fails only where `prepare` fails, and then decides the query exactly. */
  method KleeneUniversal(limits: OracleLimits, q: Query) returns (r: Policy<Report>)
    requires limits.Valid()
    ensures match Prepare(limits, q.Operands(), true)
            case Failure(error) => r == Failure(error)
            case Success(d) => r.Success? && FirstRefutation(r.value, q, d, true)
                               && (r.value.found == None <==> Verdict(q, true))
  {
    var prepared := PrepareKleene(limits, q.Operands());
    if prepared.Failure? {
      return Failure(prepared.error);
    }
    PreparedDomain(limits, q.Operands(), true);
    var report := KleeneEnumerate(prepared.value, q);
    ReportDecides(report, q, prepared.value, true);
    r := Success(report);
  }

  lemma {:induction false} SatisfiableIffNotContradiction(e: BoolExpr)
    ensures Verdict(Contradiction(e), true) <==> !exists facts: Facts :: Kleene(e, facts) == True
  {
    var q := Contradiction(e);
    if Verdict(q, true) {
      forall facts: Facts ensures Kleene(e, facts) != True {
        assert Relevant(q, true, facts) && q.Holds(facts);
      }
    } else {
      var facts: Facts :| Relevant(q, true, facts) && !q.Holds(facts);
      assert Kleene(e, facts) == True;
    }
  }

  /** The expression at one assignment. */
  method KleeneValueAt(domain: Domain, e: BoolExpr, assignment: nat) returns (value: TruthValue, copy: FactCopy)
    requires Covers(domain, [e], true)
    ensures value == Kleene(e, Assignment(domain.predicates, true, assignment))
    ensures copy.Contents() == Assignment(domain.predicates, true, assignment)
  {
    assert e in [e];
    var facts := KleeneFactSet(domain.predicates, assignment);
    var outcome := Evaluate(e, facts.value);
    value, copy := outcome.value, FactCopy(facts.value.knownTrue, facts.value.knownFalse);
  }

  /** The loop of `satisfiability`: a witness refutes the contradiction. */
  method KleeneSearch(domain: Domain, e: BoolExpr) returns (report: Report)
    requires Covers(domain, [e], true)
    ensures FirstRefutation(report, Contradiction(e), domain, true)
  {
    for assignment := 0 to domain.assignmentSpace
      invariant HoldsBelow(Contradiction(e), domain, true, assignment)
    {
      var value, copy := KleeneValueAt(domain, e, assignment);
      if value == True {
        return Report(|domain.predicates|, domain.assignmentSpace, assignment + 1, Some(copy));
      }
    }
    report := Report(|domain.predicates|, domain.assignmentSpace, domain.assignmentSpace, None);
  }

  /** `ExactKleeneOracle::satisfiability`. */
  method KleeneSatisfiability(limits: OracleLimits, e: BoolExpr) returns (r: Policy<Report>)
    requires limits.Valid()
    ensures match Prepare(limits, [e], true)
            case Failure(error) => r == Failure(error)
            case Success(d) => r.Success? && FirstRefutation(r.value, Contradiction(e), d, true)
                               && (r.value.found.Some? <==> exists facts: Facts :: Kleene(e, facts) == True)
  {
    var prepared := PrepareKleene(limits, [e]);
    if prepared.Failure? {
      return Failure(prepared.error);
    }
    PreparedDomain(limits, [e], true);
    var report := KleeneSearch(prepared.value, e);
    ReportDecides(report, Contradiction(e), prepared.value, true);
    SatisfiableIffNotContradiction(e);
    r := Success(report);
  }
}
