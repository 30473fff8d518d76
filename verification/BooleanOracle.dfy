/** The classical oracle (`exact_oracle.rs`). */
module BooleanOracle {
  import opened Outcomes
  import opened Truth
  import opened Expressions
  import opened Bounds
  import opened FactStore
  import opened Oracle

  /** `ExactDomain::fact_set`: one bit of the counter per variable. */
  method BooleanFactSet(vars: seq<nat>, assignment: nat) returns (r: Policy<FactSet>)
    requires Distinct(vars) && forall id <- vars :: id < FAST_PREDICATE_CAPACITY
    ensures r.Success? && fresh(r.value) && r.value.Valid() && r.value.Contents() == Assignment(vars, false, assignment)
  {
    var facts := new FactSet();
    for bit := 0 to |vars|
      invariant facts.Valid() && Unwritten(facts.Contents(), vars[bit..])
      invariant facts.Contents() + Assignment(vars[bit..], false, Shifted(assignment, bit))
             == Assignment(vars, false, assignment)
    {
      assert vars[bit..][1..] == vars[bit + 1..] && vars[bit] in vars;
      ShiftOnce(assignment, bit);
      WriteDigit(facts.Contents(), vars[bit..], false, Shifted(assignment, bit));
      var value := if Shifted(assignment, bit) % 2 == 0 then False else True;
      var written := facts.Set(vars[bit], value);
    }
    r := Success(facts);
  }

  /** `assignment >> bit`; its lowest bit is what `assignment & (1 << bit)` tests. */
  function Shifted(assignment: nat, bit: nat): nat {
    if bit == 0 then assignment else Shifted(assignment / 2, bit - 1)
  }

  lemma {:induction false} ShiftOnce(assignment: nat, bit: nat)
    ensures Shifted(assignment, bit + 1) == Shifted(assignment, bit) / 2
    decreases bit
  {
    if bit > 0 {
      ShiftOnce(assignment / 2, bit - 1);
    }
  }

  /** `boolean_value`. */
  function BooleanValue(value: TruthValue): Policy<bool> {
    match value
    case True => Success(true)
    case False => Success(false)
    case Unknown => Failure(UnexpectedUnknown)
  }

  /** The closures passed to `universal`; where every atom is decided, `UnexpectedUnknown` cannot arise. */
  method BooleanProperty(q: Query, facts: FactSet) returns (r: Policy<bool>)
    requires facts.Valid() && forall e <- q.Operands() :: Within(e, FAST_LIMITS)
    ensures AtomsOf(q.Operands()) <= facts.Contents().Keys ==> r == Success(q.Holds(facts.Contents()))
  {
    assert q.lhs in q.Operands();
    OperandAtoms(q);
    if AtomsOf(q.Operands()) <= facts.Contents().Keys {
      Decided(q.lhs, facts.Contents());
    }
    var value := Evaluate(q.lhs, facts);
    var left := BooleanValue(value.value);
    if left.Failure? {
      return left;
    }
    match q
    case Tautology(_) => r := left;
    case Contradiction(_) => r := Success(!left.value);
    case Implication(_, _) | Equivalence(_, _) | MutualExclusion(_, _) =>
      assert q.rhs in q.Operands();
      if AtomsOf(q.Operands()) <= facts.Contents().Keys {
        Decided(q.rhs, facts.Contents());
      }
      value := Evaluate(q.rhs, facts);
      var right := BooleanValue(value.value);
      r := if right.Failure? then right else Success(Connect(q, left.value, right.value));
  }

  predicate Connect(q: Query, left: bool, right: bool) {
    if q.Implication? then !left || right
    else if q.Equivalence? then left == right
    else !(left && right)
  }

  /** `prepare` of the classical oracle. */
  method PrepareBoolean(limits: OracleLimits, operands: seq<BoolExpr>) returns (r: Policy<Domain>)
    requires limits.Valid()
    ensures r == Prepare(limits, operands, false)
    ensures r.Success? <==> Answers(limits, operands, false)
  {
    PreparedExactly(limits, operands, false);
    var collected := CollectAll(operands);
    if collected.Failure? {
      return Failure(collected.error);
    }
    var predicates := Sorted(collected.value, FAST_PREDICATE_CAPACITY);
    if |predicates| > limits.maxVariables {
      return Failure(VariableLimit(|predicates|, limits.maxVariables));
    }
    var space := Space(false, |predicates|);
    if space > limits.maxAssignments {
      return Failure(AssignmentLimit(space, limits.maxAssignments));
    }
    r := Success(Domain(predicates, space));
  }

  /** One round of an enumeration over total assignments. */
  method BooleanProbe(domain: Domain, q: Query, assignment: nat) returns (r: Policy<bool>, copy: FactCopy)
    requires Covers(domain, q.Operands(), false)
    ensures r == Success(q.Holds(Assignment(domain.predicates, false, assignment)))
    ensures copy.Contents() == Assignment(domain.predicates, false, assignment)
  {
    var facts := BooleanFactSet(domain.predicates, assignment);
    EnumeratedRelevant(q, domain.predicates, false, assignment);
    r := BooleanProperty(q, facts.value);
    copy := FactCopy(facts.value.knownTrue, facts.value.knownFalse);
  }

  /** The loop of `universal`: no round can fail. */
  method BooleanEnumerate(domain: Domain, q: Query) returns (report: Report)
    requires Covers(domain, q.Operands(), false)
    ensures FirstRefutation(report, q, domain, false)
  {
    for assignment := 0 to domain.assignmentSpace
      invariant HoldsBelow(q, domain, false, assignment)
    {
      var holds, copy := BooleanProbe(domain, q, assignment);
      if !holds.value {
        return Report(|domain.predicates|, domain.assignmentSpace, assignment + 1, Some(copy));
      }
    }
    report := Report(|domain.predicates|, domain.assignmentSpace, domain.assignmentSpace, None);
  }

  /** `ExactBooleanOracle::universal`: once `prepare` succeeds no error can follow, and the query is decided exactly. */
  method BooleanUniversal(limits: OracleLimits, q: Query) returns (r: Policy<Report>)
    requires limits.Valid()
    ensures match Prepare(limits, q.Operands(), false)
            case Failure(error) => r == Failure(error)
            case Success(d) => r.Success? && FirstRefutation(r.value, q, d, false)
                               && (r.value.found == None <==> Verdict(q, false))
  {
    var prepared := PrepareBoolean(limits, q.Operands());
    if prepared.Failure? {
      return Failure(prepared.error);
    }
    PreparedDomain(limits, q.Operands(), false);
    var report := BooleanEnumerate(prepared.value, q);
    ReportDecides(report, q, prepared.value, false);
    r := Success(report);
  }

  /** The expression at one total assignment. */
  method BooleanValueAt(domain: Domain, e: BoolExpr, assignment: nat) returns (r: Policy<bool>, copy: FactCopy)
    requires Covers(domain, [e], false)
    ensures r == Success(Kleene(e, Assignment(domain.predicates, false, assignment)) == True)
    ensures copy.Contents() == Assignment(domain.predicates, false, assignment)
  {
    ghost var q := Contradiction(e);
    assert q.Operands() == [e] && e in [e];
    var facts := BooleanFactSet(domain.predicates, assignment);
    EnumeratedRelevant(q, domain.predicates, false, assignment);
    OperandAtoms(q);
    Decided(e, facts.value.Contents());
    var outcome := Evaluate(e, facts.value);
    r, copy := BooleanValue(outcome.value), FactCopy(facts.value.knownTrue, facts.value.knownFalse);
  }

  /** The loop of `satisfiability`: a witness refutes the contradiction. */
  method BooleanSearch(domain: Domain, e: BoolExpr) returns (report: Report)
    requires Covers(domain, [e], false)
    ensures FirstRefutation(report, Contradiction(e), domain, false)
  {
    for assignment := 0 to domain.assignmentSpace
      invariant HoldsBelow(Contradiction(e), domain, false, assignment)
    {
      var truth, copy := BooleanValueAt(domain, e, assignment);
      if truth.value {
        return Report(|domain.predicates|, domain.assignmentSpace, assignment + 1, Some(copy));
      }
    }
    report := Report(|domain.predicates|, domain.assignmentSpace, domain.assignmentSpace, None);
  }

  /** `ExactBooleanOracle::satisfiability`: the witness is the first total assignment making the expression True. */
  method BooleanSatisfiability(limits: OracleLimits, e: BoolExpr) returns (r: Policy<Report>)
    requires limits.Valid()
    ensures match Prepare(limits, [e], false)
            case Failure(error) => r == Failure(error)
            case Success(d) => r.Success? && FirstRefutation(r.value, Contradiction(e), d, false)
                               && (r.value.found == None <==> Verdict(Contradiction(e), false))
  {
    var prepared := PrepareBoolean(limits, [e]);
    if prepared.Failure? {
      return Failure(prepared.error);
    }
    PreparedDomain(limits, [e], false);
    var report := BooleanSearch(prepared.value, e);
    ReportDecides(report, Contradiction(e), prepared.value, false);
    r := Success(report);
  }
}
