/**
 In which order assignments are tried, and which preparation error is reported
 (`exact_oracle.rs`, `kleene_oracle.rs`).
 */
module EnumerationOrder {
  import opened Outcomes
  import opened Truth
  import opened Expressions
  import opened Bounds
  import opened FactStore
  import opened Oracle

  // ----- the order of assignments -----

  /** The order of values at one variable: False, then True, then Unknown. */
  predicate ValueBefore(a: TruthValue, b: TruthValue) {
    (a == False && b != False) || (a == True && b == Unknown)
  }

  /** `f` is tried before `g`: at the last variable where they differ, `f` has the earlier value. */
  ghost predicate Before(vars: seq<nat>, f: Facts, g: Facts) {
    exists i: nat :: BeforeAt(vars, f, g, i)
  }

  ghost predicate BeforeAt(vars: seq<nat>, f: Facts, g: Facts, i: nat) {
    && i < |vars| && ValueBefore(Lookup(f, vars[i]), Lookup(g, vars[i]))
    && forall j :: i < j < |vars| ==> Lookup(f, vars[j]) == Lookup(g, vars[j])
  }

  /** An assignment gives its first variable the lowest digit and the others what the higher digits give them. */
  lemma {:induction false} AssignmentLookup(vars: seq<nat>, ternary: bool, k: nat)
    requires vars != [] && Distinct(vars)
    ensures Lookup(Assignment(vars, ternary, k), vars[0]) == DigitValue(LowDigit(ternary, k))
    ensures forall id <- vars[1..] ::
              Lookup(Assignment(vars, ternary, k), id)
              == Lookup(Assignment(vars[1..], ternary, HighDigits(ternary, k)), id)
  {
    DistinctRest(vars);
    AssignmentWritable(vars[1..], ternary, HighDigits(ternary, k));
  }

  lemma {:induction false} DigitsOrder(ternary: bool, j: nat, k: nat)
    requires j < k
    ensures HighDigits(ternary, j) < HighDigits(ternary, k)
         || (HighDigits(ternary, j) == HighDigits(ternary, k)
             && ValueBefore(DigitValue(LowDigit(ternary, j)), DigitValue(LowDigit(ternary, k))))
  {
  }

  /** Lower counter values are tried first: they come before higher ones in that order. */
  lemma {:induction false} CounterOrder(vars: seq<nat>, ternary: bool, j: nat, k: nat)
    requires Distinct(vars) && j < k < Space(ternary, |vars|)
    ensures Before(vars, Assignment(vars, ternary, j), Assignment(vars, ternary, k))
    decreases |vars|
  {
    var f, g, rest := Assignment(vars, ternary, j), Assignment(vars, ternary, k), vars[1..];
    DistinctRest(vars);
    AssignmentLookup(vars, ternary, j);
    AssignmentLookup(vars, ternary, k);
    DigitsOrder(ternary, j, k);
    if HighDigits(ternary, j) == HighDigits(ternary, k) {
      forall i | 0 < i < |vars| ensures Lookup(f, vars[i]) == Lookup(g, vars[i]) {
        assert vars[i] == rest[i - 1] && rest[i - 1] in rest;
      }
      assert BeforeAt(vars, f, g, 0);
    } else {
      CounterOrder(rest, ternary, HighDigits(ternary, j), HighDigits(ternary, k));
      var fs := Assignment(rest, ternary, HighDigits(ternary, j));
      var gs := Assignment(rest, ternary, HighDigits(ternary, k));
      var i: nat :| BeforeAt(rest, fs, gs, i);
      LiftBefore(vars, f, g, fs, gs, i);
    }
  }

  lemma {:induction false} LiftBefore(vars: seq<nat>, f: Facts, g: Facts, fs: Facts, gs: Facts, i: nat)
    requires vars != [] && BeforeAt(vars[1..], fs, gs, i)
    requires forall id <- vars[1..] :: Lookup(f, id) == Lookup(fs, id) && Lookup(g, id) == Lookup(gs, id)
    ensures BeforeAt(vars, f, g, i + 1)
  {
    var rest := vars[1..];
    assert vars[i + 1] == rest[i] && rest[i] in rest;
    forall j | i + 1 < j < |vars| ensures Lookup(f, vars[j]) == Lookup(g, vars[j]) {
      assert vars[j] == rest[j - 1] && rest[j - 1] in rest;
    }
  }

  /** The assignment reported is the first refuting one: every other one that refutes the query is tried later. */
  lemma {:induction false} FoundIsFirst(report: Report, q: Query, d: Domain, ternary: bool, facts: Facts)
    requires Covers(d, q.Operands(), ternary) && FirstRefutation(report, q, d, ternary) && report.found.Some?
    requires Writable(d.predicates, ternary, facts) && !q.Holds(facts)
    ensures facts == report.found.value.Contents() || Before(d.predicates, report.found.value.Contents(), facts)
  {
    var first: nat := report.assignmentsEvaluated - 1;
    AssignmentOfCounter(d.predicates, ternary, facts);
    var k := Counter(d.predicates, ternary, facts);
    assert report.found.value.Contents() == Assignment(d.predicates, ternary, first);
    if k > first {
      CounterOrder(d.predicates, ternary, first, k);
    }
  }

  /** No assignment is before itself, so the order leaves no choice. */
  lemma {:induction false} BeforeIsStrict(vars: seq<nat>, f: Facts, g: Facts)
    requires Before(vars, f, g)
    ensures !Before(vars, g, f) && f != g
  {
    var i: nat :| BeforeAt(vars, f, g, i);
    forall j: nat ensures !BeforeAt(vars, g, f, j) {
    }
  }

  /** The set of a list of distinct ids has as many members as the list. */
  lemma {:induction false} DistinctSize(vars: seq<nat>, ids: set<nat>)
    requires Distinct(vars) && forall id :: id in vars <==> id in ids
    ensures |vars| == |ids|
    decreases |vars|
  {
    if vars == [] {
      assert ids == {};
    } else {
      DistinctRest(vars);
      DistinctSize(vars[1..], ids - {vars[0]});
    }
  }

  /**
   The counts of a report: the distinct atoms, the power of the base they span, and either
   the place of the assignment found, counted from 1, or all assignments.
   */
  lemma {:induction false} ReportCounts(report: Report, q: Query, d: Domain, ternary: bool)
    requires Covers(d, q.Operands(), ternary) && FirstRefutation(report, q, d, ternary)
    ensures report.variables == |AtomsOf(q.Operands())|
    ensures report.assignmentSpace == Space(ternary, |AtomsOf(q.Operands())|)
    ensures report.assignmentsEvaluated
         == match report.found
            case Some(copy) => 1 + Counter(d.predicates, ternary, copy.Contents())
            case None => Space(ternary, |AtomsOf(q.Operands())|)
  {
    DistinctSize(d.predicates, AtomsOf(q.Operands()));
    if report.found.Some? {
      CounterOfAssignment(d.predicates, ternary, report.assignmentsEvaluated - 1);
    }
  }

  // ----- preparation errors -----

  /** The first power of three past the limit. */
  ghost predicate FirstPowerPast(n: nat, maximum: nat, power: nat) {
    exists i: nat :: PowerPast(n, maximum, power, i)
  }

  ghost predicate PowerPast(n: nat, maximum: nat, power: nat, i: nat) {
    0 < i <= n && power == Space(true, i) > maximum && Space(true, i - 1) <= maximum
  }

  lemma {:induction false} KleeneSpaceError(n: nat, maximum: nat)
    requires maximum > 0 && KleeneSpace(n, maximum).Failure?
    ensures var error := KleeneSpace(n, maximum).error;
            error.AssignmentLimit? && error.maximum == maximum && FirstPowerPast(n, maximum, error.assignments)
  {
    SpaceExact(n, maximum);
    if n > 0 {
      SpaceExact(n - 1, maximum);
      if KleeneSpace(n - 1, maximum).Failure? {
        KleeneSpaceError(n - 1, maximum);
        var i: nat :| PowerPast(n - 1, maximum, KleeneSpace(n, maximum).error.assignments, i);
        assert PowerPast(n, maximum, KleeneSpace(n, maximum).error.assignments, i);
      } else {
        assert PowerPast(n, maximum, KleeneSpace(n, maximum).error.assignments, n);
      }
    }
  }

  /** The first operand that breaks a bound. */
  ghost predicate FirstUnbounded(operands: seq<BoolExpr>, error: PolicyError) {
    exists i: nat :: UnboundedAt(operands, i, error)
  }

  ghost predicate UnboundedAt(operands: seq<BoolExpr>, i: nat, error: PolicyError) {
    && i < |operands| && (forall j: nat :: j < i ==> Within(operands[j], FAST_LIMITS))
    && Scan(operands[i], 0, 0, FAST_LIMITS) == Failure(error)
  }

  lemma {:induction false} ScanAllReportsFirst(operands: seq<BoolExpr>)
    requires ScanAll(operands).Failure?
    ensures FirstUnbounded(operands, ScanAll(operands).error)
  {
    ScanDecidesWithin(operands[0], FAST_LIMITS);
    if Within(operands[0], FAST_LIMITS) {
      ScanAllReportsFirst(operands[1..]);
      var i: nat :| UnboundedAt(operands[1..], i, ScanAll(operands).error);
      forall j: nat | j < i + 1 ensures Within(operands[j], FAST_LIMITS) {
        assert j > 0 ==> operands[j] == operands[1..][j - 1];
      }
      assert UnboundedAt(operands, i + 1, ScanAll(operands).error);
    } else {
      assert UnboundedAt(operands, 0, ScanAll(operands).error);
    }
  }

  /** Why preparation fails: a bound first, then too many variables, then too large a space. */
  lemma {:induction false} PrepareErrors(limits: OracleLimits, operands: seq<BoolExpr>, ternary: bool)
    requires limits.Valid() && Prepare(limits, operands, ternary).Failure?
    ensures var error, n := Prepare(limits, operands, ternary).error, |AtomsOf(operands)|;
            if exists e <- operands :: !Within(e, FAST_LIMITS) then FirstUnbounded(operands, error)
            else if n > limits.maxVariables then error == VariableLimit(n, limits.maxVariables)
            else error.AssignmentLimit? && error.maximum == limits.maxAssignments
                 && if ternary then FirstPowerPast(n, limits.maxAssignments, error.assignments)
                    else error.assignments == Space(false, n)
  {
    ScanAllExact(operands);
    if exists e <- operands :: !Within(e, FAST_LIMITS) {
      ScanAllReportsFirst(operands);
    } else {
      OperandIds(operands);
      SortedAll(AtomsOf(operands), FAST_PREDICATE_CAPACITY);
      if |AtomsOf(operands)| <= limits.maxVariables && ternary {
        KleeneSpaceError(|AtomsOf(operands)|, limits.maxAssignments);
      }
    }
  }

  /** The spaces are the powers of two and of three. */
  lemma {:induction false} SpacesArePowers(a: nat, b: nat)
    ensures Space(false, 1) == 2 && Space(true, 1) == 3
    ensures Space(false, a + b) == Space(false, a) * Space(false, b)
    ensures Space(true, a + b) == Space(true, a) * Space(true, b)
  {
    assert Space(false, 0) == 1 && Space(true, 0) == 1;
    if a > 0 {
      SpacesArePowers(a - 1, b);
      Doubled(Space(false, a - 1), Space(false, b));
      Doubled(Space(true, a - 1), Space(true, b));
    }
  }

  lemma {:induction false} Doubled(x: nat, y: nat)
    ensures 2 * (x * y) == (2 * x) * y && 3 * (x * y) == (3 * x) * y
  {
  }
}
