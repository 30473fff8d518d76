/**
 What the two exhaustive oracles share (`exact_oracle.rs`, `kleene_oracle.rs`): limits,
 queries, the counter that enumerates assignments, and reports.
 */
module Oracle {
  import opened Outcomes
  import opened Words
  import opened Truth
  import opened Expressions
  import opened Bounds
  import opened FactStore

  // ----- limits -----

  const MAX_EXACT_ORACLE_VARIABLES: nat := 20
  const MAX_EXACT_ORACLE_ASSIGNMENTS: nat := 0x10_0000

  datatype OracleLimits = OracleLimits(maxVariables: nat, maxAssignments: nat) {
    predicate Valid() {
      maxVariables <= MAX_EXACT_ORACLE_VARIABLES && 0 < maxAssignments <= MAX_EXACT_ORACLE_ASSIGNMENTS
    }
  }

  /** `ExactOracleLimits::new`. */
  function NewLimits(maxVariables: nat, maxAssignments: nat): (r: Policy<OracleLimits>)
    ensures r.Success? <==> maxVariables <= 20 && 0 < maxAssignments <= 1048576
    ensures r == if r.Success? then Success(OracleLimits(maxVariables, maxAssignments))
                 else Failure(InvalidLimits(maxVariables, maxAssignments))
    ensures r.Success? ==> r.value.Valid()
  {
    if maxVariables > MAX_EXACT_ORACLE_VARIABLES then Failure(InvalidLimits(maxVariables, maxAssignments))
    else if maxAssignments == 0 || maxAssignments > MAX_EXACT_ORACLE_ASSIGNMENTS then
      Failure(InvalidLimits(maxVariables, maxAssignments))
    else Success(OracleLimits(maxVariables, maxAssignments))
  }

  // ----- queries -----

  /** The universal queries; each is a property of one assignment. */
  datatype Query =
    | Tautology(lhs: BoolExpr)
    | Contradiction(lhs: BoolExpr)
    | Implication(lhs: BoolExpr, rhs: BoolExpr)
    | Equivalence(lhs: BoolExpr, rhs: BoolExpr)
    | MutualExclusion(lhs: BoolExpr, rhs: BoolExpr)
  {
    function Operands(): seq<BoolExpr> {
      if Tautology? || Contradiction? then [lhs] else [lhs, rhs]
    }

    /** The property asked of one assignment. */
    predicate Holds(facts: Facts) {
      match this
      case Tautology(e) => Kleene(e, facts) == True
      case Contradiction(e) => Kleene(e, facts) != True
      case Implication(l, r) => Kleene(l, facts) == True ==> Kleene(r, facts) == True
      case Equivalence(l, r) => Kleene(l, facts) == Kleene(r, facts)
      case MutualExclusion(l, r) => !(Kleene(l, facts) == True && Kleene(r, facts) == True)
    }
  }

  lemma {:induction false} OperandAtoms(q: Query)
    ensures Atoms(q.lhs) <= AtomsOf(q.Operands())
    ensures |q.Operands()| == 2 ==> Atoms(q.rhs) <= AtomsOf(q.Operands())
  {
    assert q.Operands()[1..] == if |q.Operands()| == 2 then [q.rhs] else [];
    if |q.Operands()| == 2 {
      assert [q.rhs][1..] == [];
    }
  }

  /** A query reads nothing but its operands' atoms. */
  lemma {:induction false} QueryCoincidence(q: Query, f: Facts, g: Facts)
    requires forall a <- AtomsOf(q.Operands()) :: Lookup(f, a) == Lookup(g, a)
    ensures q.Holds(f) == q.Holds(g)
  {
    OperandAtoms(q);
    Coincidence(q.lhs, f, g);
    if |q.Operands()| == 2 {
      Coincidence(q.rhs, f, g);
    }
  }

  // ----- the counter -----

  // The counter base is 3 for the three-valued oracle and 2 for the classical one.

  function LowDigit(ternary: bool, k: nat): nat {
    if ternary then k % 3 else k % 2
  }

  function HighDigits(ternary: bool, k: nat): nat {
    if ternary then k / 3 else k / 2
  }

  function Join(ternary: bool, digit: nat, high: nat): nat {
    digit + if ternary then 3 * high else 2 * high
  }

  /** The number of assignments of `n` variables: a power of the base. */
  function Space(ternary: bool, n: nat): (p: nat)
    ensures p > 0
  {
    if n == 0 then 1 else Join(ternary, 0, Space(ternary, n - 1))
  }

  /** The truth value of one digit: 0 is False, 1 is True, 2 is Unknown. */
  function DigitValue(digit: nat): TruthValue {
    if digit == 0 then False else if digit == 1 then True else Unknown
  }

  function Digit(value: TruthValue): nat {
    match value
    case False => 0
    case True => 1
    case Unknown => 2
  }

  /** The assignment written as `k`, least significant digit first. */
  function Assignment(vars: seq<nat>, ternary: bool, k: nat): Facts
    decreases |vars|
  {
    if vars == [] then map[]
    else Assign(Assignment(vars[1..], ternary, HighDigits(ternary, k)), vars[0], DigitValue(LowDigit(ternary, k)))
  }

  /** The counter value of an assignment. */
  function Counter(vars: seq<nat>, ternary: bool, facts: Facts): nat
    decreases |vars|
  {
    if vars == [] then 0 else Join(ternary, Digit(Lookup(facts, vars[0])), Counter(vars[1..], ternary, facts))
  }

  predicate Distinct(vars: seq<nat>) {
    forall i, j :: 0 <= i < j < |vars| ==> vars[i] < vars[j]
  }

  /** The assignments a counter can write: any over `vars` in base 3, the total ones in base 2. */
  ghost predicate Writable(vars: seq<nat>, ternary: bool, facts: Facts) {
    && (forall id <- facts :: id in vars)
    && (!ternary ==> forall id <- vars :: id in facts)
  }

  lemma {:induction false} AssignmentWritable(vars: seq<nat>, ternary: bool, k: nat)
    ensures Writable(vars, ternary, Assignment(vars, ternary, k))
    decreases |vars|
  {
    if vars != [] {
      AssignmentWritable(vars[1..], ternary, HighDigits(ternary, k));
      SplitFirst(vars);
    }
  }

  /** Every counter value below the space is the counter of its own assignment: none is repeated. */
  lemma {:induction false} CounterOfAssignment(vars: seq<nat>, ternary: bool, k: nat)
    requires Distinct(vars) && k < Space(ternary, |vars|)
    ensures Counter(vars, ternary, Assignment(vars, ternary, k)) == k
    decreases |vars|
  {
    if vars != [] {
      var rest := Assignment(vars[1..], ternary, HighDigits(ternary, k));
      assert vars[0] !in rest by { AssignmentWritable(vars[1..], ternary, HighDigits(ternary, k)); }
      CounterOfAssignment(vars[1..], ternary, HighDigits(ternary, k));
      CounterAgrees(vars[1..], ternary, Assignment(vars, ternary, k), rest);
    }
  }

  lemma {:induction false} CounterAgrees(vars: seq<nat>, ternary: bool, f: Facts, g: Facts)
    requires forall id <- vars :: Lookup(f, id) == Lookup(g, id)
    ensures Counter(vars, ternary, f) == Counter(vars, ternary, g)
    decreases |vars|
  {
    if vars != [] {
      CounterAgrees(vars[1..], ternary, f, g);
    }
  }

  /** The assignment is written by a counter value below the space: its own counter. */
  ghost predicate Reached(vars: seq<nat>, ternary: bool, facts: Facts) {
    && Counter(vars, ternary, facts) < Space(ternary, |vars|)
    && Assignment(vars, ternary, Counter(vars, ternary, facts)) == facts
  }

  /** Every writable assignment is reached, at its counter value. */
  lemma {:induction false} AssignmentOfCounter(vars: seq<nat>, ternary: bool, facts: Facts)
    requires Distinct(vars) && Writable(vars, ternary, facts)
    ensures Reached(vars, ternary, facts)
    decreases |vars|
  {
    if vars != [] {
      var others := facts - {vars[0]};
      RestWritable(vars, ternary, facts);
      AssignmentOfCounter(vars[1..], ternary, others);
      CounterAgrees(vars[1..], ternary, facts, others);
      CounterStep(vars, ternary, facts, others);
    }
  }

  lemma {:induction false} CounterStep(vars: seq<nat>, ternary: bool, facts: Facts, others: Facts)
    requires vars != [] && Assign(others, vars[0], Lookup(facts, vars[0])) == facts
    requires ternary || vars[0] in facts
    requires Reached(vars[1..], ternary, others)
    requires Counter(vars[1..], ternary, facts) == Counter(vars[1..], ternary, others)
    ensures Reached(vars, ternary, facts)
  {
    var value, high := Lookup(facts, vars[0]), Counter(vars[1..], ternary, facts);
    JoinSplit(ternary, Digit(value), high);
    assert DigitValue(Digit(value)) == value;
  }

  lemma {:induction false} JoinSplit(ternary: bool, digit: nat, high: nat)
    requires digit < if ternary then 3 else 2
    ensures LowDigit(ternary, Join(ternary, digit, high)) == digit
    ensures HighDigits(ternary, Join(ternary, digit, high)) == high
  {
    if ternary {
      assert (digit + 3 * high) / 3 == high;
    } else {
      assert (digit + 2 * high) / 2 == high;
    }
  }

  lemma {:induction false} DistinctRest(vars: seq<nat>)
    requires vars != [] && Distinct(vars)
    ensures Distinct(vars[1..]) && vars[0] !in vars[1..]
    ensures forall id :: id in vars <==> id == vars[0] || id in vars[1..]
  {
    SplitFirst(vars);
  }

  lemma {:induction false} AssignBack(facts: Facts, id: nat)
    ensures Assign(facts - {id}, id, Lookup(facts, id)) == facts
  {
  }

  lemma {:induction false} RestWritable(vars: seq<nat>, ternary: bool, facts: Facts)
    requires vars != [] && Distinct(vars) && Writable(vars, ternary, facts)
    ensures Distinct(vars[1..]) && Writable(vars[1..], ternary, facts - {vars[0]})
    ensures !ternary ==> vars[0] in facts
    ensures Assign(facts - {vars[0]}, vars[0], Lookup(facts, vars[0])) == facts
    ensures forall id <- vars[1..] :: Lookup(facts, id) == Lookup(facts - {vars[0]}, id)
  {
    DistinctRest(vars);
    AssignBack(facts, vars[0]);
  }

  /** Writing a new id into one of two disjoint parts writes it into the whole. */
  lemma {:induction false} AssignSplit(f: Facts, id: nat, value: TruthValue, g: Facts)
    requires id !in f && id !in g
    ensures f + Assign(g, id, value) == Assign(f, id, value) + g
  {
  }

  /** No id still to be written is known yet. */
  ghost predicate Unwritten(facts: Facts, vars: seq<nat>) {
    forall id <- facts :: id !in vars
  }

  /** Writing the lowest digit to the first variable leaves the other digits for the other variables. */
  lemma {:induction false} WriteDigit(facts: Facts, vars: seq<nat>, ternary: bool, k: nat)
    requires vars != [] && Distinct(vars) && Unwritten(facts, vars)
    ensures var next := Assign(facts, vars[0], DigitValue(LowDigit(ternary, k)));
            && Unwritten(next, vars[1..])
            && facts + Assignment(vars, ternary, k) == next + Assignment(vars[1..], ternary, HighDigits(ternary, k))
  {
    var value, rest := DigitValue(LowDigit(ternary, k)), Assignment(vars[1..], ternary, HighDigits(ternary, k));
    DistinctRest(vars);
    AssignmentWritable(vars[1..], ternary, HighDigits(ternary, k));
    AssignSplit(facts, vars[0], value, rest);
  }

  // ----- domains -----

  /** The members of `s` below `bound`, in ascending order. */
  function Sorted(s: set<nat>, bound: nat): (r: seq<nat>)
    ensures forall x :: x in r <==> x in s && x < bound
    ensures Distinct(r)
  {
    if bound == 0 then []
    else
      var front := Sorted(s, bound - 1);
      assert forall i :: 0 <= i < |front| ==> front[i] in front;
      front + (if bound - 1 in s then [bound - 1] else [])
  }

  datatype Domain = Domain(predicates: seq<nat>, assignmentSpace: nat)

  /** The first power of three past the limit is the one reported. */
  function KleeneSpace(n: nat, maximum: nat): Policy<nat> {
    if n == 0 then Success(1)
    else
      var smaller :- KleeneSpace(n - 1, maximum);
      if 3 * smaller > maximum then Failure(AssignmentLimit(3 * smaller, maximum)) else Success(3 * smaller)
  }

  function BooleanSpace(n: nat, maximum: nat): Policy<nat> {
    if Space(false, n) > maximum then Failure(AssignmentLimit(Space(false, n), maximum)) else Success(Space(false, n))
  }

  /** The first scan error among the operands. */
  function ScanAll(operands: seq<BoolExpr>): Policy<()> {
    if operands == [] then Success(())
    else
      var _ :- Scan(operands[0], 0, 0, FAST_LIMITS);
      ScanAll(operands[1..])
  }

  /** `prepare` for either base. */
  function Prepare(limits: OracleLimits, operands: seq<BoolExpr>, ternary: bool): Policy<Domain> {
    var _ :- ScanAll(operands);
    var vars := Sorted(AtomsOf(operands), FAST_PREDICATE_CAPACITY);
    if |vars| > limits.maxVariables then Failure(VariableLimit(|vars|, limits.maxVariables))
    else
      var space :-
        if ternary then KleeneSpace(|vars|, limits.maxAssignments)
        else BooleanSpace(|vars|, limits.maxAssignments);
      Success(Domain(vars, space))
  }

  lemma {:induction false} SpaceExact(n: nat, maximum: nat)
    requires maximum > 0
    ensures KleeneSpace(n, maximum).Success? <==> Space(true, n) <= maximum
    ensures KleeneSpace(n, maximum).Success? ==> KleeneSpace(n, maximum).value == Space(true, n)
  {
    if n > 0 {
      SpaceExact(n - 1, maximum);
    }
  }

  lemma {:induction false} ScanAllExact(operands: seq<BoolExpr>)
    ensures ScanAll(operands).Success? <==> forall e <- operands :: Within(e, FAST_LIMITS)
  {
    if operands != [] {
      ScanDecidesWithin(operands[0], FAST_LIMITS);
      ScanAllExact(operands[1..]);
      SplitFirst(operands);
    }
  }

  function Below(s: set<nat>, bound: nat): set<nat> {
    set x | x in s && x < bound
  }

  lemma {:induction false} BelowStep(s: set<nat>, bound: nat)
    requires bound > 0
    ensures |Below(s, bound)| == |Below(s, bound - 1)| + if bound - 1 in s then 1 else 0
  {
    if bound - 1 in s {
      assert Below(s, bound) == Below(s, bound - 1) + {bound - 1};
    } else {
      assert Below(s, bound) == Below(s, bound - 1);
    }
  }

  lemma {:induction false} SortedStep(s: set<nat>, bound: nat)
    requires bound > 0
    ensures |Sorted(s, bound)| == |Sorted(s, bound - 1)| + if bound - 1 in s then 1 else 0
  {
  }

  /** Listing a set loses and repeats nothing below the bound. */
  lemma {:induction false} SortedSize(s: set<nat>, bound: nat)
    ensures |Sorted(s, bound)| == |Below(s, bound)|
  {
    if bound == 0 {
      assert Below(s, 0) == {};
    } else {
      var sorted, below := |Sorted(s, bound - 1)|, |Below(s, bound - 1)|;
      assert sorted == below by { SortedSize(s, bound - 1); }
      assert |Sorted(s, bound)| == sorted + if bound - 1 in s then 1 else 0 by { SortedStep(s, bound); }
      assert |Below(s, bound)| == below + if bound - 1 in s then 1 else 0 by { BelowStep(s, bound); }
    }
  }

  lemma {:induction false} SortedAll(s: set<nat>, bound: nat)
    requires forall x <- s :: x < bound
    ensures |Sorted(s, bound)| == |s|
  {
    SortedSize(s, bound);
    assert Below(s, bound) == s;
  }

  lemma {:induction false} OperandIds(operands: seq<BoolExpr>)
    requires forall e <- operands :: Within(e, FAST_LIMITS)
    ensures forall a <- AtomsOf(operands) :: a < FAST_PREDICATE_CAPACITY
  {
    forall a | a in AtomsOf(operands) ensures a < FAST_PREDICATE_CAPACITY {
      AtomsByMembers(operands, a);
    }
  }

  /** The queries an oracle of these limits answers. */
  ghost predicate Answers(limits: OracleLimits, operands: seq<BoolExpr>, ternary: bool) {
    && (forall e <- operands :: Within(e, FAST_LIMITS))
    && |AtomsOf(operands)| <= limits.maxVariables
    && Space(ternary, |AtomsOf(operands)|) <= limits.maxAssignments
  }

  /** Preparation succeeds exactly for bounded operands whose distinct atoms, and whose space, are within the limits. */
  lemma {:induction false} PreparedExactly(limits: OracleLimits, operands: seq<BoolExpr>, ternary: bool)
    requires limits.Valid()
    ensures Prepare(limits, operands, ternary).Success? <==> Answers(limits, operands, ternary)
  {
    ScanAllExact(operands);
    if forall e <- operands :: Within(e, FAST_LIMITS) {
      OperandIds(operands);
      SortedAll(AtomsOf(operands), FAST_PREDICATE_CAPACITY);
      SpaceExact(|AtomsOf(operands)|, limits.maxAssignments);
    }
  }

  /** The domain lists exactly the atoms of bounded operands, ascending, and spans exactly their assignments. */
  ghost predicate Covers(d: Domain, operands: seq<BoolExpr>, ternary: bool) {
    && (forall e <- operands :: Within(e, FAST_LIMITS))
    && Distinct(d.predicates)
    && (forall id :: id in d.predicates <==> id in AtomsOf(operands))
    && (forall id <- d.predicates :: id < FAST_PREDICATE_CAPACITY)
    && d.assignmentSpace == Space(ternary, |d.predicates|)
  }

  lemma {:induction false} PreparedDomain(limits: OracleLimits, operands: seq<BoolExpr>, ternary: bool)
    requires limits.Valid() && Prepare(limits, operands, ternary).Success?
    ensures Covers(Prepare(limits, operands, ternary).value, operands, ternary)
  {
    ScanAllExact(operands);
    OperandIds(operands);
    SpaceExact(|Sorted(AtomsOf(operands), FAST_PREDICATE_CAPACITY)|, limits.maxAssignments);
  }

  /** The assignments a query is asked about: all of them in base 3, those deciding every atom in base 2. */
  ghost predicate Relevant(q: Query, ternary: bool, facts: Facts) {
    ternary || AtomsOf(q.Operands()) <= facts.Keys
  }

  ghost predicate Verdict(q: Query, ternary: bool) {
    forall facts: Facts :: Relevant(q, ternary, facts) ==> q.Holds(facts)
  }

  /** Every enumerated assignment is one the query is asked about. */
  lemma {:induction false} EnumeratedRelevant(q: Query, vars: seq<nat>, ternary: bool, k: nat)
    requires forall id :: id in vars <==> id in AtomsOf(q.Operands())
    ensures Relevant(q, ternary, Assignment(vars, ternary, k))
  {
    AssignmentWritable(vars, ternary, k);
  }

  /** Every assignment the query is asked about behaves like an enumerated one. */
  lemma {:induction false} RelevantEnumerated(q: Query, vars: seq<nat>, ternary: bool, facts: Facts) returns (k: nat)
    requires Distinct(vars) && forall id :: id in vars <==> id in AtomsOf(q.Operands())
    requires Relevant(q, ternary, facts)
    ensures k < Space(ternary, |vars|) && q.Holds(Assignment(vars, ternary, k)) == q.Holds(facts)
  {
    var seen := map id | id in facts && id in AtomsOf(q.Operands()) :: facts[id];
    AssignmentOfCounter(vars, ternary, seen);
    QueryCoincidence(q, facts, seen);
    k := Counter(vars, ternary, seen);
  }

  /** The first `n` assignments of the enumeration satisfy the query. */
  ghost predicate HoldsBelow(q: Query, d: Domain, ternary: bool, n: nat) {
    forall k: nat :: k < n ==> q.Holds(Assignment(d.predicates, ternary, k))
  }

  lemma {:induction false} HoldsOneMore(q: Query, d: Domain, ternary: bool, n: nat)
    ensures HoldsBelow(q, d, ternary, n + 1)
       <==> HoldsBelow(q, d, ternary, n) && q.Holds(Assignment(d.predicates, ternary, n))
  {
  }

  /** Enumerating the domain decides the query over all assignments it is asked about. */
  lemma {:induction false} EnumerationExact(q: Query, d: Domain, ternary: bool)
    requires Covers(d, q.Operands(), ternary)
    ensures HoldsBelow(q, d, ternary, d.assignmentSpace) <==> Verdict(q, ternary)
  {
    if Verdict(q, ternary) {
      forall k: nat | k < d.assignmentSpace ensures q.Holds(Assignment(d.predicates, ternary, k)) {
        EnumeratedRelevant(q, d.predicates, ternary, k);
      }
    } else {
      var facts: Facts :| Relevant(q, ternary, facts) && !q.Holds(facts);
      var k := RelevantEnumerated(q, d.predicates, ternary, facts);
    }
  }

  // ----- reports -----

  /** A copy of a fact set's masks. */
  datatype FactCopy = FactCopy(knownTrue: Word, knownFalse: Word) {
    ghost function Contents(): Facts {
      Stored(knownTrue, knownFalse)
    }
  }

  /** A report; `found` is the counterexample, or the witness of a satisfiability query. */
  datatype Report = Report(variables: nat, assignmentSpace: nat, assignmentsEvaluated: nat, found: Option<FactCopy>)

  /** The report stops at the first assignment, in counter order, that refutes the query. */
  ghost predicate FirstRefutation(report: Report, q: Query, d: Domain, ternary: bool) {
    && report.variables == |d.predicates|
    && report.assignmentSpace == d.assignmentSpace
    && 0 < report.assignmentsEvaluated <= d.assignmentSpace
    && HoldsBelow(q, d, ternary, report.assignmentsEvaluated - 1)
    && var last := Assignment(d.predicates, ternary, report.assignmentsEvaluated - 1);
       match report.found
       case Some(copy) => !q.Holds(last) && copy.Contents() == last
       case None => q.Holds(last) && report.assignmentsEvaluated == d.assignmentSpace
  }

  /** A report that stops at the first refutation decides the query. */
  lemma {:induction false} ReportDecides(report: Report, q: Query, d: Domain, ternary: bool)
    requires Covers(d, q.Operands(), ternary) && FirstRefutation(report, q, d, ternary)
    ensures report.found == None <==> Verdict(q, ternary)
  {
    EnumerationExact(q, d, ternary);
    HoldsOneMore(q, d, ternary, report.assignmentsEvaluated - 1);
    if report.found.Some? {
      assert !q.Holds(Assignment(d.predicates, ternary, report.assignmentsEvaluated - 1));
    }
  }

  /** Collection over all operands, in order. */
  method CollectAll(operands: seq<BoolExpr>) returns (r: Policy<set<nat>>)
    ensures match ScanAll(operands)
            case Success(_) => r == Success(AtomsOf(operands))
            case Failure(error) => r == Failure(error)
  {
    var predicates: set<nat> := {};
    for i := 0 to |operands|
      invariant ScanAll(operands) == ScanAll(operands[i..])
      invariant AtomsOf(operands) == predicates + AtomsOf(operands[i..])
    {
      assert operands[i..][1..] == operands[i + 1..];
      var one, more := CollectPredicates(operands[i], 0, predicates, 0);
      if one.Failure? {
        return Failure(one.error);
      }
      predicates := more;
    }
    r := Success(predicates);
  }
}
