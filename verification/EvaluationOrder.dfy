/** Where a bounded evaluation stops, and which failure it reports (`logic.rs`). */
module EvaluationOrder {
  import opened Outcomes
  import opened Truth
  import opened Expressions
  import opened Bounds
  import opened FactStore

  /** The outcome of one operand of a group evaluated at `depth`. */
  function Operand(e: BoolExpr, facts: Facts, capacity: nat, depth: nat): Policy<TruthValue> {
    Eval(e, facts, capacity, depth + 1)
  }

  /** The operand neither fails nor decides the group. */
  predicate Passes(conjunction: bool, e: BoolExpr, facts: Facts, capacity: nat, depth: nat) {
    Operand(e, facts, capacity, depth).Success? && Operand(e, facts, capacity, depth).value != Known(!conjunction)
  }

  /** All operands before position `n` pass. */
  ghost predicate PassesBelow(conjunction: bool, items: seq<BoolExpr>, facts: Facts, capacity: nat, depth: nat, n: nat)
    requires n <= |items|
  {
    forall j: nat :: j < n ==> Passes(conjunction, items[j], facts, capacity, depth)
  }

  /**
   A group stops at its first operand that fails or decides it, with that operand's
   outcome; later operands are not looked at.
   */
  lemma {:induction false} StopsAt(conjunction: bool, items: seq<BoolExpr>, facts: Facts, capacity: nat, depth: nat,
      i: nat)
    requires depth <= 64 && i < |items| && PassesBelow(conjunction, items, facts, capacity, depth, i)
    requires !Passes(conjunction, items[i], facts, capacity, depth)
    ensures Eval(Group(conjunction, items), facts, capacity, depth) == Operand(items[i], facts, capacity, depth)
  {
    ListStopsAt(conjunction, items, facts, capacity, depth, Known(conjunction), i);
  }

  lemma {:induction false} ListStopsAt(conjunction: bool, items: seq<BoolExpr>, facts: Facts, capacity: nat, depth: nat,
      result: TruthValue, i: nat)
    requires i < |items| && PassesBelow(conjunction, items, facts, capacity, depth, i)
    requires !Passes(conjunction, items[i], facts, capacity, depth) && result != Known(!conjunction)
    ensures EvalList(conjunction, items, facts, capacity, depth + 1, result)
         == Operand(items[i], facts, capacity, depth)
    decreases i
  {
    if i > 0 {
      assert Passes(conjunction, items[0], facts, capacity, depth);
      var next := Combine(conjunction, result, Operand(items[0], facts, capacity, depth).value);
      forall j: nat | j < i - 1 ensures Passes(conjunction, items[1..][j], facts, capacity, depth) {
        assert items[1..][j] == items[j + 1];
      }
      ListStopsAt(conjunction, items[1..], facts, capacity, depth, next, i - 1);
    }
  }

  /** A group none of whose operands fails or decides it takes the value of its operands. */
  lemma {:induction false} RunsThrough(conjunction: bool, items: seq<BoolExpr>, facts: Facts, capacity: nat, depth: nat)
    requires depth <= 64 && PassesBelow(conjunction, items, facts, capacity, depth, |items|)
    ensures Eval(Group(conjunction, items), facts, capacity, depth)
         == Success(if forall x <- items :: Operand(x, facts, capacity, depth) == Success(Known(conjunction))
                    then Known(conjunction) else Unknown)
  {
    ListRunsThrough(conjunction, items, facts, capacity, depth, Known(conjunction));
  }

  lemma {:induction false} ListRunsThrough(conjunction: bool, items: seq<BoolExpr>, facts: Facts, capacity: nat,
      depth: nat, result: TruthValue)
    requires PassesBelow(conjunction, items, facts, capacity, depth, |items|) && result != Known(!conjunction)
    ensures EvalList(conjunction, items, facts, capacity, depth + 1, result)
         == Success(if result == Known(conjunction)
                       && forall x <- items :: Operand(x, facts, capacity, depth) == Success(Known(conjunction))
                    then Known(conjunction) else Unknown)
    decreases items
  {
    if items != [] {
      assert Passes(conjunction, items[0], facts, capacity, depth);
      var next := Combine(conjunction, result, Operand(items[0], facts, capacity, depth).value);
      forall j: nat | j < |items| - 1 ensures Passes(conjunction, items[1..][j], facts, capacity, depth) {
        assert items[1..][j] == items[j + 1];
      }
      ListRunsThrough(conjunction, items[1..], facts, capacity, depth, next);
      SplitFirst(items);
    }
  }

  /** Once a group is decided, further operands change nothing, however ill-formed they are. */
  lemma {:induction false} DecidedStaysDecided(conjunction: bool, xs: seq<BoolExpr>, ys: seq<BoolExpr>, facts: Facts,
      capacity: nat, depth: nat)
    requires Eval(Group(conjunction, xs), facts, capacity, depth) == Success(Known(!conjunction))
    ensures Eval(Group(conjunction, xs + ys), facts, capacity, depth) == Success(Known(!conjunction))
  {
    if PassesBelow(conjunction, xs, facts, capacity, depth, |xs|) {
      RunsThrough(conjunction, xs, facts, capacity, depth);
      assert false;
    }
    var i := FirstStop(conjunction, xs, facts, capacity, depth, |xs|);
    StopsAt(conjunction, xs, facts, capacity, depth, i);
    assert (xs + ys)[i] == xs[i];
    StopsAt(conjunction, xs + ys, facts, capacity, depth, i);
  }

  lemma {:induction false} FirstStop(conjunction: bool, items: seq<BoolExpr>, facts: Facts, capacity: nat, depth: nat,
      n: nat) returns (i: nat)
    requires n <= |items| && !PassesBelow(conjunction, items, facts, capacity, depth, n)
    ensures i < n && PassesBelow(conjunction, items, facts, capacity, depth, i)
    ensures !Passes(conjunction, items[i], facts, capacity, depth)
  {
    i := 0;
    while i < n && Passes(conjunction, items[i], facts, capacity, depth)
      invariant i <= n && PassesBelow(conjunction, items, facts, capacity, depth, i)
    {
      i := i + 1;
    }
  }

  /** A decided conjunction skips an id no store holds; a disjunction does so dually. */
  lemma {:induction false} IllFormedOperandIsSkipped(conjunction: bool, facts: Facts)
    ensures Eval(Group(conjunction, [Const(!conjunction), Atom(64)]), facts, 64, 0) == Success(Known(!conjunction))
    ensures Eval(Group(conjunction, [Atom(64), Const(!conjunction)]), facts, 64, 0)
         == Failure(PredicateOutOfRange(64, 64))
  {
    StopsAt(conjunction, [Const(!conjunction), Atom(64)], facts, 64, 0, 0);
    StopsAt(conjunction, [Atom(64), Const(!conjunction)], facts, 64, 0, 0);
  }

  /** Both operands of an exclusive-or or implication are always evaluated, the left one first. */
  lemma {:induction false} BothOperandsAreEvaluated(e: BoolExpr, facts: Facts, capacity: nat, depth: nat)
    requires (e.Xor? || e.Implies?) && depth <= 64
    ensures Operand(e.lhs, facts, capacity, depth).Failure? ==>
              Eval(e, facts, capacity, depth) == Operand(e.lhs, facts, capacity, depth)
    ensures Operand(e.lhs, facts, capacity, depth).Success? && Operand(e.rhs, facts, capacity, depth).Failure? ==>
              Eval(e, facts, capacity, depth) == Operand(e.rhs, facts, capacity, depth)
    ensures Operand(e.lhs, facts, capacity, depth).Success? && Operand(e.rhs, facts, capacity, depth).Success? ==>
              Eval(e, facts, capacity, depth).Success?
  {
  }

  /**
   A node below depth 64 fails whatever it is; a negation within it fails with its operand
   or turns its value over.
   */
  lemma {:induction false} DepthComesFirst(e: BoolExpr, facts: Facts, capacity: nat, depth: nat)
    ensures depth > 64 ==> Eval(e, facts, capacity, depth) == Failure(ExpressionTooDeep)
    ensures depth <= 64 && e.Not? && Operand(e.inner, facts, capacity, depth).Failure? ==>
              Eval(e, facts, capacity, depth) == Operand(e.inner, facts, capacity, depth)
    ensures depth <= 64 && e.Not? && Operand(e.inner, facts, capacity, depth).Success? ==>
              Eval(e, facts, capacity, depth) == Success(Operand(e.inner, facts, capacity, depth).value.Negated())
    ensures depth <= 64 && e.Atom? && e.id >= capacity ==>
              Eval(e, facts, capacity, depth) == Failure(PredicateOutOfRange(e.id, capacity))
  {
  }

  /** No short circuit is possible. */
  predicate Straight(e: BoolExpr)
    decreases e
  {
    match e
    case Const(_) | Atom(_) => true
    case Not(inner) => Straight(inner)
    case All(_) | Any(_) => false
    case Xor(_, _) | Implies(_, _) => Straight(e.lhs) && Straight(e.rhs)
  }

  /** Without groups evaluation succeeds exactly when every node is within depth 64 and every id below the capacity. */
  lemma {:induction false} StraightExactly(e: BoolExpr, facts: Facts, capacity: nat, depth: nat)
    requires Straight(e)
    ensures Eval(e, facts, capacity, depth).Success?
       <==> depth + Depth(e) <= 64 && IdsBelow(Atoms(e), capacity)
    decreases e
  {
    match e
    case Const(_) | Atom(_) =>
    case Not(inner) => StraightExactly(inner, facts, capacity, depth + 1);
    case Xor(_, _) | Implies(_, _) =>
      StraightExactly(e.lhs, facts, capacity, depth + 1);
      StraightExactly(e.rhs, facts, capacity, depth + 1);
      assert IdsBelow(Atoms(e), capacity) <==> IdsBelow(Atoms(e.lhs), capacity) && IdsBelow(Atoms(e.rhs), capacity) by {
        assert forall a :: a in Atoms(e) <==> a in Atoms(e.lhs) || a in Atoms(e.rhs);
      }
      if depth <= 64 {
        BothOperandsAreEvaluated(e, facts, capacity, depth);
      }
  }
}
