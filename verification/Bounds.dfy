/**
 The bounded walks over an expression. `validate_predicates`,
 `validate_shape_at_depth`, `validate_expression` and `collect_predicates` visit
 nodes in the same preorder and differ only in which limits they enforce, so one
 specification, `Scan`, states the outcome of all four.
 */
module Bounds {
  import opened Outcomes
  import opened Truth
  import opened Expressions

  const MAX_BOOLEAN_EXPR_DEPTH: nat := 64
  const MAX_CANONICAL_EXPRESSION_NODES: nat := 4096
  const FAST_PREDICATE_CAPACITY: nat := 64

  /** Depth is always bounded; a node budget and an id capacity may be. */
  datatype Limits = Limits(maxNodes: Option<nat>, capacity: Option<nat>) {

    predicate AllowsNodes(nodes: nat) {
      maxNodes.Some? ==> nodes <= maxNodes.value
    }

    predicate AllowsAtom(id: nat) {
      capacity.Some? ==> id < capacity.value
    }

    ghost predicate AllowsAtoms(ids: set<nat>) {
      forall id <- ids :: AllowsAtom(id)
    }
  }

  /** Shape bounds only: `validate_shape`. */
  const SHAPE_LIMITS := Limits(Some(MAX_CANONICAL_EXPRESSION_NODES), None)
  /** `u64` ids: `validate_predicates`, `collect_predicates`. */
  const FAST_LIMITS := Limits(None, Some(FAST_PREDICATE_CAPACITY))
  /** `validate_expression` for a declared capacity. */
  function GuardLimits(capacity: nat): Limits {
    Limits(Some(MAX_CANONICAL_EXPRESSION_NODES), Some(capacity))
  }

  // ----- specification of the walk -----

  /** The node counter after visiting `e`, or the first error in preorder. */
  function Scan(e: BoolExpr, depth: nat, nodes: nat, limits: Limits): Policy<nat>
    decreases e
  {
    if depth > MAX_BOOLEAN_EXPR_DEPTH then Failure(ExpressionTooDeep)
    else if !limits.AllowsNodes(nodes + 1) then Failure(ExpressionTooLarge)
    else match e
      case Const(_) => Success(nodes + 1)
      case Atom(id) =>
        if limits.AllowsAtom(id) then Success(nodes + 1) else Failure(PredicateOutOfRange(id, limits.capacity.value))
      case Not(inner) => Scan(inner, depth + 1, nodes + 1, limits)
      case All(_) | Any(_) => ScanList(e.items, depth + 1, nodes + 1, limits)
      case Xor(_, _) | Implies(_, _) =>
        var n :- Scan(e.lhs, depth + 1, nodes + 1, limits);
        Scan(e.rhs, depth + 1, n, limits)
  }

  function ScanList(items: seq<BoolExpr>, depth: nat, nodes: nat, limits: Limits): Policy<nat>
    decreases items
  {
    if items == [] then Success(nodes)
    else
      var n :- Scan(items[0], depth, nodes, limits);
      ScanList(items[1..], depth, n, limits)
  }

  /** The bounds as a property of depth, node count and ids alone. */
  ghost predicate InLimits(depth: nat, nodes: nat, ids: set<nat>, limits: Limits) {
    depth <= MAX_BOOLEAN_EXPR_DEPTH && limits.AllowsNodes(nodes) && limits.AllowsAtoms(ids)
  }

  ghost predicate Within(e: BoolExpr, limits: Limits) {
    InLimits(Depth(e), Nodes(e), Atoms(e), limits)
  }

  /** A successful walk counted every node of a tree within the limits; an error names a bound the tree breaks. */
  ghost predicate Exact(outcome: Policy<nat>, depth: nat, nodes: nat, ids: set<nat>, limits: Limits) {
    match outcome
    case Success(n) => n == nodes && InLimits(depth, nodes, ids, limits)
    case Failure(ExpressionTooDeep) => depth > MAX_BOOLEAN_EXPR_DEPTH
    case Failure(ExpressionTooLarge) => !limits.AllowsNodes(nodes)
    case Failure(error) => limits.capacity.Some? && AtomFault(error, ids, limits.capacity.value)
  }

  /** The error is an id of the expression that the capacity does not cover. */
  ghost predicate AtomFault(error: PolicyError, ids: set<nat>, capacity: nat) {
    error.PredicateOutOfRange? && error.id in ids && error.id >= capacity && error.capacity == capacity
  }

  lemma {:induction false} ExactInSequence(first: Policy<nat>, second: Policy<nat>,
      depth1: nat, nodes1: nat, ids1: set<nat>, depth2: nat, nodes2: nat, ids2: set<nat>, limits: Limits)
    requires first.Success? && Exact(first, depth1, nodes1, ids1, limits)
    requires Exact(second, depth2, nodes1 + nodes2, ids2, limits)
    ensures Exact(second, Max(depth1, depth2), nodes1 + nodes2, ids1 + ids2, limits)
  {
  }

  /** The walk decides the limits exactly, in both directions. */
  lemma {:induction false} ScanExact(e: BoolExpr, depth: nat, nodes: nat, limits: Limits)
    ensures Exact(Scan(e, depth, nodes, limits), depth + Depth(e), nodes + Nodes(e), Atoms(e), limits)
    decreases e
  {
    if depth <= MAX_BOOLEAN_EXPR_DEPTH && limits.AllowsNodes(nodes + 1) {
      match e
      case Const(_) =>
      case Atom(_) =>
      case Not(inner) => ScanExact(inner, depth + 1, nodes + 1, limits);
      case All(_) | Any(_) => ScanListExact(e.items, depth, nodes + 1, limits);
      case Xor(_, _) | Implies(_, _) => ScanPairExact(e, depth, nodes, limits);
    }
  }

  lemma {:induction false} ScanPairExact(e: BoolExpr, depth: nat, nodes: nat, limits: Limits)
    requires (e.Xor? || e.Implies?) && depth <= MAX_BOOLEAN_EXPR_DEPTH && limits.AllowsNodes(nodes + 1)
    ensures Exact(Scan(e, depth, nodes, limits), depth + Depth(e), nodes + Nodes(e), Atoms(e), limits)
    decreases e, 0
  {
    ScanExact(e.lhs, depth + 1, nodes + 1, limits);
    var first := Scan(e.lhs, depth + 1, nodes + 1, limits);
    if first.Success? {
      ScanExact(e.rhs, depth + 1, first.value, limits);
      ExactInSequence(first, Scan(e.rhs, depth + 1, first.value, limits),
                      depth + 1 + Depth(e.lhs), nodes + 1 + Nodes(e.lhs), Atoms(e.lhs),
                      depth + 1 + Depth(e.rhs), Nodes(e.rhs), Atoms(e.rhs), limits);
    }
  }

  lemma {:induction false} ScanListExact(items: seq<BoolExpr>, depth: nat, nodes: nat, limits: Limits)
    requires depth <= MAX_BOOLEAN_EXPR_DEPTH && limits.AllowsNodes(nodes)
    ensures Exact(ScanList(items, depth + 1, nodes, limits), depth + DepthOf(items),
                  nodes + NodesOf(items), AtomsOf(items), limits)
    decreases items
  {
    if items != [] {
      ScanExact(items[0], depth + 1, nodes, limits);
      if Scan(items[0], depth + 1, nodes, limits).Success? {
        ScanListExact(items[1..], depth, nodes + Nodes(items[0]), limits);
      }
    }
  }

  /** An expression passes the walk from the root exactly when it is within the limits. */
  lemma {:induction false} ScanDecidesWithin(e: BoolExpr, limits: Limits)
    ensures Scan(e, 0, 0, limits).Success? <==> Within(e, limits)
  {
    ScanExact(e, 0, 0, limits);
  }

  ghost predicate IdsBelow(ids: set<nat>, capacity: nat) {
    forall id <- ids :: id < capacity
  }

  lemma {:induction false} AllowsBelow(limits: Limits, ids: set<nat>, capacity: nat)
    requires limits.capacity == Some(capacity)
    ensures limits.AllowsAtoms(ids) <==> IdsBelow(ids, capacity)
  {
    if limits.AllowsAtoms(ids) {
      forall id | id in ids ensures id < capacity {
        assert limits.AllowsAtom(id);
      }
    }
  }

  /** The bounds, in numbers. */
  lemma {:induction false} BoundsInNumbers(e: BoolExpr, capacity: nat)
    ensures Within(e, SHAPE_LIMITS) <==> Depth(e) <= 64 && Nodes(e) <= 4096
    ensures Within(e, FAST_LIMITS) <==> Depth(e) <= 64 && IdsBelow(Atoms(e), 64)
    ensures Within(e, GuardLimits(capacity)) <==> Depth(e) <= 64 && Nodes(e) <= 4096 && IdsBelow(Atoms(e), capacity)
  {
    AllowsBelow(FAST_LIMITS, Atoms(e), 64);
    AllowsBelow(GuardLimits(capacity), Atoms(e), capacity);
  }

  // ----- the imperative walks -----

  /** `validate_shape_at_depth`, `validate_expression` and `validate_predicates`: bump a counter along the walk. */
  method ValidateAtDepth(e: BoolExpr, depth: nat, nodes: nat, limits: Limits) returns (r: Policy<()>, counter: nat)
    ensures match Scan(e, depth, nodes, limits)
            case Success(n) => r.Success? && counter == n
            case Failure(error) => r == Failure(error)
    decreases e
  {
    counter := nodes;
    if depth > MAX_BOOLEAN_EXPR_DEPTH {
      return Failure(ExpressionTooDeep), counter;
    }
    counter := counter + 1;
    if !limits.AllowsNodes(counter) {
      return Failure(ExpressionTooLarge), counter;
    }
    match e
    case Const(_) => r := Success(());
    case Atom(id) =>
      r := if limits.AllowsAtom(id) then Success(()) else Failure(PredicateOutOfRange(id, limits.capacity.value));
    case Not(inner) => r, counter := ValidateAtDepth(inner, depth + 1, counter, limits);
    case All(_) | Any(_) =>
      for i := 0 to |e.items|
        invariant ScanList(e.items, depth + 1, nodes + 1, limits) == ScanList(e.items[i..], depth + 1, counter, limits)
      {
        assert e.items[i..][1..] == e.items[i + 1..];
        r, counter := ValidateAtDepth(e.items[i], depth + 1, counter, limits);
        if r.Failure? {
          return;
        }
      }
      r := Success(());
    case Xor(_, _) | Implies(_, _) =>
      r, counter := ValidateAtDepth(e.lhs, depth + 1, counter, limits);
      if r.Success? {
        r, counter := ValidateAtDepth(e.rhs, depth + 1, counter, limits);
      }
  }

  /** `collect_predicates`: the same walk under FAST_LIMITS, filling a set. */
  method CollectPredicates(e: BoolExpr, depth: nat, predicates: set<nat>, ghost nodes: nat)
    returns (r: Policy<()>, collected: set<nat>)
    ensures match Scan(e, depth, nodes, FAST_LIMITS)
            case Success(_) => r.Success? && collected == predicates + Atoms(e)
            case Failure(error) => r == Failure(error)
    decreases e
  {
    collected := predicates;
    if depth > MAX_BOOLEAN_EXPR_DEPTH {
      return Failure(ExpressionTooDeep), collected;
    }
    match e
    case Const(_) => r := Success(());
    case Atom(id) =>
      if id >= FAST_PREDICATE_CAPACITY {
        return Failure(PredicateOutOfRange(id, FAST_PREDICATE_CAPACITY)), collected;
      }
      r, collected := Success(()), collected + {id};
    case Not(inner) => r, collected := CollectPredicates(inner, depth + 1, collected, nodes + 1);
    case All(_) | Any(_) =>
      ghost var n: nat := nodes + 1;
      for i := 0 to |e.items|
        invariant ScanList(e.items, depth + 1, nodes + 1, FAST_LIMITS)
             == ScanList(e.items[i..], depth + 1, n, FAST_LIMITS)
        invariant predicates + AtomsOf(e.items) == collected + AtomsOf(e.items[i..])
      {
        assert e.items[i..][1..] == e.items[i + 1..];
        r, collected := CollectPredicates(e.items[i], depth + 1, collected, n);
        if r.Failure? {
          return;
        }
        n := Scan(e.items[i], depth + 1, n, FAST_LIMITS).value;
      }
      r := Success(());
    case Xor(_, _) | Implies(_, _) =>
      r, collected := CollectPredicates(e.lhs, depth + 1, collected, nodes + 1);
      if r.Success? {
        ghost var visited := Scan(e.lhs, depth + 1, nodes + 1, FAST_LIMITS).value;
        r, collected := CollectPredicates(e.rhs, depth + 1, collected, visited);
      }
  }
}
