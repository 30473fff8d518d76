/**
 The visiting order of the bounded walks and of the fingerprint walk: every node once,
 a parent before its operands, operands from left to right.
 */
module Preorder {
  import opened Outcomes
  import opened Expressions
  import opened Bounds
  import opened Predicates
  import opened Encoding

  datatype Position = Position(depth: nat, node: BoolExpr)

  /** The nodes of an expression in visiting order, each with its distance from the root. */
  function Positions(e: BoolExpr, depth: nat): seq<Position>
    decreases e
  {
    [Position(depth, e)] +
    match e
    case Const(_) | Atom(_) => []
    case Not(inner) => Positions(inner, depth + 1)
    case All(_) | Any(_) => PositionsOf(e.items, depth + 1)
    case Xor(_, _) | Implies(_, _) => Positions(e.lhs, depth + 1) + Positions(e.rhs, depth + 1)
  }

  function PositionsOf(items: seq<BoolExpr>, depth: nat): seq<Position>
    decreases items
  {
    if items == [] then [] else Positions(items[0], depth) + PositionsOf(items[1..], depth)
  }

  /** What is wrong with the `count`-th visited node: too deep, one too many, or an id out of range. */
  function Fault(p: Position, count: nat, limits: Limits): Option<PolicyError> {
    if p.depth > 64 then Some(ExpressionTooDeep)
    else if limits.maxNodes.Some? && count > limits.maxNodes.value then Some(ExpressionTooLarge)
    else if p.node.Atom? && limits.capacity.Some? && p.node.id >= limits.capacity.value then
      Some(PredicateOutOfRange(p.node.id, limits.capacity.value))
    else None
  }

  ghost predicate Faultless(ps: seq<Position>, nodes: nat, limits: Limits, n: nat)
    requires n <= |ps|
  {
    forall j: nat :: j < n ==> Fault(ps[j], nodes + j + 1, limits) == None
  }

  /** Position `i` is the first with a fault, and `error` is that fault. */
  ghost predicate FirstFault(ps: seq<Position>, nodes: nat, limits: Limits, i: nat, error: PolicyError) {
    i < |ps| && Faultless(ps, nodes, limits, i) && Fault(ps[i], nodes + i + 1, limits) == Some(error)
  }

  /** `error` is the fault of the first faulty position. */
  ghost predicate StopsWith(ps: seq<Position>, nodes: nat, limits: Limits, error: PolicyError) {
    exists i: nat :: FirstFault(ps, nodes, limits, i, error)
  }

  /** The walk over a list of positions. */
  function Walk(ps: seq<Position>, nodes: nat, limits: Limits): Policy<nat>
    decreases |ps|
  {
    if ps == [] then Success(nodes)
    else match Fault(ps[0], nodes + 1, limits)
      case Some(error) => Failure(error)
      case None => Walk(ps[1..], nodes + 1, limits)
  }

  lemma {:induction false} WalkAppend(ps: seq<Position>, qs: seq<Position>, nodes: nat, limits: Limits)
    ensures Walk(ps + qs, nodes, limits)
         == if Walk(ps, nodes, limits).Failure? then Walk(ps, nodes, limits)
            else Walk(qs, Walk(ps, nodes, limits).value, limits)
    decreases |ps|
  {
    if ps == [] {
      assert ps + qs == qs;
    } else {
      assert (ps + qs)[0] == ps[0] && (ps + qs)[1..] == ps[1..] + qs;
      WalkAppend(ps[1..], qs, nodes + 1, limits);
    }
  }

  /** The walk stops at the first faulty position, and otherwise counts every position. */
  lemma {:induction false} WalkStops(ps: seq<Position>, nodes: nat, limits: Limits)
    ensures match Walk(ps, nodes, limits)
            case Success(n) => n == nodes + |ps| && Faultless(ps, nodes, limits, |ps|)
            case Failure(error) => StopsWith(ps, nodes, limits, error)
    decreases |ps|
  {
    if ps != [] && Fault(ps[0], nodes + 1, limits) == None {
      WalkStops(ps[1..], nodes + 1, limits);
      match Walk(ps, nodes, limits)
      case Success(_) =>
        forall j: nat | j < |ps| ensures Fault(ps[j], nodes + j + 1, limits) == None {
          assert j > 0 ==> ps[j] == ps[1..][j - 1];
        }
      case Failure(error) =>
        var i: nat :| FirstFault(ps[1..], nodes + 1, limits, i, error);
        forall j: nat | j < i + 1 ensures Fault(ps[j], nodes + j + 1, limits) == None {
          assert j > 0 ==> ps[j] == ps[1..][j - 1];
        }
        assert FirstFault(ps, nodes, limits, i + 1, error);
    } else if ps != [] {
      var error := Fault(ps[0], nodes + 1, limits).value;
      assert Walk(ps, nodes, limits) == Failure(error) && FirstFault(ps, nodes, limits, 0, error);
    }
  }

  lemma {:induction false} WalkCons(p: Position, ps: seq<Position>, nodes: nat, limits: Limits)
    ensures Walk([p] + ps, nodes, limits)
         == match Fault(p, nodes + 1, limits)
            case Some(error) => Failure(error)
            case None => Walk(ps, nodes + 1, limits)
  {
    assert ([p] + ps)[1..] == ps;
  }

  lemma {:induction false} ScanIsWalk(e: BoolExpr, depth: nat, nodes: nat, limits: Limits)
    ensures Scan(e, depth, nodes, limits) == Walk(Positions(e, depth), nodes, limits)
    decreases e
  {
    match e
    case Const(_) | Atom(_) => WalkCons(Position(depth, e), [], nodes, limits);
    case Not(inner) =>
      ScanIsWalk(inner, depth + 1, nodes + 1, limits);
      WalkCons(Position(depth, e), Positions(inner, depth + 1), nodes, limits);
    case All(_) | Any(_) =>
      ScanListIsWalk(e.items, depth + 1, nodes + 1, limits);
      WalkCons(Position(depth, e), PositionsOf(e.items, depth + 1), nodes, limits);
    case Xor(_, _) | Implies(_, _) => ScanPairIsWalk(e, depth, nodes, limits);
  }

  lemma {:induction false} ScanPairIsWalk(e: BoolExpr, depth: nat, nodes: nat, limits: Limits)
    requires e.Xor? || e.Implies?
    ensures Scan(e, depth, nodes, limits) == Walk(Positions(e, depth), nodes, limits)
    decreases e, 0
  {
    var left, right := Positions(e.lhs, depth + 1), Positions(e.rhs, depth + 1);
    WalkCons(Position(depth, e), left + right, nodes, limits);
    WalkAppend(left, right, nodes + 1, limits);
    ScanIsWalk(e.lhs, depth + 1, nodes + 1, limits);
    var first := Scan(e.lhs, depth + 1, nodes + 1, limits);
    if first.Success? {
      ScanIsWalk(e.rhs, depth + 1, first.value, limits);
    }
  }

  lemma {:induction false} ScanListIsWalk(items: seq<BoolExpr>, depth: nat, nodes: nat, limits: Limits)
    ensures ScanList(items, depth, nodes, limits) == Walk(PositionsOf(items, depth), nodes, limits)
    decreases items
  {
    if items != [] {
      WalkAppend(Positions(items[0], depth), PositionsOf(items[1..], depth), nodes, limits);
      ScanIsWalk(items[0], depth, nodes, limits);
      var first := Scan(items[0], depth, nodes, limits);
      if first.Success? {
        ScanListIsWalk(items[1..], depth, first.value, limits);
      }
    }
  }

  /** A bounded walk succeeds exactly when no position is faulty, and otherwise reports the first faulty one. */
  lemma {:induction false} ScanReportsFirst(e: BoolExpr, limits: Limits)
    ensures match Scan(e, 0, 0, limits)
            case Success(n) => n == |Positions(e, 0)| && Faultless(Positions(e, 0), 0, limits, |Positions(e, 0)|)
            case Failure(error) => StopsWith(Positions(e, 0), 0, limits, error)
  {
    ScanIsWalk(e, 0, 0, limits);
    WalkStops(Positions(e, 0), 0, limits);
  }

  // ----- measures over positions -----

  /** The ids at a list of positions. */
  function Ids(ps: seq<Position>): set<nat> {
    set p <- ps | p.node.Atom? :: p.node.id
  }

  lemma {:induction false} IdsAppend(ps: seq<Position>, qs: seq<Position>)
    ensures Ids(ps + qs) == Ids(ps) + Ids(qs)
  {
  }

  /** The greatest depth of a list of positions, measured from `base`. */
  ghost predicate Deepest(ps: seq<Position>, base: nat, depth: nat) {
    (forall p <- ps :: base <= p.depth <= base + depth) && exists p <- ps :: p.depth == base + depth
  }

  /** How many positions there are, which ids they carry and how deep they reach. */
  ghost predicate Measured(ps: seq<Position>, base: nat, nodes: nat, ids: set<nat>, depth: nat) {
    |ps| == nodes && Ids(ps) == ids && Deepest(ps, base, depth)
  }

  /** Nodes, atoms and depth count the positions, collect their ids and measure the deepest. */
  lemma {:induction false} MeasuresOfPositions(e: BoolExpr, base: nat)
    ensures Measured(Positions(e, base), base, Nodes(e), Atoms(e), Depth(e))
    decreases e
  {
    match e
    case Const(_) | Atom(_) => OnePosition(e, base);
    case Not(inner) =>
      MeasuresOfPositions(inner, base + 1);
      MeasuredRoot(e, base, Positions(inner, base + 1), Nodes(inner), Atoms(inner), Depth(inner));
    case All(_) | Any(_) =>
      MeasuresOfList(e.items, base + 1);
      if e.items == [] {
        OnePosition(e, base);
      } else {
        MeasuredRoot(e, base, PositionsOf(e.items, base + 1), NodesOf(e.items), AtomsOf(e.items), DepthOf(e.items) - 1);
      }
    case Xor(_, _) | Implies(_, _) =>
      MeasuresOfPositions(e.lhs, base + 1);
      MeasuresOfPositions(e.rhs, base + 1);
      MeasuredAppend(Positions(e.lhs, base + 1), Positions(e.rhs, base + 1), base + 1,
                     Nodes(e.lhs), Atoms(e.lhs), Depth(e.lhs), Nodes(e.rhs), Atoms(e.rhs), Depth(e.rhs));
      MeasuredRoot(e, base, Positions(e.lhs, base + 1) + Positions(e.rhs, base + 1),
                   Nodes(e.lhs) + Nodes(e.rhs), Atoms(e.lhs) + Atoms(e.rhs), Max(Depth(e.lhs), Depth(e.rhs)));
  }

  lemma {:induction false} OnePosition(e: BoolExpr, base: nat)
    requires Positions(e, base) == [Position(base, e)]
    ensures Measured(Positions(e, base), base, 1, if e.Atom? then {e.id} else {}, 0)
  {
    var p := Position(base, e);
    assert p in [p];
    if e.Atom? {
      assert Ids([p]) == {e.id};
    }
  }

  lemma {:induction false} MeasuredAppend(ps: seq<Position>, qs: seq<Position>, base: nat,
      nodes1: nat, ids1: set<nat>, depth1: nat, nodes2: nat, ids2: set<nat>, depth2: nat)
    requires Measured(ps, base, nodes1, ids1, depth1) && Measured(qs, base, nodes2, ids2, depth2)
    ensures Measured(ps + qs, base, nodes1 + nodes2, ids1 + ids2, Max(depth1, depth2))
  {
    IdsAppend(ps, qs);
    var p :| p in ps && p.depth == base + depth1;
    var q :| q in qs && q.depth == base + depth2;
    assert p in ps + qs && q in ps + qs;
  }

  /** A node with what lies below it. */
  lemma {:induction false} MeasuredRoot(e: BoolExpr, base: nat, rest: seq<Position>, nodes: nat, ids: set<nat>,
      depth: nat)
    requires Positions(e, base) == [Position(base, e)] + rest && !e.Atom?
    requires Measured(rest, base + 1, nodes, ids, depth)
    ensures Measured(Positions(e, base), base, 1 + nodes, ids, 1 + depth)
  {
    IdsAppend([Position(base, e)], rest);
    var q :| q in rest && q.depth == base + 1 + depth;
    assert q in Positions(e, base);
  }

  lemma {:induction false} MeasuresOfList(items: seq<BoolExpr>, base: nat)
    ensures items == [] ==> PositionsOf(items, base) == []
    ensures items != [] ==>
              DepthOf(items) > 0
              && Measured(PositionsOf(items, base), base, NodesOf(items), AtomsOf(items), DepthOf(items) - 1)
    decreases items
  {
    if items != [] {
      var first, rest := Positions(items[0], base), PositionsOf(items[1..], base);
      MeasuresOfPositions(items[0], base);
      MeasuresOfList(items[1..], base);
      if items[1..] == [] {
        assert first + rest == first;
      } else {
        MeasuredAppend(first, rest, base, Nodes(items[0]), Atoms(items[0]), Depth(items[0]),
                       NodesOf(items[1..]), AtomsOf(items[1..]), DepthOf(items[1..]) - 1);
      }
    }
  }

  // ----- where each operand sits -----

  /** The operands of a node, from left to right. */
  function Operands(e: BoolExpr): seq<BoolExpr> {
    match e
    case Const(_) | Atom(_) => []
    case Not(inner) => [inner]
    case All(_) | Any(_) => e.items
    case Xor(_, _) | Implies(_, _) => [e.lhs, e.rhs]
  }

  /** Operand `i` is visited right after the node and everything in the operands before it. */
  lemma {:induction false} OperandPosition(e: BoolExpr, depth: nat, i: nat)
    requires i < |Operands(e)|
    ensures var k := 1 + NodesOf(Operands(e)[..i]);
            k < |Positions(e, depth)| && Positions(e, depth)[k] == Position(depth + 1, Operands(e)[i])
  {
    match e
    case Not(inner) => FirstPosition(inner, depth + 1);
    case All(_) | Any(_) => ListPosition(e.items, depth + 1, i);
    case Xor(_, _) | Implies(_, _) => PairPosition(e, depth, i);
  }

  lemma {:induction false} PairPosition(e: BoolExpr, depth: nat, i: nat)
    requires (e.Xor? || e.Implies?) && i < 2
    ensures var k := 1 + NodesOf(Operands(e)[..i]);
            k < |Positions(e, depth)| && Positions(e, depth)[k] == Position(depth + 1, Operands(e)[i])
  {
    FirstPosition(e.lhs, depth + 1);
    FirstPosition(e.rhs, depth + 1);
    MeasuresOfPositions(e.lhs, depth + 1);
    assert Operands(e)[..0] == [] && Operands(e)[..1] == [e.lhs] && [e.lhs][1..] == [];
    assert NodesOf([e.lhs]) == Nodes(e.lhs);
  }

  lemma {:induction false} FirstPosition(e: BoolExpr, depth: nat)
    ensures |Positions(e, depth)| > 0 && Positions(e, depth)[0] == Position(depth, e)
  {
  }

  lemma {:induction false} ListPosition(items: seq<BoolExpr>, depth: nat, i: nat)
    requires i < |items|
    ensures var k := NodesOf(items[..i]);
            k < |PositionsOf(items, depth)| && PositionsOf(items, depth)[k] == Position(depth, items[i])
    decreases i
  {
    FirstPosition(items[0], depth);
    MeasuresOfPositions(items[0], depth);
    if i > 0 {
      ListPosition(items[1..], depth, i - 1);
      assert items[..i][1..] == items[1..][..i - 1];
    }
  }

  // ----- the fingerprint walk -----

  /** Every atom among the first `n` positions is registered. */
  ghost predicate RegisteredBelow(ps: seq<Position>, registry: PredicateRegistry, n: nat)
    requires n <= |ps|
  {
    forall j: nat :: j < n && ps[j].node.Atom? ==> ps[j].node.id < |registry.keys|
  }

  /** The first position with an unregistered atom carries `id`. */
  ghost predicate FirstUnregistered(ps: seq<Position>, registry: PredicateRegistry, id: nat) {
    exists i: nat :: UnregisteredAt(ps, registry, i, id)
  }

  ghost predicate UnregisteredAt(ps: seq<Position>, registry: PredicateRegistry, i: nat, id: nat) {
    i < |ps| && RegisteredBelow(ps, registry, i) && ps[i].node == Atom(id) && id >= |registry.keys|
  }

  /** Outcome of looking up the atoms of a list of positions in order. */
  ghost predicate LookedUp(failure: Option<PolicyError>, ps: seq<Position>, registry: PredicateRegistry) {
    match failure
    case None => RegisteredBelow(ps, registry, |ps|)
    case Some(error) => error.UnregisteredPredicate? && FirstUnregistered(ps, registry, error.id)
  }

  function ErrorOf<T>(r: Policy<T>): Option<PolicyError> {
    if r.Failure? then Some(r.error) else None
  }

  lemma {:induction false} LookedUpAppend(a: Option<PolicyError>, ps: seq<Position>, b: Option<PolicyError>,
      qs: seq<Position>, registry: PredicateRegistry)
    requires LookedUp(a, ps, registry) && LookedUp(b, qs, registry)
    ensures LookedUp(if a.Some? then a else b, ps + qs, registry)
  {
    var both := ps + qs;
    if a.Some? {
      var i: nat :| UnregisteredAt(ps, registry, i, a.value.id);
      assert UnregisteredAt(both, registry, i, a.value.id);
    } else if b.Some? {
      var i: nat :| UnregisteredAt(qs, registry, i, b.value.id);
      forall j: nat | j < |ps| + i && both[j].node.Atom? ensures both[j].node.id < |registry.keys| {
        assert j >= |ps| ==> both[j] == qs[j - |ps|];
      }
      assert UnregisteredAt(both, registry, |ps| + i, b.value.id);
    } else {
      forall j: nat | j < |both| && both[j].node.Atom? ensures both[j].node.id < |registry.keys| {
        assert j >= |ps| ==> both[j] == qs[j - |ps|];
      }
    }
  }

  /** Resolution fails exactly at the first unregistered atom in visiting order. */
  lemma {:induction false} ResolveReportsFirst(e: BoolExpr, registry: PredicateRegistry, depth: nat)
    ensures LookedUp(ErrorOf(Resolve(e, registry)), Positions(e, depth), registry)
    decreases e
  {
    var root := [Position(depth, e)];
    match e
    case Const(_) =>
    case Atom(id) => assert id >= |registry.keys| ==> UnregisteredAt(Positions(e, depth), registry, 0, id);
    case Not(inner) =>
      ResolveReportsFirst(inner, registry, depth + 1);
      LookedUpAppend(None, root, ErrorOf(Resolve(inner, registry)), Positions(inner, depth + 1), registry);
    case All(_) | Any(_) =>
      ResolveEachReportsFirst(e.items, registry, depth + 1);
      LookedUpAppend(None, root, ErrorOf(ResolveEach(e.items, registry)), PositionsOf(e.items, depth + 1), registry);
    case Xor(_, _) | Implies(_, _) =>
      var l, r := ErrorOf(Resolve(e.lhs, registry)), ErrorOf(Resolve(e.rhs, registry));
      ResolveReportsFirst(e.lhs, registry, depth + 1);
      ResolveReportsFirst(e.rhs, registry, depth + 1);
      LookedUpAppend(l, Positions(e.lhs, depth + 1), r, Positions(e.rhs, depth + 1), registry);
      LookedUpAppend(None, root, if l.Some? then l else r,
                     Positions(e.lhs, depth + 1) + Positions(e.rhs, depth + 1), registry);
  }

  lemma {:induction false} ResolveEachReportsFirst(items: seq<BoolExpr>, registry: PredicateRegistry, depth: nat)
    ensures LookedUp(ErrorOf(ResolveEach(items, registry)), PositionsOf(items, depth), registry)
    decreases items
  {
    if items != [] {
      ResolveReportsFirst(items[0], registry, depth);
      ResolveEachReportsFirst(items[1..], registry, depth);
      LookedUpAppend(ErrorOf(Resolve(items[0], registry)), Positions(items[0], depth),
                     ErrorOf(ResolveEach(items[1..], registry)), PositionsOf(items[1..], depth), registry);
    }
  }
}
