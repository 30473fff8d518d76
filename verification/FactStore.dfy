/** The single-word fact store and the bounded tree evaluator (`logic.rs`). */
module FactStore {
  import opened Outcomes
  import opened Words
  import opened Truth
  import opened Expressions
  import opened Bounds

  // ----- FactMask -----

  function PredicateBit(id: nat): Policy<Word> {
    if id >= FAST_PREDICATE_CAPACITY then Failure(PredicateOutOfRange(id, FAST_PREDICATE_CAPACITY))
    else Success({id})
  }

  function Insert(mask: Word, id: nat): Policy<Word> {
    var bit :- PredicateBit(id);
    Success(mask + bit)
  }

  function Remove(mask: Word, id: nat): Policy<Word> {
    var bit :- PredicateBit(id);
    Success(mask - bit)
  }

  function Contains(mask: Word, id: nat): (r: Policy<bool>)
    ensures r.Success? ==> (r.value <==> id in mask)
  {
    var bit :- PredicateBit(id);
    assert id in mask ==> id in mask * bit;
    Success(mask * bit != {})
  }

  predicate ContainsAll(mask: Word, required: Word) {
    mask * required == required
  }

  predicate Intersects(mask: Word, other: Word) {
    mask * other != {}
  }

  // ----- FactSet -----

  /** The facts held by a pair of masks. */
  function Stored(knownTrue: set<nat>, knownFalse: set<nat>): Facts {
    map id <- knownTrue + knownFalse :: id in knownTrue
  }

  /** Clearing an id in both masks and then setting it in the right one is one assignment. */
  lemma {:induction false} StoredAssign(knownTrue: set<nat>, knownFalse: set<nat>, id: nat)
    requires knownTrue !! knownFalse
    ensures Stored(knownTrue - {id}, knownFalse - {id}) == Assign(Stored(knownTrue, knownFalse), id, Unknown)
    ensures Stored(knownTrue - {id} + {id}, knownFalse - {id}) == Assign(Stored(knownTrue, knownFalse), id, True)
    ensures Stored(knownTrue - {id}, knownFalse - {id} + {id}) == Assign(Stored(knownTrue, knownFalse), id, False)
  {
  }

  /** `FactSet`: a map from ids below 64 to truth, absent ids being Unknown. */
  class FactSet {
    var knownTrue: Word
    var knownFalse: Word

    ghost predicate Valid()
      reads this
    {
      knownTrue !! knownFalse
    }

    ghost function Contents(): Facts
      reads this
    {
      Stored(knownTrue, knownFalse)
    }

    constructor ()
      ensures Valid() && Contents() == map[]
    {
      knownTrue, knownFalse := {}, {};
    }

    method Set(id: nat, value: TruthValue) returns (r: Policy<()>)
      requires Valid()
      modifies this
      ensures Valid()
      ensures if id < FAST_PREDICATE_CAPACITY
              then r == Success(()) && Contents() == Assign(old(Contents()), id, value)
              else r == Failure(PredicateOutOfRange(id, FAST_PREDICATE_CAPACITY)) && unchanged(this)
    {
      StoredAssign(knownTrue, knownFalse, id);
      var cleared := Remove(knownTrue, id);
      if cleared.Failure? { return Failure(cleared.error); }
      knownTrue := cleared.value;
      knownFalse := Remove(knownFalse, id).value;
      match value {
        case True => knownTrue := Insert(knownTrue, id).value;
        case False => knownFalse := Insert(knownFalse, id).value;
        case Unknown =>
      }
      r := Success(());
    }

    method Get(id: nat) returns (r: Policy<TruthValue>)
      requires Valid()
      ensures r == if id < FAST_PREDICATE_CAPACITY then Success(Lookup(Contents(), id))
                   else Failure(PredicateOutOfRange(id, FAST_PREDICATE_CAPACITY))
    {
      var known := Contains(knownTrue, id);
      if known.Failure? { return Failure(known.error); }
      if known.value { return Success(True); }
      r := Success(if Contains(knownFalse, id).value then False else Unknown);
    }
  }

  /** Any run of `set` calls on a new store, rejected ids included, leaves exactly its replay. */
  method RunWrites(writes: seq<Write>) returns (facts: FactSet, outcomes: seq<Policy<()>>)
    ensures fresh(facts) && facts.Valid() && facts.Contents() == Replay(writes, FAST_PREDICATE_CAPACITY)
    ensures |outcomes| == |writes|
    ensures forall i :: 0 <= i < |writes| ==> (outcomes[i].Success? <==> writes[i].0 < FAST_PREDICATE_CAPACITY)
  {
    facts := new FactSet();
    outcomes := [];
    for i := 0 to |writes|
      invariant fresh(facts) && facts.Valid() && facts.Contents() == Replay(writes[..i], FAST_PREDICATE_CAPACITY)
      invariant |outcomes| == i
      invariant forall k :: 0 <= k < i ==> (outcomes[k].Success? <==> writes[k].0 < FAST_PREDICATE_CAPACITY)
    {
      ReplayStep(writes, FAST_PREDICATE_CAPACITY, i);
      var outcome := facts.Set(writes[i].0, writes[i].1);
      outcomes := outcomes + [outcome];
    }
    assert writes[..|writes|] == writes;
  }

  // ----- evaluation -----

  /** The short-circuiting, depth-bounded evaluation over ids below `capacity`. */
  function Eval(e: BoolExpr, facts: Facts, capacity: nat, depth: nat): Policy<TruthValue>
    decreases e
  {
    if depth > MAX_BOOLEAN_EXPR_DEPTH then Failure(ExpressionTooDeep)
    else match e
      case Const(value) => Success(Known(value))
      case Atom(id) => if id < capacity then Success(Lookup(facts, id)) else Failure(PredicateOutOfRange(id, capacity))
      case Not(inner) =>
        var v :- Eval(inner, facts, capacity, depth + 1);
        Success(v.Negated())
      case All(_) | Any(_) => EvalList(e.All?, e.items, facts, capacity, depth + 1, Known(e.All?))
      case Xor(_, _) | Implies(_, _) =>
        var l :- Eval(e.lhs, facts, capacity, depth + 1);
        var r :- Eval(e.rhs, facts, capacity, depth + 1);
        Success(Binary(e.Xor?, l, r))
  }

  function EvalList(conjunction: bool, items: seq<BoolExpr>, facts: Facts, capacity: nat, depth: nat,
                    result: TruthValue): Policy<TruthValue>
    decreases items
  {
    if items == [] then Success(result)
    else
      var v :- Eval(items[0], facts, capacity, depth);
      var next := Combine(conjunction, result, v);
      if next == Known(!conjunction) then Success(next)
      else EvalList(conjunction, items[1..], facts, capacity, depth, next)
  }

  /** A bounded evaluation yields the Kleene value, or names a bound the tree breaks. */
  ghost predicate Sound(outcome: Policy<TruthValue>, value: TruthValue, depth: nat, ids: set<nat>, capacity: nat) {
    match outcome
    case Success(v) => v == value
    case Failure(ExpressionTooDeep) => depth > MAX_BOOLEAN_EXPR_DEPTH
    case Failure(error) => AtomFault(error, ids, capacity)
  }

  /**
   Every successful evaluation returns the Kleene value, even one whose short circuit
   skipped ill-formed operands; and within the bounds evaluation cannot fail.
   */
  lemma {:induction false} EvalSound(e: BoolExpr, facts: Facts, capacity: nat, depth: nat)
    ensures Sound(Eval(e, facts, capacity, depth), Kleene(e, facts), depth + Depth(e), Atoms(e), capacity)
    decreases e
  {
    if depth <= MAX_BOOLEAN_EXPR_DEPTH {
      match e
      case Const(_) =>
      case Atom(_) =>
      case Not(inner) => EvalSound(inner, facts, capacity, depth + 1);
      case All(_) | Any(_) => EvalListSound(e.All?, e.items, facts, capacity, depth, Known(e.All?));
      case Xor(_, _) | Implies(_, _) =>
        EvalSound(e.lhs, facts, capacity, depth + 1);
        EvalSound(e.rhs, facts, capacity, depth + 1);
    }
  }

  lemma {:induction false} EvalListSound(conjunction: bool, items: seq<BoolExpr>, facts: Facts, capacity: nat,
      depth: nat, result: TruthValue)
    requires depth <= MAX_BOOLEAN_EXPR_DEPTH
    ensures Sound(EvalList(conjunction, items, facts, capacity, depth + 1, result),
                  Combine(conjunction, result, KleeneList(conjunction, items, facts)),
                  depth + DepthOf(items), AtomsOf(items), capacity)
    decreases items
  {
    if items != [] {
      EvalSound(items[0], facts, capacity, depth + 1);
      var v := Eval(items[0], facts, capacity, depth + 1);
      if v.Success? {
        EvalListSound(conjunction, items[1..], facts, capacity, depth, Combine(conjunction, result, v.value));
      }
    }
  }

  /** Within the bounds, bounded evaluation is the meaning. */
  lemma {:induction false} EvalWithin(e: BoolExpr, facts: Facts, capacity: nat)
    requires Depth(e) <= MAX_BOOLEAN_EXPR_DEPTH && forall a <- Atoms(e) :: a < capacity
    ensures Eval(e, facts, capacity, 0) == Success(Kleene(e, facts))
  {
    EvalSound(e, facts, capacity, 0);
  }

  /** `BoolExpr::evaluate_at_depth`. */
  method EvaluateAtDepth(e: BoolExpr, facts: FactSet, depth: nat) returns (r: Policy<TruthValue>)
    requires facts.Valid()
    ensures r == Eval(e, facts.Contents(), FAST_PREDICATE_CAPACITY, depth)
    decreases e
  {
    if depth > MAX_BOOLEAN_EXPR_DEPTH {
      return Failure(ExpressionTooDeep);
    }
    match e
    case Const(value) => r := Success(if value then True else False);
    case Atom(id) => r := facts.Get(id);
    case Not(inner) =>
      var v := EvaluateAtDepth(inner, facts, depth + 1);
      r := if v.Success? then Success(v.value.Negated()) else v;
    case All(_) | Any(_) =>
      var result := Known(e.All?);
      for i := 0 to |e.items|
        invariant EvalList(e.All?, e.items, facts.Contents(), FAST_PREDICATE_CAPACITY, depth + 1, Known(e.All?))
               == EvalList(e.All?, e.items[i..], facts.Contents(), FAST_PREDICATE_CAPACITY, depth + 1, result)
      {
        assert e.items[i..][1..] == e.items[i + 1..];
        var v := EvaluateAtDepth(e.items[i], facts, depth + 1);
        if v.Failure? { return v; }
        result := Combine(e.All?, result, v.value);
        if result == Known(!e.All?) { return Success(result); }
      }
      r := Success(result);
    case Xor(_, _) | Implies(_, _) =>
      var lhs := EvaluateAtDepth(e.lhs, facts, depth + 1);
      if lhs.Failure? { return lhs; }
      var rhs := EvaluateAtDepth(e.rhs, facts, depth + 1);
      if rhs.Failure? { return rhs; }
      r := Success(Binary(e.Xor?, lhs.value, rhs.value));
  }

  /** `BoolExpr::evaluate`: an expression within the bounds always gets its Kleene value. */
  method Evaluate(e: BoolExpr, facts: FactSet) returns (r: Policy<TruthValue>)
    requires facts.Valid()
    ensures r == Eval(e, facts.Contents(), FAST_PREDICATE_CAPACITY, 0)
    ensures r.Success? ==> r.value == Kleene(e, facts.Contents())
    ensures Within(e, FAST_LIMITS) ==> r.Success?
  {
    r := EvaluateAtDepth(e, facts, 0);
    EvalSound(e, facts.Contents(), FAST_PREDICATE_CAPACITY, 0);
  }
}
