/**
 Flat conjunctions and disjunctions of literals: the shapes both mask compilers
 accept, their meaning as a set of literals, and the duality between them.
 */
module Literals {
  import opened Truth
  import opened Expressions
  import opened FactStore

  /** One requirement of a flat guard; `Absorbing` is a constant that decides the whole group. */
  datatype Literal = Positive(id: nat) | Negative(id: nat) | Absorbing

  /** Whether nested groups of one kind over atoms, negated atoms and constants make up `e`. */
  predicate Flat(conjunction: bool, e: BoolExpr)
    decreases e
  {
    match e
    case Const(_) | Atom(_) => true
    case Not(inner) => inner.Atom?
    case All(_) | Any(_) => e.All? == conjunction && FlatList(conjunction, e.items)
    case Xor(_, _) | Implies(_, _) => false
  }

  predicate FlatList(conjunction: bool, items: seq<BoolExpr>)
    decreases items
  {
    items == [] || (Flat(conjunction, items[0]) && FlatList(conjunction, items[1..]))
  }

  /** The literals of a flat group; its neutral constant adds none. */
  function LiteralsOf(conjunction: bool, e: BoolExpr): set<Literal>
    decreases e
  {
    match e
    case Const(value) => if value == conjunction then {} else {Absorbing}
    case Atom(id) => {Positive(id)}
    case Not(inner) => if inner.Atom? then {Negative(inner.id)} else {}
    case All(_) | Any(_) => LiteralsOfList(conjunction, e.items)
    case Xor(_, _) | Implies(_, _) => {}
  }

  function LiteralsOfList(conjunction: bool, items: seq<BoolExpr>): set<Literal>
    decreases items
  {
    if items == [] then {} else LiteralsOf(conjunction, items[0]) + LiteralsOfList(conjunction, items[1..])
  }

  function LiteralValue(conjunction: bool, l: Literal, facts: Facts): TruthValue {
    match l
    case Positive(id) => Lookup(facts, id)
    case Negative(id) => Lookup(facts, id).Negated()
    case Absorbing => Known(!conjunction)
  }

  ghost predicate SomeLiteral(conjunction: bool, literals: set<Literal>, v: TruthValue, facts: Facts) {
    exists l <- literals :: LiteralValue(conjunction, l, facts) == v
  }

  ghost predicate AllLiterals(conjunction: bool, literals: set<Literal>, v: TruthValue, facts: Facts) {
    forall l <- literals :: LiteralValue(conjunction, l, facts) == v
  }

  /** The value of a group of literals: one absorbing literal decides, otherwise all must be neutral. */
  ghost function Fold(conjunction: bool, literals: set<Literal>, facts: Facts): TruthValue {
    if SomeLiteral(conjunction, literals, Known(!conjunction), facts) then Known(!conjunction)
    else if AllLiterals(conjunction, literals, Known(conjunction), facts) then Known(conjunction)
    else Unknown
  }

  lemma {:induction false} FoldUnion(conjunction: bool, a: set<Literal>, b: set<Literal>, facts: Facts)
    ensures Fold(conjunction, a + b, facts)
         == Combine(conjunction, Fold(conjunction, a, facts), Fold(conjunction, b, facts))
  {
    assert forall l :: l in a + b <==> l in a || l in b;
    if l :| l in a && LiteralValue(conjunction, l, facts) == Known(!conjunction) {
      assert l in a + b;
    } else if l :| l in b && LiteralValue(conjunction, l, facts) == Known(!conjunction) {
      assert l in a + b;
    }
  }

  /** A flat group means exactly its literals. */
  lemma {:induction false} FlatMeaning(conjunction: bool, e: BoolExpr, facts: Facts)
    requires Flat(conjunction, e)
    ensures Kleene(e, facts) == Fold(conjunction, LiteralsOf(conjunction, e), facts)
    decreases e
  {
    match e
    case Const(_) | Atom(_) | Not(_) => SingleLiteral(conjunction, e, facts);
    case All(_) | Any(_) => FlatListMeaning(conjunction, e.items, facts);
  }

  lemma {:induction false} SingleLiteral(conjunction: bool, e: BoolExpr, facts: Facts)
    requires Flat(conjunction, e) && (e.Const? || e.Atom? || e.Not?)
    ensures Kleene(e, facts) == Fold(conjunction, LiteralsOf(conjunction, e), facts)
  {
    if e.Const? {
      assert Absorbing in {Absorbing};
    } else {
      var l := if e.Atom? then Positive(e.id) else Negative(e.inner.id);
      assert LiteralsOf(conjunction, e) == {l} && l in {l};
    }
  }

  lemma {:induction false} FlatListMeaning(conjunction: bool, items: seq<BoolExpr>, facts: Facts)
    requires FlatList(conjunction, items)
    ensures KleeneList(conjunction, items, facts) == Fold(conjunction, LiteralsOfList(conjunction, items), facts)
    decreases items
  {
    if items != [] {
      FlatMeaning(conjunction, items[0], facts);
      FlatListMeaning(conjunction, items[1..], facts);
      FoldUnion(conjunction, LiteralsOf(conjunction, items[0]), LiteralsOfList(conjunction, items[1..]), facts);
    }
  }

  // ----- masks as literals -----

  /** The literals a pair of masks and a constant flag stand for. */
  function MaskLiterals(positive: set<nat>, negative: set<nat>, absorbing: bool): set<Literal> {
    (set id <- positive :: Positive(id)) + (set id <- negative :: Negative(id))
    + (if absorbing then {Absorbing} else {})
  }

  lemma {:induction false} MaskLiteralsHas(positive: set<nat>, negative: set<nat>, absorbing: bool)
    ensures forall id :: Positive(id) in MaskLiterals(positive, negative, absorbing) <==> id in positive
    ensures forall id :: Negative(id) in MaskLiterals(positive, negative, absorbing) <==> id in negative
    ensures Absorbing in MaskLiterals(positive, negative, absorbing) <==> absorbing
  {
  }

  lemma {:induction false} MaskLiteralsAdd(positive: set<nat>, negative: set<nat>, absorbing: bool, id: nat)
    ensures MaskLiterals(positive + {id}, negative, absorbing)
         == MaskLiterals(positive, negative, absorbing) + {Positive(id)}
    ensures MaskLiterals(positive, negative + {id}, absorbing)
         == MaskLiterals(positive, negative, absorbing) + {Negative(id)}
    ensures MaskLiterals(positive, negative, true) == MaskLiterals(positive, negative, absorbing) + {Absorbing}
  {
  }

  /** What the conjunction kernels compute from masks: a conflict dominates, then missing evidence. */
  function MaskVerdict(positive: set<nat>, negative: set<nat>, absorbing: bool, knownTrue: set<nat>,
                       knownFalse: set<nat>): TruthValue {
    if absorbing || knownFalse * positive != {} || knownTrue * negative != {} then False
    else if positive <= knownTrue && negative <= knownFalse then True
    else Unknown
  }

  /** The mask arithmetic computes the group's value from the stored facts. */
  lemma {:induction false} MaskVerdictIsFold(positive: set<nat>, negative: set<nat>, absorbing: bool,
      knownTrue: set<nat>, knownFalse: set<nat>)
    requires knownTrue !! knownFalse
    ensures MaskVerdict(positive, negative, absorbing, knownTrue, knownFalse)
         == Fold(true, MaskLiterals(positive, negative, absorbing), Stored(knownTrue, knownFalse))
  {
    var literals, facts := MaskLiterals(positive, negative, absorbing), Stored(knownTrue, knownFalse);
    MaskLiteralsHas(positive, negative, absorbing);
    if absorbing {
      assert LiteralValue(true, Absorbing, facts) == False;
    } else if id :| id in knownFalse * positive {
      assert LiteralValue(true, Positive(id), facts) == False;
    } else if id :| id in knownTrue * negative {
      assert LiteralValue(true, Negative(id), facts) == False;
    } else {
      forall l | l in literals ensures LiteralValue(true, l, facts) != False {
        assert l.Positive? ==> l.id !in knownFalse * positive;
        assert l.Negative? ==> l.id !in knownTrue * negative;
      }
      if id :| id in positive && id !in knownTrue {
        assert LiteralValue(true, Positive(id), facts) != True;
      } else if id :| id in negative && id !in knownFalse {
        assert LiteralValue(true, Negative(id), facts) != True;
      }
    }
  }

  // ----- duality -----

  /** Negation of a literal, as a literal of the dual group. */
  function Flip(l: Literal): Literal {
    match l
    case Positive(id) => Negative(id)
    case Negative(id) => Positive(id)
    case Absorbing => Absorbing
  }

  lemma {:induction false} FlipNegates(l: Literal, facts: Facts)
    ensures LiteralValue(false, l, facts) == LiteralValue(true, Flip(l), facts).Negated()
    ensures LiteralValue(true, l, facts) == LiteralValue(false, Flip(l), facts).Negated()
  {
  }

  /**
   Where flipping leads from `d` into `c`, values in `c` under one kind carry over,
   negated, to `d` under the other.
   */
  lemma {:induction false} FlippedValues(conjunction: bool, d: set<Literal>, c: set<Literal>, v: TruthValue,
      facts: Facts)
    requires forall l <- d :: Flip(l) in c
    ensures SomeLiteral(conjunction, d, v, facts) ==> SomeLiteral(!conjunction, c, v.Negated(), facts)
    ensures AllLiterals(!conjunction, c, v.Negated(), facts) ==> AllLiterals(conjunction, d, v, facts)
  {
    forall l | l in d
      ensures LiteralValue(!conjunction, Flip(l), facts) == LiteralValue(conjunction, l, facts).Negated()
    {
      FlipNegates(l, facts);
    }
    if SomeLiteral(conjunction, d, v, facts) {
      var l :| l in d && LiteralValue(conjunction, l, facts) == v;
      assert Flip(l) in c;
    }
  }

  lemma {:induction false} FlippedFold(d: set<Literal>, c: set<Literal>, facts: Facts)
    requires forall l <- d :: Flip(l) in c
    requires forall l <- c :: Flip(l) in d
    ensures Fold(false, d, facts) == Fold(true, c, facts).Negated()
  {
    FlippedValues(false, d, c, True, facts);
    FlippedValues(false, d, c, False, facts);
    FlippedValues(true, c, d, True, facts);
    FlippedValues(true, c, d, False, facts);
  }

  /** A disjunction is the negation of the conjunction with the two masks exchanged. */
  lemma {:induction false} MaskDuality(positive: set<nat>, negative: set<nat>, absorbing: bool, facts: Facts)
    ensures Fold(false, MaskLiterals(positive, negative, absorbing), facts)
         == Fold(true, MaskLiterals(negative, positive, absorbing), facts).Negated()
  {
    MaskLiteralsHas(positive, negative, absorbing);
    MaskLiteralsHas(negative, positive, absorbing);
    FlippedFold(MaskLiterals(positive, negative, absorbing), MaskLiterals(negative, positive, absorbing), facts);
  }
}
