/** Boolean policy expressions, their strong-Kleene meaning and its laws. */
module Expressions {
  import opened Truth

  /** `BoolExpr`; ids are predicate indices. */
  datatype BoolExpr =
    | Const(value: bool)
    | Atom(id: nat)
    | Not(inner: BoolExpr)
    | All(items: seq<BoolExpr>)
    | Any(items: seq<BoolExpr>)
    | Xor(lhs: BoolExpr, rhs: BoolExpr)
    | Implies(lhs: BoolExpr, rhs: BoolExpr)

  /** `All` or `Any`; the two are duals and are treated together. */
  function Group(conjunction: bool, items: seq<BoolExpr>): BoolExpr {
    if conjunction then All(items) else Any(items)
  }

  predicate IsGroup(conjunction: bool, e: BoolExpr) {
    if conjunction then e.All? else e.Any?
  }

  /** The members of a non-empty list are its head and the members of its tail. */
  lemma {:induction false} SplitFirst<T>(items: seq<T>)
    requires items != []
    ensures items[0] in items
    ensures forall x :: x in items <==> x == items[0] || x in items[1..]
  {
    assert items == [items[0]] + items[1..];
  }

  lemma {:induction false} Assoc<T>(a: seq<T>, b: seq<T>, c: seq<T>, d: seq<T>)
    ensures (a + b) + c == a + (b + c)
    ensures ((a + b) + c) + d == a + (b + (c + d))
  {
  }

  // ----- meaning -----

  /** The strong-Kleene value of `e` when exactly `facts` are known. */
  function Kleene(e: BoolExpr, facts: Facts): TruthValue
    decreases e
  {
    match e
    case Const(value) => Known(value)
    case Atom(id) => Lookup(facts, id)
    case Not(inner) => Kleene(inner, facts).Negated()
    case All(_) | Any(_) => KleeneList(e.All?, e.items, facts)
    case Xor(_, _) | Implies(_, _) => Binary(e.Xor?, Kleene(e.lhs, facts), Kleene(e.rhs, facts))
  }

  function KleeneList(conjunction: bool, items: seq<BoolExpr>, facts: Facts): TruthValue
    decreases items
  {
    if items == [] then Known(conjunction)
    else Combine(conjunction, Kleene(items[0], facts), KleeneList(conjunction, items[1..], facts))
  }

  /** A group's value depends only on which values its operands take. */
  lemma {:induction false} KleeneListByMembers(conjunction: bool, items: seq<BoolExpr>, facts: Facts)
    ensures KleeneList(conjunction, items, facts) == Known(!conjunction)
       <==> exists x <- items :: Kleene(x, facts) == Known(!conjunction)
    ensures KleeneList(conjunction, items, facts) == Known(conjunction)
       <==> forall x <- items :: Kleene(x, facts) == Known(conjunction)
    decreases items
  {
    if items != [] {
      KleeneListByMembers(conjunction, items[1..], facts);
      SplitFirst(items);
    }
  }

  /** The value of every other node, from the values of its operands. */
  lemma {:induction false} NodeValues(a: BoolExpr, b: BoolExpr, id: nat, c: bool, facts: Facts)
    ensures Kleene(Const(c), facts) == if c then True else False
    ensures Kleene(Atom(id), facts) == if id !in facts then Unknown else if facts[id] then True else False
    ensures Level(Kleene(Not(a), facts)) == 2 - Level(Kleene(a, facts))
    ensures Kleene(Xor(a, b), facts) == Kleene(a, facts).Xor(Kleene(b, facts))
    ensures Level(Kleene(Implies(a, b), facts)) == Max(2 - Level(Kleene(a, facts)), Level(Kleene(b, facts)))
  {
    Tables(Kleene(a, facts), Kleene(b, facts));
  }

  // ----- measures -----

  function Atoms(e: BoolExpr): set<nat>
    decreases e
  {
    match e
    case Const(_) => {}
    case Atom(id) => {id}
    case Not(inner) => Atoms(inner)
    case All(_) | Any(_) => AtomsOf(e.items)
    case Xor(_, _) | Implies(_, _) => Atoms(e.lhs) + Atoms(e.rhs)
  }

  function AtomsOf(items: seq<BoolExpr>): set<nat>
    decreases items
  {
    if items == [] then {} else Atoms(items[0]) + AtomsOf(items[1..])
  }

  /** Edges on the longest path from the root. */
  function Depth(e: BoolExpr): nat
    decreases e
  {
    match e
    case Const(_) => 0
    case Atom(_) => 0
    case Not(inner) => 1 + Depth(inner)
    case All(_) | Any(_) => DepthOf(e.items)
    case Xor(_, _) | Implies(_, _) => 1 + Max(Depth(e.lhs), Depth(e.rhs))
  }

  function DepthOf(items: seq<BoolExpr>): nat
    decreases items
  {
    if items == [] then 0 else Max(1 + Depth(items[0]), DepthOf(items[1..]))
  }

  function Max(a: nat, b: nat): nat {
    if a < b then b else a
  }

  function Nodes(e: BoolExpr): nat
    decreases e
  {
    match e
    case Const(_) => 1
    case Atom(_) => 1
    case Not(inner) => 1 + Nodes(inner)
    case All(_) | Any(_) => 1 + NodesOf(e.items)
    case Xor(_, _) | Implies(_, _) => 1 + Nodes(e.lhs) + Nodes(e.rhs)
  }

  function NodesOf(items: seq<BoolExpr>): nat
    decreases items
  {
    if items == [] then 0 else Nodes(items[0]) + NodesOf(items[1..])
  }

  lemma {:induction false} AtomsByMembers(items: seq<BoolExpr>, a: nat)
    ensures a in AtomsOf(items) <==> exists x <- items :: a in Atoms(x)
    decreases items
  {
    if items != [] {
      AtomsByMembers(items[1..], a);
      SplitFirst(items);
    }
  }

  lemma {:induction false} DepthByMembers(items: seq<BoolExpr>, bound: nat)
    ensures DepthOf(items) <= bound <==> forall x <- items :: 1 + Depth(x) <= bound
    decreases items
  {
    if items != [] {
      DepthByMembers(items[1..], bound);
      SplitFirst(items);
    }
  }

  lemma {:induction false} NodesAppend(xs: seq<BoolExpr>, ys: seq<BoolExpr>)
    ensures NodesOf(xs + ys) == NodesOf(xs) + NodesOf(ys)
    decreases xs
  {
    if xs == [] {
      assert xs + ys == ys;
    } else {
      NodesAppend(xs[1..], ys);
      assert (xs + ys)[1..] == xs[1..] + ys;
    }
  }

  // ----- laws of the meaning -----

  /** Evaluation reads nothing but the atoms of the expression. */
  lemma {:induction false} Coincidence(e: BoolExpr, f: Facts, g: Facts)
    requires forall a <- Atoms(e) :: Lookup(f, a) == Lookup(g, a)
    ensures Kleene(e, f) == Kleene(e, g)
    decreases e
  {
    match e
    case Const(_) =>
    case Atom(_) =>
    case Not(inner) => Coincidence(inner, f, g);
    case All(_) | Any(_) => CoincidenceList(e.All?, e.items, f, g);
    case Xor(_, _) | Implies(_, _) => Coincidence(e.lhs, f, g); Coincidence(e.rhs, f, g);
  }

  lemma {:induction false} CoincidenceList(conjunction: bool, items: seq<BoolExpr>, f: Facts, g: Facts)
    requires forall a <- AtomsOf(items) :: Lookup(f, a) == Lookup(g, a)
    ensures KleeneList(conjunction, items, f) == KleeneList(conjunction, items, g)
    decreases items
  {
    if items != [] {
      Coincidence(items[0], f, g);
      CoincidenceList(conjunction, items[1..], f, g);
    }
  }

  /** Learning more facts never changes a decided value. */
  lemma {:induction false} Monotone(e: BoolExpr, f: Facts, g: Facts)
    requires Extends(f, g)
    ensures Refines(Kleene(e, f), Kleene(e, g))
    decreases e
  {
    match e
    case Const(_) =>
    case Atom(_) =>
    case Not(inner) => Monotone(inner, f, g);
    case All(_) | Any(_) => MonotoneList(e.All?, e.items, f, g);
    case Xor(_, _) | Implies(_, _) => Monotone(e.lhs, f, g); Monotone(e.rhs, f, g);
  }

  lemma {:induction false} MonotoneList(conjunction: bool, items: seq<BoolExpr>, f: Facts, g: Facts)
    requires Extends(f, g)
    ensures Refines(KleeneList(conjunction, items, f), KleeneList(conjunction, items, g))
    decreases items
  {
    if items != [] {
      Monotone(items[0], f, g);
      MonotoneList(conjunction, items[1..], f, g);
    }
  }

  /** Where every atom is known the value is classical. */
  lemma {:induction false} Decided(e: BoolExpr, f: Facts)
    requires Atoms(e) <= f.Keys
    ensures Kleene(e, f) != Unknown
    decreases e
  {
    match e
    case Const(_) =>
    case Atom(_) =>
    case Not(inner) => Decided(inner, f);
    case All(_) | Any(_) => DecidedList(e.All?, e.items, f);
    case Xor(_, _) | Implies(_, _) => Decided(e.lhs, f); Decided(e.rhs, f);
  }

  lemma {:induction false} DecidedList(conjunction: bool, items: seq<BoolExpr>, f: Facts)
    requires AtomsOf(items) <= f.Keys
    ensures KleeneList(conjunction, items, f) != Unknown
    decreases items
  {
    if items != [] {
      Decided(items[0], f);
      DecidedList(conjunction, items[1..], f);
    }
  }
}
