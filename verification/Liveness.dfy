/**
 Which atoms the canonical form keeps, in terms of the expression alone: those not
 under a subexpression that is already decided without evidence.
 */
module Liveness {
  import opened Truth
  import opened Expressions
  import opened Sorting
  import opened Order
  import opened Canonical

  /** The atoms with an occurrence that no enclosing subexpression decides without evidence. */
  ghost function Live(e: BoolExpr): set<nat>
    decreases e
  {
    if Kleene(e, map[]) != Unknown then {}
    else match e
      case Const(_) => {}
      case Atom(id) => {id}
      case Not(inner) => Live(inner)
      case All(_) | Any(_) => LiveOf(e.items)
      case Xor(_, _) | Implies(_, _) => Live(e.lhs) + Live(e.rhs)
  }

  ghost function LiveOf(items: seq<BoolExpr>): set<nat>
    decreases items
  {
    if items == [] then {} else Live(items[0]) + LiveOf(items[1..])
  }

  // ----- constants -----

  /** A canonical form other than a constant is undecided without evidence. */
  lemma {:induction false} CanonicalUndecided(e: BoolExpr)
    requires IsCanonical(e) && !e.Const?
    ensures Kleene(e, map[]) == Unknown
    decreases e
  {
    match e
    case Atom(_) =>
    case Not(inner) => CanonicalUndecided(inner);
    case All(_) | Any(_) =>
      forall x | x in e.items ensures Kleene(x, map[]) == Unknown {
        CanonicalUndecided(x);
      }
      assert e.items[0] in e.items;
      KleeneListByMembers(e.All?, e.items, map[]);
    case Xor(_, _) | Implies(_, _) =>
      CanonicalUndecided(e.lhs);
      CanonicalUndecided(e.rhs);
  }

  /** Canonicalization folds to a constant exactly the expressions that have that value without any evidence. */
  lemma {:induction false} ConstantExactly(e: BoolExpr, b: bool)
    ensures Canon(e) == Const(b) <==> Kleene(e, map[]) == Known(b)
  {
    CanonMeaning(e, map[]);
    CanonIsCanonical(e);
    if Kleene(e, map[]) == Known(b) && !Canon(e).Const? {
      CanonicalUndecided(Canon(e));
    }
  }

  // ----- atoms through the rewrite -----

  lemma {:induction false} AtomsBySet(xs: seq<BoolExpr>, ys: seq<BoolExpr>)
    requires SameMembers(xs, ys)
    ensures AtomsOf(xs) == AtomsOf(ys)
  {
    forall a ensures a in AtomsOf(xs) <==> a in AtomsOf(ys) {
      AtomsByMembers(xs, a);
      AtomsByMembers(ys, a);
    }
  }

  lemma {:induction false} FlattenedAtoms(conjunction: bool, items: seq<BoolExpr>)
    ensures AtomsOf(Flattened(conjunction, items)) == AtomsOf(items)
    decreases items
  {
    if items != [] {
      PiecesAtoms(conjunction, items[0]);
      FlattenedAtoms(conjunction, items[1..]);
      MeasuresAppend(Pieces(conjunction, items[0]), Flattened(conjunction, items[1..]));
    }
  }

  lemma {:induction false} PiecesAtoms(conjunction: bool, e: BoolExpr)
    ensures AtomsOf(Pieces(conjunction, e)) == Atoms(e)
  {
    assert [e][1..] == [];
  }

  lemma {:induction false} RebuildAtoms(conjunction: bool, unique: seq<BoolExpr>)
    ensures Atoms(Rebuild(conjunction, unique)) == AtomsOf(unique)
  {
    if |unique| == 1 {
      assert unique[1..] == [];
    }
  }

  /** A group that is not absorbed keeps all atoms of its operands. */
  lemma {:induction false} GroupAtoms(conjunction: bool, items: seq<BoolExpr>)
    requires Const(!conjunction) !in items
    ensures Atoms(NormalizeGroup(conjunction, items)) == AtomsOf(items)
  {
    var flattened := Flattened(conjunction, items);
    FlattenedAtoms(conjunction, items);
    CompareIsTotalOrder();
    SortDedupStrict(flattened, ExprLeq);
    AtomsBySet(SortDedup(flattened, ExprLeq), flattened);
    RebuildAtoms(conjunction, SortDedup(flattened, ExprLeq));
  }

  lemma {:induction false} XorAtoms(lhs: BoolExpr, rhs: BoolExpr)
    ensures Atoms(NormalizeXor(lhs, rhs)) == Atoms(lhs) + Atoms(rhs)
  {
  }

  lemma {:induction false} ImpliesAtoms(lhs: BoolExpr, rhs: BoolExpr)
    requires lhs != Const(false) && rhs != Const(true)
    ensures Atoms(NormalizeImplies(lhs, rhs)) == Atoms(lhs) + Atoms(rhs)
  {
  }

  /** The canonical form mentions exactly the live atoms. */
  lemma {:induction false} CanonAtomsAreLive(e: BoolExpr)
    ensures Atoms(Canon(e)) == Live(e)
    decreases e
  {
    if Kleene(e, map[]) != Unknown {
      ConstantExactly(e, Kleene(e, map[]) == True);
    } else {
      match e
      case Atom(_) =>
      case Not(inner) => CanonAtomsAreLive(inner);
      case All(_) | Any(_) => UndecidedGroupAtoms(e);
      case Xor(lhs, rhs) =>
        CanonAtomsAreLive(lhs);
        CanonAtomsAreLive(rhs);
        XorAtoms(Canon(lhs), Canon(rhs));
      case Implies(lhs, rhs) =>
        CanonAtomsAreLive(lhs);
        CanonAtomsAreLive(rhs);
        ConstantExactly(lhs, false);
        ConstantExactly(rhs, true);
        ImpliesAtoms(Canon(lhs), Canon(rhs));
    }
  }

  lemma {:induction false} UndecidedGroupAtoms(e: BoolExpr)
    requires (e.All? || e.Any?) && Kleene(e, map[]) == Unknown
    ensures Atoms(Canon(e)) == Live(e)
    decreases e, 0
  {
    CanonEachAtoms(e.items);
    if Const(!e.All?) in CanonEach(e.items) {
      CanonEachMembers(e.items, Const(!e.All?));
      var x :| x in e.items && Const(!e.All?) == Canon(x);
      ConstantExactly(x, !e.All?);
      KleeneListByMembers(e.All?, e.items, map[]);
      assert false;
    }
    GroupAtoms(e.All?, CanonEach(e.items));
  }

  lemma {:induction false} CanonEachAtoms(items: seq<BoolExpr>)
    ensures AtomsOf(CanonEach(items)) == LiveOf(items)
    decreases items
  {
    if items != [] {
      CanonAtomsAreLive(items[0]);
      CanonEachAtoms(items[1..]);
    }
  }

  lemma {:induction false} LiveAreAtoms(e: BoolExpr)
    ensures Live(e) <= Atoms(e)
  {
    CanonAtomsAreLive(e);
    CanonNoLarger(e);
  }

  // ----- pruning -----

  /** The expression with every subexpression that is decided without evidence replaced by its value. */
  ghost function Prune(e: BoolExpr): BoolExpr
    decreases e
  {
    if Kleene(e, map[]) != Unknown then Const(Kleene(e, map[]) == True)
    else match e
      case Const(_) | Atom(_) => e
      case Not(inner) => Not(Prune(inner))
      case All(_) | Any(_) => Group(e.All?, PruneEach(e.items))
      case Xor(lhs, rhs) => Xor(Prune(lhs), Prune(rhs))
      case Implies(lhs, rhs) => Implies(Prune(lhs), Prune(rhs))
  }

  ghost function PruneEach(items: seq<BoolExpr>): seq<BoolExpr>
    decreases items
  {
    if items == [] then [] else [Prune(items[0])] + PruneEach(items[1..])
  }

  /** Pruning mentions exactly the live atoms. */
  lemma {:induction false} PruneAtoms(e: BoolExpr)
    ensures Atoms(Prune(e)) == Live(e)
    decreases e
  {
    if Kleene(e, map[]) == Unknown {
      match e
      case Atom(_) =>
      case Not(inner) => PruneAtoms(inner);
      case All(_) | Any(_) => PruneEachAtoms(e.items);
      case Xor(_, _) | Implies(_, _) =>
        PruneAtoms(e.lhs);
        PruneAtoms(e.rhs);
    }
  }

  lemma {:induction false} PruneEachAtoms(items: seq<BoolExpr>)
    ensures AtomsOf(PruneEach(items)) == LiveOf(items)
    decreases items
  {
    if items != [] {
      PruneAtoms(items[0]);
      PruneEachAtoms(items[1..]);
    }
  }

  /** Pruning does not change the canonical form. */
  lemma {:induction false} PruneCanon(e: BoolExpr)
    ensures Canon(Prune(e)) == Canon(e)
    decreases e
  {
    if Kleene(e, map[]) != Unknown {
      ConstantExactly(e, Kleene(e, map[]) == True);
    } else {
      match e
      case Atom(_) =>
      case Not(inner) => PruneCanon(inner);
      case All(_) | Any(_) =>
        PruneEachCanon(e.items);
        CanonGroup(e.All?, e.items);
        CanonGroup(e.All?, PruneEach(e.items));
        assert e == Group(e.All?, e.items);
      case Xor(_, _) | Implies(_, _) =>
        PruneCanon(e.lhs);
        PruneCanon(e.rhs);
    }
  }

  lemma {:induction false} PruneEachCanon(items: seq<BoolExpr>)
    ensures CanonEach(PruneEach(items)) == CanonEach(items)
    decreases items
  {
    if items != [] {
      PruneCanon(items[0]);
      PruneEachCanon(items[1..]);
      assert PruneEach(items)[1..] == PruneEach(items[1..]);
    }
  }
}
