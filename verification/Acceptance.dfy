/** Which expressions the mask compilers accept, and which guards they call dead, read off the syntax. */
module Acceptance {
  import opened Outcomes
  import opened Words
  import opened Expressions
  import opened Literals
  import FastGuard
  import MultiwordGuard

  /** What is left of `e` once nested groups of one kind are opened. */
  function Leaves(conjunction: bool, e: BoolExpr): seq<BoolExpr>
    decreases e
  {
    if (conjunction && e.All?) || (!conjunction && e.Any?) then LeavesOf(conjunction, e.items) else [e]
  }

  function LeavesOf(conjunction: bool, items: seq<BoolExpr>): seq<BoolExpr>
    decreases items
  {
    if items == [] then [] else Leaves(conjunction, items[0]) + LeavesOf(conjunction, items[1..])
  }

  /** An atom, a negated atom or a constant. */
  predicate IsLiteral(e: BoolExpr) {
    e.Const? || e.Atom? || (e.Not? && e.inner.Atom?)
  }

  predicate AllLiteral(xs: seq<BoolExpr>) {
    forall x <- xs :: IsLiteral(x)
  }

  /** Some leaf is the constant False, or some predicate is required both ways. */
  ghost predicate Opposed(xs: seq<BoolExpr>) {
    Const(false) in xs || exists id: nat :: Atom(id) in xs && Not(Atom(id)) in xs
  }

  /** A collected set holds exactly the literals written among `xs`. */
  ghost predicate Records(conjunction: bool, literals: set<Literal>, xs: seq<BoolExpr>) {
    && (forall id: nat :: Positive(id) in literals <==> Atom(id) in xs)
    && (forall id: nat :: Negative(id) in literals <==> Not(Atom(id)) in xs)
    && (Absorbing in literals <==> Const(!conjunction) in xs)
  }

  /** The accepted shape is: every leaf is a literal; and the collected literals are the leaves. */
  lemma {:induction false} FlatIsLeaves(conjunction: bool, e: BoolExpr)
    ensures Flat(conjunction, e) <==> AllLiteral(Leaves(conjunction, e))
    ensures Flat(conjunction, e) ==> Records(conjunction, LiteralsOf(conjunction, e), Leaves(conjunction, e))
    decreases e
  {
    if (conjunction && e.All?) || (!conjunction && e.Any?) {
      FlatListIsLeaves(conjunction, e.items);
    } else {
      assert e in Leaves(conjunction, e);
    }
  }

  lemma {:induction false} FlatListIsLeaves(conjunction: bool, items: seq<BoolExpr>)
    ensures FlatList(conjunction, items) <==> AllLiteral(LeavesOf(conjunction, items))
    ensures FlatList(conjunction, items) ==>
              Records(conjunction, LiteralsOfList(conjunction, items), LeavesOf(conjunction, items))
    decreases items
  {
    if items != [] {
      FlatIsLeaves(conjunction, items[0]);
      FlatListIsLeaves(conjunction, items[1..]);
    }
  }

  lemma {:induction false} LiteralsAreLeaves(conjunction: bool, items: seq<BoolExpr>)
    requires AllLiteral(items)
    ensures LeavesOf(conjunction, items) == items
  {
    if items != [] {
      LiteralsAreLeaves(conjunction, items[1..]);
      assert IsLiteral(items[0]) && items == [items[0]] + items[1..];
    }
  }

  /**
   The single-word compiler uses masks exactly when every leaf is a literal. The masks
   then hold the leaves, and the guard is dead exactly when they oppose.
   */
  lemma {:induction false} MaskPathExactly(guard: FastGuard.CompiledGuard, e: BoolExpr)
    requires guard.Represents(e)
    ensures guard.UsesMaskFastPath() <==> AllLiteral(Leaves(true, e))
    ensures guard.UsesMaskFastPath() ==>
              forall id: nat :: id in guard.requiredTrue <==> Atom(id) in Leaves(true, e)
    ensures guard.UsesMaskFastPath() ==>
              forall id: nat :: id in guard.requiredFalse <==> Not(Atom(id)) in Leaves(true, e)
    ensures guard.IsContradictory() <==> AllLiteral(Leaves(true, e)) && Opposed(Leaves(true, e))
  {
    FlatIsLeaves(true, e);
    MaskLiteralsHas(guard.requiredTrue, guard.requiredFalse, guard.constantFalse);
    if guard.IsContradictory() && !guard.constantFalse {
      var id :| id in guard.requiredTrue * guard.requiredFalse;
      assert Atom(id) in Leaves(true, e) && Not(Atom(id)) in Leaves(true, e);
    } else if !guard.IsContradictory() && Flat(true, e) {
      forall id: nat ensures !(Atom(id) in Leaves(true, e) && Not(Atom(id)) in Leaves(true, e)) {
        assert id !in guard.requiredTrue * guard.requiredFalse;
      }
    }
  }

  /** For a conjunction of literals all of this is read off its operands; `All([p, Not(p)])` is dead for every `p`. */
  lemma {:induction false} DeadConjunctions(guard: FastGuard.CompiledGuard, items: seq<BoolExpr>)
    requires guard.Represents(All(items)) && AllLiteral(items)
    ensures guard.UsesMaskFastPath()
    ensures guard.IsContradictory() <==>
              Const(false) in items || exists id: nat :: Atom(id) in items && Not(Atom(id)) in items
    ensures forall id: nat :: items == [Atom(id), Not(Atom(id))] ==> guard.IsContradictory()
  {
    LiteralsAreLeaves(true, items);
    MaskPathExactly(guard, All(items));
    forall id: nat | items == [Atom(id), Not(Atom(id))] ensures guard.IsContradictory() {
      assert items[0] == Atom(id) && items[1] == Not(Atom(id));
    }
  }

  /** Masks hold exactly the atoms and the negated atoms among `xs`, and the flag says whether a constant decides. */
  ghost predicate MasksHold(positive: seq<Word>, negative: seq<Word>, flag: bool, constant: bool, xs: seq<BoolExpr>) {
    && (forall id: nat :: id in Flatten(positive) <==> Atom(id) in xs)
    && (forall id: nat :: id in Flatten(negative) <==> Not(Atom(id)) in xs)
    && (flag <==> Const(constant) in xs)
  }

  /** The multiword compiler tries conjunction, then disjunction, by their leaves, and otherwise keeps the tree. */
  lemma {:induction false} MultiwordPathExactly(guard: MultiwordGuard.MultiwordCompiledGuard, e: BoolExpr)
    requires guard.Represents(e)
    ensures match guard.fastPath
            case Some(Conjunction(t, f, c)) => AllLiteral(Leaves(true, e)) && MasksHold(t, f, c, false, Leaves(true, e))
            case Some(Disjunction(t, f, c)) =>
              && !AllLiteral(Leaves(true, e)) && AllLiteral(Leaves(false, e))
              && MasksHold(t, f, c, true, Leaves(false, e))
            case None => !AllLiteral(Leaves(true, e)) && !AllLiteral(Leaves(false, e)) && guard.fallback == Some(e)
  {
    FlatIsLeaves(true, e);
    FlatIsLeaves(false, e);
    match guard.fastPath
    case None =>
    case Some(Conjunction(t, f, c)) => MaskLiteralsHas(Flatten(t), Flatten(f), c);
    case Some(Disjunction(t, f, c)) => MaskLiteralsHas(Flatten(t), Flatten(f), c);
  }

  /** A disjunction of literals is compiled to masks too. */
  lemma {:induction false} FlatDisjunctions(guard: MultiwordGuard.MultiwordCompiledGuard, items: seq<BoolExpr>)
    requires guard.Represents(Any(items)) && AllLiteral(items)
    ensures match guard.fastPath
            case Some(Disjunction(t, f, c)) => MasksHold(t, f, c, true, items)
            case _ => false
  {
    LiteralsAreLeaves(false, items);
    MultiwordPathExactly(guard, Any(items));
    assert Any(items) in Leaves(true, Any(items));
  }
}
