/** What the five oracle queries ask, in values and in terms of one another (`exact_oracle.rs`, `kleene_oracle.rs`). */
module QueryLaws {
  import opened Truth
  import opened Expressions
  import opened Oracle
  import opened OracleLaws

  /** The assignments an oracle tries over some atoms: all in base 3, those deciding every atom in base 2. */
  ghost predicate Tried(ids: set<nat>, ternary: bool, facts: Facts) {
    ternary || ids <= facts.Keys
  }

  // Each query, as a property of the values of its operands at one assignment.

  ghost predicate AlwaysTrue(e: BoolExpr, ternary: bool) {
    forall facts: Facts :: Tried(Atoms(e), ternary, facts) ==> Kleene(e, facts) == True
  }

  ghost predicate NeverTrue(e: BoolExpr, ternary: bool) {
    forall facts: Facts :: Tried(Atoms(e), ternary, facts) ==> Kleene(e, facts) != True
  }

  ghost predicate TrueOnlyWith(l: BoolExpr, r: BoolExpr, ternary: bool) {
    forall facts: Facts :: Tried(Atoms(l) + Atoms(r), ternary, facts) && Kleene(l, facts) == True ==>
      Kleene(r, facts) == True
  }

  ghost predicate AlwaysSame(l: BoolExpr, r: BoolExpr, ternary: bool) {
    forall facts: Facts :: Tried(Atoms(l) + Atoms(r), ternary, facts) ==> Kleene(l, facts) == Kleene(r, facts)
  }

  ghost predicate NeverBothTrue(l: BoolExpr, r: BoolExpr, ternary: bool) {
    forall facts: Facts :: Tried(Atoms(l) + Atoms(r), ternary, facts) && Kleene(l, facts) == True ==>
      Kleene(r, facts) != True
  }

  lemma {:induction false} OneAtoms(q: Query)
    requires |q.Operands()| == 1
    ensures AtomsOf(q.Operands()) == Atoms(q.lhs)
  {
    assert q.Operands() == [q.lhs] && [q.lhs][1..] == [];
  }

  /** Every query, in values. */
  lemma {:induction false} QueriesInValues(l: BoolExpr, r: BoolExpr, ternary: bool)
    ensures Verdict(Tautology(l), ternary) <==> AlwaysTrue(l, ternary)
    ensures Verdict(Contradiction(l), ternary) <==> NeverTrue(l, ternary)
    ensures Verdict(Implication(l, r), ternary) <==> TrueOnlyWith(l, r, ternary)
    ensures Verdict(Equivalence(l, r), ternary) <==> AlwaysSame(l, r, ternary)
    ensures Verdict(MutualExclusion(l, r), ternary) <==> NeverBothTrue(l, r, ternary)
  {
    OneInValues(l, ternary);
    ImplicationInValues(l, r, ternary);
    EquivalenceInValues(l, r, ternary);
    ExclusionInValues(l, r, ternary);
  }

  lemma {:induction false} OneInValues(e: BoolExpr, ternary: bool)
    ensures Verdict(Tautology(e), ternary) <==> AlwaysTrue(e, ternary)
    ensures Verdict(Contradiction(e), ternary) <==> NeverTrue(e, ternary)
  {
    OneAtoms(Tautology(e));
    OneAtoms(Contradiction(e));
    forall facts: Facts
      ensures Relevant(Tautology(e), ternary, facts) <==> Tried(Atoms(e), ternary, facts)
      ensures Relevant(Contradiction(e), ternary, facts) <==> Tried(Atoms(e), ternary, facts)
      ensures Tautology(e).Holds(facts) <==> Kleene(e, facts) == True
      ensures Contradiction(e).Holds(facts) <==> Kleene(e, facts) != True
    {
    }
  }

  lemma {:induction false} ImplicationInValues(l: BoolExpr, r: BoolExpr, ternary: bool)
    ensures Verdict(Implication(l, r), ternary) <==> TrueOnlyWith(l, r, ternary)
  {
    var q := Implication(l, r);
    PairAtoms(q);
    forall facts: Facts
      ensures Relevant(q, ternary, facts) <==> Tried(Atoms(l) + Atoms(r), ternary, facts)
      ensures q.Holds(facts) <==> (Kleene(l, facts) == True ==> Kleene(r, facts) == True)
    {
    }
  }

  lemma {:induction false} EquivalenceInValues(l: BoolExpr, r: BoolExpr, ternary: bool)
    ensures Verdict(Equivalence(l, r), ternary) <==> AlwaysSame(l, r, ternary)
  {
    var q := Equivalence(l, r);
    PairAtoms(q);
    forall facts: Facts
      ensures Relevant(q, ternary, facts) <==> Tried(Atoms(l) + Atoms(r), ternary, facts)
      ensures q.Holds(facts) <==> Kleene(l, facts) == Kleene(r, facts)
    {
    }
  }

  lemma {:induction false} ExclusionInValues(l: BoolExpr, r: BoolExpr, ternary: bool)
    ensures Verdict(MutualExclusion(l, r), ternary) <==> NeverBothTrue(l, r, ternary)
  {
    var q := MutualExclusion(l, r);
    PairAtoms(q);
    forall facts: Facts
      ensures Relevant(q, ternary, facts) <==> Tried(Atoms(l) + Atoms(r), ternary, facts)
      ensures q.Holds(facts) <==> (Kleene(l, facts) == True ==> Kleene(r, facts) != True)
    {
    }
  }

  // ----- the queries in terms of one another -----

  /** Equivalence and mutual exclusion do not depend on which operand comes first. */
  lemma {:induction false} SymmetricQueries(l: BoolExpr, r: BoolExpr, ternary: bool)
    ensures Verdict(Equivalence(l, r), ternary) <==> Verdict(Equivalence(r, l), ternary)
    ensures Verdict(MutualExclusion(l, r), ternary) <==> Verdict(MutualExclusion(r, l), ternary)
  {
    EquivalenceInValues(l, r, ternary);
    EquivalenceInValues(r, l, ternary);
    ExclusionInValues(l, r, ternary);
    ExclusionInValues(r, l, ternary);
    assert Atoms(l) + Atoms(r) == Atoms(r) + Atoms(l);
    assert AlwaysSame(l, r, ternary) <==> AlwaysSame(r, l, ternary);
    assert NeverBothTrue(l, r, ternary) <==> NeverBothTrue(r, l, ternary);
  }

  /** Classically an equivalence is the two implications. */
  lemma {:induction false} ClassicalEquivalence(l: BoolExpr, r: BoolExpr)
    ensures Verdict(Equivalence(l, r), false)
       <==> Verdict(Implication(l, r), false) && Verdict(Implication(r, l), false)
  {
    EquivalenceInValues(l, r, false);
    ImplicationInValues(l, r, false);
    ImplicationInValues(r, l, false);
    assert Atoms(l) + Atoms(r) == Atoms(r) + Atoms(l);
    if TrueOnlyWith(l, r, false) && TrueOnlyWith(r, l, false) {
      forall facts: Facts | Tried(Atoms(l) + Atoms(r), false, facts) ensures Kleene(l, facts) == Kleene(r, facts) {
        Decided(l, facts);
        Decided(r, facts);
      }
    }
  }

  /** In three values it is the implications both ways of the operands and of their negations. */
  lemma {:induction false} KleeneEquivalence(l: BoolExpr, r: BoolExpr)
    ensures Verdict(Equivalence(l, r), true)
       <==> && Verdict(Implication(l, r), true) && Verdict(Implication(r, l), true)
            && Verdict(Implication(Not(l), Not(r)), true) && Verdict(Implication(Not(r), Not(l)), true)
  {
    EquivalenceInValues(l, r, true);
    ImplicationInValues(l, r, true);
    ImplicationInValues(r, l, true);
    ImplicationInValues(Not(l), Not(r), true);
    ImplicationInValues(Not(r), Not(l), true);
    assert forall facts: Facts :: Kleene(Not(l), facts) == Kleene(l, facts).Negated();
    assert forall facts: Facts :: Kleene(Not(r), facts) == Kleene(r, facts).Negated();
  }

  /** Mutual exclusion is the contradiction of the conjunction, in either logic. */
  lemma {:induction false} ExclusionIsContradiction(l: BoolExpr, r: BoolExpr, ternary: bool)
    ensures Verdict(MutualExclusion(l, r), ternary) <==> Verdict(Contradiction(All([l, r])), ternary)
  {
    ExclusionInValues(l, r, ternary);
    OneInValues(All([l, r]), ternary);
    PairAtoms(MutualExclusion(l, r));
    assert Atoms(All([l, r])) == Atoms(l) + Atoms(r);
    forall facts: Facts
      ensures Kleene(All([l, r]), facts) == True <==> Kleene(l, facts) == True && Kleene(r, facts) == True
    {
      PairValue(true, l, r, facts);
    }
  }

  /** Classical implication is the tautology of the implication. */
  lemma {:induction false} ClassicalImplication(l: BoolExpr, r: BoolExpr)
    ensures Verdict(Implication(l, r), false) <==> Verdict(Tautology(Implies(l, r)), false)
  {
    ImplicationInValues(l, r, false);
    OneInValues(Implies(l, r), false);
    assert Atoms(Implies(l, r)) == Atoms(l) + Atoms(r);
    forall facts: Facts | Tried(Atoms(l) + Atoms(r), false, facts)
      ensures Kleene(Implies(l, r), facts) == True <==> (Kleene(l, facts) == True ==> Kleene(r, facts) == True)
    {
      Decided(l, facts);
      Decided(r, facts);
    }
  }

  /** Against a constant, implication is a tautology or contradiction query. */
  lemma {:induction false} ConstantImplication(e: BoolExpr, ternary: bool)
    ensures Verdict(Implication(Const(true), e), ternary) <==> Verdict(Tautology(e), ternary)
    ensures Verdict(Implication(e, Const(false)), ternary) <==> Verdict(Contradiction(e), ternary)
  {
    var t, f := Const(true), Const(false);
    ImplicationInValues(t, e, ternary);
    ImplicationInValues(e, f, ternary);
    OneInValues(e, ternary);
    assert Atoms(t) == {} && Atoms(f) == {};
    assert Atoms(t) + Atoms(e) == Atoms(e) && Atoms(e) + Atoms(f) == Atoms(e);
    assert forall facts: Facts :: Kleene(t, facts) == True && Kleene(f, facts) == False;
  }

  /** A classical contradiction is an expression whose negation is a tautology. */
  lemma {:induction false} ClassicalContradiction(e: BoolExpr)
    ensures Verdict(Contradiction(e), false) <==> Verdict(Tautology(Not(e)), false)
  {
    OneInValues(e, false);
    OneInValues(Not(e), false);
    assert Atoms(Not(e)) == Atoms(e);
    forall facts: Facts | Tried(Atoms(e), false, facts)
      ensures Kleene(Not(e), facts) == True <==> Kleene(e, facts) != True
    {
      Decided(e, facts);
    }
  }

  lemma {:induction false} StrongerValues(facts: Facts)
    requires facts == map[0 := true, 1 := false]
    ensures Atoms(Atom(0)) + Atoms(All([Atom(0), Atom(1)])) <= facts.Keys
    ensures Kleene(Atom(0), facts) == True && Kleene(All([Atom(0), Atom(1)]), facts) == False
  {
    PairValue(true, Atom(0), Atom(1), facts);
    PairAtoms(MutualExclusion(Atom(0), Atom(1)));
  }

  /** An expression is not equivalent to a strictly stronger one, in either order and either logic. */
  lemma {:induction false} OneSidedIsNotEquivalent(l: BoolExpr, r: BoolExpr, ternary: bool)
    requires l == Atom(0) && r == All([Atom(0), Atom(1)])
    ensures !Verdict(Equivalence(l, r), ternary) && !Verdict(Equivalence(r, l), ternary)
  {
    var facts: Facts := map[0 := true, 1 := false];
    StrongerValues(facts);
    EquivalenceInValues(l, r, ternary);
    SymmetricQueries(l, r, ternary);
    assert Tried(Atoms(l) + Atoms(r), ternary, facts);
  }
}
