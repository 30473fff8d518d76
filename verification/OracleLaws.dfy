/** How the classical and the three-valued answers relate, and redundancy of clauses. */
module OracleLaws {
  import opened Outcomes
  import opened Lists
  import opened Truth
  import opened Expressions
  import opened Bounds
  import opened Oracle
  import opened KleeneOracle
  import opened BooleanOracle
  import opened Order
  import opened Canonical
  import opened Liveness
  import FastGuard

  // ----- preparation -----

  lemma {:induction false} SpacesOrdered(n: nat)
    ensures Space(false, n) <= Space(true, n)
  {
    if n > 0 {
      SpacesOrdered(n - 1);
    }
  }

  /** Under the same limits, whatever the three-valued oracle accepts the classical one accepts. */
  lemma {:induction false} KleeneAcceptsImpliesBooleanAccepts(limits: OracleLimits, operands: seq<BoolExpr>)
    requires limits.Valid() && Prepare(limits, operands, true).Success?
    ensures Prepare(limits, operands, false).Success?
  {
    var n := |Sorted(AtomsOf(operands), FAST_PREDICATE_CAPACITY)|;
    SpaceExact(n, limits.maxAssignments);
    SpacesOrdered(n);
  }

  // ----- verdicts -----

  /** A three-valued verdict covers the classical one. */
  lemma {:induction false} KleeneVerdictImpliesBoolean(q: Query)
    requires Verdict(q, true)
    ensures Verdict(q, false)
  {
    forall facts: Facts | Relevant(q, false, facts) ensures q.Holds(facts) {
      assert Relevant(q, true, facts);
    }
  }

  /** `facts` with every other id of `ids` decided, arbitrarily. */
  function Completion(facts: Facts, ids: set<nat>): Facts {
    (map id <- ids :: true) + facts
  }

  /** Contradiction and mutual exclusion, and so satisfiability, have the same answer in both logics. */
  lemma {:induction false} NeverTrueAgrees(q: Query)
    requires q.Contradiction? || q.MutualExclusion?
    ensures Verdict(q, true) <==> Verdict(q, false)
  {
    if Verdict(q, true) {
      KleeneVerdictImpliesBoolean(q);
    }
    if Verdict(q, false) {
      forall facts: Facts ensures q.Holds(facts) {
        var total := Completion(facts, AtomsOf(q.Operands()));
        assert Relevant(q, false, total);
        Monotone(q.lhs, facts, total);
        if q.MutualExclusion? {
          Monotone(q.rhs, facts, total);
        }
        assert q.Holds(total);
      }
    }
  }

  /** The mask test for a dead guard gives the answer of the exhaustive contradiction query, in either logic. */
  lemma {:induction false} DeadGuardAgrees(guard: FastGuard.CompiledGuard, e: BoolExpr, ternary: bool)
    requires guard.Represents(e) && guard.UsesMaskFastPath()
    ensures guard.IsContradictory() <==> Verdict(Contradiction(e), ternary)
  {
    FastGuard.ContradictoryIffNeverTrue(guard, e);
    NeverTrueAgrees(Contradiction(e));
    SatisfiableIffNotContradiction(e);
  }

  /** A three-valued tautology is exactly an expression that is already True without any evidence. */
  lemma {:induction false} TautologyIffTrueOnNothing(e: BoolExpr)
    ensures Verdict(Tautology(e), true) <==> Kleene(e, map[]) == True
  {
    if Verdict(Tautology(e), true) {
      assert Relevant(Tautology(e), true, map[]);
      assert Tautology(e).Holds(map[]);
    } else {
      var facts: Facts :| !Tautology(e).Holds(facts);
      Monotone(e, map[], facts);
    }
  }

  /** The canonicalizer finds every three-valued tautology, and nothing else becomes True. */
  lemma {:induction false} TautologyIffCanonicalTrue(e: BoolExpr)
    ensures Verdict(Tautology(e), true) <==> Canon(e) == Const(true)
  {
    TautologyIffTrueOnNothing(e);
    ConstantExactly(e, true);
  }

  /** Expressions with one canonical form are equivalent, so equal canonical forms decide equivalence soundly. */
  lemma {:induction false} SameCanonicalFormEquivalent(e: BoolExpr, f: BoolExpr)
    requires Canon(e) == Canon(f)
    ensures Verdict(Equivalence(e, f), true)
  {
    forall facts: Facts ensures Equivalence(e, f).Holds(facts) {
      CanonMeaning(e, facts);
      CanonMeaning(f, facts);
    }
  }

  /** They do not decide it completely: absorption is an equivalence the canonical form does not see. */
  lemma {:induction false} AbsorptionIsNotFolded()
    ensures var e, f := All([Atom(0), Any([Atom(0), Atom(1)])]), Atom(0);
            Verdict(Equivalence(e, f), true) && Canon(e) != Canon(f)
  {
    var e, f := All([Atom(0), Any([Atom(0), Atom(1)])]), Atom(0);
    AbsorptionIsCanonical();
    CanonFixed(e);
    forall facts: Facts ensures Equivalence(e, f).Holds(facts) {
      AbsorptionValue(facts);
    }
  }

  lemma {:induction false} AbsorptionIsCanonical()
    ensures IsCanonical(All([Atom(0), Any([Atom(0), Atom(1)])]))
  {
    PairCanonical(false, Atom(0), Atom(1));
    PairCanonical(true, Atom(0), Any([Atom(0), Atom(1)]));
  }

  lemma {:induction false} AbsorptionValue(facts: Facts)
    ensures Kleene(All([Atom(0), Any([Atom(0), Atom(1)])]), facts) == Kleene(Atom(0), facts)
  {
    PairValue(false, Atom(0), Atom(1), facts);
    PairValue(true, Atom(0), Any([Atom(0), Atom(1)]), facts);
  }

  lemma {:induction false} PairCanonical(conjunction: bool, x: BoolExpr, y: BoolExpr)
    requires IsCanonical(x) && IsCanonical(y) && !x.Const? && !y.Const?
    requires !IsGroup(conjunction, x) && !IsGroup(conjunction, y) && Compare(x, y) == Less
    ensures IsCanonical(Group(conjunction, [x, y]))
  {
    CompareEqual(x, y);
  }

  lemma {:induction false} PairValue(conjunction: bool, x: BoolExpr, y: BoolExpr, facts: Facts)
    ensures Kleene(Group(conjunction, [x, y]), facts)
         == Combine(conjunction, Kleene(x, facts), Kleene(y, facts))
  {
    assert [x, y][1..] == [y] && [y][1..] == [];
    assert KleeneList(conjunction, [y], facts) == Kleene(y, facts);
  }

  /**
   The converse of KleeneVerdictImpliesBoolean fails for tautology, implication and
   equivalence: excluded middle is classical.
   */
  lemma {:induction false} ExcludedMiddleIsOnlyClassical()
    ensures var e := Any([Atom(0), Not(Atom(0))]); var t := Const(true);
            && Verdict(Tautology(e), false) && !Verdict(Tautology(e), true)
            && Verdict(Equivalence(e, t), false) && !Verdict(Equivalence(e, t), true)
            && Verdict(Implication(t, e), false) && !Verdict(Implication(t, e), true)
  {
    var e, t := Any([Atom(0), Not(Atom(0))]), Const(true);
    assert e.items[1..] == [Not(Atom(0))] && e.items[1..][1..] == [];
    forall facts: Facts ensures Kleene(e, facts) == if 0 in facts then True else Unknown {
      assert KleeneList(false, e.items[1..], facts) == Kleene(Not(Atom(0)), facts).Or(False);
    }
    forall facts: Facts, q: Query | q == Tautology(e) || q == Equivalence(e, t) || q == Implication(t, e)
      ensures Relevant(q, false, facts) ==> 0 in facts
    {
      OperandAtoms(q);
      assert 0 in Atoms(e);
    }
    assert !Tautology(e).Holds(map[]) && !Equivalence(e, t).Holds(map[]) && !Implication(t, e).Holds(map[]);
    assert Relevant(Tautology(e), true, map[]);
    assert Relevant(Equivalence(e, t), true, map[]) && Relevant(Implication(t, e), true, map[]);
  }

  // ----- redundancy -----

  /** The filtering loop of the redundancy query. */
  method DropIndex(clauses: seq<BoolExpr>, index: nat) returns (kept: seq<BoolExpr>)
    requires index < |clauses|
    ensures kept == Without(clauses, index)
  {
    kept := [];
    for i := 0 to |clauses|
      invariant kept == if i <= index then clauses[..i] else Without(clauses[..i], index)
    {
      WithoutStep(clauses, index, i);
      if i != index {
        kept := kept + [clauses[i]];
      }
    }
    assert clauses[..|clauses|] == clauses;
  }

  /** The question a redundancy query asks. */
  function Redundancy(clauses: seq<BoolExpr>, index: nat): Query
    requires index < |clauses|
  {
    Equivalence(All(clauses), All(Without(clauses, index)))
  }

  /** `conjunction_clause_redundancy` of either oracle. */
  method ClauseRedundancy(limits: OracleLimits, clauses: seq<BoolExpr>, index: nat, ternary: bool)
    returns (r: Policy<Report>)
    requires limits.Valid()
    ensures index >= |clauses| ==> r == Failure(ClauseOutOfRange(index, |clauses|))
    ensures index < |clauses| ==>
              match Prepare(limits, Redundancy(clauses, index).Operands(), ternary)
              case Failure(error) => r == Failure(error)
              case Success(d) => r.Success? && FirstRefutation(r.value, Redundancy(clauses, index), d, ternary)
                                 && (r.value.found == None <==> Verdict(Redundancy(clauses, index), ternary))
  {
    if index >= |clauses| {
      return Failure(ClauseOutOfRange(index, |clauses|));
    }
    var kept := DropIndex(clauses, index);
    var q := Equivalence(All(clauses), All(kept));
    if ternary {
      r := KleeneUniversal(limits, q);
    } else {
      r := BooleanUniversal(limits, q);
    }
  }

  lemma {:induction false} DropClause(clauses: seq<BoolExpr>, index: nat, facts: Facts)
    requires index < |clauses|
    ensures KleeneList(true, clauses, facts)
         == Kleene(clauses[index], facts).And(KleeneList(true, Without(clauses, index), facts))
    decreases index
  {
    if index == 0 {
      assert Without(clauses, 0) == clauses[1..];
    } else {
      DropClause(clauses[1..], index - 1, facts);
      assert Without(clauses, index)[1..] == Without(clauses[1..], index - 1);
    }
  }

  lemma {:induction false} DropAtoms(clauses: seq<BoolExpr>, index: nat)
    requires index < |clauses|
    ensures AtomsOf(clauses) == Atoms(clauses[index]) + AtomsOf(Without(clauses, index))
    decreases index
  {
    if index == 0 {
      assert Without(clauses, 0) == clauses[1..];
    } else {
      DropAtoms(clauses[1..], index - 1);
      assert Without(clauses, index)[1..] == Without(clauses[1..], index - 1);
    }
  }

  /** The other clauses are no higher than this one in the order False, Unknown, True. */
  ghost predicate NeverAbove(clauses: seq<BoolExpr>, index: nat, facts: Facts)
    requires index < |clauses|
  {
    Level(Kleene(All(Without(clauses, index)), facts)) <= Level(Kleene(clauses[index], facts))
  }

  /** In three values a clause is redundant exactly when the other clauses never rise above it in the truth order. */
  lemma {:induction false} RedundantIffNeverAbove(clauses: seq<BoolExpr>, index: nat)
    requires index < |clauses|
    ensures Verdict(Redundancy(clauses, index), true) <==> forall facts: Facts :: NeverAbove(clauses, index, facts)
  {
    var q := Redundancy(clauses, index);
    forall facts: Facts ensures Relevant(q, true, facts) && (q.Holds(facts) <==> NeverAbove(clauses, index, facts)) {
      DropClause(clauses, index, facts);
    }
  }

  /** Classically that is implication: a clause is redundant exactly when the other clauses imply it. */
  lemma {:induction false} ClassicallyRedundantIffImplied(clauses: seq<BoolExpr>, index: nat)
    requires index < |clauses|
    ensures Verdict(Redundancy(clauses, index), false)
       <==> Verdict(Implication(All(Without(clauses, index)), clauses[index]), false)
  {
    var q, others := Redundancy(clauses, index), All(Without(clauses, index));
    var i := Implication(others, clauses[index]);
    forall facts: Facts
      ensures Relevant(q, false, facts) <==> Relevant(i, false, facts)
      ensures Relevant(q, false, facts) ==> (q.Holds(facts) <==> i.Holds(facts))
    {
      PairAtoms(q);
      PairAtoms(i);
      DropAtoms(clauses, index);
      DropClause(clauses, index, facts);
      if Relevant(q, false, facts) {
        Decided(others, facts);
        Decided(clauses[index], facts);
      }
    }
  }

  lemma {:induction false} PairAtoms(q: Query)
    requires |q.Operands()| == 2
    ensures AtomsOf(q.Operands()) == Atoms(q.lhs) + Atoms(q.rhs)
  {
    assert q.Operands()[1..] == [q.rhs] && [q.rhs][1..] == [];
    assert AtomsOf([q.rhs]) == Atoms(q.rhs);
  }

  /** In three values redundancy still gives the implication. */
  lemma {:induction false} RedundantImpliesImplied(clauses: seq<BoolExpr>, index: nat)
    requires index < |clauses| && Verdict(Redundancy(clauses, index), true)
    ensures Verdict(Implication(All(Without(clauses, index)), clauses[index]), true)
  {
    RedundantIffNeverAbove(clauses, index);
    var i := Implication(All(Without(clauses, index)), clauses[index]);
    forall facts: Facts ensures i.Holds(facts) {
      assert NeverAbove(clauses, index, facts);
    }
  }

  /** But not conversely: a contradiction implies every clause, and while it is Unknown a False clause still matters. */
  lemma {:induction false} ImpliedIsNotRedundant()
    ensures var clauses := [Atom(0), Not(Atom(0)), Atom(1)];
            && Verdict(Implication(All(Without(clauses, 2)), clauses[2]), true)
            && !Verdict(Redundancy(clauses, 2), true)
  {
    var clauses := [Atom(0), Not(Atom(0)), Atom(1)];
    var others := Without(clauses, 2);
    assert others == [Atom(0), Not(Atom(0))] && others[1..] == [Not(Atom(0))] && others[1..][1..] == [];
    forall facts: Facts ensures KleeneList(true, others, facts) == Lookup(facts, 0).And(Lookup(facts, 0).Negated()) {
      assert KleeneList(true, others[1..], facts) == Kleene(Not(Atom(0)), facts).And(True);
    }
    assert !NeverAbove(clauses, 2, map[1 := false]);
    RedundantIffNeverAbove(clauses, 2);
  }
}
