/** What canonicalization does to each kind of node, by what is decided without evidence (`canonical.rs`). */
module RewriteLaws {
  import opened Truth
  import opened Expressions
  import opened Sorting
  import opened Order
  import opened Canonical
  import opened NormalForm
  import opened Liveness

  /** No value without evidence. */
  predicate Undecided(e: BoolExpr) {
    Kleene(e, map[]) == Unknown
  }

  lemma {:induction false} UndecidedIsNoConstant(e: BoolExpr)
    ensures Undecided(e) <==> !Canon(e).Const?
    ensures Kleene(e, map[]) == True ==> Canon(e) == Const(true)
    ensures Kleene(e, map[]) == False ==> Canon(e) == Const(false)
  {
    ConstantExactly(e, true);
    ConstantExactly(e, false);
  }

  /** Double negations cancel, a single one stays, and nothing else is lost. */
  lemma {:induction false} Negations(a: BoolExpr, b: BoolExpr)
    ensures Canon(Not(Not(a))) == Canon(a)
    ensures Undecided(a) && !Canon(a).Not? ==> Canon(Not(a)) == Not(Canon(a))
    ensures Canon(Not(a)) == Canon(Not(b)) <==> Canon(a) == Canon(b)
  {
    CanonIsCanonical(a);
    CanonIsCanonical(b);
    UndecidedIsNoConstant(a);
  }

  /** An exclusive-or with a decided operand is the other operand, negated where the first is True. */
  lemma {:induction false} DecidedXor(a: BoolExpr, b: BoolExpr)
    ensures Kleene(a, map[]) == False ==> Canon(Xor(a, b)) == Canon(b) == Canon(Xor(b, a))
    ensures Kleene(a, map[]) == True ==> Canon(Xor(a, b)) == Canon(Not(b)) == Canon(Xor(b, a))
  {
    UndecidedIsNoConstant(a);
  }

  /** Undecided operands of an exclusive-or are kept as they are, and only their order is forgotten. */
  lemma {:induction false} XorExactly(a: BoolExpr, b: BoolExpr, c: BoolExpr, d: BoolExpr)
    requires Undecided(a) && Undecided(b) && Undecided(c) && Undecided(d)
    ensures Canon(Xor(a, b)) == Xor(Canon(a), Canon(b)) || Canon(Xor(a, b)) == Xor(Canon(b), Canon(a))
    ensures Canon(Xor(a, b)) == Canon(Xor(c, d))
       <==> (Canon(a) == Canon(c) && Canon(b) == Canon(d)) || (Canon(a) == Canon(d) && Canon(b) == Canon(c))
  {
    UndecidedIsNoConstant(a);
    UndecidedIsNoConstant(b);
    UndecidedIsNoConstant(c);
    UndecidedIsNoConstant(d);
    XorCommutes(a, b);
    XorCommutes(c, d);
  }

  /** An implication with a decided side. */
  lemma {:induction false} DecidedImplies(a: BoolExpr, b: BoolExpr)
    ensures Kleene(a, map[]) == True ==> Canon(Implies(a, b)) == Canon(b)
    ensures Kleene(b, map[]) == False ==> Canon(Implies(a, b)) == Canon(Not(a))
    ensures Kleene(a, map[]) == False || Kleene(b, map[]) == True ==> Canon(Implies(a, b)) == Const(true)
  {
    UndecidedIsNoConstant(a);
    UndecidedIsNoConstant(b);
  }

  /** An implication between undecided sides is kept, and keeps its direction. */
  lemma {:induction false} UndecidedImplies(a: BoolExpr, b: BoolExpr)
    requires Undecided(a) && Undecided(b)
    ensures Canon(Implies(a, b)) == Implies(Canon(a), Canon(b))
  {
    UndecidedIsNoConstant(a);
    UndecidedIsNoConstant(b);
  }

  /** An operand gives its canonical form to a group, or the operands of that form if it is a group of the same kind. */
  predicate Gives(conjunction: bool, y: BoolExpr, x: BoolExpr) {
    if IsGroup(conjunction, Canon(y)) then x in Canon(y).items else x == Canon(y)
  }

  /** The canonical form of an undecided group has exactly the operands its undecided operands give it. */
  lemma {:induction false} GroupOperands(conjunction: bool, items: seq<BoolExpr>, x: BoolExpr)
    requires Undecided(Group(conjunction, items))
    ensures (exists y <- items :: Undecided(y) && Gives(conjunction, y, x))
       <==> var c := Canon(Group(conjunction, items));
            if IsGroup(conjunction, c) then x in c.items else x == c
  {
    UndecidedIsNoConstant(Group(conjunction, items));
    DecidedExactly(conjunction, items);
    var unique := GroupForm(conjunction, items);
    OperandsGiven(conjunction, items, x);
    HasMember(unique);
    assert x in unique <==> x in Ops(conjunction, items);
  }

  lemma {:induction false} OperandsGiven(conjunction: bool, items: seq<BoolExpr>, x: BoolExpr)
    requires !Absorbed(conjunction, items)
    ensures x in Ops(conjunction, items) <==> exists y <- items :: Undecided(y) && Gives(conjunction, y, x)
  {
    FlattenedMembers(conjunction, CanonEach(items), x);
    forall y | y in items ensures x in Pieces(conjunction, Canon(y)) <==> Undecided(y) && Gives(conjunction, y, x) {
      UndecidedIsNoConstant(y);
      CanonEachMembers(items, Canon(y));
    }
    if x in Ops(conjunction, items) {
      var z :| z in CanonEach(items) && x in Pieces(conjunction, z);
      CanonEachMembers(items, z);
      var y :| y in items && z == Canon(y);
      assert Undecided(y) && Gives(conjunction, y, x);
    } else {
      forall y | y in items ensures x !in Pieces(conjunction, Canon(y)) {
        CanonEachMembers(items, Canon(y));
      }
    }
  }
}
