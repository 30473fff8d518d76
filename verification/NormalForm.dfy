/** What the normal form forgets (`canonical.rs`): exactly when two groups have the same canonical form. */
module NormalForm {
  import opened Expressions
  import opened Sorting
  import opened Order
  import opened Canonical

  /** The canonical operands of a group, groups of the same kind written in place. */
  function Ops(conjunction: bool, items: seq<BoolExpr>): seq<BoolExpr> {
    Flattened(conjunction, CanonEach(items))
  }

  /** Some operand is canonically the constant that decides the group. */
  predicate Absorbed(conjunction: bool, items: seq<BoolExpr>) {
    Const(!conjunction) in CanonEach(items)
  }

  /** Both groups are decided by an operand, or neither is and their canonical flattened operands form the same set. */
  ghost predicate SameGroup(conjunction: bool, xs: seq<BoolExpr>, ys: seq<BoolExpr>) {
    && (Absorbed(conjunction, xs) <==> Absorbed(conjunction, ys))
    && (Absorbed(conjunction, xs) || SameMembers(Ops(conjunction, xs), Ops(conjunction, ys)))
  }

  lemma {:induction false} OpsAreOperands(conjunction: bool, items: seq<BoolExpr>)
    requires !Absorbed(conjunction, items)
    ensures Operands(conjunction, Ops(conjunction, items))
  {
    forall x | x in CanonEach(items) ensures IsCanonical(x) {
      CanonEachMembers(items, x);
      var y :| y in items && x == Canon(y);
      CanonIsCanonical(y);
    }
    FlattenedOperands(conjunction, CanonEach(items));
  }

  /** What a group is rebuilt from: its operands, sorted and without duplicates. */
  lemma {:induction false} GroupForm(conjunction: bool, items: seq<BoolExpr>) returns (unique: seq<BoolExpr>)
    requires !Absorbed(conjunction, items)
    ensures Canon(Group(conjunction, items)) == Rebuild(conjunction, unique)
    ensures unique == SortDedup(Ops(conjunction, items), ExprLeq)
    ensures SameMembers(unique, Ops(conjunction, items)) && Operands(conjunction, unique)
  {
    unique := SortDedup(Ops(conjunction, items), ExprLeq);
    CanonGroup(conjunction, items);
    CompareIsTotalOrder();
    SortDedupStrict(Ops(conjunction, items), ExprLeq);
    OpsAreOperands(conjunction, items);
  }

  lemma {:induction false} AbsorbedForm(conjunction: bool, items: seq<BoolExpr>)
    requires Absorbed(conjunction, items)
    ensures Canon(Group(conjunction, items)) == Const(!conjunction)
  {
    CanonGroup(conjunction, items);
  }

  /** Rebuilding never makes the deciding constant, and loses nothing. */
  lemma {:induction false} RebuildInjective(conjunction: bool, us: seq<BoolExpr>, vs: seq<BoolExpr>)
    requires Operands(conjunction, us) && Operands(conjunction, vs)
    ensures Rebuild(conjunction, us) != Const(!conjunction)
    ensures Rebuild(conjunction, us) == Rebuild(conjunction, vs) <==> us == vs
  {
    HasMember(us);
    HasMember(vs);
  }

  /**
   The canonical form of an `All` or `Any` is a function of the set of its canonical
   flattened operands, and determines that set.
   */
  lemma {:induction false} GroupExactly(conjunction: bool, xs: seq<BoolExpr>, ys: seq<BoolExpr>)
    ensures Canon(Group(conjunction, xs)) == Canon(Group(conjunction, ys)) <==> SameGroup(conjunction, xs, ys)
  {
    if Absorbed(conjunction, xs) {
      AbsorbedForm(conjunction, xs);
      DecidedExactly(conjunction, ys);
    } else if Absorbed(conjunction, ys) {
      AbsorbedForm(conjunction, ys);
      DecidedExactly(conjunction, xs);
    } else {
      var us := GroupForm(conjunction, xs);
      var vs := GroupForm(conjunction, ys);
      RebuildInjective(conjunction, us, vs);
      if SameMembers(Ops(conjunction, xs), Ops(conjunction, ys)) {
        CompareIsTotalOrder();
        SortDedupBySet(Ops(conjunction, xs), Ops(conjunction, ys), ExprLeq);
      }
    }
  }

  /** A group becomes the deciding constant exactly when an operand is that constant. */
  lemma {:induction false} DecidedExactly(conjunction: bool, items: seq<BoolExpr>)
    ensures Canon(Group(conjunction, items)) == Const(!conjunction) <==> Absorbed(conjunction, items)
  {
    if Absorbed(conjunction, items) {
      AbsorbedForm(conjunction, items);
    } else {
      var unique := GroupForm(conjunction, items);
      RebuildInjective(conjunction, unique, unique);
    }
  }

  // ----- instances -----

  lemma {:induction false} FlattenedMembers(conjunction: bool, items: seq<BoolExpr>, p: BoolExpr)
    ensures p in Flattened(conjunction, items) <==> exists x <- items :: p in Pieces(conjunction, x)
    decreases items
  {
    if items != [] {
      SplitFirst(items);
      FlattenedMembers(conjunction, items[1..], p);
    }
  }

  /** Reordering or duplicating operands changes nothing: only their set matters. */
  lemma {:induction false} GroupBySet(conjunction: bool, xs: seq<BoolExpr>, ys: seq<BoolExpr>)
    requires SameMembers(xs, ys)
    ensures Canon(Group(conjunction, xs)) == Canon(Group(conjunction, ys))
  {
    forall x ensures x in CanonEach(xs) <==> x in CanonEach(ys) {
      CanonEachMembers(xs, x);
      CanonEachMembers(ys, x);
    }
    forall p ensures p in Ops(conjunction, xs) <==> p in Ops(conjunction, ys) {
      FlattenedMembers(conjunction, CanonEach(xs), p);
      FlattenedMembers(conjunction, CanonEach(ys), p);
    }
    GroupExactly(conjunction, xs, ys);
  }

  lemma {:induction false} OpsAppend(conjunction: bool, xs: seq<BoolExpr>, ys: seq<BoolExpr>)
    ensures Ops(conjunction, xs + ys) == Ops(conjunction, xs) + Ops(conjunction, ys)
    ensures Absorbed(conjunction, xs + ys) <==> Absorbed(conjunction, xs) || Absorbed(conjunction, ys)
  {
    CanonEachAppend(xs, ys);
    FlattenedAppend(conjunction, CanonEach(xs), CanonEach(ys));
  }

  /** A group contributes to a group of its kind exactly what its own operands would. */
  lemma {:induction false} OpsOfGroup(conjunction: bool, ys: seq<BoolExpr>)
    ensures SameGroup(conjunction, [Group(conjunction, ys)], ys)
  {
    var g := Group(conjunction, ys);
    assert CanonEach([g]) == [Canon(g)];
    DecidedExactly(conjunction, ys);
    if !Absorbed(conjunction, ys) {
      var unique := GroupForm(conjunction, ys);
      FlattenedOne(conjunction, Canon(g));
      PiecesOfRebuilt(conjunction, unique);
    }
  }

  lemma {:induction false} PiecesOfRebuilt(conjunction: bool, unique: seq<BoolExpr>)
    requires Operands(conjunction, unique)
    ensures Pieces(conjunction, Rebuild(conjunction, unique)) == unique
  {
    HasMember(unique);
  }

  /** A nested group of the same kind is the same as its operands written in place. */
  lemma {:induction false} GroupNesting(conjunction: bool, xs: seq<BoolExpr>, ys: seq<BoolExpr>, zs: seq<BoolExpr>)
    ensures Canon(Group(conjunction, xs + [Group(conjunction, ys)] + zs)) == Canon(Group(conjunction, xs + ys + zs))
  {
    var g := [Group(conjunction, ys)];
    OpsOfGroup(conjunction, ys);
    OpsAppend(conjunction, xs + g, zs);
    OpsAppend(conjunction, xs, g);
    OpsAppend(conjunction, xs + ys, zs);
    OpsAppend(conjunction, xs, ys);
    GroupExactly(conjunction, xs + g + zs, xs + ys + zs);
  }

  /** The operands of an exclusive-or commute. */
  lemma {:induction false} XorCommutes(a: BoolExpr, b: BoolExpr)
    ensures Canon(Xor(a, b)) == Canon(Xor(b, a))
  {
    CompareReverse(Canon(a), Canon(b));
    CompareEqual(Canon(a), Canon(b));
  }
}
