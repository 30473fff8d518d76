/** Canonicalization (`canonical.rs`): a meaning-preserving normal form. */
module Canonical {
  import opened Outcomes
  import opened Truth
  import opened Expressions
  import opened Bounds
  import opened Sorting
  import opened Order

  // ----- the rewrite -----

  function NormalizeNot(e: BoolExpr): BoolExpr {
    match e
    case Const(value) => Const(!value)
    case Not(inner) => inner
    case _ => Not(e)
  }

  /** What one operand contributes to a group of its kind. */
  function Pieces(conjunction: bool, e: BoolExpr): seq<BoolExpr> {
    if e == Const(conjunction) then []
    else if IsGroup(conjunction, e) then e.items
    else [e]
  }

  function Flattened(conjunction: bool, items: seq<BoolExpr>): seq<BoolExpr> {
    if items == [] then [] else Pieces(conjunction, items[0]) + Flattened(conjunction, items[1..])
  }

  /** The smallest group with the given distinct operands. */
  function Rebuild(conjunction: bool, unique: seq<BoolExpr>): BoolExpr {
    if |unique| == 0 then Const(conjunction)
    else if |unique| == 1 then unique[0]
    else Group(conjunction, unique)
  }

  /** `canonicalize_commutative_set`. */
  function CommutativeSet(conjunction: bool, items: seq<BoolExpr>): BoolExpr {
    Rebuild(conjunction, SortDedup(items, ExprLeq))
  }

  /** `normalize_all` and `normalize_any`. */
  function NormalizeGroup(conjunction: bool, items: seq<BoolExpr>): BoolExpr {
    if Const(!conjunction) in items then Const(!conjunction)
    else CommutativeSet(conjunction, Flattened(conjunction, items))
  }

  function NormalizeXor(lhs: BoolExpr, rhs: BoolExpr): BoolExpr {
    if lhs.Const? && rhs.Const? then Const(lhs.value != rhs.value)
    else if lhs == Const(false) then rhs
    else if rhs == Const(false) then lhs
    else if lhs == Const(true) then NormalizeNot(rhs)
    else if rhs == Const(true) then NormalizeNot(lhs)
    else if Compare(lhs, rhs) == Greater then Xor(rhs, lhs)
    else Xor(lhs, rhs)
  }

  function NormalizeImplies(lhs: BoolExpr, rhs: BoolExpr): BoolExpr {
    if lhs == Const(false) then Const(true)
    else if lhs == Const(true) then rhs
    else if rhs == Const(true) then Const(true)
    else if rhs == Const(false) then NormalizeNot(lhs)
    else Implies(lhs, rhs)
  }

  /** The three shapes of a normalized implication. */
  lemma {:induction false} ImpliesShapes(lhs: BoolExpr, rhs: BoolExpr)
    ensures lhs.Const? ==> NormalizeImplies(lhs, rhs) == if lhs.value then rhs else Const(true)
    ensures !lhs.Const? && rhs.Const? ==>
              NormalizeImplies(lhs, rhs) == if rhs.value then Const(true) else NormalizeNot(lhs)
    ensures !lhs.Const? && !rhs.Const? ==> NormalizeImplies(lhs, rhs) == Implies(lhs, rhs)
  {
  }

  /** `canonicalize_validated`. */
  function Canon(e: BoolExpr): BoolExpr
    decreases e
  {
    match e
    case Const(_) | Atom(_) => e
    case Not(inner) => NormalizeNot(Canon(inner))
    case All(_) | Any(_) => NormalizeGroup(e.All?, CanonEach(e.items))
    case Xor(lhs, rhs) => NormalizeXor(Canon(lhs), Canon(rhs))
    case Implies(lhs, rhs) => NormalizeImplies(Canon(lhs), Canon(rhs))
  }

  function CanonEach(items: seq<BoolExpr>): (r: seq<BoolExpr>)
    ensures |r| == |items| && forall i :: 0 <= i < |items| ==> r[i] == Canon(items[i])
    decreases items
  {
    if items == [] then [] else [Canon(items[0])] + CanonEach(items[1..])
  }

  // ----- the rewrite as it is executed -----

  /** The body of `normalize_all` and `normalize_any`: fill a vector, stop at an absorbing constant. */
  method NormalizeOperands(conjunction: bool, expressions: seq<BoolExpr>) returns (r: BoolExpr)
    ensures r == NormalizeGroup(conjunction, expressions)
  {
    var flattened := [];
    for i := 0 to |expressions|
      invariant forall k :: 0 <= k < i ==> expressions[k] != Const(!conjunction)
      invariant flattened == Flattened(conjunction, expressions[..i])
    {
      FlattenedStep(conjunction, expressions, i);
      if expressions[i] == Const(!conjunction) {
        return Const(!conjunction);
      } else if expressions[i] == Const(conjunction) {
      } else if IsGroup(conjunction, expressions[i]) {
        flattened := flattened + expressions[i].items;
      } else {
        flattened := flattened + [expressions[i]];
      }
    }
    assert expressions[..|expressions|] == expressions;
    r := CommutativeSet(conjunction, flattened);
  }

  lemma {:induction false} FlattenedAppend(conjunction: bool, xs: seq<BoolExpr>, ys: seq<BoolExpr>)
    ensures Flattened(conjunction, xs + ys) == Flattened(conjunction, xs) + Flattened(conjunction, ys)
    decreases xs
  {
    if xs == [] {
      assert xs + ys == ys;
    } else {
      FlattenedAppend(conjunction, xs[1..], ys);
      assert (xs + ys)[0] == xs[0] && (xs + ys)[1..] == xs[1..] + ys;
      Assoc(Pieces(conjunction, xs[0]), Flattened(conjunction, xs[1..]), Flattened(conjunction, ys), []);
    }
  }

  lemma {:induction false} FlattenedOne(conjunction: bool, x: BoolExpr)
    ensures Flattened(conjunction, [x]) == Pieces(conjunction, x)
  {
    assert [x][1..] == [];
  }

  lemma {:induction false} FlattenedStep(conjunction: bool, items: seq<BoolExpr>, i: nat)
    requires i < |items|
    ensures Flattened(conjunction, items[..i + 1]) == Flattened(conjunction, items[..i]) + Pieces(conjunction, items[i])
  {
    assert items[..i + 1] == items[..i] + [items[i]];
    FlattenedAppend(conjunction, items[..i], [items[i]]);
    FlattenedOne(conjunction, items[i]);
  }

  method CanonicalizeValidated(e: BoolExpr) returns (r: BoolExpr)
    ensures r == Canon(e)
    decreases e
  {
    match e
    case Const(_) | Atom(_) => r := e;
    case Not(inner) =>
      var c := CanonicalizeValidated(inner);
      r := NormalizeNot(c);
    case All(_) | Any(_) =>
      var operands := [];
      for i := 0 to |e.items|
        invariant |operands| == i && forall k :: 0 <= k < i ==> operands[k] == Canon(e.items[k])
      {
        var c := CanonicalizeValidated(e.items[i]);
        operands := operands + [c];
      }
      assert operands == CanonEach(e.items);
      r := NormalizeOperands(e.All?, operands);
    case Xor(lhs, rhs) =>
      var l := CanonicalizeValidated(lhs);
      var c := CanonicalizeValidated(rhs);
      r := NormalizeXor(l, c);
    case Implies(lhs, rhs) =>
      var l := CanonicalizeValidated(lhs);
      var c := CanonicalizeValidated(rhs);
      r := NormalizeImplies(l, c);
  }

  /** `BoolExpr::canonicalize`. */
  method Canonicalize(e: BoolExpr) returns (r: Policy<BoolExpr>)
    ensures r == CanonicalizeResult(e)
  {
    ScanExact(e, 0, 0, SHAPE_LIMITS);
    var valid, _ := ValidateAtDepth(e, 0, 0, SHAPE_LIMITS);
    if valid.Failure? {
      return Failure(valid.error);
    }
    var c := CanonicalizeValidated(e);
    r := Success(c);
  }

  function CanonicalizeResult(e: BoolExpr): Policy<BoolExpr> {
    var _ :- Scan(e, 0, 0, SHAPE_LIMITS);
    Success(Canon(e))
  }

  // ----- meaning -----

  lemma {:induction false} KleeneListAppend(conjunction: bool, xs: seq<BoolExpr>, ys: seq<BoolExpr>, facts: Facts)
    ensures KleeneList(conjunction, xs + ys, facts)
         == Combine(conjunction, KleeneList(conjunction, xs, facts), KleeneList(conjunction, ys, facts))
    decreases xs
  {
    if xs == [] {
      assert xs + ys == ys;
    } else {
      KleeneListAppend(conjunction, xs[1..], ys, facts);
      assert (xs + ys)[1..] == xs[1..] + ys;
    }
  }

  lemma {:induction false} FlattenedMeaning(conjunction: bool, items: seq<BoolExpr>, facts: Facts)
    ensures KleeneList(conjunction, Flattened(conjunction, items), facts) == KleeneList(conjunction, items, facts)
    decreases items
  {
    if items != [] {
      FlattenedMeaning(conjunction, items[1..], facts);
      KleeneListAppend(conjunction, Pieces(conjunction, items[0]), Flattened(conjunction, items[1..]), facts);
    }
  }

  /** The value of a group is a function of its set of operands. */
  lemma {:induction false} KleeneListBySet(conjunction: bool, xs: seq<BoolExpr>, ys: seq<BoolExpr>, facts: Facts)
    requires SameMembers(xs, ys)
    ensures KleeneList(conjunction, xs, facts) == KleeneList(conjunction, ys, facts)
  {
    KleeneListByMembers(conjunction, xs, facts);
    KleeneListByMembers(conjunction, ys, facts);
  }

  lemma {:induction false} RebuildMeaning(conjunction: bool, unique: seq<BoolExpr>, facts: Facts)
    ensures Kleene(Rebuild(conjunction, unique), facts) == KleeneList(conjunction, unique, facts)
  {
    if |unique| == 1 {
      assert unique[1..] == [];
    }
  }

  lemma {:induction false} CommutativeSetMeaning(conjunction: bool, items: seq<BoolExpr>, facts: Facts)
    ensures Kleene(CommutativeSet(conjunction, items), facts) == KleeneList(conjunction, items, facts)
  {
    CompareIsTotalOrder();
    SortDedupStrict(items, ExprLeq);
    KleeneListBySet(conjunction, SortDedup(items, ExprLeq), items, facts);
    RebuildMeaning(conjunction, SortDedup(items, ExprLeq), facts);
  }

  lemma {:induction false} NormalizeGroupMeaning(conjunction: bool, items: seq<BoolExpr>, facts: Facts)
    ensures Kleene(NormalizeGroup(conjunction, items), facts) == KleeneList(conjunction, items, facts)
  {
    if Const(!conjunction) in items {
      KleeneListByMembers(conjunction, items, facts);
      assert Kleene(Const(!conjunction), facts) == Known(!conjunction);
    } else {
      FlattenedMeaning(conjunction, items, facts);
      CommutativeSetMeaning(conjunction, Flattened(conjunction, items), facts);
    }
  }

  lemma {:induction false} NormalizeNotMeaning(e: BoolExpr, facts: Facts)
    ensures Kleene(NormalizeNot(e), facts) == Kleene(e, facts).Negated()
  {
  }

  /** The forms an exclusive-or is rewritten to, leaving the order of the operands open. */
  predicate XorForm(n: BoolExpr, lhs: BoolExpr, rhs: BoolExpr) {
    if lhs.Const? then n == (if lhs.value then NormalizeNot(rhs) else rhs)
    else if rhs.Const? then n == (if rhs.value then NormalizeNot(lhs) else lhs)
    else n == Xor(lhs, rhs) || n == Xor(rhs, lhs)
  }

  lemma {:induction false} NormalizeXorForm(lhs: BoolExpr, rhs: BoolExpr)
    ensures XorForm(NormalizeXor(lhs, rhs), lhs, rhs)
  {
  }

  lemma {:induction false} XorFormMeaning(n: BoolExpr, lhs: BoolExpr, rhs: BoolExpr, facts: Facts)
    requires XorForm(n, lhs, rhs)
    ensures Kleene(n, facts) == Kleene(lhs, facts).Xor(Kleene(rhs, facts))
  {
    if lhs.Const? {
      NormalizeNotMeaning(rhs, facts);
    } else if rhs.Const? {
      NormalizeNotMeaning(lhs, facts);
    }
  }

  lemma {:induction false} NormalizeImpliesMeaning(lhs: BoolExpr, rhs: BoolExpr, facts: Facts)
    ensures Kleene(NormalizeImplies(lhs, rhs), facts) == Kleene(lhs, facts).Implies(Kleene(rhs, facts))
  {
    NormalizeNotMeaning(lhs, facts);
  }

  /** Canonicalization preserves the three-valued meaning, whatever is known. */
  lemma {:induction false} CanonMeaning(e: BoolExpr, facts: Facts)
    ensures Kleene(Canon(e), facts) == Kleene(e, facts)
    decreases e
  {
    match e
    case Const(_) | Atom(_) =>
    case Not(inner) =>
      CanonMeaning(inner, facts);
      NormalizeNotMeaning(Canon(inner), facts);
    case All(_) | Any(_) =>
      CanonEachMeaning(e.All?, e.items, facts);
      NormalizeGroupMeaning(e.All?, CanonEach(e.items), facts);
    case Xor(lhs, rhs) =>
      CanonMeaning(lhs, facts);
      CanonMeaning(rhs, facts);
      NormalizeXorForm(Canon(lhs), Canon(rhs));
      XorFormMeaning(Canon(e), Canon(lhs), Canon(rhs), facts);
    case Implies(lhs, rhs) =>
      CanonMeaning(lhs, facts);
      CanonMeaning(rhs, facts);
      NormalizeImpliesMeaning(Canon(lhs), Canon(rhs), facts);
  }

  lemma {:induction false} CanonEachMeaning(conjunction: bool, items: seq<BoolExpr>, facts: Facts)
    ensures KleeneList(conjunction, CanonEach(items), facts) == KleeneList(conjunction, items, facts)
    decreases items
  {
    if items != [] {
      CanonMeaning(items[0], facts);
      CanonEachMeaning(conjunction, items[1..], facts);
    }
  }

  // ----- size -----

  /** `a` is no deeper and no larger than `b` and mentions no new atom. */
  ghost predicate NoLarger(a: BoolExpr, b: BoolExpr) {
    Depth(a) <= Depth(b) && Nodes(a) <= Nodes(b) && Atoms(a) <= Atoms(b)
  }

  ghost predicate NoLargerList(xs: seq<BoolExpr>, ys: seq<BoolExpr>) {
    DepthOf(xs) <= DepthOf(ys) && NodesOf(xs) <= NodesOf(ys) && AtomsOf(xs) <= AtomsOf(ys)
  }

  lemma {:induction false} NodesInsert(x: BoolExpr, xs: seq<BoolExpr>)
    ensures NodesOf(Insert(x, xs, ExprLeq)) == Nodes(x) + NodesOf(xs)
    decreases xs
  {
    if xs == [] || ExprLeq(x, xs[0]) {
      assert ([x] + xs)[1..] == xs;
    } else {
      NodesInsert(x, xs[1..]);
    }
  }

  lemma {:induction false} NodesSort(xs: seq<BoolExpr>)
    ensures NodesOf(Sort(xs, ExprLeq)) == NodesOf(xs)
    decreases xs
  {
    if xs != [] {
      NodesSort(xs[1..]);
      NodesInsert(xs[0], Sort(xs[1..], ExprLeq));
    }
  }

  lemma {:induction false} NodesDedup(xs: seq<BoolExpr>)
    ensures NodesOf(Dedup(xs)) <= NodesOf(xs)
    decreases xs
  {
    if |xs| >= 2 {
      NodesDedup(xs[1..]);
    }
  }

  lemma {:induction false} SortDedupNoLarger(xs: seq<BoolExpr>)
    ensures NoLargerList(SortDedup(xs, ExprLeq), xs)
  {
    var ys := SortDedup(xs, ExprLeq);
    CompareIsTotalOrder();
    SortDedupStrict(xs, ExprLeq);
    NodesSort(xs);
    NodesDedup(Sort(xs, ExprLeq));
    DepthByMembers(xs, DepthOf(xs));
    DepthByMembers(ys, DepthOf(xs));
    forall a | a in AtomsOf(ys) ensures a in AtomsOf(xs) {
      AtomsByMembers(ys, a);
      AtomsByMembers(xs, a);
    }
  }

  lemma {:induction false} MeasuresAppend(xs: seq<BoolExpr>, ys: seq<BoolExpr>)
    ensures DepthOf(xs + ys) == Max(DepthOf(xs), DepthOf(ys)) && AtomsOf(xs + ys) == AtomsOf(xs) + AtomsOf(ys)
    decreases xs
  {
    if xs == [] {
      assert xs + ys == ys;
    } else {
      MeasuresAppend(xs[1..], ys);
      assert (xs + ys)[1..] == xs[1..] + ys;
    }
  }

  lemma {:induction false} FlattenedNoLarger(conjunction: bool, items: seq<BoolExpr>)
    ensures NoLargerList(Flattened(conjunction, items), items)
    decreases items
  {
    if items != [] {
      var first, rest := Pieces(conjunction, items[0]), Flattened(conjunction, items[1..]);
      FlattenedNoLarger(conjunction, items[1..]);
      NodesAppend(first, rest);
      MeasuresAppend(first, rest);
    }
  }

  lemma {:induction false} NormalizeGroupNoLarger(conjunction: bool, items: seq<BoolExpr>)
    ensures NoLarger(NormalizeGroup(conjunction, items), Group(conjunction, items))
  {
    FlattenedNoLarger(conjunction, items);
    SortDedupNoLarger(Flattened(conjunction, items));
  }

  lemma {:induction false} NormalizeNotNoLarger(e: BoolExpr)
    ensures NoLarger(NormalizeNot(e), Not(e))
  {
  }

  lemma {:induction false} SwappedXorNoLarger(lhs: BoolExpr, rhs: BoolExpr)
    ensures NoLarger(Xor(lhs, rhs), Xor(lhs, rhs)) && NoLarger(Xor(rhs, lhs), Xor(lhs, rhs))
  {
  }

  lemma {:induction false} XorFormNoLarger(n: BoolExpr, lhs: BoolExpr, rhs: BoolExpr)
    requires XorForm(n, lhs, rhs)
    ensures NoLarger(n, Xor(lhs, rhs))
  {
    if lhs.Const? {
      NormalizeNotNoLarger(rhs);
    } else if rhs.Const? {
      NormalizeNotNoLarger(lhs);
    } else {
      SwappedXorNoLarger(lhs, rhs);
    }
  }

  lemma {:induction false} ImpliesNoLarger(lhs: BoolExpr, rhs: BoolExpr)
    ensures NoLarger(NormalizeImplies(lhs, rhs), Implies(lhs, rhs))
  {
    if !lhs.Const? && rhs == Const(false) {
      NormalizeNotNoLarger(lhs);
    }
  }

  lemma {:induction false} GroupCanonNoLarger(conjunction: bool, items: seq<BoolExpr>)
    requires NoLargerList(CanonEach(items), items)
    ensures NoLarger(Canon(Group(conjunction, items)), Group(conjunction, items))
  {
    NormalizeGroupNoLarger(conjunction, CanonEach(items));
  }

  lemma {:induction false} XorCanonNoLarger(lhs: BoolExpr, rhs: BoolExpr)
    requires NoLarger(Canon(lhs), lhs) && NoLarger(Canon(rhs), rhs)
    ensures NoLarger(Canon(Xor(lhs, rhs)), Xor(lhs, rhs))
  {
    NormalizeXorForm(Canon(lhs), Canon(rhs));
    XorFormNoLarger(Canon(Xor(lhs, rhs)), Canon(lhs), Canon(rhs));
  }

  lemma {:induction false} ImpliesCanonNoLarger(lhs: BoolExpr, rhs: BoolExpr)
    requires NoLarger(Canon(lhs), lhs) && NoLarger(Canon(rhs), rhs)
    ensures NoLarger(Canon(Implies(lhs, rhs)), Implies(lhs, rhs))
  {
    ImpliesNoLarger(Canon(lhs), Canon(rhs));
  }

  /** Neither depth nor node count ever grows, and no atom appears. */
  lemma {:induction false} CanonNoLarger(e: BoolExpr)
    ensures NoLarger(Canon(e), e)
    decreases e
  {
    match e
    case Const(_) | Atom(_) =>
    case Not(inner) =>
      CanonNoLarger(inner);
      NormalizeNotNoLarger(Canon(inner));
    case All(_) | Any(_) =>
      CanonEachNoLarger(e.items);
      GroupCanonNoLarger(e.All?, e.items);
      assert e == Group(e.All?, e.items);
    case Xor(lhs, rhs) =>
      CanonNoLarger(lhs);
      CanonNoLarger(rhs);
      XorCanonNoLarger(lhs, rhs);
    case Implies(lhs, rhs) =>
      CanonNoLarger(lhs);
      CanonNoLarger(rhs);
      ImpliesCanonNoLarger(lhs, rhs);
  }

  lemma {:induction false} CanonEachNoLarger(items: seq<BoolExpr>)
    ensures NoLargerList(CanonEach(items), items)
    decreases items
  {
    if items != [] {
      CanonNoLarger(items[0]);
      CanonEachNoLarger(items[1..]);
    }
  }

  // ----- the normal form -----

  /** The shape canonicalization produces, stated without running it. */
  ghost predicate IsCanonical(e: BoolExpr)
    decreases e
  {
    match e
    case Const(_) | Atom(_) => true
    case Not(inner) => IsCanonical(inner) && !inner.Const? && !inner.Not?
    case All(_) | Any(_) =>
      && |e.items| >= 2
      && Strict(e.items, ExprLeq)
      && forall x <- e.items :: IsCanonical(x) && !x.Const? && !IsGroup(e.All?, x)
    case Xor(lhs, rhs) => IsCanonical(lhs) && IsCanonical(rhs) && !lhs.Const? && !rhs.Const? && ExprLeq(lhs, rhs)
    case Implies(lhs, rhs) => IsCanonical(lhs) && IsCanonical(rhs) && !lhs.Const? && !rhs.Const?
  }

  /** Operands ready to be sorted: canonical, not constant, not a group of the same kind. */
  ghost predicate Operands(conjunction: bool, items: seq<BoolExpr>) {
    forall x <- items :: IsCanonical(x) && !x.Const? && !IsGroup(conjunction, x)
  }

  lemma {:induction false} FlattenedOperands(conjunction: bool, items: seq<BoolExpr>)
    requires Const(!conjunction) !in items && forall x <- items :: IsCanonical(x)
    ensures Operands(conjunction, Flattened(conjunction, items))
    decreases items
  {
    if items != [] {
      SplitFirst(items);
      FlattenedOperands(conjunction, items[1..]);
    }
  }

  lemma {:induction false} CommutativeSetCanonical(conjunction: bool, items: seq<BoolExpr>)
    requires Operands(conjunction, items)
    ensures IsCanonical(CommutativeSet(conjunction, items))
  {
    CompareIsTotalOrder();
    SortDedupStrict(items, ExprLeq);
    HasMember(SortDedup(items, ExprLeq));
  }

  lemma {:induction false} NormalizeNotCanonical(e: BoolExpr)
    requires IsCanonical(e)
    ensures IsCanonical(NormalizeNot(e))
  {
  }

  /** Neither operand being constant, the pair is put in order. */
  lemma {:induction false} OrderedXorCanonical(lhs: BoolExpr, rhs: BoolExpr)
    requires IsCanonical(lhs) && IsCanonical(rhs) && !lhs.Const? && !rhs.Const?
    ensures IsCanonical(NormalizeXor(lhs, rhs))
  {
    CompareReverse(lhs, rhs);
    assert ExprLeq(lhs, rhs) || ExprLeq(rhs, lhs);
  }

  lemma {:induction false} XorCanonical(lhs: BoolExpr, rhs: BoolExpr)
    requires IsCanonical(lhs) && IsCanonical(rhs)
    ensures IsCanonical(NormalizeXor(lhs, rhs))
  {
    if lhs.Const? {
      NormalizeNotCanonical(rhs);
    } else if rhs.Const? {
      NormalizeNotCanonical(lhs);
    } else {
      OrderedXorCanonical(lhs, rhs);
    }
  }

  /** The output of canonicalization is in normal form. */
  lemma {:induction false} CanonIsCanonical(e: BoolExpr)
    ensures IsCanonical(Canon(e))
    decreases e
  {
    match e
    case Const(_) | Atom(_) =>
    case Not(inner) => CanonIsCanonical(inner);
    case All(_) | Any(_) =>
      var items := CanonEach(e.items);
      forall i | 0 <= i < |items| ensures IsCanonical(items[i]) { CanonIsCanonical(e.items[i]); }
      if Const(!e.All?) !in items {
        FlattenedOperands(e.All?, items);
        CommutativeSetCanonical(e.All?, Flattened(e.All?, items));
      }
    case Xor(lhs, rhs) =>
      CanonIsCanonical(lhs);
      CanonIsCanonical(rhs);
      XorCanonical(Canon(lhs), Canon(rhs));
    case Implies(lhs, rhs) =>
      CanonIsCanonical(lhs);
      CanonIsCanonical(rhs);
  }

  lemma {:induction false} FlattenedFixed(conjunction: bool, items: seq<BoolExpr>)
    requires Operands(conjunction, items)
    ensures Flattened(conjunction, items) == items
    decreases items
  {
    if items != [] {
      SplitFirst(items);
      FlattenedFixed(conjunction, items[1..]);
    }
  }

  lemma {:induction false} CanonFixed(e: BoolExpr)
    requires IsCanonical(e)
    ensures Canon(e) == e
    decreases e
  {
    match e
    case Const(_) | Atom(_) =>
    case Not(inner) => CanonFixed(inner);
    case All(_) | Any(_) =>
      forall i | 0 <= i < |e.items| ensures Canon(e.items[i]) == e.items[i] {
        assert e.items[i] in e.items;
        CanonFixed(e.items[i]);
      }
      assert CanonEach(e.items) == e.items;
      CommutativeSetFixed(e.All?, e.items);
    case Xor(_, _) | Implies(_, _) =>
      CanonFixed(e.lhs);
      CanonFixed(e.rhs);
  }

  lemma {:induction false} CommutativeSetFixed(conjunction: bool, items: seq<BoolExpr>)
    requires |items| >= 2 && Strict(items, ExprLeq) && Operands(conjunction, items)
    ensures NormalizeGroup(conjunction, items) == Group(conjunction, items)
  {
    FlattenedFixed(conjunction, items);
    CompareIsTotalOrder();
    SortDedupFixed(items, ExprLeq);
  }

  /** An expression is in normal form exactly when canonicalization leaves it alone. */
  lemma {:induction false} CanonicalIffFixed(e: BoolExpr)
    ensures IsCanonical(e) <==> Canon(e) == e
  {
    CanonIsCanonical(e);
    if IsCanonical(e) {
      CanonFixed(e);
    }
  }

  /** `canonicalize` of its own output succeeds and changes nothing. */
  lemma {:induction false} CanonicalizeIdempotent(e: BoolExpr)
    requires CanonicalizeResult(e).Success?
    ensures CanonicalizeResult(CanonicalizeResult(e).value) == CanonicalizeResult(e)
  {
    ScanExact(e, 0, 0, SHAPE_LIMITS);
    CanonNoLarger(e);
    ScanExact(Canon(e), 0, 0, SHAPE_LIMITS);
    CanonIsCanonical(e);
    CanonicalIffFixed(Canon(e));
  }

  // ----- canonical operands -----

  lemma {:induction false} CanonEachMembers(items: seq<BoolExpr>, c: BoolExpr)
    ensures c in CanonEach(items) <==> exists x <- items :: c == Canon(x)
  {
    if c in CanonEach(items) {
      var i :| 0 <= i < |items| && CanonEach(items)[i] == c;
      assert items[i] in items;
    }
    if x :| x in items && c == Canon(x) {
      var i :| 0 <= i < |items| && items[i] == x;
      assert CanonEach(items)[i] == c;
    }
  }

  lemma {:induction false} CanonGroup(conjunction: bool, items: seq<BoolExpr>)
    ensures Canon(Group(conjunction, items)) == NormalizeGroup(conjunction, CanonEach(items))
  {
  }

  lemma {:induction false} CanonEachAppend(xs: seq<BoolExpr>, ys: seq<BoolExpr>)
    ensures CanonEach(xs + ys) == CanonEach(xs) + CanonEach(ys)
  {
  }
}
