/** Fingerprints depend on stable keys, not on the registry that numbers them. */
module Registries {
  import opened Outcomes
  import opened Expressions
  import opened Bounds
  import opened Sorting
  import opened Order
  import opened Predicates
  import opened Canonical
  import opened Encoding
  import opened Fingerprint
  import opened Liveness

  // ----- renaming ids -----

  function Rename(e: BoolExpr, ids: map<nat, nat>): BoolExpr
    requires Atoms(e) <= ids.Keys
    decreases e
  {
    match e
    case Const(_) => e
    case Atom(id) => Atom(ids[id])
    case Not(inner) => Not(Rename(inner, ids))
    case All(_) | Any(_) => Group(e.All?, RenameEach(e.items, ids))
    case Xor(lhs, rhs) => Xor(Rename(lhs, ids), Rename(rhs, ids))
    case Implies(lhs, rhs) => Implies(Rename(lhs, ids), Rename(rhs, ids))
  }

  function RenameEach(items: seq<BoolExpr>, ids: map<nat, nat>): (r: seq<BoolExpr>)
    requires AtomsOf(items) <= ids.Keys
    ensures |r| == |items|
    decreases items
  {
    if items == [] then [] else [Rename(items[0], ids)] + RenameEach(items[1..], ids)
  }

  ghost predicate Monotone(ids: map<nat, nat>) {
    forall i, j :: i in ids && j in ids && i < j ==> ids[i] < ids[j]
  }

  lemma {:induction false} CompareRenamed(a: BoolExpr, b: BoolExpr, ids: map<nat, nat>)
    requires Monotone(ids) && Atoms(a) <= ids.Keys && Atoms(b) <= ids.Keys
    ensures Compare(Rename(a, ids), Rename(b, ids)) == Compare(a, b)
    decreases a
  {
    if Rank(a) == Rank(b) {
      match a
      case Const(_) =>
      case Atom(_) =>
      case Not(inner) => CompareRenamed(inner, b.inner, ids);
      case All(_) | Any(_) => CompareListRenamed(a.items, b.items, ids);
      case Xor(_, _) | Implies(_, _) =>
        CompareRenamed(a.lhs, b.lhs, ids);
        CompareRenamed(a.rhs, b.rhs, ids);
    }
  }

  lemma {:induction false} CompareListRenamed(a: seq<BoolExpr>, b: seq<BoolExpr>, ids: map<nat, nat>)
    requires Monotone(ids) && AtomsOf(a) <= ids.Keys && AtomsOf(b) <= ids.Keys
    ensures CompareList(RenameEach(a, ids), RenameEach(b, ids)) == CompareList(a, b)
    decreases a
  {
    if a != [] && b != [] {
      CompareRenamed(a[0], b[0], ids);
      CompareListRenamed(a[1..], b[1..], ids);
    }
  }

  /** Monotone renaming keeps different expressions different. */
  lemma {:induction false} RenameInjective(a: BoolExpr, b: BoolExpr, ids: map<nat, nat>)
    requires Monotone(ids) && Atoms(a) <= ids.Keys && Atoms(b) <= ids.Keys
    ensures Rename(a, ids) == Rename(b, ids) <==> a == b
  {
    CompareRenamed(a, b, ids);
    CompareEqual(a, b);
    CompareEqual(Rename(a, ids), Rename(b, ids));
  }

  // ----- renaming commutes with every step of canonicalization -----

  lemma {:induction false} RenameCons(x: BoolExpr, xs: seq<BoolExpr>, ids: map<nat, nat>)
    requires Atoms(x) <= ids.Keys && AtomsOf(xs) <= ids.Keys
    ensures AtomsOf([x] + xs) <= ids.Keys
    ensures RenameEach([x] + xs, ids) == [Rename(x, ids)] + RenameEach(xs, ids)
  {
    assert ([x] + xs)[1..] == xs;
  }

  lemma {:induction false} RenameAppend(xs: seq<BoolExpr>, ys: seq<BoolExpr>, ids: map<nat, nat>)
    requires AtomsOf(xs) <= ids.Keys && AtomsOf(ys) <= ids.Keys
    ensures AtomsOf(xs + ys) <= ids.Keys
    ensures RenameEach(xs + ys, ids) == RenameEach(xs, ids) + RenameEach(ys, ids)
    decreases xs
  {
    if xs == [] {
      assert xs + ys == ys;
    } else {
      RenameAppend(xs[1..], ys, ids);
      RenameCons(xs[0], xs[1..] + ys, ids);
      assert xs + ys == [xs[0]] + (xs[1..] + ys);
      Assoc([Rename(xs[0], ids)], RenameEach(xs[1..], ids), RenameEach(ys, ids), []);
    }
  }

  lemma {:induction false} InsertRenamed(x: BoolExpr, xs: seq<BoolExpr>, ids: map<nat, nat>)
    requires Monotone(ids) && Atoms(x) <= ids.Keys && AtomsOf(xs) <= ids.Keys
    ensures AtomsOf(Insert(x, xs, ExprLeq)) <= ids.Keys
    ensures Insert(Rename(x, ids), RenameEach(xs, ids), ExprLeq) == RenameEach(Insert(x, xs, ExprLeq), ids)
    decreases xs
  {
    if xs == [] {
      assert [x][1..] == [];
    } else {
      CompareRenamed(x, xs[0], ids);
      if ExprLeq(x, xs[0]) {
        RenameAppend([x], xs, ids);
        assert ([x] + xs)[1..] == xs;
      } else {
        InsertRenamed(x, xs[1..], ids);
      }
    }
  }

  lemma {:induction false} SortRenamed(xs: seq<BoolExpr>, ids: map<nat, nat>)
    requires Monotone(ids) && AtomsOf(xs) <= ids.Keys
    ensures AtomsOf(Sort(xs, ExprLeq)) <= ids.Keys
    ensures Sort(RenameEach(xs, ids), ExprLeq) == RenameEach(Sort(xs, ExprLeq), ids)
    decreases xs
  {
    if xs != [] {
      SortRenamed(xs[1..], ids);
      InsertRenamed(xs[0], Sort(xs[1..], ExprLeq), ids);
    }
  }

  lemma {:induction false} DedupRenamed(xs: seq<BoolExpr>, ids: map<nat, nat>)
    requires Monotone(ids) && AtomsOf(xs) <= ids.Keys
    ensures AtomsOf(Dedup(xs)) <= ids.Keys
    ensures Dedup(RenameEach(xs, ids)) == RenameEach(Dedup(xs), ids)
    decreases xs
  {
    if |xs| >= 2 {
      RenameInjective(xs[0], xs[1], ids);
      DedupRenamed(xs[1..], ids);
      assert RenameEach(xs, ids)[1..] == RenameEach(xs[1..], ids);
    }
  }

  lemma {:induction false} PiecesRenamed(conjunction: bool, e: BoolExpr, ids: map<nat, nat>)
    requires Atoms(e) <= ids.Keys
    ensures AtomsOf(Pieces(conjunction, e)) <= ids.Keys
    ensures Pieces(conjunction, Rename(e, ids)) == RenameEach(Pieces(conjunction, e), ids)
  {
    assert [e][1..] == [];
  }

  lemma {:induction false} FlattenedRenamed(conjunction: bool, items: seq<BoolExpr>, ids: map<nat, nat>)
    requires AtomsOf(items) <= ids.Keys
    ensures AtomsOf(Flattened(conjunction, items)) <= ids.Keys
    ensures Flattened(conjunction, RenameEach(items, ids)) == RenameEach(Flattened(conjunction, items), ids)
    decreases items
  {
    if items != [] {
      FlattenedRenamed(conjunction, items[1..], ids);
      PiecesRenamed(conjunction, items[0], ids);
      RenameAppend(Pieces(conjunction, items[0]), Flattened(conjunction, items[1..]), ids);
    }
  }

  lemma {:induction false} CommutativeSetRenamed(conjunction: bool, items: seq<BoolExpr>, ids: map<nat, nat>)
    requires Monotone(ids) && AtomsOf(items) <= ids.Keys
    ensures Atoms(CommutativeSet(conjunction, items)) <= ids.Keys
    ensures CommutativeSet(conjunction, RenameEach(items, ids)) == Rename(CommutativeSet(conjunction, items), ids)
  {
    SortRenamed(items, ids);
    DedupRenamed(Sort(items, ExprLeq), ids);
    RebuildRenamed(conjunction, SortDedup(items, ExprLeq), ids);
  }

  lemma {:induction false} RebuildRenamed(conjunction: bool, unique: seq<BoolExpr>, ids: map<nat, nat>)
    requires AtomsOf(unique) <= ids.Keys
    ensures Atoms(Rebuild(conjunction, unique)) <= ids.Keys
    ensures Rebuild(conjunction, RenameEach(unique, ids)) == Rename(Rebuild(conjunction, unique), ids)
  {
  }

  lemma {:induction false} ConstRenamed(c: bool, items: seq<BoolExpr>, ids: map<nat, nat>)
    requires AtomsOf(items) <= ids.Keys
    ensures Const(c) in RenameEach(items, ids) <==> Const(c) in items
    decreases items
  {
    if items != [] {
      ConstRenamed(c, items[1..], ids);
      SplitFirst(items);
    }
  }

  lemma {:induction false} NormalizeGroupRenamed(conjunction: bool, items: seq<BoolExpr>, ids: map<nat, nat>)
    requires Monotone(ids) && AtomsOf(items) <= ids.Keys
    ensures Atoms(NormalizeGroup(conjunction, items)) <= ids.Keys
    ensures NormalizeGroup(conjunction, RenameEach(items, ids)) == Rename(NormalizeGroup(conjunction, items), ids)
  {
    ConstRenamed(!conjunction, items, ids);
    FlattenedRenamed(conjunction, items, ids);
    CommutativeSetRenamed(conjunction, Flattened(conjunction, items), ids);
  }

  lemma {:induction false} NormalizeNotRenamed(e: BoolExpr, ids: map<nat, nat>)
    requires Atoms(e) <= ids.Keys
    ensures Atoms(NormalizeNot(e)) <= ids.Keys
    ensures NormalizeNot(Rename(e, ids)) == Rename(NormalizeNot(e), ids)
  {
  }

  /** With a constant operand the other one, or its negation, is left. */
  lemma {:induction false} FoldedXorRenamed(lhs: BoolExpr, rhs: BoolExpr, ids: map<nat, nat>)
    requires Atoms(lhs) <= ids.Keys && Atoms(rhs) <= ids.Keys && (lhs.Const? || rhs.Const?)
    ensures Atoms(NormalizeXor(lhs, rhs)) <= ids.Keys
    ensures NormalizeXor(Rename(lhs, ids), Rename(rhs, ids)) == Rename(NormalizeXor(lhs, rhs), ids)
  {
    if lhs.Const? {
      NormalizeNotRenamed(rhs, ids);
    } else {
      NormalizeNotRenamed(lhs, ids);
    }
  }

  lemma {:induction false} OrderedXor(lhs: BoolExpr, rhs: BoolExpr)
    requires !lhs.Const? && !rhs.Const?
    ensures NormalizeXor(lhs, rhs) == if Compare(lhs, rhs) == Greater then Xor(rhs, lhs) else Xor(lhs, rhs)
  {
  }

  lemma {:induction false} OrderedXorRenamed(lhs: BoolExpr, rhs: BoolExpr, ids: map<nat, nat>)
    requires Monotone(ids) && Atoms(lhs) <= ids.Keys && Atoms(rhs) <= ids.Keys && !lhs.Const? && !rhs.Const?
    ensures Atoms(NormalizeXor(lhs, rhs)) <= ids.Keys
    ensures NormalizeXor(Rename(lhs, ids), Rename(rhs, ids)) == Rename(NormalizeXor(lhs, rhs), ids)
  {
    CompareRenamed(lhs, rhs, ids);
    OrderedXor(lhs, rhs);
    OrderedXor(Rename(lhs, ids), Rename(rhs, ids));
  }

  lemma {:induction false} NormalizeXorRenamed(lhs: BoolExpr, rhs: BoolExpr, ids: map<nat, nat>)
    requires Monotone(ids) && Atoms(lhs) <= ids.Keys && Atoms(rhs) <= ids.Keys
    ensures Atoms(NormalizeXor(lhs, rhs)) <= ids.Keys
    ensures NormalizeXor(Rename(lhs, ids), Rename(rhs, ids)) == Rename(NormalizeXor(lhs, rhs), ids)
  {
    if lhs.Const? || rhs.Const? {
      FoldedXorRenamed(lhs, rhs, ids);
    } else {
      OrderedXorRenamed(lhs, rhs, ids);
    }
  }

  lemma {:induction false} NormalizeImpliesRenamed(lhs: BoolExpr, rhs: BoolExpr, ids: map<nat, nat>)
    requires Atoms(lhs) <= ids.Keys && Atoms(rhs) <= ids.Keys
    ensures Atoms(NormalizeImplies(lhs, rhs)) <= ids.Keys
    ensures NormalizeImplies(Rename(lhs, ids), Rename(rhs, ids)) == Rename(NormalizeImplies(lhs, rhs), ids)
  {
    ImpliesShapes(lhs, rhs);
    ImpliesShapes(Rename(lhs, ids), Rename(rhs, ids));
    if !lhs.Const? && rhs.Const? {
      NormalizeNotRenamed(lhs, ids);
    }
  }

  lemma {:induction false} CanonGroupRenamed(conjunction: bool, items: seq<BoolExpr>, ids: map<nat, nat>)
    requires Monotone(ids) && AtomsOf(items) <= ids.Keys && AtomsOf(CanonEach(items)) <= ids.Keys
    requires CanonEach(RenameEach(items, ids)) == RenameEach(CanonEach(items), ids)
    ensures Atoms(Canon(Group(conjunction, items))) <= ids.Keys
    ensures Canon(Group(conjunction, RenameEach(items, ids))) == Rename(Canon(Group(conjunction, items)), ids)
  {
    CanonGroup(conjunction, items);
    CanonGroup(conjunction, RenameEach(items, ids));
    NormalizeGroupRenamed(conjunction, CanonEach(items), ids);
  }

  /** Canonicalization commutes with every strictly monotone renaming of ids. */
  lemma {:induction false} CanonRenamed(e: BoolExpr, ids: map<nat, nat>)
    requires Monotone(ids) && Atoms(e) <= ids.Keys
    ensures Atoms(Canon(e)) <= ids.Keys && Canon(Rename(e, ids)) == Rename(Canon(e), ids)
    decreases e
  {
    match e
    case Const(_) | Atom(_) =>
    case Not(inner) =>
      CanonRenamed(inner, ids);
      NormalizeNotRenamed(Canon(inner), ids);
    case All(_) | Any(_) =>
      CanonEachRenamed(e.items, ids);
      CanonGroupRenamed(e.All?, e.items, ids);
      assert e == Group(e.All?, e.items);
    case Xor(lhs, rhs) =>
      CanonRenamed(lhs, ids);
      CanonRenamed(rhs, ids);
      NormalizeXorRenamed(Canon(lhs), Canon(rhs), ids);
    case Implies(lhs, rhs) =>
      CanonRenamed(lhs, ids);
      CanonRenamed(rhs, ids);
      NormalizeImpliesRenamed(Canon(lhs), Canon(rhs), ids);
  }

  lemma {:induction false} CanonEachRenamed(items: seq<BoolExpr>, ids: map<nat, nat>)
    requires Monotone(ids) && AtomsOf(items) <= ids.Keys
    ensures AtomsOf(CanonEach(items)) <= ids.Keys
    ensures CanonEach(RenameEach(items, ids)) == RenameEach(CanonEach(items), ids)
    decreases items
  {
    if items != [] {
      CanonRenamed(items[0], ids);
      CanonEachRenamed(items[1..], ids);
      assert RenameEach(items, ids)[1..] == RenameEach(items[1..], ids);
      assert CanonEach(items)[1..] == CanonEach(items[1..]);
    }
  }

  /** The bounds do not see names. */
  lemma {:induction false} ScanRenamed(e: BoolExpr, ids: map<nat, nat>, depth: nat, nodes: nat)
    requires Atoms(e) <= ids.Keys
    ensures Scan(Rename(e, ids), depth, nodes, SHAPE_LIMITS) == Scan(e, depth, nodes, SHAPE_LIMITS)
    decreases e
  {
    match e
    case Const(_) | Atom(_) =>
    case Not(inner) => ScanRenamed(inner, ids, depth + 1, nodes + 1);
    case All(_) | Any(_) => ScanListRenamed(e.items, ids, depth + 1, nodes + 1);
    case Xor(_, _) | Implies(_, _) =>
      ScanRenamed(e.lhs, ids, depth + 1, nodes + 1);
      var l := Scan(e.lhs, depth + 1, nodes + 1, SHAPE_LIMITS);
      if l.Success? {
        ScanRenamed(e.rhs, ids, depth + 1, l.value);
      }
  }

  lemma {:induction false} ScanListRenamed(items: seq<BoolExpr>, ids: map<nat, nat>, depth: nat, nodes: nat)
    requires AtomsOf(items) <= ids.Keys
    ensures ScanList(RenameEach(items, ids), depth, nodes, SHAPE_LIMITS) == ScanList(items, depth, nodes, SHAPE_LIMITS)
    decreases items
  {
    if items != [] {
      ScanRenamed(items[0], ids, depth, nodes);
      var first := Scan(items[0], depth, nodes, SHAPE_LIMITS);
      if first.Success? {
        ScanListRenamed(items[1..], ids, depth, first.value);
      }
      assert RenameEach(items, ids)[1..] == RenameEach(items[1..], ids);
    }
  }

  // ----- two registries -----

  /** Where each id of `from` sits in `to`; ids whose key is missing are left out. */
  ghost function Translation(from: PredicateRegistry, to: PredicateRegistry): map<nat, nat> {
    map i: nat | i < |from.keys| && to.Id(from.keys[i]).Some? :: to.Id(from.keys[i]).value
  }

  /** Ids follow key order in both registries, so moving between them is strictly monotone. */
  lemma {:induction false} TranslationMonotone(from: PredicateRegistry, to: PredicateRegistry)
    requires from.Valid() && to.Valid()
    ensures Monotone(Translation(from, to))
  {
    var ids := Translation(from, to);
    forall i, j | i in ids && j in ids && i < j ensures ids[i] < ids[j] {
      IdsFollowKeys(from, i, j);
      IdsFollowKeys(from, j, i);
      IdsFollowKeys(to, ids[i], ids[j]);
    }
  }

  /** Expressions that say the same over stable keys are translations of one another. */
  lemma {:induction false} SameKeyedRenamed(e: BoolExpr, f: BoolExpr, from: PredicateRegistry, to: PredicateRegistry)
    requires from.Valid() && to.Valid()
    requires Resolve(e, from).Success? && Resolve(e, from) == Resolve(f, to)
    ensures Atoms(e) <= Translation(from, to).Keys && f == Rename(e, Translation(from, to))
    decreases e
  {
    match e
    case Const(_) =>
    case Atom(id) =>
      var key := from.keys[id];
      assert to.keys[f.id] == key;
      IdsFollowKeys(to, f.id, to.Id(key).value);
    case Not(inner) => SameKeyedRenamed(inner, f.inner, from, to);
    case All(_) | Any(_) => SameKeyedEachRenamed(e.items, f.items, from, to);
    case Xor(_, _) | Implies(_, _) =>
      SameKeyedRenamed(e.lhs, f.lhs, from, to);
      SameKeyedRenamed(e.rhs, f.rhs, from, to);
  }

  lemma {:induction false} SameKeyedEachRenamed(es: seq<BoolExpr>, fs: seq<BoolExpr>, from: PredicateRegistry,
      to: PredicateRegistry)
    requires from.Valid() && to.Valid()
    requires ResolveEach(es, from).Success? && ResolveEach(es, from) == ResolveEach(fs, to)
    ensures AtomsOf(es) <= Translation(from, to).Keys && fs == RenameEach(es, Translation(from, to))
    decreases es
  {
    if es != [] {
      var ks := ResolveEach(es, from).value;
      assert ks[0] == Resolve(es[0], from).value == Resolve(fs[0], to).value;
      assert ks[1..] == ResolveEach(es[1..], from).value && ks[1..] == ResolveEach(fs[1..], to).value;
      SameKeyedRenamed(es[0], fs[0], from, to);
      SameKeyedEachRenamed(es[1..], fs[1..], from, to);
      assert fs == [fs[0]] + fs[1..];
    }
  }

  /** Translating an expression does not change what it says over stable keys. */
  lemma {:induction false} ResolveRenamed(e: BoolExpr, from: PredicateRegistry, to: PredicateRegistry)
    requires Atoms(e) <= Translation(from, to).Keys
    ensures Resolve(Rename(e, Translation(from, to)), to) == Resolve(e, from)
    decreases e
  {
    match e
    case Const(_) | Atom(_) =>
    case Not(inner) => ResolveRenamed(inner, from, to);
    case All(_) | Any(_) => ResolveEachRenamed(e.items, from, to);
    case Xor(_, _) | Implies(_, _) =>
      ResolveRenamed(e.lhs, from, to);
      ResolveRenamed(e.rhs, from, to);
  }

  lemma {:induction false} ResolveEachRenamed(items: seq<BoolExpr>, from: PredicateRegistry, to: PredicateRegistry)
    requires AtomsOf(items) <= Translation(from, to).Keys
    ensures ResolveEach(RenameEach(items, Translation(from, to)), to) == ResolveEach(items, from)
    decreases items
  {
    if items != [] {
      ResolveRenamed(items[0], from, to);
      ResolveEachRenamed(items[1..], from, to);
      assert RenameEach(items, Translation(from, to))[1..] == RenameEach(items[1..], Translation(from, to));
    }
  }

  /** Bounded expressions fingerprint alike when their canonical forms are translations of one another. */
  lemma {:induction false} TranslatedFingerprint(e: BoolExpr, from: PredicateRegistry, f: BoolExpr,
      to: PredicateRegistry)
    requires Within(e, SHAPE_LIMITS) && Within(f, SHAPE_LIMITS)
    requires Resolve(Canon(e), from) == Resolve(Canon(f), to)
    ensures FingerprintResult(e, from) == FingerprintResult(f, to)
  {
    ScanDecidesWithin(e, SHAPE_LIMITS);
    ScanDecidesWithin(f, SHAPE_LIMITS);
  }

  /** Whatever two registries number, expressions that agree over stable keys have canonical forms that do. */
  lemma {:induction false} CanonicalKeysAgree(e: BoolExpr, from: PredicateRegistry, f: BoolExpr, to: PredicateRegistry)
    requires from.Valid() && to.Valid()
    requires Resolve(e, from).Success? && Resolve(e, from) == Resolve(f, to)
    ensures Resolve(Canon(e), from) == Resolve(Canon(f), to)
  {
    var ids := Translation(from, to);
    SameKeyedRenamed(e, f, from, to);
    TranslationMonotone(from, to);
    CanonRenamed(e, ids);
    ResolveRenamed(Canon(e), from, to);
  }

  /** An expression is fingerprinted exactly when it is bounded and what pruning leaves of it is registered. */
  lemma {:induction false} FingerprintedExactly(e: BoolExpr, registry: PredicateRegistry)
    ensures FingerprintResult(e, registry).Success?
       <==> Within(e, SHAPE_LIMITS) && Resolve(Prune(e), registry).Success?
  {
    ScanDecidesWithin(e, SHAPE_LIMITS);
    PruneAtoms(e);
    CanonAtomsAreLive(e);
    SameAtomsResolve(Prune(e), Canon(e), registry);
  }

  lemma {:induction false} SameAtomsResolve(a: BoolExpr, b: BoolExpr, registry: PredicateRegistry)
    requires Atoms(a) == Atoms(b)
    ensures Resolve(a, registry).Success? <==> Resolve(b, registry).Success?
  {
    ResolveSucceeds(a, registry);
    ResolveSucceeds(b, registry);
  }

  /**
   Registry independence: two bounded expressions that are the same over stable keys, up
   to subexpressions decided without evidence, have the same fingerprint whatever
   registries number their predicates. By FingerprintedExactly this covers every
   expression that is fingerprinted at all, unregistered dead atoms included.
   */
  lemma {:induction false} RegistryIndependence(e: BoolExpr, from: PredicateRegistry, f: BoolExpr,
      to: PredicateRegistry)
    requires from.Valid() && to.Valid() && Within(e, SHAPE_LIMITS) && Within(f, SHAPE_LIMITS)
    requires Resolve(Prune(e), from).Success? && Resolve(Prune(e), from) == Resolve(Prune(f), to)
    ensures FingerprintResult(e, from) == FingerprintResult(f, to)
    ensures FingerprintResult(e, from).Success?
  {
    CanonicalKeysAgree(Prune(e), from, Prune(f), to);
    PruneCanon(e);
    PruneCanon(f);
    TranslatedFingerprint(e, from, f, to);
    FingerprintedExactly(e, from);
  }

  /** Where every atom is registered even the bound error is the same, without assuming any bound. */
  lemma {:induction false} RegisteredOutcomeAgrees(e: BoolExpr, from: PredicateRegistry, f: BoolExpr,
      to: PredicateRegistry)
    requires from.Valid() && to.Valid()
    requires Resolve(e, from).Success? && Resolve(e, from) == Resolve(f, to)
    ensures FingerprintResult(e, from) == FingerprintResult(f, to)
  {
    SameKeyedRenamed(e, f, from, to);
    ScanRenamed(e, Translation(from, to), 0, 0);
    CanonicalKeysAgree(e, from, f, to);
  }
}
