/** What a fingerprint is the hash of, and which error a declaration reports (`canonical.rs`, `guard.rs`). */
module DeclarationLaws {
  import opened Outcomes
  import opened Expressions
  import opened Bounds
  import opened Predicates
  import opened Canonical
  import opened Encoding
  import opened Fingerprint
  import opened Preorder
  import opened Guards

  /** The id of a key; the first free id if the key is not registered. */
  function NumberOf(key: PredicateKey, registry: PredicateRegistry): nat {
    if registry.Id(key).Some? then registry.Id(key).value else |registry.keys|
  }

  /** An expression over keys, numbered by a registry. */
  function Numbered(k: KeyedExpr, registry: PredicateRegistry): BoolExpr
    decreases k
  {
    match k
    case KConst(value) => Const(value)
    case KAtom(key) => Atom(NumberOf(key, registry))
    case KNot(inner) => Not(Numbered(inner, registry))
    case KAll(items) => All(NumberedEach(items, registry))
    case KAny(items) => Any(NumberedEach(items, registry))
    case KXor(lhs, rhs) => Xor(Numbered(lhs, registry), Numbered(rhs, registry))
    case KImplies(lhs, rhs) => Implies(Numbered(lhs, registry), Numbered(rhs, registry))
  }

  function NumberedEach(items: seq<KeyedExpr>, registry: PredicateRegistry): seq<BoolExpr>
    decreases items
  {
    if items == [] then [] else [Numbered(items[0], registry)] + NumberedEach(items[1..], registry)
  }

  lemma {:induction false} KeyNumber(registry: PredicateRegistry, id: nat)
    requires registry.Valid() && id < |registry.keys|
    ensures NumberOf(registry.keys[id], registry) == id
  {
    IdsFollowKeys(registry, id, NumberOf(registry.keys[id], registry));
  }

  /** Numbering undoes the lookup of keys: nothing about the expression is lost or moved. */
  lemma {:induction false} NumberingUndoesResolve(e: BoolExpr, registry: PredicateRegistry)
    requires registry.Valid() && Resolve(e, registry).Success?
    ensures Numbered(Resolve(e, registry).value, registry) == e
    decreases e
  {
    match e
    case Const(_) =>
    case Atom(id) => KeyNumber(registry, id);
    case Not(inner) => NumberingUndoesResolve(inner, registry);
    case All(_) | Any(_) => NumberingUndoesEach(e.items, registry);
    case Xor(_, _) | Implies(_, _) =>
      NumberingUndoesResolve(e.lhs, registry);
      NumberingUndoesResolve(e.rhs, registry);
  }

  lemma {:induction false} NumberingUndoesEach(items: seq<BoolExpr>, registry: PredicateRegistry)
    requires registry.Valid() && ResolveEach(items, registry).Success?
    ensures NumberedEach(ResolveEach(items, registry).value, registry) == items
    decreases items
  {
    if items != [] {
      NumberingUndoesResolve(items[0], registry);
      NumberingUndoesEach(items[1..], registry);
      assert ResolveEach(items, registry).value[1..] == ResolveEach(items[1..], registry).value;
    }
  }

  /**
   A fingerprint is the hash of a version tag, the schema number 1 and the encoding of the
   canonical form, its ids written as keys; both steps can be undone.
   */
  lemma {:induction false} FingerprintOf(e: BoolExpr, registry: PredicateRegistry) returns (k: KeyedExpr)
    requires registry.Valid() && FingerprintResult(e, registry).Success?
    ensures Numbered(k, registry) == Canon(e)
    ensures FingerprintResult(e, registry).value == Hash(['v' as int] + EncodeNumber(1) + Encode(k))
  {
    k := Resolve(Canon(e), registry).value;
    NumberingUndoesResolve(Canon(e), registry);
  }

  /**
   Why no fingerprint is given: a bound of the expression first, then the first
   unregistered atom of its canonical form.
   */
  lemma {:induction false} FingerprintErrors(e: BoolExpr, registry: PredicateRegistry)
    requires FingerprintResult(e, registry).Failure?
    ensures var error := FingerprintResult(e, registry).error;
            if !Within(e, SHAPE_LIMITS) then Scan(e, 0, 0, SHAPE_LIMITS) == Failure(error)
            else error.UnregisteredPredicate? && FirstUnregistered(Positions(Canon(e), 0), registry, error.id)
  {
    ScanDecidesWithin(e, SHAPE_LIMITS);
    ResolveReportsFirst(Canon(e), registry, 0);
  }

  /** A declaration stores the fingerprint of its expression, and fails where and as fingerprinting fails. */
  lemma {:induction false} DeclarationFollowsFingerprint(registry: PredicateRegistry, e: BoolExpr)
    ensures match FingerprintResult(e, registry)
            case Success(f) => NewResult(registry, e) == Success(BooleanGuard(registry, Canon(e), f))
            case Failure(error) => NewResult(registry, e) == Failure(error)
  {
    ScanDecidesWithin(e, SHAPE_LIMITS);
    if Within(e, SHAPE_LIMITS) {
      CanonicalAgain(e);
    }
  }
}
