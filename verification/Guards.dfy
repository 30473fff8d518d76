/**
 The declared guard that ties registry, canonical form and evaluation together
 (`guard.rs`), and agreement of all engines.
 */
module Guards {
  import opened Outcomes
  import opened Words
  import opened Truth
  import opened Expressions
  import opened Bounds
  import opened FactStore
  import opened Predicates
  import opened Canonical
  import opened Encoding
  import opened Fingerprint
  import opened Liveness
  import FastGuard
  import opened MultiwordFacts
  import MultiwordGuard

  /** `GuardFactSource`: a truth value for every key. */
  type FactSource = PredicateKey -> TruthValue

  /** The source backed by a map: a missing key is Unknown. */
  function FromMap(evidence: map<PredicateKey, TruthValue>): FactSource {
    (key: PredicateKey) => if key in evidence then evidence[key] else Unknown
  }

  /** What a source establishes about the first `n` ids of a registry. */
  function Established(registry: PredicateRegistry, source: FactSource, n: nat): Facts
    requires n <= |registry.keys|
  {
    if n == 0 then map[]
    else Assign(Established(registry, source, n - 1), n - 1, source(registry.keys[n - 1]))
  }

  /** A registered id carries its key's truth; every other id is Unknown. */
  lemma {:induction false} EstablishedLookup(registry: PredicateRegistry, source: FactSource, n: nat, id: nat)
    requires n <= |registry.keys|
    ensures Lookup(Established(registry, source, n), id) == if id < n then source(registry.keys[id]) else Unknown
  {
    if n > 0 {
      EstablishedLookup(registry, source, n - 1, id);
    }
  }

  /** Over a map of evidence, a key without evidence is Unknown. */
  lemma {:induction false} MissingEvidenceIsUnknown(registry: PredicateRegistry,
      evidence: map<PredicateKey, TruthValue>, id: nat)
    ensures Lookup(Established(registry, FromMap(evidence), |registry.keys|), id)
         == if id < |registry.keys| && registry.keys[id] in evidence then evidence[registry.keys[id]] else Unknown
  {
    EstablishedLookup(registry, FromMap(evidence), |registry.keys|, id);
  }

  // ----- meaning over stable keys -----

  /** The Kleene value of an expression over keys, without any registry. */
  function Meaning(k: KeyedExpr, source: FactSource): TruthValue
    decreases k
  {
    match k
    case KConst(value) => Known(value)
    case KAtom(key) => source(key)
    case KNot(inner) => Meaning(inner, source).Negated()
    case KAll(_) | KAny(_) => MeaningEach(k.KAll?, k.items, source)
    case KXor(_, _) | KImplies(_, _) => Binary(k.KXor?, Meaning(k.lhs, source), Meaning(k.rhs, source))
  }

  function MeaningEach(conjunction: bool, items: seq<KeyedExpr>, source: FactSource): TruthValue
    decreases items
  {
    if items == [] then Known(conjunction)
    else Combine(conjunction, Meaning(items[0], source), MeaningEach(conjunction, items[1..], source))
  }

  /** What a source makes of an expression through a registry is what it makes of the expression over keys. */
  lemma {:induction false} StableMeaning(e: BoolExpr, registry: PredicateRegistry, source: FactSource)
    requires Resolve(e, registry).Success?
    ensures Kleene(e, Established(registry, source, |registry.keys|)) == Meaning(Resolve(e, registry).value, source)
    decreases e
  {
    match e
    case Const(_) =>
    case Atom(id) => EstablishedLookup(registry, source, |registry.keys|, id);
    case Not(inner) => StableMeaning(inner, registry, source);
    case All(_) | Any(_) => StableMeaningEach(e.All?, e.items, registry, source);
    case Xor(_, _) | Implies(_, _) =>
      StableMeaning(e.lhs, registry, source);
      StableMeaning(e.rhs, registry, source);
  }

  lemma {:induction false} StableMeaningEach(conjunction: bool, items: seq<BoolExpr>, registry: PredicateRegistry,
      source: FactSource)
    requires ResolveEach(items, registry).Success?
    ensures KleeneList(conjunction, items, Established(registry, source, |registry.keys|))
         == MeaningEach(conjunction, ResolveEach(items, registry).value, source)
    decreases items
  {
    if items != [] {
      StableMeaning(items[0], registry, source);
      StableMeaningEach(conjunction, items[1..], registry, source);
      assert ResolveEach(items, registry).value[1..] == ResolveEach(items[1..], registry).value;
    }
  }

  /** The same expression over stable keys takes the same value on every source, whichever registry numbers it. */
  lemma {:induction false} ValueIsRegistryIndependent(e: BoolExpr, from: PredicateRegistry, f: BoolExpr,
      to: PredicateRegistry, source: FactSource)
    requires Resolve(e, from).Success? && Resolve(e, from) == Resolve(f, to)
    ensures Kleene(e, Established(from, source, |from.keys|)) == Kleene(f, Established(to, source, |to.keys|))
  {
    StableMeaning(e, from, source);
    StableMeaning(f, to, source);
  }

  // ----- the guard -----

  datatype BooleanGuard = BooleanGuard(predicates: PredicateRegistry, expression: BoolExpr, fingerprint: nat) {

    /** The guard was declared from `e`. */
    ghost predicate Represents(e: BoolExpr) {
      NewResult(predicates, e) == Success(this)
    }

    /**
     `BooleanGuard::evaluate`: a constructed guard evaluates without error on every
     source, to the Kleene value of the expression it was declared with.
     */
    method Evaluate(source: FactSource) returns (r: Policy<TruthValue>)
      requires predicates.Valid()
      ensures forall e :: Represents(e) ==> r == Success(Kleene(e, Established(predicates, source, |predicates.keys|)))
    {
      var facts := new FactSet();
      for id := 0 to |predicates.keys|
        invariant facts.Valid() && facts.Contents() == Established(predicates, source, id)
      {
        var written := facts.Set(id, source(predicates.keys[id]));
      }
      r := FactStore.Evaluate(expression, facts);
      forall e | Represents(e) ensures r == Success(Kleene(e, Established(predicates, source, |predicates.keys|))) {
        NewExact(predicates, e);
        CanonMeaning(e, facts.Contents());
      }
    }
  }

  /** Canonicalize, then fingerprint the canonical form. */
  function NewResult(registry: PredicateRegistry, e: BoolExpr): Policy<BooleanGuard> {
    var c :- CanonicalizeResult(e);
    var f :- FingerprintResult(c, registry);
    Success(BooleanGuard(registry, c, f))
  }

  ghost predicate AllRegistered(ids: set<nat>, registry: PredicateRegistry) {
    forall id <- ids :: id < |registry.keys|
  }

  /** What construction really asks of an expression. */
  ghost predicate Declarable(registry: PredicateRegistry, e: BoolExpr) {
    Within(e, SHAPE_LIMITS) && AllRegistered(Live(e), registry)
  }

  /** `BooleanGuard::new`. */
  method New(registry: PredicateRegistry, e: BoolExpr) returns (r: Policy<BooleanGuard>)
    requires registry.Valid()
    ensures r == NewResult(registry, e)
    ensures r.Success? <==> Declarable(registry, e)
    ensures r.Success? ==> r.value.Represents(e) && r.value.expression == Canon(e) && r.value.predicates == registry
  {
    NewExact(registry, e);
    var canonical := Canonicalize(e);
    if canonical.Failure? {
      return Failure(canonical.error);
    }
    var fingerprint := CanonicalFingerprint(canonical.value, registry);
    if fingerprint.Failure? {
      return Failure(fingerprint.error);
    }
    r := Success(BooleanGuard(registry, canonical.value, fingerprint.value));
  }

  /**
   Declaration succeeds exactly when the shape is bounded and every live atom is
   registered: an atom that only occurs under subexpressions decided without evidence
   is never looked up.
   */
  lemma {:induction false} NewExact(registry: PredicateRegistry, e: BoolExpr)
    requires registry.Valid()
    ensures NewResult(registry, e).Success? <==> Declarable(registry, e)
    ensures NewResult(registry, e).Success? ==>
              && NewResult(registry, e).value.expression == Canon(e)
              && Within(Canon(e), FAST_LIMITS)
              && FingerprintResult(e, registry) == Success(NewResult(registry, e).value.fingerprint)
  {
    ScanDecidesWithin(e, SHAPE_LIMITS);
    if Within(e, SHAPE_LIMITS) {
      CanonicalAgain(e);
      RegisteredExact(registry, Canon(e));
      CanonAtomsAreLive(e);
      CanonNoLarger(e);
    }
  }

  /** A bounded expression and its canonical form canonicalize alike. */
  lemma {:induction false} CanonicalAgain(e: BoolExpr)
    requires Within(e, SHAPE_LIMITS)
    ensures CanonicalizeResult(e) == Success(Canon(e)) == CanonicalizeResult(Canon(e))
    ensures Canon(Canon(e)) == Canon(e)
  {
    ScanDecidesWithin(e, SHAPE_LIMITS);
    CanonicalizeIdempotent(e);
    CanonIsCanonical(e);
    CanonFixed(Canon(e));
  }

  /** Resolution against a valid registry succeeds exactly when every atom is one of its ids. */
  lemma {:induction false} RegisteredExact(registry: PredicateRegistry, e: BoolExpr)
    requires registry.Valid()
    ensures Resolve(e, registry).Success? <==> AllRegistered(Atoms(e), registry)
  {
    ResolveSucceeds(e, registry);
    if Resolve(e, registry).Failure? {
      assert Resolve(e, registry).error.id in Atoms(e);
    }
  }

  // ----- the documented rule -----

  /** The documentation of `BooleanGuard`: construction accepts only expressions all of whose atoms are registered. */
  ghost predicate DocumentedRule(registry: PredicateRegistry, e: BoolExpr) {
    NewResult(registry, e).Success? <==> Within(e, SHAPE_LIMITS) && AllRegistered(Atoms(e), registry)
  }

  /**
   The documented rule fails exactly where the shape is bounded, every live atom is
   registered and some other atom is not; there construction accepts the expression.
   */
  lemma {:induction false} DocumentedRuleExactly(registry: PredicateRegistry, e: BoolExpr)
    requires registry.Valid()
    ensures DocumentedRule(registry, e) <==> !(Declarable(registry, e) && !AllRegistered(Atoms(e), registry))
    ensures !DocumentedRule(registry, e) ==> NewResult(registry, e).Success?
  {
    NewExact(registry, e);
    LiveAreAtoms(e);
  }

  /**
   The rule does fail: a conjunction with a constant False is accepted although its
   other operand is an id no registry holds.
   */
  lemma {:induction false} DroppedAtomIsNotValidated(registry: PredicateRegistry)
    requires registry.Valid()
    ensures var e := All([Const(false), Atom(|registry.keys|)]);
            |registry.keys| in Atoms(e) && NewResult(registry, e).Success? && !DocumentedRule(registry, e)
  {
    var e := All([Const(false), Atom(|registry.keys|)]);
    DroppedMeasures(|registry.keys|);
    KleeneListByMembers(true, e.items, map[]);
    assert Const(false) in e.items && Kleene(Const(false), map[]) == False;
    NewExact(registry, e);
  }

  lemma {:induction false} DroppedMeasures(id: nat)
    ensures var e := All([Const(false), Atom(id)]); Atoms(e) == {id} && Within(e, SHAPE_LIMITS)
  {
    var first, last, e := Const(false), Atom(id), All([Const(false), Atom(id)]);
    assert e.items == [first] + [last];
    OneOperand(first);
    OneOperand(last);
    MeasuresAppend([first], [last]);
    NodesAppend([first], [last]);
    assert Atoms(first) == {} && Nodes(first) == 1 && Depth(first) == 0;
    assert Atoms(last) == {id} && Nodes(last) == 1 && Depth(last) == 0;
    MeasuresOfGroup(e);
  }

  lemma {:induction false} MeasuresOfGroup(e: BoolExpr)
    requires e.All? || e.Any?
    ensures Atoms(e) == AtomsOf(e.items) && Nodes(e) == 1 + NodesOf(e.items) && Depth(e) == DepthOf(e.items)
  {
  }

  lemma {:induction false} OneOperand(e: BoolExpr)
    ensures AtomsOf([e]) == Atoms(e) && NodesOf([e]) == Nodes(e) && DepthOf([e]) == 1 + Depth(e)
  {
    assert [e][1..] == [];
  }

  // ----- all engines -----

  /**
   For the same facts the bounded tree walk, the single-word masks and the multiword
   masks, each built from an expression or from its canonical form, give one verdict.
   */
  lemma {:induction false} EnginesAgree(e: BoolExpr, facts: Facts, knownTrue: Word, knownFalse: Word,
      wideTrue: set<nat>, wideFalse: set<nat>, capacity: nat,
      fast: FastGuard.CompiledGuard, fastCanonical: FastGuard.CompiledGuard,
      wide: MultiwordGuard.MultiwordCompiledGuard, wideCanonical: MultiwordGuard.MultiwordCompiledGuard)
    requires Within(e, FAST_LIMITS) && knownTrue !! knownFalse && wideTrue !! wideFalse
    requires facts == Stored(knownTrue, knownFalse) == Stored(wideTrue, wideFalse)
    requires fast.Represents(e) && fastCanonical.Represents(Canon(e))
    requires wide.Represents(e) && wideCanonical.Represents(Canon(e))
    requires wide.predicateCapacity <= capacity && wideCanonical.predicateCapacity <= capacity
    ensures Eval(e, facts, FAST_PREDICATE_CAPACITY, 0) == Success(Kleene(e, facts))
    ensures Eval(Canon(e), facts, FAST_PREDICATE_CAPACITY, 0) == Eval(e, facts, FAST_PREDICATE_CAPACITY, 0)
    ensures fast.Verdict(knownTrue, knownFalse) == Eval(e, facts, FAST_PREDICATE_CAPACITY, 0)
    ensures fastCanonical.Verdict(knownTrue, knownFalse) == fast.Verdict(knownTrue, knownFalse)
    ensures wide.Verdict(wideTrue, wideFalse, capacity) == fast.Verdict(knownTrue, knownFalse)
    ensures wideCanonical.Verdict(wideTrue, wideFalse, capacity) == fast.Verdict(knownTrue, knownFalse)
  {
    CanonMeaning(e, facts);
    CanonNoLarger(e);
    EvalWithin(e, facts, FAST_PREDICATE_CAPACITY);
    EvalWithin(Canon(e), facts, FAST_PREDICATE_CAPACITY);
    FastGuard.CompiledMeaning(fast, e, knownTrue, knownFalse);
    FastGuard.CompiledMeaning(fastCanonical, Canon(e), knownTrue, knownFalse);
    MultiwordGuard.VerdictIsKleene(wide, e, wideTrue, wideFalse, capacity);
    MultiwordGuard.VerdictIsKleene(wideCanonical, Canon(e), wideTrue, wideFalse, capacity);
  }

  /** The canonical forms of a list of candidates. */
  method CanonicalCandidates(es: seq<BoolExpr>) returns (canonical: seq<BoolExpr>)
    requires forall e <- es :: Within(e, SHAPE_LIMITS)
    ensures canonical == CanonEach(es)
  {
    canonical := [];
    for i := 0 to |es|
      invariant |canonical| == i && forall k :: 0 <= k < i ==> canonical[k] == Canon(es[k])
    {
      ScanDecidesWithin(es[i], SHAPE_LIMITS);
      var c := Canonicalize(es[i]);
      canonical := canonical + [c.value];
    }
    assert canonical == CanonEach(es);
  }

  /** Candidates within the single-word bounds, and their canonical forms, are within those of any wider store. */
  lemma {:induction false} BoundedCandidates(es: seq<BoolExpr>, capacity: nat)
    requires capacity >= FAST_PREDICATE_CAPACITY
    requires forall e <- es :: Within(e, GuardLimits(FAST_PREDICATE_CAPACITY))
    ensures forall e <- es + CanonEach(es) :: Within(e, GuardLimits(capacity))
  {
    forall c | c in CanonEach(es) ensures Within(c, GuardLimits(capacity)) {
      CanonEachMembers(es, c);
      var e :| e in es && c == Canon(e);
      CanonNoLarger(e);
    }
  }

  lemma {:induction false} ValuesAppend(xs: seq<BoolExpr>, ys: seq<BoolExpr>, facts: Facts)
    ensures MultiwordGuard.KleeneEach(xs + ys, facts)
         == MultiwordGuard.KleeneEach(xs, facts) + MultiwordGuard.KleeneEach(ys, facts)
  {
  }

  /** Candidates and their canonical forms have the same values, in order. */
  lemma {:induction false} CanonicalValues(es: seq<BoolExpr>, facts: Facts)
    ensures MultiwordGuard.KleeneEach(CanonEach(es), facts) == MultiwordGuard.KleeneEach(es, facts)
  {
    var canonical, values := MultiwordGuard.KleeneEach(CanonEach(es), facts), MultiwordGuard.KleeneEach(es, facts);
    forall i | 0 <= i < |es| ensures canonical[i] == values[i] {
      CanonMeaning(es[i], facts);
    }
  }

  /** A batch over candidates followed by their canonical forms screens both halves alike. */
  method ScreenBothForms(es: seq<BoolExpr>, wide: MultiwordFactSet, ghost known: Facts)
    returns (batch: MultiwordGuard.MultiwordGuardBatch, screen: seq<TruthValue>)
    requires wide.Valid() && wide.Contents() == known
    requires FAST_PREDICATE_CAPACITY <= wide.predicateCapacity <= MAX_MULTIWORD_FACT_PREDICATES
    requires 2 * |es| <= MultiwordGuard.MAX_MULTIWORD_GUARDS_PER_BATCH
    requires forall e <- es :: Within(e, GuardLimits(FAST_PREDICATE_CAPACITY))
    ensures batch.Represents(es + CanonEach(es))
    ensures screen == MultiwordGuard.KleeneEach(es, known) + MultiwordGuard.KleeneEach(es, known)
  {
    var canonical := CanonicalCandidates(es);
    var both := es + canonical;
    BoundedCandidates(es, wide.predicateCapacity);
    var compiled := MultiwordGuard.CompileBatch(both, wide.predicateCapacity);
    batch := compiled.value;
    var screened := batch.Evaluate(wide);
    screen := screened.value;
    ValuesAppend(es, canonical, known);
    CanonicalValues(es, known);
  }

  /**
   Candidate by candidate, the batch screens what the tree walk, the single-word guard
   and the multiword guard compiled from that candidate return.
   */
  method ScreenCandidates(es: seq<BoolExpr>, facts: FactSet, wide: MultiwordFactSet)
    returns (batch: MultiwordGuard.MultiwordGuardBatch, screen: seq<TruthValue>,
             tree: seq<Policy<TruthValue>>, single: seq<Policy<TruthValue>>, multi: seq<Policy<TruthValue>>)
    requires facts.Valid() && wide.Valid() && wide.Contents() == facts.Contents()
    requires FAST_PREDICATE_CAPACITY <= wide.predicateCapacity <= MAX_MULTIWORD_FACT_PREDICATES
    requires 2 * |es| <= MultiwordGuard.MAX_MULTIWORD_GUARDS_PER_BATCH
    requires forall e <- es :: Within(e, GuardLimits(FAST_PREDICATE_CAPACITY))
    ensures batch.Represents(es + CanonEach(es))
    ensures screen == MultiwordGuard.KleeneEach(es, facts.Contents()) + MultiwordGuard.KleeneEach(es, facts.Contents())
    ensures |tree| == |single| == |multi| == |es|
    ensures forall i :: 0 <= i < |es| ==> tree[i] == single[i] == multi[i] == Success(screen[i])
  {
    ghost var known := facts.Contents();
    ghost var values := MultiwordGuard.KleeneEach(es, known);
    batch, screen := ScreenBothForms(es, wide, known);
    tree, single, multi := [], [], [];
    for i := 0 to |es|
      invariant facts.Contents() == wide.Contents() == known
      invariant |tree| == |single| == |multi| == i
      invariant forall k :: 0 <= k < i ==> tree[k] == single[k] == multi[k] == Success(screen[k])
    {
      assert es[i] in es && screen[i] == values[i] == Kleene(es[i], known);
      var t := FactStore.Evaluate(es[i], facts);
      var s := MasksValue(es[i], facts);
      var m := MultiwordValue(es[i], wide);
      tree, single, multi := tree + [t], single + [s], multi + [m];
    }
  }

  /** The single-word guard compiled from an expression, evaluated. */
  method MasksValue(e: BoolExpr, facts: FactSet) returns (r: Policy<TruthValue>)
    requires facts.Valid() && Within(e, FAST_LIMITS)
    ensures r == Success(Kleene(e, facts.Contents()))
  {
    var guard := FastGuard.Compile(e);
    r := guard.value.Evaluate(facts);
  }

  /** The multiword guard compiled from an expression, evaluated. */
  method MultiwordValue(e: BoolExpr, facts: MultiwordFactSet) returns (r: Policy<TruthValue>)
    requires facts.Valid() && facts.predicateCapacity <= MAX_MULTIWORD_FACT_PREDICATES
    requires Within(e, GuardLimits(facts.predicateCapacity))
    ensures r == Success(Kleene(e, facts.Contents()))
  {
    var guard := MultiwordGuard.Compile(e, facts.predicateCapacity);
    r := guard.value.Evaluate(facts);
  }
}
