/** Multiword compiled guards and their batch form (`multiword_guard.rs`, `multiword_batch.rs`). */
module MultiwordGuard {
  import opened Outcomes
  import opened Words
  import opened Truth
  import opened Expressions
  import opened Bounds
  import opened FactStore
  import opened Literals
  import opened MultiwordFacts

  datatype FastPath =
    | Conjunction(requiredTrue: seq<Word>, requiredFalse: seq<Word>, constantFalse: bool)
    | Disjunction(sufficientTrue: seq<Word>, sufficientFalse: seq<Word>, constantTrue: bool)

  datatype MultiwordCompiledGuard =
    MultiwordCompiledGuard(predicateCapacity: nat, fastPath: Option<FastPath>, fallback: Option<BoolExpr>)
  {
    /** What every constructed guard satisfies: exactly one path, and masks that fit the declared capacity. */
    ghost predicate WellFormed() {
      match fastPath
      case None => fallback.Some?
      case Some(Conjunction(t, f, _)) => fallback == None && |t| == |f| == WordCount(predicateCapacity)
      case Some(Disjunction(t, f, _)) => fallback == None && |t| == |f| == WordCount(predicateCapacity)
    }

    /** The guard was compiled from `e`: as a conjunction where possible, else as a disjunction, else kept whole. */
    ghost predicate Represents(e: BoolExpr) {
      && WellFormed()
      && Within(e, GuardLimits(predicateCapacity))
      && match fastPath
         case None => fallback == Some(e) && !Flat(true, e) && !Flat(false, e)
         case Some(Conjunction(t, f, c)) =>
           Flat(true, e) && MaskLiterals(Flatten(t), Flatten(f), c) == LiteralsOf(true, e)
         case Some(Disjunction(t, f, c)) =>
           !Flat(true, e) && Flat(false, e) && MaskLiterals(Flatten(t), Flatten(f), c) == LiteralsOf(false, e)
    }

    /** The value computed from the two flattened masks of a store. */
    ghost function Verdict(knownTrue: set<nat>, knownFalse: set<nat>, capacity: nat): Policy<TruthValue>
      requires WellFormed()
    {
      match fastPath
      case None => Eval(fallback.value, Stored(knownTrue, knownFalse), capacity, 0)
      case Some(Conjunction(t, f, c)) => Success(MaskVerdict(Flatten(t), Flatten(f), c, knownTrue, knownFalse))
      case Some(Disjunction(t, f, c)) =>
        Success(MaskVerdict(Flatten(f), Flatten(t), c, knownTrue, knownFalse).Negated())
    }

    /**
     `MultiwordCompiledGuard::evaluate`: total on every store that covers the declared
     domain, where it returns the strong-Kleene value of the compiled expression.
     */
    method Evaluate(facts: MultiwordFactSet) returns (r: Policy<TruthValue>)
      requires WellFormed() && facts.Valid()
      ensures facts.predicateCapacity < predicateCapacity ==>
                r == Failure(FactCapacityTooSmall(predicateCapacity, facts.predicateCapacity))
      ensures facts.predicateCapacity >= predicateCapacity ==> forall e :: Represents(e) ==>
                r == Success(Kleene(e, facts.Contents()))
    {
      if facts.predicateCapacity < predicateCapacity {
        return Failure(FactCapacityTooSmall(predicateCapacity, facts.predicateCapacity));
      }
      if fallback.Some? {
        r := EvaluateExpression(fallback.value, facts, 0);
      } else {
        match fastPath.value
        case Conjunction(t, f, c) =>
          var v := EvaluateConjunction(facts, t, f, c);
          r := Success(v);
        case Disjunction(t, f, c) =>
          var v := EvaluateDisjunction(facts, t, f, c);
          r := Success(v);
      }
      forall e | Represents(e) ensures r == Success(Kleene(e, facts.Contents())) {
        VerdictIsKleene(this, e, Flatten(facts.knownTrue[..]), Flatten(facts.knownFalse[..]), facts.predicateCapacity);
      }
    }
  }

  /** On all three paths the verdict is the strong-Kleene value. */
  lemma {:induction false} VerdictIsKleene(guard: MultiwordCompiledGuard, e: BoolExpr, knownTrue: set<nat>,
      knownFalse: set<nat>, capacity: nat)
    requires guard.Represents(e) && capacity >= guard.predicateCapacity && knownTrue !! knownFalse
    ensures guard.Verdict(knownTrue, knownFalse, capacity) == Success(Kleene(e, Stored(knownTrue, knownFalse)))
  {
    var facts := Stored(knownTrue, knownFalse);
    match guard.fastPath
    case None => EvalWithin(e, facts, capacity);
    case Some(Conjunction(t, f, c)) =>
      FlatMeaning(true, e, facts);
      MaskVerdictIsFold(Flatten(t), Flatten(f), c, knownTrue, knownFalse);
    case Some(Disjunction(t, f, c)) =>
      FlatMeaning(false, e, facts);
      MaskVerdictIsFold(Flatten(f), Flatten(t), c, knownTrue, knownFalse);
      MaskDuality(Flatten(t), Flatten(f), c, facts);
  }

  // ----- kernels -----

  /** `evaluate_conjunction`: accumulate conflicts and missing evidence word by word. */
  method EvaluateConjunction(facts: MultiwordFactSet, requiredTrue: seq<Word>, requiredFalse: seq<Word>,
                             constantFalse: bool) returns (r: TruthValue)
    requires facts.Valid() && |requiredTrue| == |requiredFalse| <= facts.knownTrue.Length
    ensures r == MaskVerdict(Flatten(requiredTrue), Flatten(requiredFalse), constantFalse,
                             Flatten(facts.knownTrue[..]), Flatten(facts.knownFalse[..]))
  {
    if constantFalse {
      return False;
    }
    var trueWords, falseWords := facts.knownTrue[..], facts.knownFalse[..];
    var conflict: Word, missing: Word := {}, {};
    for word := 0 to |requiredTrue|
      invariant conflict == {}
           <==> Apart(requiredTrue, falseWords, word) && Apart(requiredFalse, trueWords, word)
      invariant missing == {}
           <==> Covered(requiredTrue, trueWords, word) && Covered(requiredFalse, falseWords, word)
    {
      OneMoreWord(requiredTrue, trueWords, word);
      OneMoreWord(requiredTrue, falseWords, word);
      OneMoreWord(requiredFalse, trueWords, word);
      OneMoreWord(requiredFalse, falseWords, word);
      var needTrue, needFalse := requiredTrue[word], requiredFalse[word];
      var knownTrue, knownFalse := trueWords[word], falseWords[word];
      MeetingEmpty(conflict, knownFalse, needTrue, knownTrue, needFalse);
      LackingEmpty(missing, needTrue, knownTrue, needFalse, knownFalse);
      conflict := conflict + (knownFalse * needTrue + knownTrue * needFalse);
      missing := missing + ((needTrue - knownTrue) + (needFalse - knownFalse));
    }
    RowsDisjoint(requiredTrue, falseWords);
    RowsDisjoint(requiredFalse, trueWords);
    RowsCovered(requiredTrue, trueWords);
    RowsCovered(requiredFalse, falseWords);
    r := if conflict != {} then False else if missing == {} then True else Unknown;
  }

  /** `evaluate_disjunction`: the dual kernel; one satisfied literal dominates missing evidence. */
  method EvaluateDisjunction(facts: MultiwordFactSet, sufficientTrue: seq<Word>, sufficientFalse: seq<Word>,
                             constantTrue: bool) returns (r: TruthValue)
    requires facts.Valid() && |sufficientTrue| == |sufficientFalse| <= facts.knownTrue.Length
    ensures r == MaskVerdict(Flatten(sufficientFalse), Flatten(sufficientTrue), constantTrue,
                             Flatten(facts.knownTrue[..]), Flatten(facts.knownFalse[..])).Negated()
  {
    if constantTrue {
      return True;
    }
    var trueWords, falseWords := facts.knownTrue[..], facts.knownFalse[..];
    var satisfied: Word, missing: Word := {}, {};
    for word := 0 to |sufficientTrue|
      invariant satisfied == {}
           <==> Apart(sufficientTrue, trueWords, word) && Apart(sufficientFalse, falseWords, word)
      invariant missing == {}
           <==> Covered(sufficientTrue, falseWords, word) && Covered(sufficientFalse, trueWords, word)
    {
      OneMoreWord(sufficientTrue, trueWords, word);
      OneMoreWord(sufficientTrue, falseWords, word);
      OneMoreWord(sufficientFalse, trueWords, word);
      OneMoreWord(sufficientFalse, falseWords, word);
      var acceptTrue, acceptFalse := sufficientTrue[word], sufficientFalse[word];
      var knownTrue, knownFalse := trueWords[word], falseWords[word];
      MeetingEmpty(satisfied, knownTrue, acceptTrue, knownFalse, acceptFalse);
      LackingEmpty(missing, acceptTrue, knownFalse, acceptFalse, knownTrue);
      satisfied := satisfied + (knownTrue * acceptTrue + knownFalse * acceptFalse);
      missing := missing + ((acceptTrue - knownFalse) + (acceptFalse - knownTrue));
    }
    RowsDisjoint(sufficientTrue, trueWords);
    RowsDisjoint(sufficientFalse, falseWords);
    RowsCovered(sufficientTrue, falseWords);
    RowsCovered(sufficientFalse, trueWords);
    r := if satisfied != {} then True else if missing == {} then False else Unknown;
  }

  /** `evaluate_expression`: the generic path. */
  method EvaluateExpression(e: BoolExpr, facts: MultiwordFactSet, depth: nat) returns (r: Policy<TruthValue>)
    requires facts.Valid()
    ensures r == Eval(e, facts.Contents(), facts.predicateCapacity, depth)
    decreases e
  {
    if depth > MAX_BOOLEAN_EXPR_DEPTH {
      return Failure(ExpressionTooDeep);
    }
    match e
    case Const(value) => r := Success(if value then True else False);
    case Atom(id) => r := facts.Get(id);
    case Not(inner) =>
      var v := EvaluateExpression(inner, facts, depth + 1);
      r := if v.Success? then Success(v.value.Negated()) else v;
    case All(_) | Any(_) =>
      var result := Known(e.All?);
      for i := 0 to |e.items|
        invariant EvalList(e.All?, e.items, facts.Contents(), facts.predicateCapacity, depth + 1, Known(e.All?))
               == EvalList(e.All?, e.items[i..], facts.Contents(), facts.predicateCapacity, depth + 1, result)
      {
        assert e.items[i..][1..] == e.items[i + 1..];
        var v := EvaluateExpression(e.items[i], facts, depth + 1);
        if v.Failure? { return v; }
        result := Combine(e.All?, result, v.value);
        if result == Known(!e.All?) { return Success(result); }
      }
      r := Success(result);
    case Xor(_, _) | Implies(_, _) =>
      var lhs := EvaluateExpression(e.lhs, facts, depth + 1);
      if lhs.Failure? { return lhs; }
      var rhs := EvaluateExpression(e.rhs, facts, depth + 1);
      if rhs.Failure? { return rhs; }
      r := Success(Binary(e.Xor?, lhs.value, rhs.value));
  }

  // ----- compilation -----

  /** `insert`. */
  method InsertInto(mask: array<Word>, id: nat, capacity: nat) returns (r: Policy<()>)
    requires mask.Length == WordCount(capacity)
    modifies mask
    ensures if id < capacity then r == Success(()) && Flatten(mask[..]) == Flatten(old(mask[..])) + {id}
            else r == Failure(PredicateOutOfRange(id, capacity)) && unchanged(mask)
  {
    var location := Location(id, capacity);
    if location.Failure? {
      return Failure(location.error);
    }
    SetBit(mask, id);
    r := Success(());
  }

  /** The literals collected in a pair of masks so far. */
  ghost function Collected(maskTrue: array<Word>, maskFalse: array<Word>, constant: bool): set<Literal>
    reads maskTrue, maskFalse
  {
    MaskLiterals(Flatten(maskTrue[..]), Flatten(maskFalse[..]), constant)
  }

  /** Collection reports whether the shape is flat, or an id of the expression that does not fit. */
  ghost predicate CollectionOutcome(r: Policy<bool>, flat: bool, ids: set<nat>, capacity: nat) {
    match r
    case Success(fast) => fast == flat
    case Failure(error) => AtomFault(error, ids, capacity)
  }

  /** `collect_conjunction` and, with `conjunction` false, `collect_disjunction`. */
  method CollectLiterals(conjunction: bool, e: BoolExpr, capacity: nat,
                         maskTrue: array<Word>, maskFalse: array<Word>, constant: bool)
    returns (r: Policy<bool>, c: bool)
    requires maskTrue != maskFalse && maskTrue.Length == maskFalse.Length == WordCount(capacity)
    modifies maskTrue, maskFalse
    ensures CollectionOutcome(r, Flat(conjunction, e), Atoms(e), capacity)
    ensures r == Success(true) ==>
              Collected(maskTrue, maskFalse, c) == old(Collected(maskTrue, maskFalse, constant))
                + LiteralsOf(conjunction, e)
    decreases e
  {
    c := constant;
    match e
    case Const(_) | Atom(_) | Not(_) =>
      r, c := CollectLeaf(conjunction, e, capacity, maskTrue, maskFalse, constant);
    case All(_) | Any(_) =>
      if e.All? != conjunction { return Success(false), c; }
      r, c := CollectOperands(conjunction, e.items, capacity, maskTrue, maskFalse, constant);
    case Xor(_, _) | Implies(_, _) => r := Success(false);
  }

  /** The loop over the operands of a group of the collected kind. */
  method CollectOperands(conjunction: bool, items: seq<BoolExpr>, capacity: nat,
                         maskTrue: array<Word>, maskFalse: array<Word>, constant: bool)
    returns (r: Policy<bool>, c: bool)
    requires maskTrue != maskFalse && maskTrue.Length == maskFalse.Length == WordCount(capacity)
    modifies maskTrue, maskFalse
    ensures CollectionOutcome(r, FlatList(conjunction, items), AtomsOf(items), capacity)
    ensures r == Success(true) ==>
              Collected(maskTrue, maskFalse, c) == old(Collected(maskTrue, maskFalse, constant))
                + LiteralsOfList(conjunction, items)
    decreases items
  {
    c := constant;
    for i := 0 to |items|
      invariant FlatList(conjunction, items) == FlatList(conjunction, items[i..])
      invariant Collected(maskTrue, maskFalse, c) + LiteralsOfList(conjunction, items[i..])
             == old(Collected(maskTrue, maskFalse, constant)) + LiteralsOfList(conjunction, items)
    {
      assert items[i..][1..] == items[i + 1..];
      r, c := CollectLiterals(conjunction, items[i], capacity, maskTrue, maskFalse, c);
      if r.Failure? {
        assert items[i] in items;
        AtomsByMembers(items, r.error.id);
        return;
      }
      if !r.value {
        return;
      }
    }
    r := Success(true);
  }

  /** The literal and constant cases of the collection. */
  method CollectLeaf(conjunction: bool, e: BoolExpr, capacity: nat,
                     maskTrue: array<Word>, maskFalse: array<Word>, constant: bool)
    returns (r: Policy<bool>, c: bool)
    requires e.Const? || e.Atom? || e.Not?
    requires maskTrue != maskFalse && maskTrue.Length == maskFalse.Length == WordCount(capacity)
    modifies maskTrue, maskFalse
    ensures CollectionOutcome(r, Flat(conjunction, e), Atoms(e), capacity)
    ensures r == Success(true) ==>
              Collected(maskTrue, maskFalse, c) == old(Collected(maskTrue, maskFalse, constant))
                + LiteralsOf(conjunction, e)
  {
    c := constant;
    if e.Const? {
      MaskLiteralsAdd(Flatten(maskTrue[..]), Flatten(maskFalse[..]), c, 0);
      c := c || e.value != conjunction;
      return Success(true), c;
    }
    var inserted;
    if e.Atom? {
      MaskLiteralsAdd(Flatten(maskTrue[..]), Flatten(maskFalse[..]), c, e.id);
      inserted := InsertInto(maskTrue, e.id, capacity);
    } else if e.inner.Atom? {
      MaskLiteralsAdd(Flatten(maskTrue[..]), Flatten(maskFalse[..]), c, e.inner.id);
      inserted := InsertInto(maskFalse, e.inner.id, capacity);
    } else {
      return Success(false), c;
    }
    r := if inserted.Success? then Success(true) else Failure(inserted.error);
  }

  /** `MultiwordCompiledGuard::compile`. */
  method Compile(e: BoolExpr, capacity: nat) returns (r: Policy<MultiwordCompiledGuard>)
    ensures if capacity > 4096 then r == Failure(CapacityTooLarge(capacity))
            else if Within(e, GuardLimits(capacity)) then
              r.Success? && r.value.Represents(e) && r.value.predicateCapacity == capacity
            else r.Failure? && Scan(e, 0, 0, GuardLimits(capacity)) == Failure(r.error)
  {
    if capacity > MAX_MULTIWORD_FACT_PREDICATES {
      return Failure(CapacityTooLarge(capacity));
    }
    ScanExact(e, 0, 0, GuardLimits(capacity));
    var valid, _ := ValidateAtDepth(e, 0, 0, GuardLimits(capacity));
    if valid.Failure? {
      return Failure(valid.error);
    }
    var conjunctive, t, f, c := CollectFresh(true, e, capacity);
    if conjunctive {
      return Success(MultiwordCompiledGuard(capacity, Some(Conjunction(t, f, c)), None));
    }
    var disjunctive, t', f', c' := CollectFresh(false, e, capacity);
    if disjunctive {
      return Success(MultiwordCompiledGuard(capacity, Some(Disjunction(t', f', c')), None));
    }
    r := Success(MultiwordCompiledGuard(capacity, None, Some(e)));
  }

  lemma {:induction false} NoLiterals()
    ensures MaskLiterals({}, {}, false) == {}
  {
  }

  /** Collection of a validated expression into freshly zeroed masks cannot fail. */
  method CollectFresh(conjunction: bool, e: BoolExpr, capacity: nat)
    returns (fast: bool, t: seq<Word>, f: seq<Word>, c: bool)
    requires Within(e, GuardLimits(capacity))
    ensures fast == Flat(conjunction, e)
    ensures fast ==>
              |t| == |f| == WordCount(capacity) && MaskLiterals(Flatten(t), Flatten(f), c) == LiteralsOf(conjunction, e)
  {
    var maskTrue := new Word[WordCount(capacity)](_ => {});
    var maskFalse := new Word[WordCount(capacity)](_ => {});
    FlattenZero(maskTrue[..]);
    FlattenZero(maskFalse[..]);
    NoLiterals();
    var r, constant := CollectLiterals(conjunction, e, capacity, maskTrue, maskFalse, false);
    fast, t, f, c := r.value, maskTrue[..], maskFalse[..], constant;
  }

  // ----- batches -----

  const MAX_MULTIWORD_GUARDS_PER_BATCH: nat := 1024

  function KleeneEach(expressions: seq<BoolExpr>, facts: Facts): seq<TruthValue> {
    seq(|expressions|, i requires 0 <= i < |expressions| => Kleene(expressions[i], facts))
  }

  datatype MultiwordGuardBatch = MultiwordGuardBatch(predicateCapacity: nat, guards: seq<MultiwordCompiledGuard>) {

    ghost predicate WellFormed() {
      forall g <- guards :: g.WellFormed() && g.predicateCapacity == predicateCapacity
    }

    /** The batch was compiled from `expressions`, in order. */
    ghost predicate Represents(expressions: seq<BoolExpr>) {
      |guards| == |expressions| && forall i :: 0 <= i < |guards| ==> guards[i].Represents(expressions[i])
    }

    /** `MultiwordGuardBatch::evaluate`: one Kleene value per candidate, in caller order. */
    method Evaluate(facts: MultiwordFactSet) returns (r: Policy<seq<TruthValue>>)
      requires WellFormed() && facts.Valid()
      ensures facts.predicateCapacity < predicateCapacity ==>
                r == Failure(FactCapacityTooSmall(predicateCapacity, facts.predicateCapacity))
      ensures facts.predicateCapacity >= predicateCapacity ==>
                forall es :: Represents(es) ==> r == Success(KleeneEach(es, facts.Contents()))
    {
      if facts.predicateCapacity < predicateCapacity {
        return Failure(FactCapacityTooSmall(predicateCapacity, facts.predicateCapacity));
      }
      var outcomes: seq<TruthValue> := [];
      for i := 0 to |guards|
        invariant |outcomes| == i
        invariant forall es, k :: Represents(es) && 0 <= k < i ==> outcomes[k] == Kleene(es[k], facts.Contents())
      {
        var outcome := guards[i].Evaluate(facts);
        if outcome.Failure? {
          assert forall es :: Represents(es) ==> guards[i].Represents(es[i]);
          return Failure(outcome.error);
        }
        outcomes := outcomes + [outcome.value];
      }
      forall es | Represents(es) ensures outcomes == KleeneEach(es, facts.Contents()) {
        assert |outcomes| == |es|;
      }
      r := Success(outcomes);
    }
  }

  /** Some candidate breaks a bound, and the error is the walk's error on the first that does. */
  ghost predicate Rejected(expressions: seq<BoolExpr>, capacity: nat, error: PolicyError) {
    && !(forall e <- expressions :: Within(e, GuardLimits(capacity)))
    && exists i :: 0 <= i < |expressions| && RejectedAt(expressions, capacity, i, error)
  }

  ghost predicate RejectedAt(expressions: seq<BoolExpr>, capacity: nat, i: nat, error: PolicyError)
    requires i < |expressions|
  {
    && (forall e <- expressions[..i] :: Within(e, GuardLimits(capacity)))
    && Scan(expressions[i], 0, 0, GuardLimits(capacity)) == Failure(error)
  }

  /** `MultiwordGuardBatch::compile`: all candidates, or the first error in order. */
  method CompileBatch(expressions: seq<BoolExpr>, capacity: nat) returns (r: Policy<MultiwordGuardBatch>)
    ensures if |expressions| > 1024 then r == Failure(TooManyGuards(|expressions|))
            else if capacity > 4096 then r == Failure(CapacityTooLarge(capacity))
            else if r.Success? then forall e <- expressions :: Within(e, GuardLimits(capacity))
            else Rejected(expressions, capacity, r.error)
    ensures r.Success? ==>
              r.value.predicateCapacity == capacity && r.value.WellFormed() && r.value.Represents(expressions)
  {
    if |expressions| > MAX_MULTIWORD_GUARDS_PER_BATCH {
      return Failure(TooManyGuards(|expressions|));
    }
    if capacity > MAX_MULTIWORD_FACT_PREDICATES {
      return Failure(CapacityTooLarge(capacity));
    }
    var guards: seq<MultiwordCompiledGuard> := [];
    for i := 0 to |expressions|
      invariant |guards| == i
      invariant forall k :: 0 <= k < i ==>
                guards[k].Represents(expressions[k]) && guards[k].predicateCapacity == capacity
    {
      var guard := Compile(expressions[i], capacity);
      if guard.Failure? {
        assert RejectedAt(expressions, capacity, i, guard.error);
        return Failure(guard.error);
      }
      guards := guards + [guard.value];
    }
    r := Success(MultiwordGuardBatch(capacity, guards));
  }

  /** `indices_with`: the positions carrying one outcome, in order. */
  function IndicesWith(outcomes: seq<TruthValue>, expected: TruthValue): seq<nat> {
    if outcomes == [] then []
    else
      var last := |outcomes| - 1;
      IndicesWith(outcomes[..last], expected) + (if outcomes[last] == expected then [last] else [])
  }

  /** Each view lists exactly its positions, strictly ascending; so the three views split the batch. */
  lemma {:induction false} IndexViews(outcomes: seq<TruthValue>, expected: TruthValue)
    ensures forall i :: i in IndicesWith(outcomes, expected) <==> 0 <= i < |outcomes| && outcomes[i] == expected
    ensures forall j, k :: 0 <= j < k < |IndicesWith(outcomes, expected)| ==>
              IndicesWith(outcomes, expected)[j] < IndicesWith(outcomes, expected)[k]
  {
    if outcomes != [] {
      var front := outcomes[..|outcomes| - 1];
      IndexViews(front, expected);
      assert forall k :: 0 <= k < |IndicesWith(front, expected)| ==>
          IndicesWith(front, expected)[k] in IndicesWith(front, expected);
    }
  }

  /** No outcome is lost or counted twice. */
  lemma {:induction false} IndexViewsPartition(outcomes: seq<TruthValue>)
    ensures |IndicesWith(outcomes, True)| + |IndicesWith(outcomes, False)| + |IndicesWith(outcomes, Unknown)|
         == |outcomes|
  {
    if outcomes != [] {
      IndexViewsPartition(outcomes[..|outcomes| - 1]);
    }
  }
}
