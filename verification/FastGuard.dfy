/** The single-word compiled guard (`CompiledGuard` in `logic.rs`). */
module FastGuard {
  import opened Outcomes
  import opened Words
  import opened Truth
  import opened Expressions
  import opened Bounds
  import opened FactStore
  import opened Literals

  /** A conjunction as two masks and a flag, or an expression to be walked. */
  datatype CompiledGuard = CompiledGuard(requiredTrue: Word, requiredFalse: Word, fallback: Option<BoolExpr>,
                                         constantFalse: bool) {

    /** `evaluate` on the masks of a fact set. */
    ghost function Verdict(knownTrue: Word, knownFalse: Word): Policy<TruthValue> {
      if constantFalse then Success(False)
      else if fallback.Some? then Eval(fallback.value, Stored(knownTrue, knownFalse), FAST_PREDICATE_CAPACITY, 0)
      else Success(MaskVerdict(requiredTrue, requiredFalse, false, knownTrue, knownFalse))
    }

    /** The guard was compiled from `e`. */
    ghost predicate Represents(e: BoolExpr) {
      if Flat(true, e) then
        fallback == None && MaskLiterals(requiredTrue, requiredFalse, constantFalse) == LiteralsOf(true, e)
      else
        this == CompiledGuard({}, {}, Some(e), false)
    }

    predicate UsesMaskFastPath() {
      fallback == None
    }

    predicate IsContradictory() {
      constantFalse || Intersects(requiredTrue, requiredFalse)
    }

    /** `CompiledGuard::evaluate`. */
    method Evaluate(facts: FactSet) returns (r: Policy<TruthValue>)
      requires facts.Valid()
      ensures r == Verdict(facts.knownTrue, facts.knownFalse)
      ensures forall e :: Represents(e) && Within(e, FAST_LIMITS) ==> r == Success(Kleene(e, facts.Contents()))
    {
      forall e | Represents(e) && Within(e, FAST_LIMITS)
        ensures Verdict(facts.knownTrue, facts.knownFalse) == Success(Kleene(e, facts.Contents()))
      {
        CompiledMeaning(this, e, facts.knownTrue, facts.knownFalse);
      }
      if constantFalse {
        return Success(False);
      }
      if fallback.Some? {
        r := FactStore.Evaluate(fallback.value, facts);
        return;
      }
      if Intersects(facts.knownFalse, requiredTrue) || Intersects(facts.knownTrue, requiredFalse) {
        return Success(False);
      }
      assert ContainsAll(facts.knownTrue, requiredTrue) <==> requiredTrue <= facts.knownTrue;
      assert ContainsAll(facts.knownFalse, requiredFalse) <==> requiredFalse <= facts.knownFalse;
      var satisfied := ContainsAll(facts.knownTrue, requiredTrue) && ContainsAll(facts.knownFalse, requiredFalse);
      r := Success(if satisfied then True else Unknown);
    }
  }

  /** `collect_conjunction`: add the literals of `e` to the masks, or report that `e` is not a flat conjunction. */
  method CollectConjunction(e: BoolExpr, requiredTrue: Word, requiredFalse: Word, constantFalse: bool)
    returns (r: Policy<bool>, t: Word, f: Word, c: bool)
    ensures match r
            case Success(fast) => fast == Flat(true, e)
            case Failure(error) => AtomFault(error, Atoms(e), FAST_PREDICATE_CAPACITY)
    ensures r == Success(true) ==>
              MaskLiterals(t, f, c) == MaskLiterals(requiredTrue, requiredFalse, constantFalse) + LiteralsOf(true, e)
    decreases e
  {
    t, f, c := requiredTrue, requiredFalse, constantFalse;
    match e
    case Const(value) =>
      MaskLiteralsAdd(t, f, c, 0);
      if !value {
        c := true;
      }
      r := Success(true);
    case Atom(id) =>
      var inserted := Insert(t, id);
      if inserted.Failure? { return Failure(inserted.error), t, f, c; }
      MaskLiteralsAdd(t, f, c, id);
      t, r := inserted.value, Success(true);
    case Not(inner) =>
      if !inner.Atom? { return Success(false), t, f, c; }
      var inserted := Insert(f, inner.id);
      if inserted.Failure? { return Failure(inserted.error), t, f, c; }
      MaskLiteralsAdd(t, f, c, inner.id);
      f, r := inserted.value, Success(true);
    case All(items) =>
      for i := 0 to |items|
        invariant FlatList(true, items) == FlatList(true, items[i..])
        invariant MaskLiterals(t, f, c) + LiteralsOfList(true, items[i..])
               == MaskLiterals(requiredTrue, requiredFalse, constantFalse) + LiteralsOfList(true, items)
      {
        assert items[i..][1..] == items[i + 1..];
        r, t, f, c := CollectConjunction(items[i], t, f, c);
        if r.Failure? {
          assert items[i] in items;
          AtomsByMembers(items, r.error.id);
          return;
        }
        if !r.value {
          return;
        }
      }
      r := Success(true);
    case Any(_) | Xor(_, _) | Implies(_, _) => r := Success(false);
  }

  /** `CompiledGuard::compile`: fails exactly where `validate_predicates` fails. */
  method Compile(e: BoolExpr) returns (r: Policy<CompiledGuard>)
    ensures if Within(e, FAST_LIMITS) then r.Success? && r.value.Represents(e)
            else r.Failure? && Scan(e, 0, 0, FAST_LIMITS) == Failure(r.error)
  {
    ScanExact(e, 0, 0, FAST_LIMITS);
    var valid, _ := ValidateAtDepth(e, 0, 0, FAST_LIMITS);
    if valid.Failure? {
      return Failure(valid.error);
    }
    var fast, t, f, c := CollectConjunction(e, {}, {}, false);
    assert MaskLiterals({}, {}, false) == {};
    assert fast.Success?;
    r := Success(if fast.value then CompiledGuard(t, f, None, c) else CompiledGuard({}, {}, Some(e), false));
  }

  /** Compilation keeps the three-valued meaning on both paths, whatever is known. */
  lemma {:induction false} CompiledMeaning(guard: CompiledGuard, e: BoolExpr, knownTrue: Word, knownFalse: Word)
    requires guard.Represents(e) && Within(e, FAST_LIMITS) && knownTrue !! knownFalse
    ensures guard.Verdict(knownTrue, knownFalse) == Success(Kleene(e, Stored(knownTrue, knownFalse)))
  {
    var facts := Stored(knownTrue, knownFalse);
    if Flat(true, e) {
      FlatMeaning(true, e, facts);
      MaskVerdictIsFold(guard.requiredTrue, guard.requiredFalse, guard.constantFalse, knownTrue, knownFalse);
    } else {
      EvalWithin(e, facts, FAST_PREDICATE_CAPACITY);
    }
  }

  /** On the fast path `is_contradictory` holds exactly when no facts make the guard True. */
  lemma {:induction false} ContradictoryIffNeverTrue(guard: CompiledGuard, e: BoolExpr)
    requires guard.Represents(e) && guard.UsesMaskFastPath()
    ensures guard.IsContradictory() <==> forall facts: Facts :: Kleene(e, facts) != True
  {
    var literals := LiteralsOf(true, e);
    MaskLiteralsHas(guard.requiredTrue, guard.requiredFalse, guard.constantFalse);
    if guard.IsContradictory() {
      forall facts: Facts ensures Kleene(e, facts) != True {
        FlatMeaning(true, e, facts);
        if guard.constantFalse {
          assert Absorbing in literals;
        } else {
          var id :| id in guard.requiredTrue * guard.requiredFalse;
          assert Positive(id) in literals && Negative(id) in literals;
        }
      }
    } else {
      forall id | id in guard.requiredTrue ensures id !in guard.requiredFalse {
        assert id in guard.requiredFalse ==> id in guard.requiredTrue * guard.requiredFalse;
      }
      var facts := Stored(guard.requiredTrue, guard.requiredFalse);
      FlatMeaning(true, e, facts);
      MaskVerdictIsFold(guard.requiredTrue, guard.requiredFalse, false, guard.requiredTrue, guard.requiredFalse);
      assert Kleene(e, facts) == True;
    }
  }

  /** No fact decides a literal of the guard against it. */
  predicate RefutesNone(guard: CompiledGuard, facts: Facts) {
    && (forall id <- guard.requiredTrue :: Lookup(facts, id) != False)
    && (forall id <- guard.requiredFalse :: Lookup(facts, id) != True)
  }

  /**
   A guard with opposing literals and no False constant is Unknown, rather than False,
   exactly while no fact refutes one of its literals.
   */
  lemma {:induction false} OpposingLiteralsStayUnknown(guard: CompiledGuard, e: BoolExpr, facts: Facts)
    requires guard.Represents(e) && guard.UsesMaskFastPath()
    requires guard.IsContradictory() && !guard.constantFalse
    ensures Kleene(e, facts) == if RefutesNone(guard, facts) then Unknown else False
  {
    var literals := LiteralsOf(true, e);
    FlatMeaning(true, e, facts);
    MaskLiteralsHas(guard.requiredTrue, guard.requiredFalse, false);
    if RefutesNone(guard, facts) {
      ContradictoryIffNeverTrue(guard, e);
      assert forall l <- literals :: LiteralValue(true, l, facts) != False;
    } else if id :| id in guard.requiredTrue && Lookup(facts, id) == False {
      assert Positive(id) in literals && LiteralValue(true, Positive(id), facts) == False;
    } else {
      var id :| id in guard.requiredFalse && Lookup(facts, id) == True;
      assert Negative(id) in literals && LiteralValue(true, Negative(id), facts) == False;
    }
  }
}
