/** The bounded multiword fact store (`multiword.rs`). */
module MultiwordFacts {
  import opened Outcomes
  import opened Words
  import opened Truth
  import opened FactStore

  const MAX_MULTIWORD_FACT_WORDS: nat := 64
  const MAX_MULTIWORD_FACT_PREDICATES: nat := MAX_MULTIWORD_FACT_WORDS * WORD_BITS

  /** `capacity.div_ceil(64)`. */
  function WordCount(capacity: nat): nat {
    (capacity + 63) / 64
  }

  /** The fewest words with room for every id; at most 64 of them hold the 4096 predicates a store may have. */
  lemma {:induction false} WordCountIsLeast(capacity: nat, words: nat)
    ensures words >= WordCount(capacity) <==> 64 * words >= capacity
    ensures WordCount(MAX_MULTIWORD_FACT_PREDICATES) == 64 && MAX_MULTIWORD_FACT_PREDICATES == 4096
  {
  }

  /** Word index and bit index of a predicate. */
  function Location(id: nat, capacity: nat): (r: Policy<(nat, nat)>)
    ensures r.Success? ==> r.value.0 < WordCount(capacity) && r.value.1 < 64
  {
    if id >= capacity then Failure(PredicateOutOfRange(id, capacity)) else Success((id / 64, id % 64))
  }

  /** One word of a store: what is true, what is false, what is unknown. */
  datatype MultiwordFactWord = MultiwordFactWord(knownTrue: Word, knownFalse: Word, unknown: Word)

  /** `words[id / 64] &= !(1 << id % 64)`. */
  method ClearBit(words: array<Word>, id: nat)
    requires id / 64 < words.Length
    modifies words
    ensures Flatten(words[..]) == Flatten(old(words[..])) - {id}
  {
    ghost var before := words[..];
    FlattenUpdate(before, id);
    words[id / 64] := words[id / 64] - {id % 64};
    assert words[..] == before[id / 64 := before[id / 64] - {id % 64}];
  }

  /** `words[id / 64] |= 1 << id % 64`. */
  method SetBit(words: array<Word>, id: nat)
    requires id / 64 < words.Length
    modifies words
    ensures Flatten(words[..]) == Flatten(old(words[..])) + {id}
  {
    ghost var before := words[..];
    FlattenUpdate(before, id);
    words[id / 64] := words[id / 64] + {id % 64};
    assert words[..] == before[id / 64 := before[id / 64] + {id % 64}];
  }

  class MultiwordFactSet {
    const predicateCapacity: nat
    const knownTrue: array<Word>
    const knownFalse: array<Word>

    ghost predicate Valid()
      reads this, knownTrue, knownFalse
    {
      && knownTrue != knownFalse
      && knownTrue.Length == knownFalse.Length == WordCount(predicateCapacity)
      && Flatten(knownTrue[..]) !! Flatten(knownFalse[..])
      && (forall id <- Flatten(knownTrue[..]) :: id < predicateCapacity)
      && (forall id <- Flatten(knownFalse[..]) :: id < predicateCapacity)
    }

    ghost function Contents(): Facts
      reads this, knownTrue, knownFalse
    {
      Stored(Flatten(knownTrue[..]), Flatten(knownFalse[..]))
    }

    constructor (capacity: nat)
      ensures Valid() && fresh(knownTrue) && fresh(knownFalse)
      ensures predicateCapacity == capacity && Contents() == map[]
    {
      predicateCapacity := capacity;
      knownTrue := new Word[WordCount(capacity)](_ => {});
      knownFalse := new Word[WordCount(capacity)](_ => {});
      new;
      FlattenZero(knownTrue[..]);
      FlattenZero(knownFalse[..]);
    }

    /** `MultiwordFactSet::new`: the checked constructor. */
    static method New(capacity: nat) returns (r: Policy<MultiwordFactSet>)
      ensures if capacity > 4096 then r == Failure(CapacityTooLarge(capacity))
              else r.Success? && fresh(r.value) && fresh(r.value.knownTrue) && fresh(r.value.knownFalse)
                   && r.value.Valid() && r.value.predicateCapacity == capacity && r.value.Contents() == map[]
    {
      if capacity > MAX_MULTIWORD_FACT_PREDICATES {
        return Failure(CapacityTooLarge(capacity));
      }
      var facts := new MultiwordFactSet(capacity);
      r := Success(facts);
    }

    method Set(id: nat, value: TruthValue) returns (r: Policy<()>)
      requires Valid()
      modifies knownTrue, knownFalse
      ensures Valid()
      ensures if id < predicateCapacity
              then r == Success(()) && Contents() == Assign(old(Contents()), id, value)
              else r == Failure(PredicateOutOfRange(id, predicateCapacity)) && unchanged(knownTrue, knownFalse)
    {
      var location := Location(id, predicateCapacity);
      if location.Failure? {
        return Failure(location.error);
      }
      StoredAssign(Flatten(knownTrue[..]), Flatten(knownFalse[..]), id);
      ClearBit(knownTrue, id);
      ClearBit(knownFalse, id);
      match value {
        case True => SetBit(knownTrue, id);
        case False => SetBit(knownFalse, id);
        case Unknown =>
      }
      r := Success(());
    }

    method Get(id: nat) returns (r: Policy<TruthValue>)
      requires Valid()
      ensures r == if id < predicateCapacity then Success(Lookup(Contents(), id))
                   else Failure(PredicateOutOfRange(id, predicateCapacity))
    {
      var location := Location(id, predicateCapacity);
      if location.Failure? {
        return Failure(location.error);
      }
      var (word, bit) := location.value;
      FlattenHas(knownTrue[..], id);
      FlattenHas(knownFalse[..], id);
      if bit in knownTrue[word] {
        r := Success(True);
      } else if bit in knownFalse[word] {
        r := Success(False);
      } else {
        r := Success(Unknown);
      }
    }

    /** `valid_mask`: the bits of one word that lie below the capacity. */
    method ValidMask(word: nat) returns (r: Option<Word>)
      requires Valid()
      ensures r.Some? <==> word < knownTrue.Length
      ensures r.Some? ==> forall bit: nat :: bit in r.value <==> bit < 64 && 64 * word + bit < predicateCapacity
    {
      if word >= knownTrue.Length {
        return None;
      }
      var start := word * 64;
      var remaining := if predicateCapacity >= start then predicateCapacity - start else 0;
      r := Some(if remaining >= 64 then LowWord(64) else if remaining == 0 then {} else LowWord(remaining));
    }

    /** `word_masks`: every valid bit of the word is in exactly one of the three masks, and no other bit is in any. */
    method WordMasks(word: nat) returns (r: Option<MultiwordFactWord>)
      requires Valid()
      ensures r.Some? <==> word < knownTrue.Length
      ensures r.Some? ==> forall bit: nat :: bit < 64 ==> var id := 64 * word + bit;
                && (bit in r.value.knownTrue <==> id < predicateCapacity && Lookup(Contents(), id) == True)
                && (bit in r.value.knownFalse <==> id < predicateCapacity && Lookup(Contents(), id) == False)
                && (bit in r.value.unknown <==> id < predicateCapacity && Lookup(Contents(), id) == Unknown)
    {
      if word >= knownTrue.Length {
        return None;
      }
      var valid := ValidMask(word);
      var t, f := knownTrue[word], knownFalse[word];
      r := Some(MultiwordFactWord(t, f, valid.value - (t + f)));
      forall bit: nat | bit < 64
        ensures bit in t <==> 64 * word + bit in Flatten(knownTrue[..])
        ensures bit in f <==> 64 * word + bit in Flatten(knownFalse[..])
        ensures bit in valid.value <==> 64 * word + bit < predicateCapacity
        ensures Lookup(Contents(), 64 * word + bit) == if bit in t then True else if bit in f then False else Unknown
      {
        FlattenIndex(knownTrue[..], word, bit);
        FlattenIndex(knownFalse[..], word, bit);
      }
    }
  }

  /** Any run of `set` calls on a new store of `capacity` predicates leaves exactly its replay. */
  method RunWrites(capacity: nat, writes: seq<Write>) returns (facts: MultiwordFactSet, outcomes: seq<Policy<()>>)
    ensures facts.Valid() && facts.predicateCapacity == capacity && facts.Contents() == Replay(writes, capacity)
    ensures |outcomes| == |writes|
    ensures forall i :: 0 <= i < |writes| ==> (outcomes[i].Success? <==> writes[i].0 < capacity)
  {
    facts := new MultiwordFactSet(capacity);
    outcomes := [];
    for i := 0 to |writes|
      invariant fresh(facts.knownTrue) && fresh(facts.knownFalse) && facts.predicateCapacity == capacity
      invariant facts.Valid() && facts.Contents() == Replay(writes[..i], capacity)
      invariant |outcomes| == i
      invariant forall k :: 0 <= k < i ==> (outcomes[k].Success? <==> writes[k].0 < capacity)
    {
      ReplayStep(writes, capacity, i);
      var outcome := facts.Set(writes[i].0, writes[i].1);
      outcomes := outcomes + [outcome];
    }
    assert writes[..|writes|] == writes;
  }
}
