/**
 The mask kernels over rows of 64-bit vectors, as the program computes them
 (`multiword_guard.rs`, `multiword.rs`), proved against the verdicts over sets.
 */
module MachineKernels {
  import opened Truth
  import opened Words
  import opened MachineWords
  import opened Literals

  /** The row of sets a row of machine words stands for. */
  function Row(words: seq<bv64>): (r: seq<Word>)
    ensures |r| == |words| && forall w :: 0 <= w < |words| ==> r[w] == Bits(words[w])
  {
    seq(|words|, w requires 0 <= w < |words| => Bits(words[w]))
  }

  /** The flat positions set in a row of machine words. */
  function Positions(words: seq<bv64>): set<nat> {
    Flatten(Row(words))
  }

  // ----- one word -----

  /** `seen |= (a & b) | (c & d)`. */
  function Meeting(seen: bv64, a: bv64, b: bv64, c: bv64, d: bv64): bv64 {
    seen | ((a & b) | (c & d))
  }

  /** `seen |= (a & !b) | (c & !d)`. */
  function Lacking(seen: bv64, a: bv64, b: bv64, c: bv64, d: bv64): bv64 {
    seen | ((a & !b) | (c & !d))
  }

  lemma {:induction false} UnionZero(seen: bv64, x: bv64, y: bv64)
    ensures seen | (x | y) == 0 <==> seen == 0 && x == 0 && y == 0
  {
  }

  lemma {:induction false} MeetZero(a: bv64, b: bv64, x: bv64)
    requires IsAnd(a, b, x)
    ensures x == 0 <==> Bits(b) * Bits(a) == {}
  {
    AndIsIntersection(a, b, x);
    ZeroIsEmpty(x);
    assert Bits(b) * Bits(a) == Bits(a) * Bits(b);
  }

  lemma {:induction false} LackZero(a: bv64, b: bv64, x: bv64)
    requires IsAndNot(a, b, x)
    ensures x == 0 <==> Bits(a) <= Bits(b)
  {
    AndNotIsDifference(a, b, x);
    ZeroIsEmpty(x);
    DifferenceEmpty(Bits(a), Bits(b));
  }

  /** The accumulated meetings are zero exactly when nothing met before and neither pair meets. */
  lemma {:induction false} MeetingZero(seen: bv64, a: bv64, b: bv64, c: bv64, d: bv64)
    ensures Meeting(seen, a, b, c, d) == 0 <==> seen == 0 && Bits(b) * Bits(a) == {} && Bits(d) * Bits(c) == {}
  {
    UnionZero(seen, a & b, c & d);
    MeetZero(a, b, a & b);
    MeetZero(c, d, c & d);
  }

  /** The accumulated lacks are zero exactly when nothing lacked before and both masks are covered. */
  lemma {:induction false} LackingZero(seen: bv64, a: bv64, b: bv64, c: bv64, d: bv64)
    ensures Lacking(seen, a, b, c, d) == 0 <==> seen == 0 && Bits(a) <= Bits(b) && Bits(c) <= Bits(d)
  {
    UnionZero(seen, a & !b, c & !d);
    LackZero(a, b, a & !b);
    LackZero(c, d, c & !d);
  }

  // ----- rows of words -----

  /** `evaluate_conjunction` over machine words computes the conjunction's verdict over sets. */
  method ConjunctionKernel(requiredTrue: seq<bv64>, requiredFalse: seq<bv64>, constantFalse: bool,
                           knownTrue: seq<bv64>, knownFalse: seq<bv64>)
    returns (r: TruthValue)
    requires |requiredTrue| == |requiredFalse| <= |knownTrue| == |knownFalse|
    ensures r == MaskVerdict(Positions(requiredTrue), Positions(requiredFalse), constantFalse,
                             Positions(knownTrue), Positions(knownFalse))
  {
    if constantFalse {
      return False;
    }
    var conflict: bv64, missing: bv64 := 0, 0;
    for word := 0 to |requiredTrue|
      invariant conflict == 0
           <==> Apart(Row(requiredTrue), Row(knownFalse), word) && Apart(Row(requiredFalse), Row(knownTrue), word)
      invariant missing == 0
           <==> Covered(Row(requiredTrue), Row(knownTrue), word) && Covered(Row(requiredFalse), Row(knownFalse), word)
    {
      OneMoreWord(Row(requiredTrue), Row(knownTrue), word);
      OneMoreWord(Row(requiredTrue), Row(knownFalse), word);
      OneMoreWord(Row(requiredFalse), Row(knownTrue), word);
      OneMoreWord(Row(requiredFalse), Row(knownFalse), word);
      MeetingZero(conflict, knownFalse[word], requiredTrue[word], knownTrue[word], requiredFalse[word]);
      LackingZero(missing, requiredTrue[word], knownTrue[word], requiredFalse[word], knownFalse[word]);
      conflict := Meeting(conflict, knownFalse[word], requiredTrue[word], knownTrue[word], requiredFalse[word]);
      missing := Lacking(missing, requiredTrue[word], knownTrue[word], requiredFalse[word], knownFalse[word]);
    }
    RowsDisjoint(Row(requiredTrue), Row(knownFalse));
    RowsDisjoint(Row(requiredFalse), Row(knownTrue));
    RowsCovered(Row(requiredTrue), Row(knownTrue));
    RowsCovered(Row(requiredFalse), Row(knownFalse));
    r := if conflict != 0 then False else if missing == 0 then True else Unknown;
  }

  /** `evaluate_disjunction` over machine words computes the dual verdict. */
  method DisjunctionKernel(sufficientTrue: seq<bv64>, sufficientFalse: seq<bv64>, constantTrue: bool,
                           knownTrue: seq<bv64>, knownFalse: seq<bv64>)
    returns (r: TruthValue)
    requires |sufficientTrue| == |sufficientFalse| <= |knownTrue| == |knownFalse|
    ensures r == MaskVerdict(Positions(sufficientFalse), Positions(sufficientTrue), constantTrue,
                             Positions(knownTrue), Positions(knownFalse)).Negated()
  {
    if constantTrue {
      return True;
    }
    var satisfied: bv64, missing: bv64 := 0, 0;
    for word := 0 to |sufficientTrue|
      invariant satisfied == 0
           <==> Apart(Row(sufficientTrue), Row(knownTrue), word) && Apart(Row(sufficientFalse), Row(knownFalse), word)
      invariant missing == 0
           <==> Covered(Row(sufficientTrue), Row(knownFalse), word)
                && Covered(Row(sufficientFalse), Row(knownTrue), word)
    {
      OneMoreWord(Row(sufficientTrue), Row(knownTrue), word);
      OneMoreWord(Row(sufficientTrue), Row(knownFalse), word);
      OneMoreWord(Row(sufficientFalse), Row(knownTrue), word);
      OneMoreWord(Row(sufficientFalse), Row(knownFalse), word);
      MeetingZero(satisfied, knownTrue[word], sufficientTrue[word], knownFalse[word], sufficientFalse[word]);
      LackingZero(missing, sufficientTrue[word], knownFalse[word], sufficientFalse[word], knownTrue[word]);
      satisfied := Meeting(satisfied, knownTrue[word], sufficientTrue[word], knownFalse[word], sufficientFalse[word]);
      missing := Lacking(missing, sufficientTrue[word], knownFalse[word], sufficientFalse[word], knownTrue[word]);
    }
    RowsDisjoint(Row(sufficientTrue), Row(knownTrue));
    RowsDisjoint(Row(sufficientFalse), Row(knownFalse));
    RowsCovered(Row(sufficientTrue), Row(knownFalse));
    RowsCovered(Row(sufficientFalse), Row(knownTrue));
    r := if satisfied != 0 then True else if missing == 0 then False else Unknown;
  }

  // ----- one bit -----

  lemma {:induction false} WordBit(word: bv64, i: nat, written: bv64, cleared: bv64)
    requires i < 64 && IsOr(word, BitAt(i), written) && IsAndNot(word, BitAt(i), cleared)
    ensures Bits(written) == Bits(word) + {i} && Bits(cleared) == Bits(word) - {i}
  {
    OrIsUnion(word, BitAt(i), written);
    AndNotIsDifference(word, BitAt(i), cleared);
    PositionsAreSets(i, 0);
  }

  lemma {:induction false} RowUpdate(words: seq<bv64>, w: nat, word: bv64)
    requires w < |words|
    ensures Row(words[w := word]) == Row(words)[w := Bits(word)]
  {
  }

  /** Setting or clearing bit `id % 64` of word `id / 64` sets or clears the flat position `id`. */
  lemma {:induction false} OneBit(words: seq<bv64>, id: nat, written: bv64, cleared: bv64)
    requires id / 64 < |words|
    requires IsOr(words[id / 64], BitAt(id % 64), written) && IsAndNot(words[id / 64], BitAt(id % 64), cleared)
    ensures Positions(words[id / 64 := written]) == Positions(words) + {id}
    ensures Positions(words[id / 64 := cleared]) == Positions(words) - {id}
  {
    WordBit(words[id / 64], id % 64, written, cleared);
    RowUpdate(words, id / 64, written);
    RowUpdate(words, id / 64, cleared);
    FlattenUpdate(Row(words), id);
  }
}
