/**
 A `u64` mask, as the set of its set bit positions. `|` is union, `&` is
 intersection, `a & !b` is difference, `1 << i` is a singleton and comparison
 with zero is comparison with the empty set; MachineWords proves that reading of
 the operators for 64-bit vectors.
 */
module Words {

  const WORD_BITS: nat := 64

  type Word = s: set<nat> | forall i <- s :: i < 64 witness {}

  /** The `r` lowest positions: `(1 << r) - 1`, and `u64::MAX` when `r` is 64. */
  function LowWord(r: nat): (w: Word)
    requires r <= 64
    ensures forall i: nat :: i in w <==> i < r
  {
    if r == 0 then {} else LowWord(r - 1) + {r - 1}
  }

  /** Whether flat position `i` is set in a row of words. */
  predicate InWords(words: seq<Word>, i: nat) {
    i / 64 < |words| && i % 64 in words[i / 64]
  }

  /** The flat positions set in a row of words. */
  function Flatten(words: seq<Word>): set<nat> {
    set i: nat | i < 64 * |words| && InWords(words, i)
  }

  lemma {:induction false} FlattenHas(words: seq<Word>, i: nat)
    ensures i in Flatten(words) <==> InWords(words, i)
  {
  }

  /** Zeroed words hold no position. */
  lemma {:induction false} FlattenZero(words: seq<Word>)
    requires forall w :: 0 <= w < |words| ==> words[w] == {}
    ensures Flatten(words) == {}
  {
  }

  /** Every position of every word is a flat position. */
  lemma {:induction false} FlattenIndex(words: seq<Word>, word: nat, bit: nat)
    requires word < |words| && bit < 64
    ensures (64 * word + bit) / 64 == word && (64 * word + bit) % 64 == bit
    ensures 64 * word + bit in Flatten(words) <==> bit in words[word]
  {
    assert (64 * word + bit) / 64 == word;
  }

  /** Clearing or setting one bit of one word clears or sets one flat position. */
  lemma {:induction false} FlattenUpdate(words: seq<Word>, id: nat)
    requires id / 64 < |words|
    ensures Flatten(words[id / 64 := words[id / 64] - {id % 64}]) == Flatten(words) - {id}
    ensures Flatten(words[id / 64 := words[id / 64] + {id % 64}]) == Flatten(words) + {id}
  {
    forall i: nat | i != id && i / 64 == id / 64 ensures i % 64 != id % 64 {
      assert i == 64 * (i / 64) + i % 64 && id == 64 * (id / 64) + id % 64;
    }
  }

  /** The first `n` words of two rows meet nowhere, pair by pair. */
  ghost predicate Apart(a: seq<Word>, b: seq<Word>, n: nat)
    requires n <= |a| <= |b|
  {
    forall w :: 0 <= w < n ==> a[w] * b[w] == {}
  }

  /** The first `n` words of one row are covered by those of another, pair by pair. */
  ghost predicate Covered(a: seq<Word>, b: seq<Word>, n: nat)
    requires n <= |a| <= |b|
  {
    forall w :: 0 <= w < n ==> a[w] <= b[w]
  }

  lemma {:induction false} OneMoreWord(a: seq<Word>, b: seq<Word>, n: nat)
    requires n < |a| <= |b|
    ensures Apart(a, b, n + 1) <==> Apart(a, b, n) && a[n] * b[n] == {}
    ensures Covered(a, b, n + 1) <==> Covered(a, b, n) && a[n] <= b[n]
  {
  }

  /** Rows of words meet somewhere exactly when some pair of words does. */
  lemma {:induction false} RowsDisjoint(a: seq<Word>, b: seq<Word>)
    requires |a| <= |b|
    ensures Flatten(b) * Flatten(a) == {} <==> Apart(a, b, |a|)
  {
    if Flatten(b) * Flatten(a) == {} {
      forall w, bit | 0 <= w < |a| && bit in a[w] ensures bit !in b[w] {
        FlattenIndex(a, w, bit);
        FlattenIndex(b, w, bit);
        assert bit in b[w] ==> 64 * w + bit in Flatten(b) * Flatten(a);
      }
    } else {
      var i :| i in Flatten(b) * Flatten(a);
      assert i % 64 in a[i / 64] * b[i / 64];
    }
  }

  /** One row of words covers another exactly when it does so word by word. */
  lemma {:induction false} RowsCovered(a: seq<Word>, b: seq<Word>)
    requires |a| <= |b|
    ensures Flatten(a) <= Flatten(b) <==> Covered(a, b, |a|)
  {
    if Flatten(a) <= Flatten(b) {
      forall w, bit | 0 <= w < |a| && bit in a[w] ensures bit in b[w] {
        FlattenIndex(a, w, bit);
        FlattenIndex(b, w, bit);
      }
    }
  }

  lemma {:induction false} DifferenceEmpty(a: set<nat>, b: set<nat>)
    ensures a - b == {} <==> a <= b
  {
    if a - b == {} {
      forall x | x in a ensures x in b { assert x !in b ==> x in a - b; }
    }
  }

  /** `seen |= (a & b) | (c & d)` stays zero exactly while neither pair meets. */
  lemma {:induction false} MeetingEmpty(seen: set<nat>, a: set<nat>, b: set<nat>, c: set<nat>, d: set<nat>)
    ensures seen + (a * b + c * d) == {} <==> seen == {} && b * a == {} && d * c == {}
  {
    assert a * b == b * a && c * d == d * c;
    UnionEmpty(a * b, c * d);
    UnionEmpty(seen, a * b + c * d);
  }

  /** `seen |= (a & !b) | (c & !d)` stays zero exactly while both masks are covered. */
  lemma {:induction false} LackingEmpty(seen: set<nat>, a: set<nat>, b: set<nat>, c: set<nat>, d: set<nat>)
    ensures seen + ((a - b) + (c - d)) == {} <==> seen == {} && a <= b && c <= d
  {
    DifferenceEmpty(a, b);
    DifferenceEmpty(c, d);
    UnionEmpty(a - b, c - d);
    UnionEmpty(seen, (a - b) + (c - d));
  }

  lemma {:induction false} UnionEmpty(a: set<nat>, b: set<nat>)
    ensures a + b == {} <==> a == {} && b == {}
  {
    if a + b == {} {
      assert a <= a + b && b <= a + b;
    }
  }
}
