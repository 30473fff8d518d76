/** The hashed bytes, one by one and in letters (`canonical.rs`). */
module StreamBytes {
  import opened Expressions
  import opened Predicates
  import opened Encoding
  import opened Fingerprint

  /** `n` without its `i` lowest bytes. */
  function Dropped(n: nat, i: nat): nat {
    if i == 0 then n else Dropped(n, i - 1) / 256
  }

  lemma {:induction false} DroppedLow(n: nat, i: nat)
    ensures Dropped(n / 256, i) == Dropped(n, i + 1)
  {
    if i > 0 {
      DroppedLow(n, i - 1);
    }
  }

  /** Byte `i` of the little-endian form is byte `i` of the number, counted from the low end. */
  lemma {:induction false} LittleEndianByte(n: nat, width: nat, i: nat)
    requires i < width
    ensures LittleEndian(n, width)[i] == Dropped(n, i) % 256
  {
    if i > 0 {
      LittleEndianByte(n / 256, width - 1, i - 1);
      DroppedLow(n, i - 1);
    }
  }

  /** A number is `#` and eight bytes, low byte first; a text is `s`, its length and its bytes. */
  lemma {:induction false} NumbersAndTexts(n: nat, text: seq<Byte>)
    ensures |EncodeNumber(n)| == 9 && EncodeNumber(n)[0] == '#' as int
    ensures forall i :: 0 <= i < 8 ==> EncodeNumber(n)[1 + i] == Dropped(n, i) % 256
    ensures EncodeText(text) == ['s' as int] + EncodeNumber(|text|) + text
  {
    forall i | 0 <= i < 8 ensures EncodeNumber(n)[1 + i] == Dropped(n, i) % 256 {
      LittleEndianByte(n, 8, i);
    }
  }

  /** The encodings of a list, one after the other. */
  lemma {:induction false} ListBytes(xs: seq<KeyedExpr>, ys: seq<KeyedExpr>)
    ensures EncodeEach([]) == [] && EncodeEach(xs + ys) == EncodeEach(xs) + EncodeEach(ys)
    ensures |xs| == 1 ==> EncodeEach(xs) == Encode(xs[0])
    decreases xs
  {
    if xs == [] {
      assert xs + ys == ys;
    } else {
      ListBytes(xs[1..], ys);
      assert (xs + ys)[1..] == xs[1..] + ys;
      Assoc(Encode(xs[0]), EncodeEach(xs[1..]), EncodeEach(ys), []);
    }
  }

  /** Which letter opens each kind of node, and what follows it. */
  lemma {:induction false} NodeBytes(b: bool, key: PredicateKey, x: KeyedExpr, y: KeyedExpr, items: seq<KeyedExpr>)
    ensures Encode(KConst(b)) == ['c' as int] + EncodeNumber(if b then 1 else 0)
    ensures Encode(KAtom(key)) == ['p' as int] + (EncodeText(key.namespace) + EncodeText(key.name))
    ensures Encode(KNot(x)) == ['n' as int] + Encode(x)
    ensures Encode(KAll(items)) == ['a' as int] + (EncodeNumber(|items|) + EncodeEach(items))
    ensures Encode(KAny(items)) == ['o' as int] + (EncodeNumber(|items|) + EncodeEach(items))
    ensures Encode(KXor(x, y)) == ['x' as int] + (Encode(x) + Encode(y))
    ensures Encode(KImplies(x, y)) == ['i' as int] + (Encode(x) + Encode(y))
    ensures Stream(x) == ['v' as int] + EncodeNumber(1) + Encode(x)
  {
  }
}
