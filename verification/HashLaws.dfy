/** What one hash step computes, bit by bit, and known values that pin the hash down (`canonical.rs`). */
module HashLaws {
  import opened Predicates
  import opened Fingerprint

  // ----- bits -----

  /** Bit `i`, by halving. */
  predicate Bit(n: nat, i: nat) {
    if i == 0 then n % 2 == 1 else Bit(n / 2, i - 1)
  }

  lemma {:induction false} ZeroHasNoBit(i: nat)
    ensures !Bit(0, i)
  {
    if i > 0 {
      ZeroHasNoBit(i - 1);
    }
  }

  /** Below the width, a bit of the exclusive-or is set exactly when the two bits differ; above it none is. */
  lemma {:induction false} XorBitsBitwise(a: nat, b: nat, width: nat, i: nat)
    ensures Bit(XorBits(a, b, width), i) <==> i < width && Bit(a, i) != Bit(b, i)
  {
    if width == 0 {
      ZeroHasNoBit(i);
    } else if i > 0 {
      XorBitsBitwise(a / 2, b / 2, width - 1, i - 1);
    }
  }

  lemma {:induction false} HighBit(high: nat, low: nat, width: nat, i: nat)
    requires low < Power2(width)
    ensures Bit(Power2(width) * high + low, i) <==> if i < width then Bit(low, i) else Bit(high, i - width)
  {
    if width > 0 {
      var n := Power2(width) * high + low;
      assert n == 2 * (Power2(width - 1) * high + low / 2) + low % 2;
      assert n / 2 == Power2(width - 1) * high + low / 2 && n % 2 == low % 2;
      if i > 0 {
        HighBit(high, low / 2, width - 1, i - 1);
      }
    }
  }

  /** `state ^ byte` differs from the state exactly at the bits of the byte. */
  lemma {:induction false} XorByteBitwise(state: nat, byte: Byte, i: nat)
    ensures Bit(XorByte(state, byte), i) <==> Bit(state, i) != (i < 8 && Bit(byte, i))
  {
    assert Power2(8) == 256;
    XorBitsInjective(state % 256, byte, state % 256, byte, 8);
    XorBitsBitwise(state % 256, byte, 8, i);
    HighBit(state / 256, state % 256, 8, i);
    HighBit(state / 256, XorBits(state % 256, byte, 8), 8, i);
  }

  /** Exclusive-or with zero changes nothing, and with itself leaves zero. */
  lemma {:induction false} XorBitsUnits(a: nat, width: nat)
    requires a < Power2(width)
    ensures XorBits(a, 0, width) == a && XorBits(a, a, width) == 0
  {
    if width > 0 {
      XorBitsUnits(a / 2, width - 1);
    }
  }

  // ----- known values -----

  /** The hash of one byte, with the low byte of the initial state split off. */
  lemma {:induction false} OneByte(b: Byte, high: nat, low: nat, mixed: nat)
    requires low < 256 && OFFSET == 256 * high + low && XorBits(low, b, 8) == mixed
    ensures Hash([b]) == TimesPrime(256 * high + mixed)
  {
    assert [b][..0] == [];
    assert (256 * high + low) / 256 == high && (256 * high + low) % 256 == low;
  }

  lemma {:induction false} LowByteMixed()
    ensures XorBits(0x25, 0x61, 8) == 0x44
  {
    assert XorBits(0x25 / 16, 0x61 / 16, 4) == 0x44 / 16;
    assert XorBits(0x25 / 4, 0x61 / 4, 6) == 0x44 / 4;
  }

  lemma {:induction false} LetterProduct(high: nat, mixed: nat)
    requires high == 0xcb_f29c_e484_2223 && mixed == 0x44
    ensures TimesPrime(256 * high + mixed) == 0xaf63_dc4c_8601_ec8c
  {
  }

  lemma {:induction false} LetterMixed(letter: Byte, low: nat, mixed: nat)
    requires low == 0x25 && letter == 0x61 && mixed == 0x44
    ensures XorBits(low, letter, 8) == mixed
  {
    LowByteMixed();
  }

  lemma {:induction false} OffsetSplit(high: nat, low: nat)
    requires high == 0xcb_f29c_e484_2223 && low == 0x25
    ensures low < 256 && OFFSET == 256 * high + low
  {
  }

  /** The hash of no bytes and of the single letter `a` are the published 64-bit FNV-1a values. */
  lemma {:induction false} FnvVectors(letter: Byte)
    requires letter == 'a' as int
    ensures Hash([]) == 0xcbf2_9ce4_8422_2325
    ensures Hash([letter]) == 0xaf63_dc4c_8601_ec8c
  {
    var high: nat, low: nat, mixed: nat :| high == 0xcb_f29c_e484_2223 && low == 0x25 && mixed == 0x44;
    OffsetSplit(high, low);
    LetterMixed(letter, low, mixed);
    LetterProduct(high, mixed);
    OneByte(letter, high, low, mixed);
  }
}
