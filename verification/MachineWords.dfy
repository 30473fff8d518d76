/**
 The reading of `u64` masks as sets of positions that every other module uses,
 proved for 64-bit vectors. Bit operators are named by relations, so that each
 fact about vectors is settled once, away from the inductions over positions.
 */
module MachineWords {
  import opened Words

  predicate Odd(m: bv64) { m & 1 == 1 }
  function Half(m: bv64): bv64 { m >> 1 }
  function Twice(m: bv64): bv64 { m << 1 }
  function TwicePlusOne(m: bv64): bv64 { (m << 1) | 1 }
  predicate Top(m: bv64) { m & 0x8000_0000_0000_0000 != 0 }

  predicate IsOr(a: bv64, b: bv64, c: bv64) { c == a | b }
  predicate IsAnd(a: bv64, b: bv64, c: bv64) { c == a & b }
  predicate IsAndNot(a: bv64, b: bv64, c: bv64) { c == a & !b }
  predicate Inside(a: bv64, b: bv64) { a & !b == 0 }

  /** Whether bit `k` is set, by shifting it down to the lowest place. */
  predicate Test(m: bv64, k: nat) {
    if k == 0 then Odd(m) else Test(Half(m), k - 1)
  }

  /** The set bit positions of a mask. */
  function Bits(m: bv64): Word {
    set k: nat | k < 64 && Test(m, k)
  }

  /** `1 << i`. */
  function BitAt(i: nat): bv64 {
    if i == 0 then 1 else Twice(BitAt(i - 1))
  }

  /** `(1 << r) - 1`, and `u64::MAX` when `r` is 64. */
  function LowBits(r: nat): bv64 {
    if r == 0 then 0 else TwicePlusOne(LowBits(r - 1))
  }

  // ----- operators -----

  lemma {:induction false} OrShift(a: bv64, b: bv64, c: bv64)
    requires IsOr(a, b, c)
    ensures IsOr(Half(a), Half(b), Half(c))
    ensures Odd(c) <==> Odd(a) || Odd(b)
  {
  }

  lemma {:induction false} AndShift(a: bv64, b: bv64, c: bv64)
    requires IsAnd(a, b, c)
    ensures IsAnd(Half(a), Half(b), Half(c))
    ensures Odd(c) <==> Odd(a) && Odd(b)
  {
  }

  lemma {:induction false} AndNotShift(a: bv64, b: bv64, c: bv64)
    requires IsAndNot(a, b, c)
    ensures IsAndNot(Half(a), Half(b), Half(c))
    ensures Odd(c) <==> Odd(a) && !Odd(b)
  {
  }

  lemma {:induction false} TestOr(a: bv64, b: bv64, c: bv64, k: nat)
    requires IsOr(a, b, c)
    ensures Test(c, k) <==> Test(a, k) || Test(b, k)
  {
    OrShift(a, b, c);
    if k > 0 {
      TestOr(Half(a), Half(b), Half(c), k - 1);
    }
  }

  lemma {:induction false} TestAnd(a: bv64, b: bv64, c: bv64, k: nat)
    requires IsAnd(a, b, c)
    ensures Test(c, k) <==> Test(a, k) && Test(b, k)
  {
    AndShift(a, b, c);
    if k > 0 {
      TestAnd(Half(a), Half(b), Half(c), k - 1);
    }
  }

  lemma {:induction false} TestAndNot(a: bv64, b: bv64, c: bv64, k: nat)
    requires IsAndNot(a, b, c)
    ensures Test(c, k) <==> Test(a, k) && !Test(b, k)
  {
    AndNotShift(a, b, c);
    if k > 0 {
      TestAndNot(Half(a), Half(b), Half(c), k - 1);
    }
  }

  /** `|` is union. */
  lemma {:induction false} OrIsUnion(a: bv64, b: bv64, c: bv64)
    requires IsOr(a, b, c)
    ensures Bits(c) == Bits(a) + Bits(b)
  {
    forall k: nat ensures Test(c, k) <==> Test(a, k) || Test(b, k) { TestOr(a, b, c, k); }
  }

  /** `&` is intersection. */
  lemma {:induction false} AndIsIntersection(a: bv64, b: bv64, c: bv64)
    requires IsAnd(a, b, c)
    ensures Bits(c) == Bits(a) * Bits(b)
  {
    forall k: nat ensures Test(c, k) <==> Test(a, k) && Test(b, k) { TestAnd(a, b, c, k); }
  }

  /** `a & !b` is difference. */
  lemma {:induction false} AndNotIsDifference(a: bv64, b: bv64, c: bv64)
    requires IsAndNot(a, b, c)
    ensures Bits(c) == Bits(a) - Bits(b)
  {
    forall k: nat ensures Test(c, k) <==> Test(a, k) && !Test(b, k) { TestAndNot(a, b, c, k); }
  }

  // ----- positions -----

  lemma {:induction false} DoubleShift(m: bv64)
    requires !Top(m)
    ensures Half(Twice(m)) == m && !Odd(Twice(m))
    ensures Half(TwicePlusOne(m)) == m && Odd(TwicePlusOne(m))
  {
  }

  lemma {:induction false} WithinShift(a: bv64, b: bv64)
    requires Inside(a, b)
    ensures Inside(Twice(a), TwicePlusOne(b)) && Inside(TwicePlusOne(a), TwicePlusOne(b))
    ensures Top(a) ==> Top(b)
  {
  }

  lemma {:induction false} WithinHalf(m: bv64, low: bv64)
    requires Inside(m, TwicePlusOne(low))
    ensures Inside(Half(m), low) && (Half(m) == 0 && !Odd(m) ==> m == 0)
  {
  }

  lemma {:induction false} WithinTransitive(a: bv64, b: bv64, c: bv64)
    requires Inside(a, b) && Inside(b, c)
    ensures Inside(a, c)
  {
  }

  lemma {:induction false} WithinEnds(m: bv64)
    ensures Inside(0, m) && Inside(m, m) && Inside(1, TwicePlusOne(m)) && Inside(m, 0xffff_ffff_ffff_ffff)
    ensures Inside(m, 0) ==> m == 0
  {
  }

  lemma {:induction false} LowBitsGrow(r: nat)
    ensures Inside(LowBits(r), LowBits(r + 1))
  {
    if r == 0 {
      WithinEnds(LowBits(1));
    } else {
      LowBitsGrow(r - 1);
      WithinShift(LowBits(r - 1), LowBits(r));
    }
  }

  lemma {:induction false} AllOnes()
    ensures LowBits(63) == 0x7fff_ffff_ffff_ffff && LowBits(64) == 0xffff_ffff_ffff_ffff
  {
    assert LowBits(8) == 0xff;
    assert LowBits(16) == 0xffff;
    assert LowBits(24) == 0xff_ffff;
    assert LowBits(32) == 0xffff_ffff;
    assert LowBits(40) == 0xff_ffff_ffff;
    assert LowBits(48) == 0xffff_ffff_ffff;
    assert LowBits(56) == 0xff_ffff_ffff_ffff;
    assert LowBits(63) == 0x7fff_ffff_ffff_ffff;
  }

  lemma {:induction false} LowBitsClear(r: nat)
    requires r < 64
    ensures Inside(LowBits(r), LowBits(63)) && !Top(LowBits(r))
    decreases 63 - r
  {
    AllOnes();
    if r == 63 {
      WithinEnds(LowBits(63));
    } else {
      LowBitsClear(r + 1);
      LowBitsGrow(r);
      WithinTransitive(LowBits(r), LowBits(r + 1), LowBits(63));
      WithinShift(LowBits(r), LowBits(63));
    }
  }

  lemma {:induction false} BitAtClear(i: nat)
    requires i < 63
    ensures !Top(BitAt(i))
  {
    LowBitsClear(i + 1);
    BitAtWithin(i);
    WithinShift(BitAt(i), LowBits(i + 1));
  }

  lemma {:induction false} BitAtWithin(i: nat)
    ensures Inside(BitAt(i), LowBits(i + 1))
  {
    if i == 0 {
      WithinEnds(LowBits(0));
    } else {
      BitAtWithin(i - 1);
      WithinShift(BitAt(i - 1), LowBits(i));
    }
  }

  lemma {:induction false} ZeroHasNoBits(k: nat)
    ensures !Test(0, k)
  {
    if k > 0 {
      assert Half(0) == 0;
      ZeroHasNoBits(k - 1);
    }
  }

  lemma {:induction false} TestBitAt(i: nat, k: nat)
    requires i < 64
    ensures Test(BitAt(i), k) <==> k == i
  {
    if i == 0 {
      assert Half(1) == 0;
      if k > 0 {
        ZeroHasNoBits(k - 1);
      }
    } else {
      BitAtClear(i - 1);
      DoubleShift(BitAt(i - 1));
      if k > 0 {
        TestBitAt(i - 1, k - 1);
      }
    }
  }

  lemma {:induction false} TestLowBits(r: nat, k: nat)
    requires r <= 64
    ensures Test(LowBits(r), k) <==> k < r
  {
    if r == 0 {
      ZeroHasNoBits(k);
    } else {
      LowBitsClear(r - 1);
      DoubleShift(LowBits(r - 1));
      if k > 0 {
        TestLowBits(r - 1, k - 1);
      }
    }
  }

  /** Single bits and low masks are what the set reading says. */
  lemma {:induction false} PositionsAreSets(i: nat, r: nat)
    requires i < 64 && r <= 64
    ensures Bits(BitAt(i)) == {i} && Bits(LowBits(r)) == LowWord(r)
  {
    forall k: nat ensures Test(BitAt(i), k) <==> k == i { TestBitAt(i, k); }
    forall k: nat ensures Test(LowBits(r), k) <==> k < r { TestLowBits(r, k); }
  }

  lemma {:induction false} TwiceMinusOne(bit: bv64)
    ensures TwicePlusOne(bit - 1) == Twice(bit) - 1
  {
  }

  /** The low mask is the predecessor of a single bit, as the program computes it for `r` below 64. */
  lemma {:induction false} LowBitsIsPredecessor(r: nat)
    requires r < 64
    ensures LowBits(r) == BitAt(r) - 1
  {
    if r > 0 {
      LowBitsIsPredecessor(r - 1);
      TwiceMinusOne(BitAt(r - 1));
    }
  }

  /** The index `i` below 64 as a shift amount, counted up from zero. */
  function Amount(i: nat): bv6 {
    if i == 0 then 0 else Amount(i - 1) + 1
  }

  /** Doubling a single bit below the top moves the shift up by one. */
  lemma {:induction false} ShiftUp(m: bv64, k: bv6)
    requires m == (1 as bv64) << k && !Top(m)
    ensures Twice(m) == (1 as bv64) << (k + 1)
  {
  }

  /** The recursive bit is the expression of the program, `1 << i`. */
  lemma {:induction false} BitAtIsShift(i: nat)
    requires i < 64
    ensures BitAt(i) == (1 as bv64) << Amount(i)
  {
    if i > 0 {
      BitAtIsShift(i - 1);
      BitAtClear(i - 1);
      ShiftUp(BitAt(i - 1), Amount(i - 1));
    }
  }

  /** `1 << i` sets exactly position `i`, and `(1 << r) - 1` exactly the positions below `r`. */
  lemma {:induction false} ShiftsAreSets(i: nat)
    requires i < 64
    ensures Bits((1 as bv64) << Amount(i)) == {i}
    ensures Bits(((1 as bv64) << Amount(i)) - 1) == LowWord(i)
  {
    BitAtIsShift(i);
    LowBitsIsPredecessor(i);
    PositionsAreSets(i, i);
  }

  // ----- comparison -----

  lemma {:induction false} NoBits(m: bv64, n: nat)
    requires Inside(m, LowBits(n)) && forall k: nat :: k < n ==> !Test(m, k)
    ensures m == 0
  {
    if n == 0 {
      WithinEnds(m);
    } else {
      WithinHalf(m, LowBits(n - 1));
      assert !Test(m, 0);
      forall k: nat ensures k < n - 1 ==> !Test(Half(m), k) {
        assert Test(m, k + 1) <==> Test(Half(m), k);
      }
      NoBits(Half(m), n - 1);
    }
  }

  /** A mask is zero exactly when its set is empty. */
  lemma {:induction false} ZeroIsEmpty(m: bv64)
    ensures m == 0 <==> Bits(m) == {}
  {
    if m == 0 {
      forall k: nat ensures !Test(m, k) { ZeroHasNoBits(k); }
    } else if Bits(m) == {} {
      forall k: nat ensures k < 64 ==> !Test(m, k) { assert k < 64 && Test(m, k) ==> k in Bits(m); }
      AllOnes();
      WithinEnds(m);
      NoBits(m, 64);
    }
  }

  lemma {:induction false} DifferencesZero(a: bv64, b: bv64)
    requires a & !b == 0 && b & !a == 0
    ensures a == b
  {
  }

  /** Masks are equal exactly when their sets are. */
  lemma {:induction false} EqualIsSameSet(a: bv64, b: bv64)
    ensures a == b <==> Bits(a) == Bits(b)
  {
    if Bits(a) == Bits(b) {
      var d, e := a & !b, b & !a;
      AndNotIsDifference(a, b, d);
      AndNotIsDifference(b, a, e);
      ZeroIsEmpty(d);
      ZeroIsEmpty(e);
      DifferencesZero(a, b);
    }
  }
}
