// i64_to_p32: a signed 64-bit integer to a 32-bit posit.
module Int64ToP32 {
  import opened Powers
  import opened PositRounding
  import opened PositValue
  import opened P32Fields
  import opened ScaledNumbers
  import opened DoubleToP32

  predicate Int64(i: int) {
    -0x8000_0000_0000_0000 <= i < 0x8000_0000_0000_0000
  }

  // The largest integer that still rounds below 2^63.
  const LAST: int := 9222809086901354495

  // A positive integer, shifted up until its top bit is bit 63.
  lemma IntegerAsNum(i: nat, log2: nat, frac: int)
    requires log2 <= 63 && frac == i * Pow2(63 - log2)
    ensures i as real == Num(log2, frac, 63)
  {
    hide Exp2, Num;
    NumShifted(log2, i, log2, 63 - log2);
    assert i as real == Num(log2, i, log2) by {
      WholeNumber(log2, i);
    }
  }

  lemma WholeNumber(s: nat, i: int)
    ensures Num(s, i, s) == i as real
  {
    hide Exp2;
    Exp2Add(s, 0 - s);
    Exp2Zero();
    Regroup(Exp2(s), Exp2(0 - s), i as real);
  }

  method FromInt64(i: int) returns (z: nat)
    requires Int64(i)
    ensures Bits32(z) && Rounds32(i as real, z)
    ensures i > LAST ==> z == 0x7FFF_B000
  {
    hide RoundsPos32, Rounds32, Pow2, Num, InCell, Cut32;
    if i < -LAST {
      NearTop(-i);
      SignedRounding((-i) as real, 0x7FFF_B000, true);
      return 0x8000_5000;
    }
    var sign := i < 0;
    var iA := if sign then -i else i;
    var uiA: nat;
    if iA > LAST {
      NearTop(iA);
      uiA := 0x7FFF_B000;
    } else if iA < 2 {
      if iA == 0 {
        ZeroRounds();
        return 0;
      }
      OneRounds();
      uiA := iA * 0x4000_0000;
    } else {
      var log2, fracA := Normalise(iA);
      var k := log2 / 4;
      var expA := log2 % 4 * Pow2(27 - k);
      ghost var f: nat := fracA - 0x8000_0000_0000_0000;
      fracA := fracA - 0x8000_0000_0000_0000;
      IntegerAsNum(iA, log2, fracA + 0x8000_0000_0000_0000);
      IntegerCut(iA as real, log2, f);
      var u := 0x7FFF_FFFF - 0x3FFF_FFFF / Pow2(k) + expA + fracA / Pow2(k + 36);
      var mask := Pow2(k + 35);
      OddParts(k, log2 % 4, fracA);
      if fracA / mask % 2 == 1 {
        if fracA % mask != 0 || fracA / (2 * mask) % 2 == 1 {
          u := u + 1;
        }
      }
      uiA := u;
    }
    SignedRounding(iA as real, uiA, sign);
    z := if sign then Neg32(uiA) else uiA;
  }

  lemma ZeroRounds()
    ensures Rounds32(0.0, 0)
  {
  }

  method Normalise(i: nat) returns (log2: nat, frac: nat)
    requires 2 <= i <= LAST
    ensures 1 <= log2 <= 62 && frac == i * Pow2(63 - log2)
    ensures 0x8000_0000_0000_0000 <= frac < 0x1_0000_0000_0000_0000
  {
    hide Pow2;
    Pow2Small();
    log2, frac := 63, i;
    while frac / 0x8000_0000_0000_0000 % 2 == 0
      invariant log2 <= 63 && frac == i * Pow2(63 - log2) && 0 < frac < 0x1_0000_0000_0000_0000
      invariant frac >= 0x8000_0000_0000_0000 ==> log2 <= 62
      invariant log2 >= 1
      decreases log2
    {
      StillRoom(i, log2, frac);
      Pow2Double(63 - log2);
      assert i * Pow2(64 - log2) == 2 * frac;
      log2 := log2 - 1;
      frac := frac * 2;
    }
  }

  lemma StillRoom(i: nat, log2: nat, frac: nat)
    requires i >= 2 && 1 <= log2 <= 63 && frac == i * Pow2(63 - log2) && frac < 0x8000_0000_0000_0000
    ensures log2 >= 2
  {
    hide Pow2;
    Pow2Words();
    MulLess(1, i, Pow2(62));
  }

  // What i64_to_p32 computes from the 63 bits below the leading one.
  function IntegerBits(log2: nat, f: nat): int
    requires log2 <= 62
  {
    var k := log2 / 4;
    var u := 0x7FFF_FFFF - 0x3FFF_FFFF / Pow2(k) + log2 % 4 * Pow2(27 - k) + f / Pow2(k + 36);
    RoundGuard(u, f / Pow2(k + 35) % 2 == 1, f % Pow2(k + 35) != 0)
  }

  lemma IntegerCut(x: real, log2: nat, f: nat)
    requires log2 <= 62 && f < 0x8000_0000_0000_0000
    requires x == Num(log2, 0x8000_0000_0000_0000 + f, 63)
    ensures x > 0.0 && Pos32(IntegerBits(log2, f)) && RoundsPos32(x, IntegerBits(log2, f))
  {
    hide Num, InCell, RoundsPos32, Cut32, Pow2, RegimeWord;
    Pow2Words();
    var k, e := log2 / 4, log2 % 4;
    CellOfExact(log2, f, 63);
    ScaleOf2(k, e);
    CutRounds(x, k, e, f, 63, false);
    CutInFraction(k, e, f, 63, false);
    Pos32OfRounded(x, Cut32(k, e, f, 63, false));
    SameRegime(k);
  }

  lemma SameRegime(k: nat)
    requires k <= 15
    ensures RegimeWord(k) == 0x7FFF_FFFF - 0x3FFF_FFFF / Pow2(k) == 0x8000_0000 - Pow2(30 - k)
  {
    hide Pow2;
    Pow2Words();
    RegimeWordIsRegimeBits(k);
    Pow2Add(30 - k, k);
    assert (Pow2(30 - k) - 1) * Pow2(k) + Pow2(k) == 0x4000_0000;
    DivModUnique(0x3FFF_FFFF, Pow2(k), Pow2(30 - k) - 1, Pow2(k) - 1);
  }

  // Regime and exponent leave bit 0 to the fraction.
  lemma OddParts(k: nat, e: nat, f: nat)
    requires k <= 15
    ensures var u := 0x7FFF_FFFF - 0x3FFF_FFFF / Pow2(k) + e * Pow2(27 - k) + f / Pow2(k + 36);
      u % 2 == f / (2 * Pow2(k + 35)) % 2 == f / Pow2(k + 36) % 2
  {
    hide Pow2, RegimeWord;
    SameRegime(k);
    Pow2Double(29 - k);
    Pow2Double(26 - k);
    Pow2Double(k + 35);
    Regroup3(e, 2, Pow2(26 - k));
    EvenPlus(0x4000_0000 - Pow2(29 - k) + e * Pow2(26 - k),
             0x8000_0000 - Pow2(30 - k) + e * Pow2(27 - k), f / Pow2(k + 36));
  }

  // From LAST + 1 on everything up to 2^63 rounds to 2^63.
  lemma NearTop(i: int)
    requires LAST < i <= 0x8000_0000_0000_0000
    ensures RoundsPos32(i as real, 0x7FFF_B000)
  {
    hide Num, RoundsPos32, Pow2, IntegerBits, InCell, RegimeWord;
    Pow2Words();
    Pow2Small();
    if i < 0x8000_0000_0000_0000 {
      IntegerAsNum(i, 62, 2 * i);
      IntegerCut(i as real, 62, 2 * i - 0x8000_0000_0000_0000);
      TopBits(2 * i - 0x8000_0000_0000_0000);
    } else {
      IntegerAsNum(i, 63, i);
      CellOfExact(63, 0, 63);
      ScaleOf2(15, 3);
      CutRounds(i as real, 15, 3, 0, 63, false);
      TopExactly();
    }
  }

  lemma Pow2At12()
    ensures Pow2(12) == 0x1000 && Pow2(50) == 0x4_0000_0000_0000 && Pow2(51) == 0x8_0000_0000_0000
  {
    Pow2Small();
    Pow2Words();
    Pow2Add(4, 4);
    Pow2Add(4, 8);
    Pow2Add(33, 17);
    assert Pow2(51) == 2 * Pow2(50);
  }

  lemma TopBits(f: nat)
    requires 0x8000_0000_0000_0000 - 0x4_0000_0000_0000 <= f < 0x8000_0000_0000_0000
    ensures IntegerBits(62, f) == 0x7FFF_B000
  {
    hide Pow2;
    Pow2Words();
    Pow2At12();
    DivModUnique(f, 0x8_0000_0000_0000, 0xFFF, f - 0xFFF * 0x8_0000_0000_0000);
    DivModUnique(f, 0x4_0000_0000_0000, 0x1FFF, f - 0x1FFF * 0x4_0000_0000_0000);
  }

  lemma TopExactly()
    ensures Cut32(15, 3, 0, 63, false) == 0x7FFF_B000
  {
    hide Pow2, Cut32;
    Pow2Words();
    Pow2At12();
    CutInFraction(15, 3, 0, 63, false);
  }
}
