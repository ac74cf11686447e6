// p32_mul: the product of two 32-bit posits.
module P32Mul {
  import opened Powers
  import opened Posit
  import opened PositOrder
  import opened PositRounding
  import opened PositValue
  import opened RegimeSplit
  import opened P32Fields
  import opened ScaledNumbers

  // ----- The exact product, normalised -----

  // A product of two normalised fractions with its carries: regime k, exponent e and 60
  // fraction bits below the hidden one.
  ghost predicate IsProduct(x: real, k: int, e: nat, frac: nat) {
    && e < 4 && Pow2(60) <= frac < Pow2(61)
    && x == Num(4 * k + e, frac, 60)
    && (RunOf(k) <= 30 ==> Multiple(frac, RunOf(k)))
  }

  method Multiply(uiA: nat, uiB: nat) returns (k: int, e: nat, frac: nat)
    requires Pos32(uiA) && Pos32(uiB)
    ensures IsProduct(Value32(uiA) * Value32(uiB), k, e, frac)
  {
    hide IsSplit, IsProduct, Hidden, Value32, Multiple, Num, Pow2;
    Pos32IsPositive(uiA);
    Pos32IsPositive(uiB);
    var kA, tmpA := SplitRegime(32, uiA);
    var kB, tmpB := SplitRegime(32, uiB);
    MagnitudeAsNum(uiA, kA, tmpA);
    MagnitudeAsNum(uiB, kB, tmpB);
    HiddenBits(tmpA);
    HiddenBits(tmpB);
    k, e := kA + kB, tmpA / 0x2000_0000 + tmpB / 0x2000_0000;
    frac := Hidden(tmpA) * Hidden(tmpB);
    ghost var s := 4 * k + e;
    NumTimes(4 * kA + tmpA / 0x2000_0000, Hidden(tmpA), 30, 4 * kB + tmpB / 0x2000_0000, Hidden(tmpB), 30);
    FractionIsMultiple(uiA, kA, tmpA);
    FractionIsMultiple(uiB, kB, tmpB);
    ghost var slack: nat := FractionSlack(kA) + FractionSlack(kB);
    MultipleTimes(Hidden(tmpA), FractionSlack(kA), Hidden(tmpB), FractionSlack(kB));
    ProductRange(Hidden(tmpA), Hidden(tmpB));
    if e > 3 {
      k := k + 1;
      e := e % 4;
    }
    if frac / 0x2000_0000_0000_0000 != 0 {
      e := e + 1;
      if e > 3 {
        k := k + 1;
        e := e % 4;
      }
      SlackCoversShift(kA, kB, k, 1);
      HalveProduct(s, frac, slack);
      frac := frac / 2;
      slack := slack - 1;
    } else {
      SlackCoversShift(kA, kB, k, 0);
    }
    ProductNormalised(Value32(uiA) * Value32(uiB), k, e, frac, slack);
  }

  lemma ProductRange(a: nat, b: nat)
    requires 0x4000_0000 <= a < 0x8000_0000 && 0x4000_0000 <= b < 0x8000_0000
    ensures 0x1000_0000_0000_0000 <= a * b < 0x4000_0000_0000_0000
  {
    MulNat(a - 0x4000_0000, b);
    MulNat(0x7FFF_FFFF - a, b);
    assert (a - 0x4000_0000) * b == a * b - 0x4000_0000 * b;
    assert (0x7FFF_FFFF - a) * b == 0x7FFF_FFFF * b - a * b;
  }

  lemma HalveProduct(s: int, frac: nat, slack: nat)
    requires Multiple(frac, slack) && slack >= 1
    ensures frac % 2 == 0 && Multiple(frac / 2, slack - 1)
    ensures Num(s, frac, 60) == Num(s + 1, frac / 2, 60)
  {
    hide Num, Pow2;
    MultipleHalf(frac, slack - 1);
    NumHalved(s, frac / 2, 60);
  }

  // The zeros below both fractions outnumber the bits the regime shift drops, and the one the
  // carry drops.
  lemma SlackCoversShift(kA: int, kB: int, k: int, carry: nat)
    requires kA + kB <= k <= kA + kB + 1 && carry <= 1
    ensures RunOf(k) <= 30 ==> RunOf(k) <= FractionSlack(kA) + FractionSlack(kB) - carry
  {
  }

  lemma ProductNormalised(x: real, k: int, e: nat, frac: nat, slack: nat)
    requires e < 4 && 0x1000_0000_0000_0000 <= frac < 0x2000_0000_0000_0000
    requires x == Num(4 * k + e, frac, 60)
    requires Multiple(frac, slack) && (RunOf(k) <= 30 ==> RunOf(k) <= slack)
    ensures IsProduct(x, k, e, frac)
  {
    hide Num, Pow2, Multiple;
    Pow2Words();
    if RunOf(k) <= 30 {
      MultipleOfFewer(frac, slack, RunOf(k));
    }
  }

  // ----- Cutting the product -----

  // The one product p32_mul rounds to the wrong neighbour: with a 30-bit regime the sticky bit
  // taken from the exponent is overwritten by the (empty) fraction's.
  ghost predicate LosesSticky(x: real) {
    x == Exp2(119)
  }

  // The final part of p32_mul, after the carries.
  method Pack(k: int, e: nat, frac64: nat, ghost x: real) returns (uZ: nat)
    requires IsProduct(x, k, e, frac64)
    ensures x > 0.0 && Pos32(uZ)
    ensures RoundsPos32(x, uZ) <==> !LosesSticky(x)
    ensures LosesSticky(x) ==> uZ == 0x7FFF_FFFE
  {
    hide Pow2, Num, Multiple, RegimeWord, Cut32, RoundsPos32, InCell, IsProduct, LosesSticky;
    ProductFields(x, k, e, frac64);
    var regA := RunOf(k);
    if regA > 30 {
      CutRounds(x, k, e, frac64 % 0x1000_0000_0000_0000, 60, false);
      uZ := if k < 0 then 0x1 else 0x7FFF_FFFF;
    } else {
      var frac64Z := frac64 % 0x1000_0000_0000_0000 / Pow2(regA);
      ghost var g := frac64Z;
      var expA, fracA, bitNPlusOne, bitsMore := e, frac64Z / 0x1_0000_0000, false, false;
      if regA <= 28 {
        bitNPlusOne := frac64Z / 0x8000_0000 % 2 == 1;
        expA := expA * Pow2(28 - regA);
      } else {
        if regA == 30 {
          bitNPlusOne := expA / 2 % 2 == 1;
          bitsMore := expA % 2 == 1;
          expA := 0;
        } else {
          bitNPlusOne := expA % 2 == 1;
          expA := expA / 2;
        }
        if fracA > 0 {
          fracA := 0;
          bitsMore := true;
        }
      }
      var u := RegimeWord(k) + expA + fracA;
      if bitNPlusOne {
        bitsMore := frac64Z % 0x8000_0000 != 0;
        u := u + if u % 2 == 1 || bitsMore then 1 else 0;
      }
      if regA >= 29 { ShiftedFractionFits(frac64 % 0x1000_0000_0000_0000, regA); }
      PackedProduct(x, k, e, frac64, g, u);
      uZ := u;
    }
  }

  lemma ShiftedFractionFits(f: nat, r: nat)
    requires f < 0x1000_0000_0000_0000 && r >= 29
    ensures f / Pow2(r) < 0x8000_0000
  {
    hide Pow2;
    Pow2Words();
    Pow2Mono(29, r);
    DivMod(f, Pow2(r));
    if f / Pow2(r) >= 0x8000_0000 {
      MulLess(0x7FFF_FFFF, f / Pow2(r), Pow2(r));
    }
  }

  // What p32_mul computes from g, the fraction shifted down by the regime.
  function MulBits(k: int, e: nat, g: nat): int
    requires RunOf(k) <= 30
  {
    if RunOf(k) <= 28 then RoundGuard(RegimeWord(k) + e * Pow2(28 - RunOf(k)) + g / 0x1_0000_0000,
                                      g / 0x8000_0000 % 2 == 1, g % 0x8000_0000 != 0)
    else if RunOf(k) == 29 then RoundGuard(RegimeWord(k) + e / 2, e % 2 == 1, g != 0)
    else RoundGuard(RegimeWord(k), e / 2 % 2 == 1, g != 0)
  }

  lemma PackedProduct(x: real, k: int, e: nat, frac: nat, g: nat, u: int)
    requires IsProduct(x, k, e, frac) && RunOf(k) <= 30
    requires g == frac % 0x1000_0000_0000_0000 / Pow2(RunOf(k)) && u == MulBits(k, e, g)
    ensures x > 0.0 && Pos32(u) && (RoundsPos32(x, u) <==> !LosesSticky(x))
    ensures LosesSticky(x) ==> u == 0x7FFF_FFFE
  {
    hide Pow2, RegimeWord, Cut32, RoundsPos32, IsProduct, LosesSticky, RoundGuard;
    var f := frac % 0x1000_0000_0000_0000;
    ProductFields(x, k, e, frac);
    CutRounds(x, k, e, f, 60, false);
    MulBitsAreCut(k, e, f, g);
    Pos32OfRounded(x, Cut32(k, e, f, 60, false));
    if k == 29 && e == 3 && f == 0 {
      LostStickyBits();
      WrongRounding(x, Cut32(k, e, f, 60, false), u);
    }
  }

  lemma LostStickyBits()
    ensures MulBits(29, 3, 0) == 0x7FFF_FFFE
    ensures Cut32(29, 3, 0, 60, false) == 0x7FFF_FFFF
  {
    RegimeWordAtEnds();
    CutBeforeExponent(29, 3, 0, 60, false);
  }

  // Apart from the one lost sticky bit, these are the bits of the correct cut.
  lemma MulBitsAreCut(k: int, e: nat, f: nat, g: nat)
    requires RunOf(k) <= 30 && e < 4 && f < Pow2(60) && f == g * Pow2(RunOf(k))
    ensures !(k == 29 && e == 3 && f == 0) ==> MulBits(k, e, g) == Cut32(k, e, f, 60, false)
  {
    hide Pow2, RegimeWord, Cut32;
    var r := RunOf(k);
    if r <= 28 {
      CutInFraction(k, e, f, 60, false);
      Pow2Words();
      ShiftedUp(g, r, 32, f);
      ShiftedUp(g, r, 31, f);
    } else if r == 29 {
      CutAfterOneExponentBit(k, e, f, 60, false);
    } else {
      CutBeforeExponent(k, e, f, 60, false);
      RegimeWordAtEnds();
    }
  }

  // What a product's cell says about its fields and its size.
  lemma ProductFields(x: real, k: int, e: nat, frac: nat)
    requires IsProduct(x, k, e, frac)
    ensures x > 0.0 && e < 4
    ensures var f := frac % 0x1000_0000_0000_0000;
      && f < Pow2(60) && InCell(x, ScaleOf(2, k, e), f, 60, false)
      && (RunOf(k) <= 30 ==> f == f / Pow2(RunOf(k)) * Pow2(RunOf(k)))
      && (LosesSticky(x) <==> k == 29 && e == 3 && f == 0)
  {
    hide Num, InCell, Exp2, Multiple, Pow2;
    Pow2Words();
    var f := frac - Pow2(60);
    DivModUnique(frac, Pow2(60), 1, f);
    CellOfExact(4 * k + e, f, 60);
    ScaleOf2(k, e);
    NumPositive(4 * k + e, frac, 60);
    if RunOf(k) <= 30 {
      MultipleOfSmaller(60, RunOf(k));
      MultipleSum(frac, Pow2(60), RunOf(k));
      MultipleIs(f, RunOf(k));
    }
    WhenLost(x, 4 * k + e, f);
  }

  lemma WhenLost(x: real, s: int, f: nat)
    requires f < Pow2(60) && x == Num(s, Pow2(60) + f, 60)
    ensures LosesSticky(x) <==> s == 119 && f == 0
  {
    hide Num, Exp2, Pow2;
    CellOfExact(s, f, 60);
    CellBounds(x, s, f, 60, false);
    if s < 119 {
      Exp2Mono(s + 1, 119);
    } else if s > 119 {
      Exp2Mono(119, s);
    } else {
      NumWithHidden(119, 0, 60);
      assert Exp2(119) * (1.0 + 0 as real * Exp2(0 - 60)) == Exp2(119);
      if f > 0 {
        NumMono(119, Pow2(60), Pow2(60) + f, 60);
      }
    }
  }

  // ----- p32_mul -----

  // The real the operands stand for, multiplied.
  ghost function Product(a: nat, b: nat): real
    requires Real32(a) && Real32(b)
  {
    Value(a) * Value(b)
  }

  method Mul(a: nat, b: nat) returns (z: nat)
    requires Bits32(a) && Bits32(b)
    ensures Bits32(z)
    ensures a == NAR || b == NAR ==> z == NAR
    ensures Real32(a) && Real32(b) ==>
      (Rounds32(Product(a, b), z) <==> !LosesSticky(Product(a, b)) && !LosesSticky(-Product(a, b)))
    ensures Real32(a) && Real32(b) && LosesSticky(Product(a, b)) ==> z == 0x7FFF_FFFE
    ensures Real32(a) && Real32(b) && LosesSticky(-Product(a, b)) ==> z == 0x8000_0002
  {
    hide Value, Value32, Rounds32, RoundsPos32, Magnitude, IsProduct, Exp2;
    if a == NAR || b == NAR {
      return NAR;
    } else if a == 0 || b == 0 {
      ZeroProduct(a, b);
      return 0;
    }
    var signA, signB := a / 0x8000_0000 == 1, b / 0x8000_0000 == 1;
    var signZ := signA != signB;
    var uiA := if signA then Neg32(a) else a;
    var uiB := if signB then Neg32(b) else b;
    MagnitudeIs(a);
    MagnitudeIs(b);
    ghost var x := Value32(uiA) * Value32(uiB);
    var k, e, frac64Z := Multiply(uiA, uiB);
    z := Pack(k, e, frac64Z, x);
    SignedRounding(x, z, signZ);
    ProductSign(a, b, signZ, x);
    NotBelowZero(x);
    if signZ { z := Neg32(z); }
  }

  lemma ZeroProduct(a: nat, b: nat)
    requires Real32(a) && Real32(b) && (a == 0 || b == 0)
    ensures Product(a, b) == 0.0 && Rounds32(Product(a, b), 0) && !LosesSticky(0.0)
  {
    hide RoundsPos, ValPos;
    Pow2Words();
    ZeroTimes(Value(a), Value(b));
  }

  lemma ZeroTimes(x: real, y: real)
    requires x == 0.0 || y == 0.0
    ensures x * y == 0.0
  {
  }

  lemma NotBelowZero(x: real)
    requires x > 0.0
    ensures !LosesSticky(-x)
  {
    hide Pow2;
  }

  lemma ProductSign(a: nat, b: nat, sign: bool, x: real)
    requires Real32(a) && Real32(b) && a != 0 && b != 0
    requires sign == ((a / 0x8000_0000 == 1) != (b / 0x8000_0000 == 1))
    requires x == Value32(Magnitude(a)) * Value32(Magnitude(b))
    ensures Product(a, b) == if sign then -x else x
  {
    hide Value, Value32, Magnitude;
    ValueOfMagnitude(a);
    ValueOfMagnitude(b);
    SignsOut(Value32(Magnitude(a)), Value32(Magnitude(b)));
  }

  lemma SignsOut(x: real, y: real)
    ensures (-x) * y == -(x * y) && x * (-y) == -(x * y) && (-x) * (-y) == x * y
  {
  }
}
