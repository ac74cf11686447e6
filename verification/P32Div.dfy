// p32_div: the quotient of two 32-bit posits.
module P32Div {
  import opened Powers
  import opened Posit
  import opened PositOrder
  import opened PositRounding
  import opened PositValue
  import opened RegimeSplit
  import opened P32Fields
  import opened ScaledNumbers

  // A quotient truncated to 30 fraction bits, of which the last may be unknown (and is 0 then);
  // rem says whether the remainder is non-zero.
  ghost predicate IsQuotient(x: real, k: int, e: nat, frac: nat, rem: bool) {
    && e < 4 && frac < 0x4000_0000
    && (InCell(x, 4 * k + e, frac, 30, rem)
        || (frac % 2 == 0 && InCell(x, 4 * k + e, frac / 2, 29, rem)))
  }

  method Divide(uiA: nat, uiB: nat) returns (k: int, e: nat, frac: nat, rem: bool)
    requires Pos32(uiA) && Pos32(uiB)
    ensures IsQuotient(Value32(uiA) / Value32(uiB), k, e, frac, rem)
  {
    hide IsSplit, IsQuotient, Hidden, Value32, Num, Pow2;
    Pos32IsPositive(uiA);
    Pos32IsPositive(uiB);
    var kA, tmpA := SplitRegime(32, uiA);
    var kB, tmpB := SplitRegime(32, uiB);
    MagnitudeAsNum(uiA, kA, tmpA);
    MagnitudeAsNum(uiB, kB, tmpB);
    HiddenBits(tmpA);
    HiddenBits(tmpB);
    k := kA - kB;
    var expA := tmpA / 0x2000_0000 - tmpB / 0x2000_0000;
    var frac64A, fracB := Hidden(tmpA) * 0x4000_0000, Hidden(tmpB);
    var frac64Z, remainder := frac64A / fracB, frac64A % fracB;
    rem := remainder != 0;
    ghost var x, s := Value32(uiA) / Value32(uiB), 4 * k + expA;
    QuotientTruncates(4 * kA + tmpA / 0x2000_0000, Hidden(tmpA), 4 * kB + tmpB / 0x2000_0000, fracB);
    if expA < 0 {
      expA := expA + 4;
      k := k - 1;
    }
    if frac64Z / 0x4000_0000 == 0 {
      if expA == 0 {
        k := k - 1;
        expA := 3;
      } else {
        expA := expA - 1;
      }
      QuotientBelowOne(x, s, frac64Z, rem);
      frac64Z := frac64Z * 2;
    } else {
      QuotientAboveOne(x, s, frac64Z, rem);
    }
    e := expA;
    frac := frac64Z % 0x4000_0000;
    QuotientFields(x, k, e, frac, rem);
  }

  lemma QuotientFields(x: real, k: int, e: nat, frac: nat, rem: bool)
    requires e < 4 && frac < 0x4000_0000
    requires InCell(x, 4 * k + e, frac, 30, rem) || (frac % 2 == 0 && InCell(x, 4 * k + e, frac / 2, 29, rem))
    ensures IsQuotient(x, k, e, frac, rem)
  {
  }

  // Integer division of the fractions brackets the quotient of the numbers.
  ghost predicate Brackets(x: real, s: int, q: int, m: nat, rem: bool) {
    Num(s, q, m) <= x < Num(s, q + 1, m) && (rem <==> x != Num(s, q, m))
  }

  lemma QuotientTruncates(s: int, f: nat, s': int, f': nat)
    requires 0x4000_0000 <= f < 0x8000_0000 && 0x4000_0000 <= f' < 0x8000_0000
    ensures Num(s', f', 30) > 0.0
    ensures var q, r := f * 0x4000_0000 / f', f * 0x4000_0000 % f';
      && 0x2000_0000 <= q < 0x8000_0000
      && Brackets(Num(s, f, 30) / Num(s', f', 30), s - s', q, 30, r != 0)
  {
    hide Num, Pow2;
    Pow2Words();
    var w := f * 0x4000_0000;
    var q, r := w / f', w % f';
    DivMod(w, f');
    QuotientRange(f, f', q, r);
    NumPositive(s', f', 30);
    NumShifted(s, f, 30, 30);
    NumTimes(s - s', q, 30, s', f', 30);
    NumTimes(s - s', q + 1, 30, s', f', 30);
    assert (q + 1) * f' == q * f' + f';
    NumMono(s, w, (q + 1) * f', 60);
    if r != 0 { NumMono(s, q * f', w, 60); }
    DivideThrough(Num(s - s', q, 30), Num(s - s', q + 1, 30), Num(s, f, 30), Num(s', f', 30));
  }

  lemma QuotientRange(f: nat, f': nat, q: int, r: int)
    requires 0x4000_0000 <= f < 0x8000_0000 && 0x4000_0000 <= f' < 0x8000_0000
    requires f * 0x4000_0000 == q * f' + r && 0 <= r < f'
    ensures 0x2000_0000 <= q < 0x8000_0000
  {
    if q < 0x2000_0000 {
      MulLess(q, 0x2000_0000, f');
    } else if q >= 0x8000_0000 {
      MulLess(0x7FFF_FFFF, q, f');
    }
  }

  lemma DivideThrough(lo: real, hi: real, w: real, v: real)
    requires v > 0.0 && lo * v <= w < hi * v
    ensures lo <= w / v < hi && (w / v == lo <==> w == lo * v)
  {
    var x := w / v;
    assert x * v == w;
    if x < lo { MulLt(v, x, lo); }
    if x >= hi { MulLe(v, hi, x); }
    if x > lo { MulLt(v, lo, x); }
  }

  lemma QuotientAboveOne(x: real, s: int, q: nat, rem: bool)
    requires 0x4000_0000 <= q < 0x8000_0000 && Brackets(x, s, q, 30, rem)
    ensures InCell(x, s, q % 0x4000_0000, 30, rem)
  {
    hide Num, InCell, Pow2;
    Pow2Words();
    CellOf(x, s, q - 0x4000_0000, 30, rem);
  }

  lemma QuotientBelowOne(x: real, s: int, q: nat, rem: bool)
    requires 0x2000_0000 <= q < 0x4000_0000 && Brackets(x, s, q, 30, rem)
    ensures InCell(x, s - 1, q * 2 % 0x4000_0000 / 2, 29, rem)
    ensures q * 2 % 0x4000_0000 % 2 == 0
  {
    hide Num, InCell, Pow2;
    Pow2Words();
    NumHalved(s - 1, q, 30);
    NumHalved(s - 1, q + 1, 30);
    NumFiner(s - 1, q, 29);
    NumFiner(s - 1, q + 1, 29);
    CellOf(x, s - 1, q - 0x2000_0000, 29, rem);
  }

  // ----- Cutting the quotient -----

  method Pack(k: int, e: nat, frac: nat, rem: bool, ghost x: real) returns (uZ: nat)
    requires IsQuotient(x, k, e, frac, rem)
    ensures x > 0.0 && Pos32(uZ) && RoundsPos32(x, uZ)
  {
    hide Pow2, RegimeWord, Cut32, RoundsPos32, InCell, IsQuotient;
    QuotientCut(x, k, e, frac, rem);
    var regA := RunOf(k);
    if regA > 30 {
      uZ := if k < 0 then 0x1 else 0x7FFF_FFFF;
    } else {
      var fracA := frac / Pow2(regA + 2);
      var expA, bitNPlusOne, bitsMore := e, false, false;
      if regA <= 28 {
        bitNPlusOne := frac / Pow2(regA + 1) % 2 == 1;
        expA := expA * Pow2(28 - regA);
        if bitNPlusOne { bitsMore := frac % Pow2(regA + 1) != 0; }
      } else {
        if regA == 30 {
          bitNPlusOne := expA / 2 % 2 == 1;
          bitsMore := expA % 2 == 1;
          expA := 0;
        } else {
          bitNPlusOne := expA % 2 == 1;
          expA := expA / 2;
        }
        NoFractionLeft(frac, regA + 2);
        if frac > 0 {
          fracA := 0;
          bitsMore := true;
        }
      }
      if rem { bitsMore := true; }
      var u := RegimeWord(k) + expA + fracA;
      if bitNPlusOne { u := u + if u % 2 == 1 || bitsMore then 1 else 0; }
      assert u == DivBits(k, e, frac, rem);
      uZ := u;
    }
  }

  lemma NoFractionLeft(f: nat, j: nat)
    requires f < 0x4000_0000 && j >= 30
    ensures f / Pow2(j) == 0
  {
    hide Pow2;
    Pow2Words();
    Pow2Mono(30, j);
    DivModUnique(f, Pow2(j), 0, f);
  }

  // What p32_div computes from the 30 fraction bits of the quotient.
  function DivBits(k: int, e: nat, f: nat, rem: bool): int
    requires RunOf(k) <= 30
  {
    var r := RunOf(k);
    if r <= 28 then RoundGuard(RegimeWord(k) + e * Pow2(28 - r) + f / Pow2(r + 2),
                               f / Pow2(r + 1) % 2 == 1, f % Pow2(r + 1) != 0 || rem)
    else if r == 29 then RoundGuard(RegimeWord(k) + e / 2, e % 2 == 1, f != 0 || rem)
    else RoundGuard(RegimeWord(k), e / 2 % 2 == 1, e % 2 == 1 || f != 0 || rem)
  }

  lemma QuotientCut(x: real, k: int, e: nat, frac: nat, rem: bool)
    requires IsQuotient(x, k, e, frac, rem)
    ensures x > 0.0 && e < 4 && frac < 0x4000_0000
    ensures RunOf(k) > 30 ==> RoundsPos32(x, if k < 0 then 1 else MAXPOS)
    ensures RunOf(k) <= 30 ==> Pos32(DivBits(k, e, frac, rem)) && RoundsPos32(x, DivBits(k, e, frac, rem))
  {
    hide Pow2, Cut32, RoundsPos32, InCell, DivBits;
    Pow2Words();
    ScaleOf2(k, e);
    if InCell(x, 4 * k + e, frac, 30, rem) {
      CutRounds(x, k, e, frac, 30, rem);
      if RunOf(k) <= 30 {
        DivBitsAreCut(k, e, frac, 30, frac, rem);
        Pos32OfRounded(x, Cut32(k, e, frac, 30, rem));
      }
    } else {
      CutRounds(x, k, e, frac / 2, 29, rem);
      if RunOf(k) <= 30 {
        DivBitsAreCut(k, e, frac / 2, 29, frac, rem);
        Pos32OfRounded(x, Cut32(k, e, frac / 2, 29, rem));
      }
    }
  }

  lemma DivBitsAreCut(k: int, e: nat, f: nat, m: nat, frac: nat, rem: bool)
    requires RunOf(k) <= 30 && e < 4 && f < Pow2(m)
    requires (m == 30 && frac == f) || (m == 29 && frac == 2 * f)
    ensures DivBits(k, e, frac, rem) == Cut32(k, e, f, m, rem)
  {
    hide Pow2, RegimeWord, Cut32;
    var r := RunOf(k);
    if r <= 28 {
      CutInFraction(k, e, f, m, rem);
      if m == 29 {
        Pow2Small();
        ShiftedUp(f, 1, r + 1, frac);
        ShiftedUp(f, 1, r, frac);
      }
    } else if r == 29 {
      CutAfterOneExponentBit(k, e, f, m, rem);
    } else {
      CutBeforeExponent(k, e, f, m, rem);
    }
  }

  // ----- p32_div -----

  ghost function Quotient(a: nat, b: nat): real
    requires Real32(a) && Real32(b) && b != 0
  {
    ValueNotZero(b);
    Value(a) / Value(b)
  }

  method Div(a: nat, b: nat) returns (z: nat)
    requires Bits32(a) && Bits32(b)
    ensures Bits32(z)
    ensures a == NAR || b == NAR || b == 0 ==> z == NAR
    ensures Real32(a) && Real32(b) && b != 0 ==> Rounds32(Quotient(a, b), z)
  {
    hide Value, Value32, Rounds32, RoundsPos32, Magnitude, IsQuotient, Quotient;
    if a == NAR || b == NAR || b == 0 {
      return NAR;
    } else if a == 0 {
      ZeroQuotient(b);
      return 0;
    }
    var signA, signB := a / 0x8000_0000 == 1, b / 0x8000_0000 == 1;
    var signZ := signA != signB;
    var uiA := if signA then Neg32(a) else a;
    var uiB := if signB then Neg32(b) else b;
    MagnitudeIs(a);
    MagnitudeIs(b);
    ghost var x := Value32(uiA) / Value32(uiB);
    var k, e, frac, rem := Divide(uiA, uiB);
    z := Pack(k, e, frac, rem, x);
    SignedRounding(x, z, signZ);
    QuotientSign(a, b, signZ, x);
    if signZ { z := Neg32(z); }
  }

  lemma ZeroQuotient(b: nat)
    requires Real32(b) && b != 0
    ensures Rounds32(Quotient(0, b), 0)
  {
    hide RoundsPos, ValPos;
    Pow2Words();
  }

  lemma QuotientSign(a: nat, b: nat, sign: bool, x: real)
    requires Real32(a) && Real32(b) && a != 0 && b != 0
    requires sign == ((a / 0x8000_0000 == 1) != (b / 0x8000_0000 == 1))
    requires x == Value32(Magnitude(a)) / Value32(Magnitude(b))
    ensures Quotient(a, b) == if sign then -x else x
  {
    hide Value, Value32, Magnitude;
    ValueOfMagnitude(a);
    ValueOfMagnitude(b);
    SignsOut(Value32(Magnitude(a)), Value32(Magnitude(b)));
  }

  lemma SignsOut(x: real, y: real)
    requires y > 0.0
    ensures (-x) / y == -(x / y) && x / (-y) == -(x / y) && (-x) / (-y) == x / y
  {
  }
}
