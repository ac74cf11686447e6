// convertDoubleToP32. Double arithmetic is modelled by exact reals: the
// conversion only scales by powers of two and subtracts bits that are there.
module DoubleToP32 {
  import opened Powers
  import opened Posit
  import opened PositOrder
  import opened PositRounding
  import opened P32Fields
  import opened ScaledNumbers

  // ----- The fraction, bit by bit -----

  // g as len bits, a guard bit and whether anything is left.
  ghost predicate IsFraction(g: real, len: nat, frac: nat, guard: bool, more: bool) {
    var f := 2 * frac + if guard then 1 else 0;
    && frac < Pow2(len)
    && f as real * Exp2(0 - (len + 1)) <= g < (f + 1) as real * Exp2(0 - (len + 1))
    && (more <==> g != f as real * Exp2(0 - (len + 1)))
  }

  // After j bits: frac holds them, f what is left below the weight temp of the last.
  ghost predicate InFraction(g: real, j: nat, frac: nat, f: real, temp: real) {
    && frac < Pow2(j) && temp == Exp2(0 - j)
    && 0.0 <= f < temp
    && g == frac as real * temp + f
  }

  method CheckExtraTwoBits(f32: real, temp: real) returns (bitNPlusOne: bool, bitsMore: bool)
    requires 0.0 <= f32 < temp
    ensures bitNPlusOne <==> f32 >= temp / 2.0
    ensures bitsMore <==> f32 != if bitNPlusOne then temp / 2.0 else 0.0
  {
    var t, f := temp / 2.0, f32;
    bitNPlusOne, bitsMore := false, false;
    if t <= f {
      bitNPlusOne := true;
      f := f - t;
    }
    if f > 0.0 { bitsMore := true; }
  }

  lemma NextBit(g: real, j: nat, frac: nat, f: real, temp: real)
    requires InFraction(g, j, frac, f, temp)
    ensures if temp / 2.0 <= f then InFraction(g, j + 1, 2 * frac + 1, f - temp / 2.0, temp / 2.0)
            else InFraction(g, j + 1, 2 * frac, f, temp / 2.0)
  {
    hide Exp2;
    Exp2Step(0 - (j + 1));
    assert (2 * frac) as real * (temp / 2.0) == frac as real * temp;
    assert (2 * frac + 1) as real * (temp / 2.0) == frac as real * temp + temp / 2.0;
  }

  lemma LastBits(g: real, len: nat, frac: nat, f: real, temp: real, guard: bool, more: bool)
    requires InFraction(g, len, frac, f, temp)
    requires guard <==> f >= temp / 2.0
    requires more <==> f != if guard then temp / 2.0 else 0.0
    ensures IsFraction(g, len, frac, guard, more)
  {
    hide Exp2;
    Exp2Step(0 - (len + 1));
    var u := Exp2(0 - (len + 1));
    assert (2 * frac) as real * u == frac as real * temp;
    assert (2 * frac + 1) as real * u == frac as real * temp + u;
    assert (2 * frac + 2) as real * u == frac as real * temp + 2.0 * u;
  }

  // No bits are left: the rest of the fraction is zeros.
  lemma {:induction false} PadFraction(g: real, j: nat, frac: nat, temp: real, left: nat)
    requires InFraction(g, j, frac, 0.0, temp)
    ensures IsFraction(g, j + left, frac * Pow2(left), false, false)
    decreases left
  {
    hide IsFraction, InFraction, Exp2;
    InFractionFacts(g, j, frac, 0.0, temp);
    if left == 0 {
      LastBits(g, j, frac, 0.0, temp, false, false);
    } else {
      NextBit(g, j, frac, 0.0, temp);
      PadFraction(g, j + 1, 2 * frac, temp / 2.0, left - 1);
      assert (2 * frac) * Pow2(left - 1) == frac * Pow2(left);
    }
  }

  lemma InFractionFacts(g: real, j: nat, frac: nat, f: real, temp: real)
    requires InFraction(g, j, frac, f, temp)
    ensures 0.0 <= f < temp
  {
  }

  lemma StartFraction(g: real)
    requires 0.0 <= g < 1.0
    ensures InFraction(g, 0, 0, g, 1.0)
  {
    Pow2Small();
  }

  method ConvertFraction(x: real, len: nat) returns (frac: nat, bitNPlusOne: bool, bitsMore: bool)
    requires 1.0 <= x < 2.0
    ensures IsFraction(x - 1.0, len, frac, bitNPlusOne, bitsMore)
  {
    hide IsFraction, InFraction, Pow2;
    frac, bitNPlusOne, bitsMore := 0, false, false;
    ghost var g := x - 1.0;
    var f32 := x - 1.0;
    StartFraction(g);
    if len == 0 {
      bitNPlusOne, bitsMore := CheckExtraTwoBits(f32, 1.0);
      LastBits(g, 0, 0, f32, 1.0, bitNPlusOne, bitsMore);
    } else {
      var temp, fracLength := 1.0, len;
      while true
        invariant 0 < fracLength <= len && !bitNPlusOne && !bitsMore
        invariant InFraction(g, len - fracLength, frac, f32, temp)
        decreases fracLength
      {
        NextBit(g, len - fracLength, frac, f32, temp);
        temp := temp / 2.0;
        fracLength := fracLength - 1;
        if temp <= f32 {
          f32 := f32 - temp;
          frac := frac * 2 + 1;
          if f32 == 0.0 {
            PadFraction(g, len - fracLength, frac, temp, fracLength);
            frac := frac * Pow2(fracLength);
            break;
          }
        } else {
          frac := frac * 2;
        }
        if fracLength == 0 {
          InFractionFacts(g, len, frac, f32, temp);
          bitNPlusOne, bitsMore := CheckExtraTwoBits(f32, temp);
          LastBits(g, len, frac, f32, temp, bitNPlusOne, bitsMore);
          break;
        }
      }
    }
  }

  // ----- Scaling into [1, 2) -----

  // x == f * 2^(4 * k + e)
  ghost predicate IsScaled(x: real, f: real, s: int) {
    x == Exp2(s) * f
  }

  lemma ScaleDown(x: real, f: real, s: int)
    requires IsScaled(x, f, s)
    ensures IsScaled(x, f / 2.0, s + 1) && IsScaled(x, f / 16.0, s + 4)
  {
    hide Exp2;
    Exp2Step(s);
    Exp2Step(s + 1);
    Exp2Step(s + 2);
    Exp2Step(s + 3);
    assert (2.0 * Exp2(s)) * (f / 2.0) == Exp2(s) * f;
    assert (16.0 * Exp2(s)) * (f / 16.0) == Exp2(s) * f;
  }

  lemma ScaleUp(x: real, f: real, s: int)
    requires IsScaled(x, f, s)
    ensures IsScaled(x, 16.0 * f, s - 4)
  {
    hide Exp2;
    Exp2Step(s - 1);
    Exp2Step(s - 2);
    Exp2Step(s - 3);
    Exp2Step(s - 4);
    assert (Exp2(s - 4) * 16.0) * f == Exp2(s - 4) * (16.0 * f);
  }

  lemma NotScaled(x: real)
    ensures IsScaled(x, x, 0)
  {
    Exp2Zero();
  }

  // A bound on x bounds the scale.
  lemma ScaleBelow(x: real, f: real, s: int, t: int)
    requires IsScaled(x, f, s) && f >= 1.0 && x < Exp2(t)
    ensures s < t
  {
    hide Exp2;
    if s >= t {
      Exp2Mono(t, s);
      MulLe(Exp2(s), 1.0, f);
    }
  }

  lemma ScaleAbove(x: real, f: real, s: int, t: int)
    requires IsScaled(x, f, s) && f < 1.0 && x > Exp2(t)
    ensures s > t
  {
    hide Exp2;
    if s <= t {
      Exp2Mono(s, t);
      MulLt(Exp2(s), f, 1.0);
    }
  }

  method ScaleLarge(x: real) returns (f32: real, reg: nat, exp: nat)
    requires 1.0 < x < Exp2(120)
    ensures 1 <= reg <= 30 && exp < 4 && 1.0 <= f32 < 2.0
    ensures IsScaled(x, f32, 4 * (reg - 1) + exp)
  {
    hide Exp2, IsScaled;
    f32, reg, exp := x, 1, 0;
    NotScaled(x);
    while f32 >= 16.0
      invariant 1 <= reg <= 30 && f32 >= 1.0 && IsScaled(x, f32, 4 * (reg - 1))
      decreases 30 - reg
    {
      ScaleDown(x, f32, 4 * (reg - 1));
      ScaleBelow(x, f32 / 16.0, 4 * reg, 120);
      f32 := f32 * 0.0625;
      reg := reg + 1;
    }
    exp, f32 := ScaleExponent(x, f32, 4 * (reg - 1));
  }

  method ScaleExponent(ghost x: real, f: real, ghost s: int) returns (exp: nat, f32: real)
    requires 1.0 <= f < 16.0 && IsScaled(x, f, s)
    ensures exp < 4 && 1.0 <= f32 < 2.0 && IsScaled(x, f32, s + exp)
  {
    hide Exp2, IsScaled;
    exp, f32 := 0, f;
    while f32 >= 2.0
      invariant exp < 4 && 1.0 <= f32 && IsScaled(x, f32, s + exp)
      invariant f32 < if exp == 0 then 16.0 else if exp == 1 then 8.0 else if exp == 2 then 4.0 else 2.0
      decreases 4 - exp
    {
      ScaleDown(x, f32, s + exp);
      f32 := f32 * 0.5;
      exp := exp + 1;
    }
  }

  method ScaleSmall(x: real) returns (f32: real, reg: nat, exp: nat)
    requires Exp2(-120) < x < 1.0
    ensures 1 <= reg <= 30 && exp < 4 && 1.0 <= f32 < 2.0
    ensures IsScaled(x, f32, exp - 4 * reg)
  {
    hide Exp2, IsScaled;
    f32, reg, exp := x, 0, 0;
    NotScaled(x);
    ScaleAbove(x, x, 0, -120);
    ghost var t := Exp2(-120);
    assert t > 0.0;
    while f32 < 1.0
      invariant 0 <= reg <= 30 && 0.0 < f32 < 16.0 && IsScaled(x, f32, 0 - 4 * reg)
      invariant f32 >= 1.0 || reg < 30
      invariant reg == 0 ==> f32 < 1.0
      decreases 30 - reg
    {
      ScaleUp(x, f32, 0 - 4 * reg);
      f32 := f32 * 16.0;
      reg := reg + 1;
      if f32 < 1.0 { ScaleAbove(x, f32, 0 - 4 * reg, -120); }
    }
    exp, f32 := ScaleExponent(x, f32, 0 - 4 * reg);
  }

  // ----- Cutting -----

  // A number with its fraction bracketed lies in a cell.
  lemma CellOfReal(x: real, f32: real, s: int, f: nat, m: nat, sticky: bool)
    requires IsScaled(x, f32, s)
    requires f as real * Exp2(0 - m) <= f32 - 1.0 < (f + 1) as real * Exp2(0 - m)
    requires sticky <==> f32 - 1.0 != f as real * Exp2(0 - m)
    ensures InCell(x, s, f, m, sticky)
  {
    hide Exp2;
    RealCell(Exp2(s), f as real * Exp2(0 - m), f32 - 1.0, (f + 1) as real * Exp2(0 - m));
  }

  // A fraction read to guard and sticky bit puts x in a cell.
  lemma FractionCell(x: real, f32: real, s: int, len: nat, frac: nat, guard: bool, more: bool)
    requires IsScaled(x, f32, s) && IsFraction(f32 - 1.0, len, frac, guard, more)
    ensures var f := 2 * frac + if guard then 1 else 0;
      f < Pow2(len + 1) && InCell(x, s, f, len + 1, more)
  {
    hide Exp2, InCell, IsScaled;
    var f: nat := 2 * frac + if guard then 1 else 0;
    CellOfReal(x, f32, s, f, len + 1, more);
    Pow2Double(len);
  }

  lemma RealCell(c: real, lo: real, g: real, hi: real)
    requires c > 0.0 && lo <= g < hi
    ensures c * (1.0 + lo) <= c * (1.0 + g) < c * (1.0 + hi)
    ensures c * (1.0 + g) != c * (1.0 + lo) <==> g != lo
  {
    MulLt(c, 1.0 + g, 1.0 + hi);
    if lo != g { MulLt(c, 1.0 + lo, 1.0 + g); }
  }

  // With no room for fraction bits only their presence matters.
  lemma AnyFractionCell(x: real, f32: real, s: int, f: nat, more: bool)
    requires IsScaled(x, f32, s) && 1.0 <= f32 < 2.0
    requires f == (if f32 >= 1.5 then 1 else 0) && (more <==> f32 != 1.0 && f32 != 1.5)
    ensures InCell(x, s, f, 1, more)
  {
    hide Exp2;
    hide InCell, IsScaled;
    HalfUnit();
    CellOfReal(x, f32, s, f, 1, more);
  }

  lemma HalfUnit()
    ensures Exp2(0 - 1) == 0.5
  {
    hide Exp2;
    Exp2Step(0 - 1);
    Exp2Zero();
  }

  // ((1 << reg) - 1) << 1, or 1, shifted into place.
  function DoubleRegime(regS: bool, reg: nat): int
    requires reg <= 30
  {
    (if regS then (Pow2(reg) - 1) * 2 else 1) * Pow2(30 - reg)
  }

  lemma DoubleRegimeIsRegimeBits(regS: bool, reg: nat)
    requires 1 <= reg <= 30
    ensures DoubleRegime(regS, reg) == RegimeBits(if regS then reg - 1 else 0 - reg as int, 31)
  {
    hide Pow2;
    Pow2Words();
    Pow2Add(reg, 30 - reg);
    Pow2Double(30 - reg);
    var p := Pow2(30 - reg);
    assert (Pow2(reg) - 1) * 2 * p == 2 * (Pow2(reg) * p) - 2 * p;
  }

  // The part both signs of the exponent share, from fracLength on.
  method Assemble(regS: bool, reg: nat, exp0: nat, f32: real, ghost x: real) returns (uZ: nat)
    requires 1 <= reg <= 30 && exp0 < 4 && 1.0 <= f32 < 2.0
    requires IsScaled(x, f32, (if regS then 4 * (reg - 1) else 0 - 4 * reg) + exp0)
    ensures x > 0.0 && Pos32(uZ) && RoundsPos32(x, uZ)
  {
    hide Exp2, IsScaled, IsFraction, InCell, DoubleRegime, RegimeBits, Pow2, RoundsPos32, Cut32, RegimeWord;
    ghost var k: int := if regS then reg - 1 else 0 - reg as int;
    var exp, frac, bitNPlusOne, bitsMore := exp0, 0, false, false;
    DoubleRegimeIsRegimeBits(regS, reg);
    RegimeWordIsRegimeBits(k);
    ScaleOf2(k, exp0);
    var fracLength := 28 - reg as int;
    if fracLength < 0 {
      if reg == 29 {
        bitNPlusOne := exp % 2 == 1;
        exp := exp / 2;
      } else {
        bitNPlusOne := exp / 2 != 0;
        bitsMore := exp % 2 == 1;
        exp := 0;
      }
      if f32 != 1.0 {
        bitsMore := true;
        frac := 0;
      }
      ghost var f, more := if f32 >= 1.5 then 1 else 0, f32 != 1.0 && f32 != 1.5;
      Pow2Small();
      AnyFractionCell(x, f32, 4 * k + exp0, f, more);
      CutRounds(x, k, exp0, f, 1, more);
      Pos32OfRounded(x, Cut32(k, exp0, f, 1, more));
      if reg == 29 {
        CutAfterOneExponentBit(k, exp0, f, 1, more);
      } else {
        CutBeforeExponent(k, exp0, f, 1, more);
      }
    } else {
      frac, bitNPlusOne, bitsMore := ConvertFraction(f32, fracLength);
      ghost var f: nat := 2 * frac + if bitNPlusOne then 1 else 0;
      FractionCell(x, f32, 4 * k + exp0, fracLength, frac, bitNPlusOne, bitsMore);
      CutRounds(x, k, exp0, f, fracLength + 1, bitsMore);
      Pos32OfRounded(x, Cut32(k, exp0, f, fracLength + 1, bitsMore));
      CutInFraction(k, exp0, f, fracLength + 1, bitsMore);
      Pow2Small();
      GuardOf(frac, bitNPlusOne);
    }
    if reg <= 28 { exp := exp * Pow2(28 - reg); }
    var u := DoubleRegime(regS, reg) + exp + frac;
    u := u + if (bitNPlusOne && u % 2 == 1) || (bitNPlusOne && bitsMore) then 1 else 0;
    uZ := u;
  }

  lemma GuardOf(frac: nat, guard: bool)
    ensures var f := 2 * frac + if guard then 1 else 0; f / 2 == frac && (f / 1 % 2 == 1 <==> guard) && f % 1 == 0
  {
  }

  // ----- convertDoubleToP32 -----

  datatype Double = NotANumber | PlusInfinity | MinusInfinity | Finite(x: real)

  method FromDouble(d: Double) returns (z: nat)
    ensures Bits32(z)
    ensures if d.Finite? then Rounds32(d.x, z) else z == NAR
  {
    hide Exp2, IsScaled, RoundsPos32, Rounds32, Pow2;
    if !d.Finite? { return NAR; }
    var f32 := d.x;
    var sign := !(f32 >= 0.0);
    Extremes();
    if f32 == 0.0 {
      Tiny(0.0);
      return 0;
    } else if f32 == 1.0 {
      OneRounds();
      return 0x4000_0000;
    } else if f32 == -1.0 {
      OneRounds();
      SignedRounding(1.0, 0x4000_0000, true);
      return 0xC000_0000;
    } else if f32 >= 1329227995784915872903807060280344576.0 {
      Huge(f32);
      SignedRounding(f32, 0x7FFF_FFFF, false);
      return 0x7FFF_FFFF;
    } else if f32 <= -1329227995784915872903807060280344576.0 {
      Huge(-f32);
      SignedRounding(-f32, 0x7FFF_FFFF, true);
      return 0x8000_0001;
    } else if f32 <= 1.0 / 1329227995784915872903807060280344576.0 && !sign {
      Tiny(f32);
      SignedRounding(f32, 1, false);
      return 0x1;
    } else if f32 >= -1.0 / 1329227995784915872903807060280344576.0 && sign {
      Tiny(-f32);
      SignedRounding(-f32, 1, true);
      return 0xFFFF_FFFF;
    }
    ghost var x := if sign then -f32 else f32;
    if f32 > 1.0 || f32 < -1.0 {
      if sign { f32 := -f32; }
      var g, reg, exp := ScaleLarge(f32);
      z := Assemble(true, reg, exp, g, x);
    } else {
      if sign { f32 := -f32; }
      var g, reg, exp := ScaleSmall(f32);
      z := Assemble(false, reg, exp, g, x);
    }
    SignedRounding(x, z, sign);
    if sign { z := Neg32(z); }
  }

  // The literals 1.329227995784916e+36 and 7.52316384526264e-37 are the doubles 2^120 and 2^-120.
  lemma Extremes()
    ensures Exp2(120) == 1329227995784915872903807060280344576.0
    ensures Exp2(-120) == 1.0 / 1329227995784915872903807060280344576.0
  {
    Pow2Words();
    Pow2Add(60, 60);
  }

  lemma Huge(x: real)
    requires x >= Exp2(120)
    ensures x > 0.0 && RoundsPos32(x, MAXPOS)
  {
    hide Exp2, RoundsPos;
    Pow2Words();
    ScaleOf2(30, 0);
    SaturateHigh(32, 2, x, 30, 0);
  }

  lemma Tiny(x: real)
    requires 0.0 <= x <= Exp2(-120)
    ensures if x == 0.0 then Rounds32(x, 0) else RoundsPos32(x, 1)
  {
    hide Exp2, ValPos;
    ScaleOf2(-30, 0);
    ScaleOf2(30, 0);
    ExtremeValues(32, 2);
    Exp2Mono(-120, 120);
  }

  lemma OneRounds()
    ensures RoundsPos32(1.0, 0x4000_0000) && Rounds32(1.0, 0x4000_0000)
  {
    hide ValPos, RoundsPos, Exp2;
    Pow2Words();
    Pow2Small();
    ScaleOf2(0, 0);
    OneIsCell();
    CutRounds(1.0, 0, 0, 0, 28, false);
    CutInFraction(0, 0, 0, 28, false);
  }

  lemma OneIsCell()
    ensures InCell(1.0, 0, 0, 28, false)
  {
    hide Exp2, InCell;
    NotScaled(1.0);
    var u := Exp2(0 - 28);
    assert 0 as real * u == 0.0 && 1 as real * u == u;
    CellOfReal(1.0, 1.0, 0, 0, 28, false);
  }
}
