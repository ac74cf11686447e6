// convertP32ToDouble, and the round trip through a double.
module P32ToDouble {
  import opened Powers
  import opened Posit
  import opened PositRounding
  import opened RegimeSplit
  import opened P32Fields
  import opened ScaledNumbers
  import opened DoubleToP32

  // The number a binary64 word stands for. Below the normal numbers there is no hidden bit.
  function DoubleOfBits(u: nat): Double {
    var sign, exp, frac: nat := u / 0x8000_0000_0000_0000, u / 0x10_0000_0000_0000 % 2048, u % 0x10_0000_0000_0000;
    if exp == 0 && frac == 0 then Finite(0.0)
    else if exp == 0 then
      var m := Exp2(-1022) * (frac as real * Exp2(-52));
      Finite(if sign == 1 then -m else m)
    else if exp == 2047 then
      if frac != 0 then NotANumber else if sign == 1 then MinusInfinity else PlusInfinity
    else
      var m := Exp2(exp - 1023) * (1.0 + frac as real * Exp2(-52));
      Finite(if sign == 1 then -m else m)
  }

  const QUIET_NAN: nat := 0x7FF8_0000_0000_0000

  method ToDouble(p: nat) returns (u: nat)
    requires Bits32(p)
    ensures DoubleOfBits(u) == if p == NAR then NotANumber else Finite(Value(p))
  {
    hide Value, Value32, IsSplit, Exp2, Num, Magnitude, Hidden, DoubleOfBits, Pow2;
    SpecialWords();
    if p == 0 {
      return 0;
    } else if p == NAR {
      return QUIET_NAN;
    }
    var signA := p / 0x8000_0000 == 1;
    MagnitudeIs(p);
    var uiA := if signA then Neg32(p) else p;
    Pos32IsPositive(uiA);
    var kA, tmp := SplitRegime(32, uiA);
    MagnitudeAsNum(uiA, kA, tmp);
    SplitRange(uiA, kA, tmp);
    var expA := tmp / 0x2000_0000;
    var fracA := tmp * 8 % 0x1_0000_0000 * 0x10_0000;
    expA := ((kA * 4 + expA + 1023) % 0x1_0000_0000_0000_0000) * 0x10_0000_0000_0000;
    u := expA + fracA + if signA then 0x8000_0000_0000_0000 else 0;
    FieldsOfWord(kA * 4 + tmp / 0x2000_0000, tmp % 0x2000_0000, signA, u);
    ValueOfMagnitude(p);
    HiddenBits(tmp);
  }

  lemma SpecialWords()
    ensures DoubleOfBits(0) == Finite(0.0) && Value(0) == 0.0
    ensures DoubleOfBits(QUIET_NAN) == NotANumber
  {
    Pow2Words();
  }

  lemma SplitRange(ui: nat, k: int, tmp: nat)
    requires IsSplit(32, ui, k, tmp)
    ensures -30 <= k <= 30 && tmp < 0x8000_0000 && tmp * 8 % 0x1_0000_0000 == 8 * (tmp % 0x2000_0000)
  {
    hide Exp2, Pow2;
    Pow2Words();
    var e, f := tmp / 0x2000_0000, tmp % 0x2000_0000;
    DivModUnique(tmp * 8, 0x1_0000_0000, e, 8 * f);
  }

  // A word assembled from scale, 29 fraction bits and sign.
  lemma FieldsOfWord(s: int, f: nat, sign: bool, u: nat)
    requires -121 <= s <= 123 && f < 0x2000_0000
    requires u == (s + 1023) * 0x10_0000_0000_0000 + f * 0x80_0000 + if sign then 0x8000_0000_0000_0000 else 0
    ensures var m := Num(s, 0x4000_0000 + 2 * f, 30); DoubleOfBits(u) == Finite(if sign then -m else m)
  {
    hide Exp2, Num, Pow2;
    Pow2Words();
    var e, g := s + 1023, f * 0x80_0000;
    if sign {
      DivModUnique(u, 0x8000_0000_0000_0000, 1, e * 0x10_0000_0000_0000 + g);
      DivModUnique(u, 0x10_0000_0000_0000, 2048 + e, g);
    } else {
      DivModUnique(u, 0x8000_0000_0000_0000, 0, u);
      DivModUnique(u, 0x10_0000_0000_0000, e, g);
    }
    NumFiner(s, 0x2000_0000 + f, 29);
    NumWithHidden(s, f, 29);
    Pow2At23();
    LeftAligned(f, 23, 52);
  }

  lemma Pow2At23()
    ensures Pow2(23) == 0x80_0000
  {
    Pow2Small();
    Pow2Words();
    Pow2Add(15, 8);
    Pow2Add(4, 4);
  }

  // Through a double and back, nothing is lost: NaR goes through NaN.
  method RoundTrip(p: nat) returns (p': nat)
    requires Bits32(p)
    ensures p' == p
  {
    hide Value, RoundsPos;
    var u := ToDouble(p);
    p' := FromDouble(DoubleOfBits(u));
    if p != NAR {
      Representable(p);
      RoundsUnique(32, 2, Value(p), p, p');
    }
  }

  lemma Representable(p: nat)
    requires Real32(p)
    ensures Rounds32(Value(p), p)
  {
    Pow2Words();
    RoundsRepresentable(32, 2, p);
  }
}
