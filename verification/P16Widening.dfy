// p16_to_p32: from 16-bit posits (one exponent bit) to 32-bit posits (two).
module P16Widening {
  import opened Powers
  import opened Posit
  import opened PositOrder
  import opened PositValue
  import opened RegimeSplit
  import opened P32Fields

  const NAR16: nat := 0x8000

  predicate Bits16(u: int) {
    0 <= u < 0x1_0000
  }

  predicate Real16(u: int) {
    Bits16(u) && u != NAR16
  }

  predicate Pos16(u: int) {
    0 < u < 0x8000
  }

  // -u & 0xFFFF
  function Neg16(u: int): (r: nat)
    ensures Bits16(r)
  {
    (-u) % 0x1_0000
  }

  ghost function Value16(u: nat): real
    requires Real16(u)
  {
    Pow2Words();
    Val(16, 1, u)
  }

  ghost function ValuePos16(u: nat): (x: real)
    requires Pos16(u)
    ensures x > 0.0
  {
    Pow2Words();
    ValPos(16, 1, u)
  }

  function Magnitude16(u: nat): (m: nat)
    requires Real16(u) && u != 0
    ensures Pos16(m)
  {
    if u > NAR16 then Neg16(u) else u
  }

  lemma ValueOfMagnitude16(u: nat)
    requires Real16(u) && u != 0
    ensures Value16(u) == if u > NAR16 then -ValuePos16(Magnitude16(u)) else ValuePos16(Magnitude16(u))
    ensures Magnitude16(u) == if u / 0x8000 == 1 then Neg16(u) else u
  {
    hide ValPos;
    Pow2Words();
  }

  ghost predicate Rounds16(x: real, u: nat) {
    Rounds(16, 1, x, u)
  }

  ghost predicate RoundsPos16(x: real, u: nat)
    requires x > 0.0
  {
    RoundsPos(16, 1, x, u)
  }

  lemma SignedRounding16(x: real, p: nat, sign: bool)
    requires x > 0.0 && Pos16(p) && RoundsPos16(x, p)
    ensures Rounds16(if sign then -x else x, if sign then Neg16(p) else p)
  {
    hide RoundsPos, Pow2;
    Pow2Words();
  }

  // ----- p16_to_p32 -----

  // Half a regime of the short format is a regime of the long one, the bit halving loses
  // becomes the first exponent bit.
  lemma WidenedPosition(ui: nat, k: int, tmp: nat, k': int, b: nat, z: int)
    requires IsSplit(16, ui, k, tmp) && k == 2 * k' + b && b <= 1
    requires z == RegimeWord(k') + (b * 0x8000_0000 + tmp * 0x1_0000) / Pow2(RunOf(k') + 2)
    ensures 0 < z < 0x8000_0000 && 2.0 * Pos(z, 31) == Pos(ui, 15)
  {
    hide Pos, Pow2, Exp2, RegimeWord, RegimeBits;
    Pow2Words();
    var r, c := RunOf(k'), b * 0x8000 + tmp;
    var t := c * Pow2(14 - r);
    RegimeWordIsRegimeBits(k');
    WidenedRest(c, r);
    PosOfFields(k', t, 30 - r);
    LeftAligned(c, 14 - r, 30 - r);
    HalfSteps(k', b, tmp);
  }

  // No bit of the rest is lost below the longer regime.
  lemma WidenedRest(c: nat, r: nat)
    requires c < 0x1_0000 && r <= 14
    ensures c * 0x1_0000 / Pow2(r + 2) == c * Pow2(14 - r) < Pow2(30 - r)
  {
    hide Pow2;
    Pow2Words();
    Pow2Add(14 - r, r + 2);
    Pow2Add(16, 14 - r);
    Regroup3(c, Pow2(14 - r), Pow2(r + 2));
    DivModUnique(c * 0x1_0000, Pow2(r + 2), c * Pow2(14 - r), 0);
    MulLess(c, 0x1_0000, Pow2(14 - r));
  }

  lemma HalfSteps(k': int, b: nat, tmp: nat)
    ensures 2.0 * (k' as real + (b * 0x8000 + tmp) as real * Exp2(0 - 16))
         == (2 * k' + b) as real + tmp as real * Exp2(0 - 15)
  {
    hide Exp2;
    Pow2Words();
    Exp2OfNat(15);
    Exp2Step(0 - 16);
    assert (b * 0x8000 + tmp) as real * (2.0 * Exp2(0 - 16))
        == b as real * (32768.0 * Exp2(0 - 15)) + tmp as real * Exp2(0 - 15);
  }

  lemma WidenedValue(ui: nat, z: nat)
    requires Pos16(ui) && Pos32(z) && 2.0 * Pos(z, 31) == Pos(ui, 15)
    ensures Value32(z) == ValuePos16(ui)
  {
    hide ValPos, Pos, Scale, Fraction, Exp2;
    Pow2Words();
    Pow2Small();
    ScaleAndFraction(1, ui, 15);
    ValAt(16, 1, ui, Scale(1, ui, 15), Fraction(1, ui, 15));
    ValAt(32, 2, z, Scale(1, ui, 15), Fraction(1, ui, 15));
  }

  method WidenMagnitude(uiA: nat) returns (u: nat)
    requires Pos16(uiA)
    ensures Pos32(u) && Value32(u) == ValuePos16(uiA)
  {
    hide Value32, ValuePos16, IsSplit, RegimeWord, Pow2, Pos;
    Pow2Words();
    var kA, tmp := SplitRegime(16, uiA);
    SplitNat(16, uiA, kA, tmp);
    var exp_frac := tmp * 0x1_0000;
    var regA, regime: int;
    ghost var k';
    if kA < 0 {
      regA := -kA;
      exp_frac := exp_frac + regA % 2 * 0x8000_0000;
      regA := (regA + 1) / 2;
      if regA == 0 { regA := 1; }
      regime := 0x4000_0000 / Pow2(regA);
      k' := 0 - regA;
    } else {
      exp_frac := exp_frac + kA % 2 * 0x8000_0000;
      regA := if kA == 0 then 1 else (kA + 2) / 2;
      regime := 0x7FFF_FFFF - 0x7FFF_FFFF / Pow2(regA);
      k' := kA / 2;
    }
    WordOfRun(k', regA, kA < 0, regime);
    exp_frac := exp_frac / Pow2(regA + 2);
    WidenedPosition(uiA, kA, tmp, k', kA % 2, regime + exp_frac);
    u := regime + exp_frac;
    WidenedValue(uiA, u);
  }

  method Widen(p: nat) returns (z: nat)
    requires Bits16(p)
    ensures if p == NAR16 then z == NAR else Real32(z) && Value(z) == Value16(p)
  {
    hide Value, Value16, Value32, ValuePos16, Magnitude16;
    if p == 0x8000 || p == 0 {
      ZeroValues();
      return p * 0x1_0000;
    }
    var sign := p / 0x8000 == 1;
    ValueOfMagnitude16(p);
    var uiA := if sign then Neg16(p) else p;
    z := WidenMagnitude(uiA);
    SignedValue(z, sign);
    if sign { z := Neg32(z); }
  }

  lemma SplitNat(n: nat, ui: nat, k: int, tmp: nat)
    requires IsSplit(n, ui, k, tmp)
    ensures tmp < Pow2(n - 1) && 2 - n <= k <= n - 2
  {
  }

  lemma WordOfRun(k: int, run: int, zeros: bool, regime: int)
    requires run == RunOf(k) && (zeros <==> k < 0)
    requires regime == if zeros then 0x4000_0000 / Pow2(run) else 0x7FFF_FFFF - 0x7FFF_FFFF / Pow2(run)
    ensures regime == RegimeWord(k)
  {
    hide Pow2;
  }

  lemma ZeroValues()
    ensures Value(0) == 0.0 && Value16(0) == 0.0
  {
    Pow2Words();
  }
}
