// p32_to_p16: a 32-bit posit rounded to 16 bits.
module P16Narrowing {
  import opened Powers
  import opened Posit
  import opened PositOrder
  import opened PositRounding
  import opened PositValue
  import opened RegimeSplit
  import opened P32Fields
  import opened ScaledNumbers
  import opened P16Widening

  // ----- The two clamps -----

  // Where the clamps sit on the regime axis of the 32-bit format.
  lemma ClampPositions()
    ensures Pos(0x7F60_0000, 31) == 6.75 && Pos(0x00A0_0000, 31) == -6.75
  {
    hide Pos, Exp2;
    Pow2Words();
    PowersForClamps();
    PosOfFields(6, 0x60_0000, 23);
    PosOfFields(-7, 0x20_0000, 23);
    LeftAligned(3, 21, 23);
    LeftAligned(1, 21, 23);
    QuarterUnit();
  }

  lemma PowersForClamps()
    ensures Pow2(21) == 0x20_0000 && Pow2(22) == 0x40_0000 && Pow2(23) == 0x80_0000 && Pow2(24) == 0x100_0000
  {
    Pow2Small();
    Pow2Words();
    Pow2Add(18, 3);
    assert Pow2(22) == 2 * Pow2(21) && Pow2(24) == 2 * Pow2(23);
  }

  lemma QuarterUnit()
    ensures Exp2(0 - 2) == 0.25
  {
    Pow2Small();
  }

  // The 16-bit neighbours of the clamps and the numbers half way between them.
  lemma ClampNeighbours()
    ensures Positive(16, 0x7FFE) && Positive(16, 0x7FFF) && Positive(17, 0xFFFD)
    ensures ValPos(16, 1, 0x7FFE) == Exp2(26) && ValPos(17, 1, 0xFFFD) == Exp2(27)
    ensures ValPos(16, 1, 1) == Exp2(-28) && ValPos(17, 1, 3) == Exp2(-27)
  {
    hide ValPos, Exp2;
    Pow2Words();
    Pow2Small();
    BareFields(13, 0, 0xFFFC);
    BareFields(13, 1, 0xFFFD);
    BareFields(-14, 0, 2);
    BareFields(-14, 1, 3);
    AppendZeros(16, 1, 0x7FFE, 1);
    AppendZeros(16, 1, 1, 1);
  }

  // A 17-bit encoding with no fraction bits.
  lemma BareFields(k: int, e: nat, u: nat)
    requires RunOf(k) == 14 && e < 2 && u == RegimeBits(k, 16) + e
    ensures Positive(17, u) && ValPos(17, 1, u) == Exp2(2 * k + e)
  {
    hide ValPos, Exp2;
    Pow2Small();
    ValOfFields(1, k, e, 0, 0);
    assert 0 as real * Exp2(0 - 0) == 0.0;
  }

  // Position and scale of a 32-bit encoding.
  lemma AboveScale(ui: nat, v: nat, s: int)
    requires Pos32(ui) && Pos32(v) && 4.0 * Pos(v, 31) == s as real
    ensures ui > v ==> Value32(ui) > Exp2(s)
    ensures ui < v ==> Value32(ui) < Exp2(s)
  {
    hide ValPos, Pos, Exp2;
    Pow2Words();
    Pow2Small();
    ValAt(32, 2, v, s, 0.0);
    ValPosOrder(32, 2, ui, v);
  }

  lemma ClampHigh(ui: nat)
    requires 0x7F60_0000 < ui < 0x8000_0000
    ensures RoundsPos16(Value32(ui), 0x7FFF)
  {
    hide ValPos, Pos, Exp2, Value32;
    Pow2Words();
    ClampPositions();
    ClampNeighbours();
    AboveScale(ui, 0x7F60_0000, 27);
    Exp2Mono(26, 27);
    var x := Value32(ui);
    if x < ValPos(16, 1, MaxPos(16)) {
      RoundsPosAt(16, 1, x, 0x7FFE);
    }
  }

  lemma ClampLow(ui: nat)
    requires 0 < ui < 0x00A0_0000
    ensures RoundsPos16(Value32(ui), 1)
  {
    hide ValPos, Pos, Exp2, Value32;
    Pow2Words();
    ClampPositions();
    ClampNeighbours();
    AboveScale(ui, 0x00A0_0000, -27);
    var x := Value32(ui);
    ValPosOrder(16, 1, 1, MaxPos(16));
    ValPosOrder(17, 1, 3, 4);
    AppendZeros(16, 1, 2, 1);
    if x > ValPos(16, 1, 1) {
      RoundsPosAt(16, 1, x, 1);
    }
  }

  // ----- Between the clamps -----

  lemma RegimeBetweenClamps(ui: nat, k: int, tmp: nat)
    requires 0x00A0_0000 <= ui <= 0x7F60_0000 && IsSplit(32, ui, k, tmp)
    ensures -7 <= k <= 6
  {
    hide Pos, Exp2, Pow2;
    Pow2Words();
    ClampPositions();
    if ui > 0x00A0_0000 { PosMono(0x00A0_0000, ui, 31); }
    if ui < 0x7F60_0000 { PosMono(ui, 0x7F60_0000, 31); }
    Exp2OfNat(31);
    QuotientPlusRemainder(0, Pow2(31), tmp, Exp2(0 - 31), 1.0);
  }

  // Doubling the regime takes the first exponent bit along; the rest is what follows it.
  lemma NarrowedCell(ui: nat, k: int, tmp: nat, k16: int, t: nat)
    requires Pos32(ui) && IsSplit(32, ui, k, tmp)
    requires k16 == 2 * k + tmp / 0x4000_0000 && t == tmp % 0x4000_0000
    ensures InCell(Value32(ui), ScaleOf(1, k16, t / 0x2000_0000), t % 0x2000_0000, 29, false)
    ensures tmp < 0x8000_0000
  {
    hide Value32, Num, InCell, Pow2, IsSplit, ScaleOf;
    Pow2Words();
    SplitNat(32, ui, k, tmp);
    MagnitudeAsNum(ui, k, tmp);
    HiddenBits(tmp);
    SameScale(k, tmp);
    ScaleOf2(k, tmp / 0x2000_0000);
    NumFiner(4 * k + tmp / 0x2000_0000, 0x2000_0000 + tmp % 0x2000_0000, 29);
    CellOfExact(4 * k + tmp / 0x2000_0000, tmp % 0x2000_0000, 29);
  }

  lemma SameScale(k: int, tmp: nat)
    ensures ScaleOf(2, k, tmp / 0x2000_0000) == ScaleOf(1, 2 * k + tmp / 0x4000_0000, tmp % 0x4000_0000 / 0x2000_0000)
    ensures tmp % 0x4000_0000 % 0x2000_0000 == tmp % 0x2000_0000
  {
    Pow2Small();
  }

  // What p32_to_p16 computes from the 30 bits below the first exponent bit.
  function NarrowBits(k16: int, t: nat): int
    requires RunOf(k16) <= 14
  {
    var r := RunOf(k16);
    RoundGuard(RegimeBits(k16, 15) + t / Pow2(16 + r), t / Pow2(15 + r) % 2 == 1, t % Pow2(15 + r) != 0)
  }

  lemma NarrowCut(x: real, k16: int, t: nat)
    requires RunOf(k16) <= 14 && t < 0x4000_0000
    requires InCell(x, ScaleOf(1, k16, t / 0x2000_0000), t % 0x2000_0000, 29, false)
    ensures x > 0.0 && Pos16(NarrowBits(k16, t)) && RoundsPos16(x, NarrowBits(k16, t))
  {
    hide InCell, RoundsPos, Exp2, ScaleOf, RegimeBits, RoundGuard, Pow2;
    Pow2Words();
    Pow2Small();
    var e, f := t / 0x2000_0000, t % 0x2000_0000;
    RoundFields(16, 1, x, k16, e, f, 29, false);
    TailOf(t, e, f, 29);
    var p := RoundsPosTotal(16, 1, x);
  }

  // The shifts of the C code, on the word that holds t left-aligned.
  lemma NarrowShifts(t: nat, r: nat)
    requires t < 0x4000_0000 && 1 <= r <= 14
    ensures 4 * t / Pow2(17 + r) == t / Pow2(15 + r)
    ensures 4 * t / Pow2(18 + r) == t / Pow2(16 + r)
    ensures 4 * t * Pow2(15 - r) % 0x1_0000_0000 != 0 <==> t % Pow2(15 + r) != 0
    ensures r == 14 ==> t / Pow2(16 + r) == 0
  {
    hide Pow2;
    Pow2Small();
    Pow2Words();
    ShiftedUp(t, 2, 15 + r, 4 * t);
    ShiftedUp(t, 2, 16 + r, 4 * t);
    ShiftedUp(4 * t, 15 - r, 17 + r, 4 * t * Pow2(15 - r));
    if r == 14 { DivModUnique(t, Pow2(30), 0, t); }
  }

  lemma RegimeWord16(k: int)
    requires RunOf(k) <= 14
    ensures RegimeBits(k, 15) == if k < 0 then 0x4000 / Pow2(RunOf(k)) else 0x7FFF - 0x7FFF / Pow2(RunOf(k))
  {
    hide Pow2;
    Pow2Words();
    var r := RunOf(k);
    assert Pow2(14) == 0x4000 by { Pow2Double(14); }
    if k < 0 {
      Pow2Add(14 - r, r);
      DivModUnique(0x4000, Pow2(r), Pow2(14 - r), 0);
    } else {
      Pow2Add(15 - r, r);
      assert (Pow2(15 - r) - 1) * Pow2(r) + Pow2(r) == 0x8000;
      DivModUnique(0x7FFF, Pow2(r), Pow2(15 - r) - 1, Pow2(r) - 1);
    }
  }

  method NarrowMagnitude(uiA: nat) returns (uZ: nat)
    requires Pos32(uiA)
    ensures Pos16(uZ) && RoundsPos16(Value32(uiA), uZ)
  {
    hide Value32, RoundsPos16, IsSplit, InCell, Pow2, RegimeBits, NarrowBits;
    if uiA > 0x7F60_0000 {
      ClampHigh(uiA);
      return 0x7FFF;
    } else if uiA < 0x00A0_0000 {
      ClampLow(uiA);
      return 0x1;
    }
    Pos32IsPositive(uiA);
    var kA, tmp := SplitRegime(32, uiA);
    RegimeBetweenClamps(uiA, kA, tmp);
    var exp_frac := tmp * 2;
    ghost var k16, t := 2 * kA + tmp / 0x4000_0000, tmp % 0x4000_0000;
    NarrowedCell(uiA, kA, tmp, k16, t);
    var regA, regime: int;
    if kA < 0 {
      regA := -kA * 2;
      if exp_frac / 0x8000_0000 % 2 == 1 { regA := regA - 1; }
      regime := 0x4000 / Pow2(regA);
    } else {
      regA := kA * 2 + 1;
      if exp_frac / 0x8000_0000 % 2 == 1 { regA := regA + 1; }
      regime := 0x7FFF - 0x7FFF / Pow2(regA);
    }
    exp_frac := exp_frac * 2 % 0x1_0000_0000;
    NarrowRun(kA, tmp, regA);
    RegimeWord16(k16);
    NarrowShifts(t, regA);
    NarrowCut(Value32(uiA), k16, t);
    var bitNPlusOne, bitsMore, exp_frac16 := exp_frac / Pow2(17 + regA) % 2 == 1, false, 0;
    if regA < 14 { exp_frac16 := exp_frac / Pow2(18 + regA); }
    var u := regime + exp_frac16;
    if bitNPlusOne {
      if exp_frac * Pow2(15 - regA) % 0x1_0000_0000 != 0 { bitsMore := true; }
      u := u + if (bitNPlusOne && u % 2 == 1) || (bitNPlusOne && bitsMore) then 1 else 0;
    }
    NarrowBitsAre(k16, t, regA, u);
    uZ := u;
  }

  lemma NarrowBitsAre(k16: int, t: nat, r: nat, u: int)
    requires r == RunOf(k16) <= 14
    requires var v := RegimeBits(k16, 15) + t / Pow2(16 + r);
      u == v + if t / Pow2(15 + r) % 2 == 1 && (v % 2 == 1 || t % Pow2(15 + r) != 0) then 1 else 0
    ensures u == NarrowBits(k16, t)
  {
    hide Pow2, RegimeBits;
  }

  lemma NarrowRun(k: int, tmp: nat, regA: int)
    requires -7 <= k <= 6 && tmp < 0x8000_0000
    requires var top := if tmp * 2 / 0x8000_0000 % 2 == 1 then 1 else 0;
      regA == if k < 0 then -k * 2 - top else k * 2 + 1 + top
    ensures var k16 := 2 * k + tmp / 0x4000_0000;
      regA == RunOf(k16) && regA <= 14 && (k16 < 0 <==> k < 0)
    ensures tmp * 2 * 2 % 0x1_0000_0000 == 4 * (tmp % 0x4000_0000)
  {
  }

  // ----- p32_to_p16 -----

  method Narrow(p: nat) returns (z: nat)
    requires Bits32(p)
    ensures Bits16(z)
    ensures if p == NAR then z == NAR16 else Rounds16(Value(p), z)
  {
    hide Value, Value32, RoundsPos16, Rounds16, Magnitude;
    if p == 0x8000_0000 || p == 0 {
      ZeroNarrows();
      return p / 0x1_0000;
    }
    var sign := p / 0x8000_0000 == 1;
    MagnitudeIs(p);
    ValueOfMagnitude(p);
    var uiA := if sign then Neg32(p) else p;
    z := NarrowMagnitude(uiA);
    SignedRounding16(Value32(uiA), z, sign);
    if sign { z := Neg16(z); }
  }

  lemma ZeroNarrows()
    ensures Value(0) == 0.0 && Rounds16(0.0, 0)
  {
    Pow2Words();
  }

  // Narrowing undoes widening.
  method NarrowWidened(p: nat) returns (p': nat)
    requires Bits16(p)
    ensures p' == p
  {
    hide Value, Value16, RoundsPos;
    var w := Widen(p);
    p' := Narrow(w);
    if p != NAR16 {
      Pow2Words();
      Representable16(p);
      RoundsUnique(16, 1, Value16(p), p, p');
    }
  }

  lemma Representable16(p: nat)
    requires Real16(p)
    ensures Rounds16(Value16(p), p)
  {
    Pow2Words();
    RoundsRepresentable(16, 1, p);
  }
}
