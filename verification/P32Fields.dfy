// What the 32-bit kernels share: the value behind a split encoding, and the three ways a
// result is cut (fraction bits kept, one exponent bit kept, no exponent bit kept).
module P32Fields {
  import opened Powers
  import opened Posit
  import opened PositOrder
  import opened PositValue
  import opened PositRounding
  import opened RegimeSplit

  const NAR: nat := 0x8000_0000
  const MAXPOS: nat := 0x7FFF_FFFF

  predicate Bits32(u: int) {
    0 <= u < 0x1_0000_0000
  }

  // A real encoding: anything but NaR.
  predicate Real32(u: int) {
    Bits32(u) && u != NAR
  }

  predicate Pos32(u: int) {
    0 < u < 0x8000_0000
  }

  // -u & 0xFFFFFFFF
  function Neg32(u: int): (r: nat)
    ensures Bits32(r)
  {
    (-u) % 0x1_0000_0000
  }

  lemma Pos32IsPositive(u: int)
    ensures Pos32(u) <==> Positive(32, u)
  {
    Pow2Words();
  }

  // The value of a 32-bit posit, two exponent bits.
  ghost function Value(u: nat): real
    requires Real32(u)
  {
    Pow2Words();
    Val(32, 2, u)
  }

  ghost function Value32(u: nat): (x: real)
    requires Pos32(u)
    ensures x > 0.0
  {
    Pow2Words();
    ValPos(32, 2, u)
  }

  ghost predicate Rounds32(x: real, u: nat) {
    Rounds(32, 2, x, u)
  }

  ghost predicate RoundsPos32(x: real, u: nat)
    requires x > 0.0
  {
    RoundsPos(32, 2, x, u)
  }

  // ----- Sign and magnitude -----

  function Magnitude(u: nat): (m: nat)
    requires Real32(u) && u != 0
    ensures Pos32(m)
  {
    if u > NAR then Neg32(u) else u
  }

  lemma ValueOfMagnitude(u: nat)
    requires Real32(u) && u != 0
    ensures Value(u) == if u > NAR then -Value32(Magnitude(u)) else Value32(Magnitude(u))
  {
    hide ValPos;
    Pow2Words();
  }

  lemma MagnitudeIs(u: nat)
    requires Real32(u) && u != 0
    ensures Magnitude(u) == if u / 0x8000_0000 == 1 then Neg32(u) else u
    ensures Pos32(Magnitude(u))
  {
  }

  lemma SignedValue(u: nat, sign: bool)
    requires Pos32(u)
    ensures var z := if sign then Neg32(u) else u;
      Real32(z) && Value(z) == if sign then -Value32(u) else Value32(u)
  {
    hide Value, Value32;
    var z := if sign then Neg32(u) else u;
    ValueOfMagnitude(z);
  }

  lemma ValueNotZero(u: nat)
    requires Real32(u) && u != 0
    ensures Value(u) != 0.0
  {
    hide ValPos;
    Pow2Words();
  }

  // Two's complement carries rounding over to negative numbers, and only that does.
  lemma SignedRounding(x: real, p: nat, sign: bool)
    requires x > 0.0 && Pos32(p)
    ensures Rounds32(if sign then -x else x, if sign then Neg32(p) else p) <==> RoundsPos32(x, p)
  {
    hide RoundsPos, Pow2;
    Pow2Words();
  }

  // ----- Reading an encoding -----

  // Exponent and fraction of a left-aligned rest.
  lemma ValueFromSplit(n: nat, es: nat, ui: nat, k: int, tmp: nat)
    requires Positive(n, ui) && IsSplit(n, ui, k, tmp) && es < n - 1
    ensures var m := n - 1 - es;
      && tmp / Pow2(m) < Pow2(es)
      && ValPos(n, es, ui) == Exp2(ScaleOf(es, k, tmp / Pow2(m))) * (1.0 + (tmp % Pow2(m)) as real * Exp2(0 - m))
  {
    hide *;
    var m := n - 1 - es;
    var e: nat, f: nat := tmp / Pow2(m), tmp % Pow2(m);
    SplitFacts(n, ui, k, tmp);
    DivMod(tmp, Pow2(m));
    QuotientBelow(tmp, es, m);
    TailOf(tmp, e, f, m);
    Exp2OfNat(m);
    QuotientPlusRemainder(0, Pow2(m), f, Exp2(0 - m), 1.0);
    RestInUnits(es, e, f, m);
    PlaceFields(es, k, e, tmp as real * Exp2(0 - (es + m)), f as real * Exp2(0 - m));
    ValAt(n, es, ui, ScaleOf(es, k, e), f as real * Exp2(0 - m));
  }

  lemma SplitFacts(n: nat, ui: nat, k: int, tmp: nat)
    requires IsSplit(n, ui, k, tmp)
    ensures n >= 2 && tmp < Pow2(n - 1) && Pos(ui, n - 1) == k as real + tmp as real * Exp2(0 - (n - 1))
  {
    hide Pos, Exp2, Pow2;
  }

  lemma TailOf(t: nat, e: nat, f: nat, m: nat)
    requires t == e * Pow2(m) + f
    ensures Tail(e, f, m) == t
  {
  }

  // ----- Writing an encoding -----

  // The kernels' regime word.
  function RegimeWord(k: int): int {
    if k < 0 then 0x4000_0000 / Pow2(-k) else 0x7FFF_FFFF - 0x7FFF_FFFF / Pow2(k + 1)
  }

  lemma RegimeWordIsRegimeBits(k: int)
    requires RunOf(k) <= 30
    ensures RegimeWord(k) == RegimeBits(k, 31)
  {
    hide Pow2;
    Pow2Words();
    var r := RunOf(k);
    if k < 0 {
      Pow2Add(30 - r, r);
      DivModUnique(0x4000_0000, Pow2(r), Pow2(30 - r), 0);
    } else {
      Pow2Add(31 - r, r);
      assert (Pow2(31 - r) - 1) * Pow2(r) + Pow2(r) == 0x8000_0000;
      DivModUnique(0x7FFF_FFFF, Pow2(r), Pow2(31 - r) - 1, Pow2(r) - 1);
    }
  }

  // The regime word when the regime fills the encoding.
  lemma RegimeWordAtEnds()
    ensures RegimeWord(29) == 0x7FFF_FFFE && RegimeWord(-30) == 1
  {
    Pow2Words();
  }

  function Cut32(k: int, e: nat, f: nat, m: nat, sticky: bool): int
    requires RunOf(k) <= 30 && m >= 1 && RunOf(k) + m >= 29
  {
    CutFields(32, 2, k, e, f, m, sticky)
  }

  // Fraction bits survive the cut.
  lemma CutInFraction(k: int, e: nat, f: nat, m: nat, sticky: bool)
    requires RunOf(k) <= 28 && m >= 1 && RunOf(k) + m >= 29
    ensures var d := RunOf(k) + m - 28;
      Cut32(k, e, f, m, sticky) == RoundGuard(RegimeWord(k) + e * Pow2(28 - RunOf(k)) + f / Pow2(d),
                                              f / Pow2(d - 1) % 2 == 1, f % Pow2(d - 1) != 0 || sticky)
  {
    hide Pow2, RegimeBits, RegimeWord;
    var r := RunOf(k);
    var d := r + m - 28;
    RegimeWordIsRegimeBits(k);
    Pow2Add(28 - r, d);
    Pow2Add(29 - r, d - 1);
    Regroup3(e, Pow2(28 - r), Pow2(d));
    Regroup3(e, Pow2(29 - r), Pow2(d - 1));
    AddMultiple(e * Pow2(28 - r), Pow2(d), f);
    AddMultiple(e * Pow2(29 - r), Pow2(d - 1), f);
    Pow2Double(28 - r);
    EvenPlus(e * Pow2(28 - r), e * Pow2(29 - r), f / Pow2(d - 1));
  }

  lemma Regroup3(a: int, b: int, c: int)
    ensures a * (b * c) == (a * b) * c
  {
  }

  lemma EvenPlus(h: int, t: int, q: int)
    requires t == 2 * h
    ensures (t + q) % 2 == q % 2
  {
  }

  // One exponent bit survives the cut.
  lemma CutAfterOneExponentBit(k: int, e: nat, f: nat, m: nat, sticky: bool)
    requires RunOf(k) == 29 && m >= 1 && f < Pow2(m)
    ensures Cut32(k, e, f, m, sticky) == RoundGuard(RegimeWord(k) + e / 2, e % 2 == 1, f != 0 || sticky)
  {
    hide Pow2, RegimeBits, RegimeWord, Tail;
    RegimeWordIsRegimeBits(k);
    Pow2Double(m);
    SplitTail(e, f, Pow2(m), Tail(e, f, m)) by { TailIs(e, f, m); }
  }

  lemma TailIs(e: nat, f: nat, m: nat)
    ensures Tail(e, f, m) == e * Pow2(m) + f
  {
  }

  lemma SplitTail(e: nat, f: nat, p: nat, t: nat)
    requires f < p && t == e * p + f
    ensures t / p == e && t % p == f && t / (2 * p) == e / 2 && t % (2 * p) == e % 2 * p + f
    ensures (e % 2 * p + f) / p == e % 2 && (e % 2 * p + f) % p == f
  {
    DivModUnique(t, p, e, f);
    DivModUnique(e % 2 * p + f, p, e % 2, f);
    assert e / 2 * (2 * p) == (e - e % 2) * p;
    DivModUnique(t, 2 * p, e / 2, e % 2 * p + f);
  }

  // No exponent bit survives the cut.
  lemma CutBeforeExponent(k: int, e: nat, f: nat, m: nat, sticky: bool)
    requires RunOf(k) == 30 && m >= 1 && f < Pow2(m) && e < 4
    ensures Cut32(k, e, f, m, sticky) == RoundGuard(RegimeWord(k), e >= 2, e % 2 == 1 || f != 0 || sticky)
  {
    hide Pow2, RegimeBits, RegimeWord, Tail;
    RegimeWordIsRegimeBits(k);
    Pow2Double(m);
    Pow2Double(m + 1);
    HalveTail(e, f, m);
  }

  lemma HalveTail(e: nat, f: nat, m: nat)
    requires f < Pow2(m) && e < 4
    ensures Tail(e, f, m) / (2 * Pow2(m)) == e / 2
    ensures Tail(e, f, m) % (2 * Pow2(m)) != 0 <==> e % 2 == 1 || f != 0
    ensures Tail(e, f, m) / (4 * Pow2(m)) == 0
  {
    hide Pow2;
    var t, p := Tail(e, f, m), Pow2(m);
    DivModUnique(t, 2 * p, e / 2, if e % 2 == 1 then p + f else f);
    DivModUnique(t, 4 * p, 0, t);
  }

  // The cut is the rounding of everything in the cell; beyond 30 regime bits it saturates.
  lemma CutRounds(x: real, k: int, e: nat, f: nat, m: nat, sticky: bool)
    requires m >= 1 && RunOf(k) + m >= 29 && e < 4 && f < Pow2(m) && InCell(x, ScaleOf(2, k, e), f, m, sticky)
    ensures x > 0.0
    ensures RunOf(k) <= 30 ==> Cut32(k, e, f, m, sticky) > 0 && RoundsPos32(x, Cut32(k, e, f, m, sticky))
    ensures RunOf(k) > 30 ==> RoundsPos32(x, if k < 0 then 1 else MAXPOS)
  {
    hide RoundsPos, CutFields, InCell, Exp2, ScaleOf, Pow2;
    Pow2Small();
    Pow2Words();
    if RunOf(k) <= 30 {
      RoundFields(32, 2, x, k, e, f, m, sticky);
    } else {
      CellBounds(x, ScaleOf(2, k, e), f, m, sticky);
      if k < 0 {
        ScaleCarries(2, k, e);
        SaturateLow(32, 2, x, k, e);
      } else {
        SaturateHigh(32, 2, x, k, e);
      }
    }
  }

  lemma Rounds32Unique(x: real, p: nat, q: nat)
    requires Rounds32(x, p) && Rounds32(x, q)
    ensures p == q
  {
    RoundsUnique(32, 2, x, p, q);
  }

  // Two different encodings cannot both be the rounding.
  lemma WrongRounding(x: real, p: nat, q: nat)
    requires x > 0.0 && RoundsPos32(x, p) && p != q
    ensures !RoundsPos32(x, q)
  {
    hide RoundsPos;
    var r := RoundsPosTotal(32, 2, x);
  }

  lemma ShiftedUp(g: nat, r: nat, j: nat, f: nat)
    requires f == g * Pow2(r)
    ensures f / Pow2(r + j) == g / Pow2(j)
    ensures f % Pow2(r + j) != 0 <==> g % Pow2(j) != 0
  {
    hide Pow2;
    DivMod(g, Pow2(j));
    Pow2Add(r, j);
    Regroup3(g / Pow2(j), Pow2(j), Pow2(r));
    MulLess(g % Pow2(j), Pow2(j), Pow2(r));
    DivModUnique(f, Pow2(r + j), g / Pow2(j), g % Pow2(j) * Pow2(r));
  }

  lemma Pos32OfRounded(x: real, u: int)
    requires x > 0.0 && u > 0 && RoundsPos32(x, u)
    ensures Pos32(u)
  {
    hide RoundsPos;
    Pow2Words();
    var p := RoundsPosTotal(32, 2, x);
  }
}
