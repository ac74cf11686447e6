// p32_to_i64 and p32_roundToInt: two independent codes for rounding a posit to an integer,
// ties to even.
module P32ToInt {
  import opened Powers
  import opened Posit
  import opened PositOrder
  import opened PositRounding
  import opened PositValue
  import opened RegimeSplit
  import opened P32Fields
  import opened ScaledNumbers
  import opened Int64ToP32
  import opened P32ToDouble

  // z is the integer nearest to x, the even one of two.
  ghost predicate NearestInt(x: real, z: int) {
    && -0.5 <= x - z as real <= 0.5
    && (x - z as real == 0.5 || x - z as real == -0.5 ==> z % 2 == 0)
  }

  lemma NearestIntUnique(x: real, z: int, z': int)
    requires NearestInt(x, z) && NearestInt(x, z')
    ensures z == z'
  {
    assert -1.0 <= (z - z') as real <= 1.0;
  }

  lemma NearestIntNegated(x: real, z: int)
    requires NearestInt(x, z)
    ensures NearestInt(-x, -z)
  {
  }

  // Dropping j bits with guard and sticky bit rounds c / 2^j to an integer.
  lemma NearestOfGuard(c: nat, j: nat)
    requires j >= 1
    ensures NearestInt(Shifted(c, j), RoundGuard(c / Pow2(j), c / Pow2(j - 1) % 2 == 1, c % Pow2(j - 1) != 0))
  {
    hide *;
    DivMod(c, Pow2(j));
    GuardAndRest(c, j);
    Pow2Double(j - 1);
    HalfBit(j);
    ShiftedIs(c, j);
    NearestCut(Shifted(c, j), c, c / Pow2(j), c % Pow2(j), Pow2(j - 1), Exp2(0 - j), 0.5,
               c / Pow2(j - 1) % 2 == 1, c % Pow2(j - 1) != 0);
  }

  lemma ShiftedIs(c: int, j: nat)
    ensures Shifted(c, j) == c as real * Exp2(0 - j)
  {
  }

  lemma HalfBit(j: nat)
    requires j >= 1
    ensures Pow2(j - 1) as real * Exp2(0 - j) == 0.5
  {
    hide Pow2, Exp2;
    Exp2OfNat(j);
    Pow2Double(j - 1);
    assert Exp2(0 - j) * (2.0 * Pow2(j - 1) as real) == 1.0;
  }

  // c is q and a remainder r out of 2 * h, u the weight of a unit.
  lemma NearestCut(x: real, c: nat, q: int, r: int, h: int, u: real, half: real, guard: bool, more: bool)
    requires c == q * (2 * h) + r && 0 <= r < 2 * h && u > 0.0 && h as real * u == half && half == 0.5
    requires (guard <==> r >= h) && (r == h <==> guard && !more) && x == c as real * u
    ensures NearestInt(x, RoundGuard(q, guard, more))
  {
    hide NearestInt, RoundGuard;
    assert c as real == q as real * (2.0 * h as real) + r as real;
    SpreadUnit(q as real, h as real, r as real, u);
    var g := r as real * u;
    MulSign(u, r as real);
    MulLt(u, r as real, 2.0 * h as real);
    if r < h { MulLt(u, r as real, h as real); } else if r > h { MulLt(u, h as real, r as real); }
    NearestFrom(x, q, g, half, guard, more);
  }

  lemma SpreadUnit(q: real, h: real, r: real, u: real)
    ensures (q * (2.0 * h) + r) * u == 2.0 * q * (h * u) + r * u
  {
  }

  lemma NearestFrom(x: real, q: int, g: real, half: real, guard: bool, more: bool)
    requires half == 0.5 && x == 2.0 * q as real * half + g && 0.0 <= g < 2.0 * half
    requires (guard <==> g >= half) && (g == half <==> guard && !more)
    ensures NearestInt(x, RoundGuard(q, guard, more))
  {
  }

  // ----- The thresholds of both codes -----

  lemma ValueOfCode(k: int, e: nat, f: nat, u: nat)
    requires RunOf(k) <= 28 && e < 4 && f < Pow2(28 - RunOf(k))
    requires u == RegimeBits(k, 31) + Tail(e, f, 28 - RunOf(k))
    ensures Pos32(u) && Value32(u) == Num(4 * k + e, Pow2(28 - RunOf(k)) + f, 28 - RunOf(k))
  {
    hide ValPos, RegimeBits, Tail, Pow2, Num, Exp2;
    Pow2Small();
    ValOfFields(2, k, e, f, 28 - RunOf(k));
    ScaleOf2(k, e);
    NumWithHidden(4 * k + e, f, 28 - RunOf(k));
    Pos32IsPositive(u);
  }

  lemma PowersNear27()
    ensures Pow2(27) == 0x800_0000 && Pow2(26) == 0x400_0000 && Pow2(25) == 0x200_0000
  {
    Pow2Words();
    assert Pow2(28) == 2 * Pow2(27) == 4 * Pow2(26) == 8 * Pow2(25);
  }

  lemma SmallThresholds()
    ensures Value32(0x3800_0000) == 0.5
    ensures Value32(0x4400_0000) == 1.5
    ensures Value32(0x4A00_0000) == 2.5
  {
    hide ValPos, Exp2, Num, Value32;
    Pow2Words();
    PowersNear27();
    ValueOfCode(-1, 3, 0, 0x3800_0000);
    ValueOfCode(0, 0, 0x400_0000, 0x4400_0000);
    ValueOfCode(0, 1, 0x200_0000, 0x4A00_0000);
    Exp2Steps();
    NumQuarters(-1, 4);
    NumQuarters(0, 6);
    NumQuarters(1, 5);
  }

  lemma Exp2Steps()
    ensures Exp2(-2) == 0.25 && Exp2(-1) == 0.5 && Exp2(0) == 1.0 && Exp2(1) == 2.0
  {
    Pow2Small();
  }

  lemma NumQuarters(s: int, q: int)
    ensures Num(s, q * 0x200_0000, 27) == Exp2(s) * (q as real * 0.25)
  {
    hide Exp2;
    PowersNear27();
    NumShifted(s, q, 2, 25);
    Exp2Steps();
  }

  lemma Threshold63()
    ensures Value32(0x7FFF_B000) == 9223372036854775808.0
  {
    hide ValPos, Num, Value32;
    Pow2Words();
    Pow2At12();
    ValueOfCode(15, 3, 0, 0x7FFF_B000);
    NumShifted(63, 1, 0, 12);
    WholeNumber63();
  }

  lemma WholeNumber63()
    ensures Num(63, 1, 0) == 9223372036854775808.0
  {
    Pow2Words();
    Exp2Zero();
  }

  lemma Order32(a: nat, b: nat)
    requires Pos32(a) && Pos32(b)
    ensures a < b <==> Value32(a) < Value32(b)
    ensures a == b <==> Value32(a) == Value32(b)
  {
    hide ValPos;
    Pow2Words();
    ValPosOrder(32, 2, a, b);
  }

  // What the first comparisons of both codes decide.
  lemma SmallCases(u: nat)
    requires Pos32(u)
    ensures u <= 0x3800_0000 ==> NearestInt(Value32(u), 0)
    ensures 0x3800_0000 < u < 0x4400_0000 ==> NearestInt(Value32(u), 1)
    ensures 0x4400_0000 <= u <= 0x4A00_0000 ==> NearestInt(Value32(u), 2)
  {
    hide Value32;
    SmallThresholds();
    Order32(u, 0x3800_0000);
    Order32(u, 0x4400_0000);
    Order32(u, 0x4A00_0000);
  }

  // ----- p32_to_i64 -----

  // The loop of p32_to_i64 drops the leading bit and works on 30 bits.
  method CountOnes(ui: nat) returns (scale: nat, uiA: nat, ghost k: int)
    requires 0x4A00_0000 < ui < 0x7FFF_B000
    ensures scale == 4 * k && 0 <= k <= 30 && uiA < 0x2000_0000 && IsSplit(32, ui, k, 4 * uiA)
  {
    hide InOnes, IsSplit, Pow2;
    Pow2Words();
    uiA := ui - 0x4000_0000;
    scale := 0;
    k := 0;
    ghost var b: nat := ui;
    StartOnes(32, ui);
    DivModUnique(ui * 4, 0x1_0000_0000, 1, 4 * uiA);
    while uiA / 0x2000_0000 % 2 == 1
      invariant scale == 4 * k && 0 <= k <= 30 && 0 <= uiA < 0x4000_0000
      invariant InOnes(32, ui, k, 4 * uiA, b)
      decreases 31 - k
    {
      StepOnes(32, ui, k, 4 * uiA, b);
      DivModUnique(8 * uiA, 0x1_0000_0000, 1, 8 * uiA - 0x1_0000_0000);
      InOnesRange(32, ui, k + 1, 8 * uiA - 0x1_0000_0000, b - Pow2(30 - k));
      b, k := b - Pow2(30 - k), k + 1;
      scale := scale + 4;
      uiA := (uiA - 0x2000_0000) * 2;
    }
    StopOnes(32, ui, k, 4 * uiA, b);
  }

  // Then the exponent, and the fraction with its hidden bit.
  method SplitIntegerPart(ui: nat) returns (scale: nat, rest: nat)
    requires 0x4A00_0000 < ui < 0x7FFF_B000
    ensures 1 <= scale <= 62 && 0x1000_0000 <= rest < 0x2000_0000
    ensures Value32(ui) == Num(scale, rest, 28)
  {
    hide IsSplit, Num, Pow2, Value32, Hidden;
    Pow2Words();
    var uiA;
    ghost var k;
    scale, uiA, k := CountOnes(ui);
    MagnitudeAsNum(ui, k, 4 * uiA);
    HiddenBits(4 * uiA);
    uiA := uiA * 2;
    if uiA / 0x2000_0000 % 2 == 1 { scale := scale + 2; }
    if uiA / 0x1000_0000 % 2 == 1 { scale := scale + 1; }
    rest := 0x1000_0000 + uiA % 0x1000_0000;
    Pow2Small();
    NumShifted(scale, rest, 28, 2);
    IntegerRange(ui, scale, rest);
  }

  lemma IntegerRange(ui: nat, s: nat, c: nat)
    requires 0x4A00_0000 < ui < 0x7FFF_B000 && 0x1000_0000 <= c < 0x2000_0000
    requires Value32(ui) == Num(s, c, 28)
    ensures 1 <= s <= 62
  {
    hide Num, Value32, Exp2, InCell;
    Pow2Words();
    SmallThresholds();
    Threshold63();
    Order32(ui, 0x4A00_0000);
    Order32(ui, 0x7FFF_B000);
    CellOfExact(s, c - 0x1000_0000, 28);
    CellBounds(Value32(ui), s, c - 0x1000_0000, 28, false);
    Exp2At63();
    Exp2Steps();
    if s == 0 {
    } else if s >= 63 {
      Exp2Mono(63, s);
    }
  }

  lemma Exp2At63()
    ensures Exp2(63) == 9223372036854775808.0
  {
    Pow2Words();
  }

  // c / 2^j
  ghost function Shifted(c: int, j: nat): real {
    c as real * Exp2(0 - j)
  }

  // Rounding u in place at bit j.
  predicate RoundsUpAt(u: int, j: nat)
    requires j >= 1
  {
    u / Pow2(j - 1) % 2 == 1 && (u / Pow2(j) % 2 == 1 || u % Pow2(j - 1) != 0)
  }

  function RoundAt(u: int, j: nat): int
    requires j >= 1
  {
    u - u % Pow2(j) + if RoundsUpAt(u, j) then Pow2(j) else 0
  }

  // The decoding branch: left-justify, round in place, right-justify.
  method RoundLarge(uiA: nat) returns (iZ: int)
    requires 0x4A00_0000 < uiA < 0x7FFF_B000
    ensures NearestInt(Value32(uiA), iZ)
  {
    hide Value32, NearestInt, Num, Pow2, Exp2, RoundAt, Shifted;
    var scale, rest := SplitIntegerPart(uiA);
    iZ := rest * 0x4_0000_0000;
    ghost var c: nat := iZ;
    LeftJustified(Value32(uiA), scale, rest, iZ);
    if scale < 62 {
      var j := 62 - scale;
      var mask := Pow2(j);
      var bitLast := iZ / mask % 2 == 1;
      mask := Pow2(j - 1);
      var bitNPlusOne := iZ / mask % 2 == 1;
      var bitsMore := iZ % mask != 0;
      RoundJustified(iZ, j);
      iZ := iZ - iZ % Pow2(j) + if bitNPlusOne && (bitLast || bitsMore) then Pow2(j) else 0;
      RoundAtIs(c, j, iZ);
      iZ := iZ / Pow2(j);
    }
  }

  lemma RoundAtIs(c: int, j: nat, r: int)
    requires j >= 1
    requires r == c - c % Pow2(j)
      + if c / Pow2(j - 1) % 2 == 1 && (c / Pow2(j) % 2 == 1 || c % Pow2(j - 1) != 0) then Pow2(j) else 0
    ensures r == RoundAt(c, j)
  {
  }

  method ToInt64(p: nat) returns (z: int)
    requires Bits32(p)
    ensures p == NAR ==> z == 0
    ensures Real32(p) ==>
      if Value(p) >= 9223372036854775808.0 then z == 0x7FFF_FFFF_FFFF_FFFF
      else if Value(p) <= -9223372036854775808.0 then z == -0x8000_0000_0000_0000
      else NearestInt(Value(p), z)
  {
    hide Value, Value32, NearestInt, Magnitude;
    if p == NAR { return 0; }
    if p == 0 {
      ZeroToInt();
      return 0;
    }
    var sign := p / 0x8000_0000 == 1;
    MagnitudeIs(p);
    ValueOfMagnitude(p);
    var uiA := if sign then Neg32(p) else p;
    var iZ: int;
    Threshold63();
    SmallCases(uiA);
    Order32(uiA, 0x7FFF_B000);
    if uiA <= 0x3800_0000 {
      NearestIntNegated(Value32(uiA), 0);
      return 0;
    } else if uiA < 0x4400_0000 {
      iZ := 1;
    } else if uiA <= 0x4A00_0000 {
      iZ := 2;
    } else if uiA > 0x7FFF_AFFF {
      return if sign then -9223372036854775808 else 0x7FFF_FFFF_FFFF_FFFF;
    } else {
      iZ := RoundLarge(uiA);
    }
    NearestIntNegated(Value32(uiA), iZ);
    z := if sign then -iZ else iZ;
  }

  lemma ZeroToInt()
    ensures Value(0) == 0.0 && NearestInt(0.0, 0)
  {
    Pow2Words();
  }

  lemma LeftJustified(x: real, scale: nat, rest: nat, iZ: nat)
    requires 1 <= scale <= 62 && x == Num(scale, rest, 28) && iZ == rest * 0x4_0000_0000
    ensures x == Shifted(iZ, 62 - scale)
    ensures scale == 62 ==> NearestInt(x, iZ)
  {
    hide Exp2, Num;
    Pow2Words();
    assert Pow2(34) == 2 * Pow2(33);
    NumShifted(scale, rest, 28, 34);
    ScaleAway(scale, iZ, 62);
    Exp2Zero();
  }

  lemma ScaleAway(s: int, f: int, m: nat)
    ensures Num(s, f, m) == f as real * Exp2(s - m)
  {
    hide Exp2;
    Exp2Add(s, 0 - m);
    Regroup(Exp2(s), Exp2(0 - m), f as real);
  }

  // Clearing the dropped bits, rounding in place and shifting down rounds to an integer.
  lemma RoundJustified(c: nat, j: nat)
    requires j >= 1
    ensures NearestInt(Shifted(c, j), RoundAt(c, j) / Pow2(j))
  {
    hide *;
    NearestOfGuard(c, j);
    RoundAtQuotient(c, j, Pow2(j));
  }

  lemma RoundAtQuotient(c: nat, j: nat, p: int)
    requires j >= 1 && p == Pow2(j)
    ensures RoundAt(c, j) / p == RoundGuard(c / p, c / Pow2(j - 1) % 2 == 1, c % Pow2(j - 1) != 0)
    ensures RoundAt(c, j) % p == 0
  {
    hide *;
    DivMod(c, p);
    var q := c / p;
    DivModUnique(q * p, p, q, 0);
    DivModUnique(q * p + p, p, q + 1, 0);
    RoundAtParts(c, j, p, q);
    RoundsUpIs(c, j, p, q);
  }

  lemma RoundAtParts(c: int, j: nat, p: int, q: int)
    requires j >= 1 && p == Pow2(j) && c == q * p + c % p
    ensures RoundAt(c, j) == q * p + if RoundsUpAt(c, j) then p else 0
  {
    hide Pow2, RoundsUpAt;
  }

  lemma RoundsUpIs(c: int, j: nat, p: int, q: int)
    requires j >= 1 && p == Pow2(j) && q == c / p
    ensures RoundGuard(q, c / Pow2(j - 1) % 2 == 1, c % Pow2(j - 1) != 0) == q + if RoundsUpAt(c, j) then 1 else 0
  {
    hide Pow2;
  }

  // ----- p32_roundToInt -----

  // y is the integer nearest to x.
  ghost predicate RoundsToInteger(x: real, y: real) {
    exists i: int :: IsRounded(x, y, i)
  }

  ghost predicate IsRounded(x: real, y: real, i: int) {
    NearestInt(x, i) && y == i as real
  }

  // An encoding above one, taken apart around its last exponent bit 2^m.
  ghost predicate HasFields(ui: int, k: nat, e: nat, f: int, m: nat) {
    k <= 5 && m == 27 - k && e < 4 && 0 <= f < Pow2(m) && ui == 0x8000_0000 - Pow2(m + 3) + e * Pow2(m) + f
  }

  lemma FieldsAsCode(ui: int, k: nat, e: nat, f: int, m: nat)
    requires HasFields(ui, k, e, f, m)
    ensures ui == RegimeBits(k, 31) + Tail(e, f, m)
    ensures RunOf(k) == k + 1 && m == 28 - RunOf(k)
  {
    hide Pow2;
    Pow2Words();
  }

  lemma FieldsValue(ui: int, k: nat, e: nat, f: int, m: nat)
    requires HasFields(ui, k, e, f, m)
    ensures Pos32(ui) && Value32(ui) == Num(4 * k + e, Pow2(m) + f, m)
  {
    hide Pow2, Num, Value32, RegimeBits, Tail;
    FieldsAsCode(ui, k, e, f, m);
    ValueOfCode(k, e, f, ui);
  }

  // The same, when the fraction has just been filled up.
  lemma FilledValue(ui: int, k: nat, e: nat, f: int, m: nat)
    requires HasFields(ui, k, e, f, m) && f + 1 == Pow2(m)
    ensures Pos32(ui + 1) && Value32(ui + 1) == Num(4 * k + e, Pow2(m) + Pow2(m), m)
  {
    hide Pow2, Num, ValPos, Exp2, RegimeBits, Tail, ScaleOf;
    Pow2Small();
    FieldsAsCode(ui, k, e, f, m);
    NextFields(32, 2, k, e, f, m);
    ScaleOf2(k, e);
    NumWithHidden(4 * k + e, Pow2(m), m);
    Pos32IsPositive(ui + 1);
  }

  // The regime bits are a multiple of everything below them.
  lemma UpperPart(ui: int, k: nat, e: nat, f: int, m: nat) returns (a: int)
    requires HasFields(ui, k, e, f, m)
    ensures ui == (8 * a + e) * Pow2(m) + f
  {
    hide Pow2;
    Pow2Words();
    Pow2Add(m + 3, k + 1);
    Pow2Double(m);
    Pow2Double(m + 1);
    Pow2Double(m + 2);
    a := Pow2(k + 1) - 1;
  }

  // Bits of an encoding from the last exponent bit on.
  lemma FieldBits(ui: int, k: nat, e: nat, f: int, m: nat)
    requires HasFields(ui, k, e, f, m)
    ensures ui / Pow2(m) % 2 == e % 2 && ui / Pow2(m + 1) % 2 == e / 2
  {
    hide Pow2, HasFields;
    var a := UpperPart(ui, k, e, f, m);
    FieldsRange(ui, k, e, f, m);
    ExponentBits(ui, a, e, f, Pow2(m));
    Pow2Double(m);
  }

  lemma FieldsRange(ui: int, k: nat, e: nat, f: int, m: nat)
    requires HasFields(ui, k, e, f, m)
    ensures e < 4 && 0 <= f < Pow2(m)
  {
  }

  lemma ExponentBits(ui: int, a: int, e: nat, f: int, p: int)
    requires ui == (8 * a + e) * p + f && 0 <= f < p && e < 4
    ensures ui / p % 2 == e % 2 && ui / (2 * p) % 2 == e / 2
  {
    DivModUnique(ui, p, 8 * a + e, f);
    EvenPlus(4 * a, 8 * a, e);
    var g := if e % 2 == 1 then p + f else f;
    assert ui == (4 * a + e / 2) * (2 * p) + g by { HalveProduct(a, e, p); }
    DivModUnique(ui, 2 * p, 4 * a + e / 2, g);
    EvenPlus(2 * a, 4 * a, e / 2);
  }

  lemma HalveProduct(a: int, e: nat, p: int)
    ensures (8 * a + e) * p == (4 * a + e / 2) * (2 * p) + if e % 2 == 1 then p else 0
  {
    if e % 2 == 1 {
      assert e == 2 * (e / 2) + 1;
    } else {
      assert e == 2 * (e / 2);
    }
  }

  // Adding multiples of 2^m changes no bit below it.
  lemma LowBitsAgree(a: int, f: int, m: nat, j: nat)
    requires j < m
    ensures (a * Pow2(m) + f) % Pow2(j) == f % Pow2(j)
    ensures (a * Pow2(m) + f) / Pow2(j) % 2 == f / Pow2(j) % 2
  {
    hide Pow2;
    Pow2Add(m - j, j);
    Pow2Double(m - j - 1);
    EvenMultiple(a, Pow2(m), Pow2(m - j - 1), Pow2(j), f);
  }

  lemma EvenMultiple(a: int, q: int, h: int, p: int, f: int)
    requires q == (2 * h) * p && p > 0
    ensures (a * q + f) % p == f % p && (a * q + f) / p % 2 == f / p % 2
  {
    var b := a * h;
    assert a * q == (2 * b) * p;
    AddMultiple(2 * b, p, f);
    EvenPlus(b, 2 * b, f / p);
  }

  lemma RoundAtAgrees(a: int, f: int, m: nat, j: nat)
    requires 1 <= j < m && 0 <= f
    ensures RoundAt(a * Pow2(m) + f, j) - (a * Pow2(m) + f)
         == RoundAt(Pow2(m) + f, j) - (Pow2(m) + f) == RoundAt(f, j) - f
  {
    hide Pow2;
    LowBitsAgree(a, f, m, j);
    LowBitsAgree(1, f, m, j);
    LowBitsAgree(a, f, m, j - 1);
    LowBitsAgree(1, f, m, j - 1);
  }

  // Rounding the encoding in place at bit j rounds the value to an integer.
  lemma RoundInPlace(ui: int, k: nat, e: nat, f: int, m: nat, s: nat, j: nat)
    requires HasFields(ui, k, e, f, m) && s == 4 * k + e && 1 <= s && 1 <= j && m == s + j
    ensures Pos32(ui) && Pos32(RoundAt(ui, j)) && RoundsToInteger(Value32(ui), Value32(RoundAt(ui, j)))
  {
    hide Pow2, Num, Value32, NearestInt, Exp2, RoundAt, RoundsToInteger, HasFields;
    var a := UpperPart(ui, k, e, f, m);
    var c := Pow2(m) + f;
    FieldsRange(ui, k, e, f, m);
    RoundAtAgrees(8 * a + e, f, m, j);
    FieldsValue(ui, k, e, f, m);
    RoundedFraction(f, m, j);
    RoundedCode(ui, k, e, f, m, RoundAt(f, j) - f);
    RoundedWhole(Value32(ui), Value32(RoundAt(ui, j)), s, c, m, j);
  }

  lemma RoundedWhole(x: real, y: real, s: nat, c: nat, m: nat, j: nat)
    requires m == s + j && 1 <= j
    requires x == Num(s, c, m) && y == Num(s, RoundAt(c, j), m) && RoundAt(c, j) % Pow2(j) == 0
    ensures RoundsToInteger(x, y)
  {
    hide Pow2, Num, NearestInt, Exp2, RoundAt, Shifted, RoundsUpAt;
    ScaledShift(s, c, m, j);
    ScaledShift(s, RoundAt(c, j), m, j);
    RoundJustified(c, j);
    WholeAgain(RoundAt(c, j), j);
    assert IsRounded(x, y, RoundAt(c, j) / Pow2(j));
  }

  lemma ScaledShift(s: int, f: int, m: nat, j: nat)
    requires m == s + j
    ensures Num(s, f, m) == Shifted(f, j)
  {
    hide *;
    ScaleAway(s, f, m);
    assert s - m == 0 - j;
    ShiftedIs(f, j);
  }

  lemma RoundedFraction(f: int, m: nat, j: nat)
    requires 0 <= f < Pow2(m) && 1 <= j <= m
    ensures 0 <= RoundAt(f, j) <= Pow2(m) && (Pow2(m) + RoundAt(f, j)) % Pow2(j) == 0
  {
    hide *;
    var p: int, n: int, q := Pow2(j), Pow2(m - j), f / Pow2(j);
    Pow2Add(m - j, j);
    DivMod(f, p);
    QuotientBelow(f, m - j, j);
    WholeUnits(q, n, p);
    RoundAtParts(f, j, p, q);
  }

  lemma WholeUnits(q: int, n: int, p: int)
    requires 0 <= q < n && p > 0
    ensures 0 <= q * p && q * p + p <= n * p
    ensures (n * p + q * p) % p == 0 && (n * p + (q * p + p)) % p == 0
  {
    MulLess(q, n, p);
    DivModUnique(n * p + q * p, p, n + q, 0);
    DivModUnique(n * p + (q * p + p), p, n + q + 1, 0);
  }

  lemma RoundedCode(ui: int, k: nat, e: nat, f: int, m: nat, d: int)
    requires HasFields(ui, k, e, f, m) && 0 <= f + d <= Pow2(m)
    ensures Pos32(ui + d) && Value32(ui + d) == Num(4 * k + e, Pow2(m) + f + d, m)
  {
    hide Pow2, Num, Value32;
    if f + d < Pow2(m) {
      FieldsValue(ui + d, k, e, f + d, m);
    } else {
      FilledValue(ui + d - 1, k, e, f + d - 1, m);
    }
  }

  lemma WholeAgain(c: int, j: nat)
    requires c % Pow2(j) == 0
    ensures Shifted(c, j) == (c / Pow2(j)) as real
  {
    hide Pow2, Exp2;
    DivMod(c, Pow2(j));
    Exp2OfNat(j);
    QuotientPlusRemainder(c / Pow2(j), Pow2(j), 0, Exp2(0 - j), 1.0);
    assert 0 as real * Exp2(0 - j) == 0.0;
  }

  // The ones below the leading bit, the two exponent bits, and the units bit, found by moving a
  // mask down the encoding.
  method FindUnits(ui: nat) returns (mask: nat, ghost k: nat, ghost e: nat, ghost f: int, ghost j: nat)
    requires 0x4A00_0000 < ui < 0x7E80_0000
    ensures k <= 5 && HasFields(ui, k, e, f, 27 - k) && 1 <= 4 * k + e && 1 <= j && 27 - k == 4 * k + e + j
    ensures mask == Pow2(j)
  {
    hide Pow2, HasFields;
    Pow2Words();
    PowersNear27();
    mask := 0x2000_0000;
    var scale := 0;
    k := 0;
    while ui / mask % 2 == 1
      invariant 0 <= k <= 5 && scale == 4 * k && mask == Pow2(29 - k)
      invariant 0x8000_0000 - Pow2(30 - k) <= ui
      decreases 5 - k
    {
      NextOne(ui, k);
      scale := scale + 4;
      k := k + 1;
      mask := mask / 2;
    }
    e, f := StopAtZero(ui, k);
    FieldBits(ui, k, e, f, 27 - k);
    FieldsRange(ui, k, e, f, 27 - k);
    HalveMask(29 - k);
    HalveMask(28 - k);
    mask := mask / 2;
    if ui / mask % 2 == 1 { scale := scale + 2; }
    mask := mask / 2;
    if ui / mask % 2 == 1 { scale := scale + 1; }
    j := UnitsBit(ui, k, e, f, scale);
    mask := mask / Pow2(scale);
  }

  lemma HalveMask(m: nat)
    requires m >= 1
    ensures Pow2(m) / 2 == Pow2(m - 1)
  {
  }

  lemma NextOne(ui: nat, k: nat)
    requires ui < 0x7E80_0000 && k <= 5 && 0x8000_0000 - Pow2(30 - k) <= ui && ui / Pow2(29 - k) % 2 == 1
    ensures k < 5 && 0x8000_0000 - Pow2(29 - k) <= ui && Pow2(29 - k) / 2 == Pow2(28 - k)
  {
    hide Pow2;
    Pow2Words();
    PowersNear27();
    HalveMask(29 - k);
    Pow2Double(29 - k);
    var r := ui - (0x8000_0000 - Pow2(30 - k));
    TopBit(ui, k, r);
    assert Pow2(25) == 2 * Pow2(24) by { Pow2Double(24); }
  }

  // Below k + 1 ones the next bit says whether the rest reaches it.
  lemma TopBit(ui: nat, k: nat, r: int)
    requires k <= 5 && r == ui - (0x8000_0000 - Pow2(30 - k)) && 0 <= r < Pow2(30 - k)
    ensures ui / Pow2(29 - k) % 2 == 1 <==> r >= Pow2(29 - k)
  {
    hide Pow2;
    Pow2Words();
    Pow2Add(30 - k, k + 1);
    Pow2Double(29 - k);
    var p, a := Pow2(29 - k), Pow2(k + 1) - 1;
    assert (2 * p) * (a + 1) == 0x8000_0000;
    if r >= p {
      DivModUnique(ui, p, 2 * a + 1, r - p);
    } else {
      DivModUnique(ui, p, 2 * a, r);
    }
  }

  lemma StopAtZero(ui: nat, k: nat) returns (e: nat, f: int)
    requires ui < 0x8000_0000 && k <= 5 && 0x8000_0000 - Pow2(30 - k) <= ui && ui / Pow2(29 - k) % 2 != 1
    ensures HasFields(ui, k, e, f, 27 - k)
  {
    hide Pow2;
    Pow2Double(27 - k);
    Pow2Double(28 - k);
    Pow2Double(29 - k);
    var r, p := ui - (0x8000_0000 - Pow2(30 - k)), Pow2(27 - k);
    TopBit(ui, k, r);
    DivMod(r, p);
    e, f := r / p, r % p;
    assert e < 4 by { if r / p >= 4 { MulLess(3, r / p, p); } }
  }

  lemma UnitsBit(ui: nat, k: nat, e: nat, f: int, scale: nat) returns (j: nat)
    requires 0x4A00_0000 < ui < 0x7E80_0000 && k <= 5 && HasFields(ui, k, e, f, 27 - k) && scale == 4 * k + e
    ensures 1 <= scale && 1 <= j && 27 - k == scale + j && Pow2(27 - k) / Pow2(scale) == Pow2(j)
  {
    hide Pow2;
    Pow2Words();
    PowersNear27();
    assert Pow2(25) == 8 * Pow2(22) by { Pow2Double(24); Pow2Double(23); Pow2Double(22); }
    assert 1 <= scale < 27 - k;
    j := 27 - k - scale;
    Pow2Add(j, scale);
    DivModUnique(Pow2(27 - k), Pow2(scale), Pow2(j), 0);
  }

  // From 2^22 on every posit is an integer.
  lemma LargeIsInteger(ui: nat)
    requires 0x7E80_0000 <= ui < 0x8000_0000
    ensures RoundsToInteger(Value32(ui), Value32(ui))
  {
    hide Value32, Num, Multiple, Exp2, Pow2, IsSplit, Hidden, NearestInt;
    Pow2Words();
    StartOnes(32, ui);
    var k, tmp := OnesSplit(32, ui, 0, ui * 4 % Pow2(32), ui);
    MagnitudeAsNum(ui, k, tmp);
    FractionIsMultiple(ui, k, tmp);
    HiddenBits(tmp);
    var s := 4 * k + tmp / 0x2000_0000;
    LargeScale(ui, s, Hidden(tmp));
    var i := WholeNum(s, Hidden(tmp), FractionSlack(k), 30);
    ItselfNearest(i);
    ToInteger(Value32(ui), Value32(ui), i);
  }

  lemma LargeScale(ui: nat, s: int, c: nat)
    requires 0x7E80_0000 <= ui < 0x8000_0000 && 0x4000_0000 <= c < 0x8000_0000
    requires Value32(ui) == Num(s, c, 30)
    ensures s >= 22
  {
    hide Num, Value32, Exp2, InCell, Pow2;
    Pow2Words();
    PowersNear27();
    assert Pow2(25) == 8 * Pow2(22) by { Pow2Double(24); Pow2Double(23); Pow2Double(22); }
    ValueOfCode(5, 2, 0, 0x7E80_0000);
    CellOfExact(22, 0, 22);
    CellBounds(Value32(0x7E80_0000), 22, 0, 22, false);
    CellOfExact(s, c - 0x4000_0000, 30);
    CellBounds(Value32(ui), s, c - 0x4000_0000, 30, false);
    Order32(0x7E80_0000, ui);
    if s < 22 {
      Exp2Mono(s + 1, 22);
    }
  }

  // A scaled number whose fraction bits are all zero.
  lemma WholeNum(s: int, c: int, z: nat, m: nat) returns (i: int)
    requires Multiple(c, z) && s + z >= m
    ensures Num(s, c, m) == i as real
  {
    hide Exp2, Pow2, Num;
    ScaleAway(s, c, m);
    MultipleIs(c, z);
    var q, t: nat := c / Pow2(z), s + z - m;
    Exp2Add(s - m, z);
    Exp2OfNat(z);
    Exp2OfNat(t);
    i := q * Pow2(t);
    assert c as real == q as real * Pow2(z) as real;
    assert i as real == q as real * Pow2(t) as real;
    Regroup(q as real, Pow2(z) as real, Exp2(s - m));
  }

  lemma ItselfNearest(i: int)
    ensures NearestInt(i as real, i)
  {
  }

  // ----- p32_roundToInt -----

  method RoundToInt(p: nat) returns (z: nat)
    requires Bits32(p)
    ensures p == NAR ==> z == NAR
    ensures Real32(p) ==> Real32(z) && RoundsToInteger(Value(p), Value(z))
    ensures Magnitude32(p) >= 0x7E80_0000 ==> z == p
  {
    hide Value, Value32, RoundsToInteger, Magnitude, NearestInt;
    var sign := p / 0x8000_0000 == 1;
    var uiA := if sign then Neg32(p) else p;
    var uZ: nat;
    if p == 0 {
      ZeroToInt();
      ToInteger(0.0, 0.0, 0);
      return 0;
    } else if uiA >= 0x7E80_0000 {
      if p != NAR {
        MagnitudeIs(p);
        ValueOfMagnitude(p);
        LargeIsInteger(uiA);
        IntegerNegated(Value32(uiA), Value32(uiA));
      }
      return p;
    }
    MagnitudeIs(p);
    ValueOfMagnitude(p);
    SmallCases(uiA);
    SmallIntegers();
    if uiA <= 0x3800_0000 {
      ZeroToInt();
      ToInteger(Value32(uiA), 0.0, 0);
      IntegerNegated(Value32(uiA), 0.0);
      return 0;
    } else if uiA < 0x4400_0000 {
      uZ := 0x4000_0000;
      ToInteger(Value32(uiA), 1.0, 1);
    } else if uiA <= 0x4A00_0000 {
      uZ := 0x4800_0000;
      ToInteger(Value32(uiA), 2.0, 2);
    } else {
      uZ := RoundEncoding(uiA);
    }
    IntegerNegated(Value32(uiA), Value32(uZ));
    SignedValue(uZ, sign);
    z := if sign then Neg32(uZ) else uZ;
  }

  function Magnitude32(p: nat): nat
    requires Bits32(p)
  {
    if p / 0x8000_0000 == 1 then Neg32(p) else p
  }

  method RoundEncoding(ui: nat) returns (uZ: nat)
    requires 0x4A00_0000 < ui < 0x7E80_0000
    ensures Pos32(uZ) && RoundsToInteger(Value32(ui), Value32(uZ))
  {
    hide RoundsToInteger, Value32, HasFields, Pow2, RoundAt;
    var mask, k, e, f, j := FindUnits(ui);
    RoundInPlace(ui, k, e, f, 27 - k, 4 * k + e, j);
    var bitLast := ui / mask % 2 == 1;
    HalveMask(j);
    var unit := mask;
    mask := mask / 2;
    var bitNPlusOne := ui / mask % 2 == 1;
    var bitsMore := ui % mask != 0;
    var u := ui - ui % unit;
    if bitNPlusOne {
      if bitLast || bitsMore { u := u + unit; }
    }
    RoundAtIs(ui, j, u);
    uZ := u;
  }

  lemma ToInteger(x: real, y: real, i: int)
    requires NearestInt(x, i) && y == i as real
    ensures RoundsToInteger(x, y)
  {
    assert IsRounded(x, y, i);
  }

  lemma IntegerNegated(x: real, y: real)
    requires RoundsToInteger(x, y)
    ensures RoundsToInteger(-x, -y)
  {
    hide NearestInt;
    var i: int :| IsRounded(x, y, i);
    NearestIntNegated(x, i);
    assert IsRounded(-x, -y, -i);
  }

  lemma SmallIntegers()
    ensures Value32(0x4000_0000) == 1.0 && Value32(0x4800_0000) == 2.0
  {
    hide ValPos, Exp2, Num, Value32;
    Pow2Words();
    PowersNear27();
    ValueOfCode(0, 0, 0, 0x4000_0000);
    ValueOfCode(0, 1, 0, 0x4800_0000);
    Exp2Steps();
    NumQuarters(0, 4);
    NumQuarters(1, 4);
  }

  // ----- The two codes agree -----

  // Rounding to int64 and back is rounding in place, for every posit in the range of int64.
  method RoundThroughInt64(p: nat) returns (viaInt64: nat, inPlace: nat)
    requires Real32(p) && -9223372036854775808.0 <= Value(p) <= 9223372036854775808.0
    ensures viaInt64 == inPlace
    ensures Real32(inPlace) && RoundsToInteger(Value(p), Value(inPlace))
  {
    hide Value, RoundsToInteger, Rounds32;
    var i := ToInt64(p);
    InInt64(p, i);
    viaInt64 := FromInt64(i);
    inPlace := RoundToInt(p);
    if Value(p) == 9223372036854775808.0 {
      AtTheTop(p);
    } else {
      NearestAtBottom(p, i);
      SameInteger(Value(p), i, Value(inPlace));
      Representable(inPlace);
      Rounds32Unique(i as real, viaInt64, inPlace);
    }
  }

  lemma SameInteger(x: real, i: int, y: real)
    requires NearestInt(x, i) && RoundsToInteger(x, y)
    ensures y == i as real
  {
    hide NearestInt;
    var i': int :| IsRounded(x, y, i');
    NearestIntUnique(x, i, i');
  }

  // The posit before 2^63 leaves room to round up.
  lemma BelowTop(u: nat)
    requires Pos32(u) && Value32(u) < 9223372036854775808.0
    ensures Value32(u) <= 9222246136947933184.0
  {
    hide ValPos, Num, Value32, Exp2;
    Pow2Words();
    Pow2At12();
    Threshold63();
    Order32(u, 0x7FFF_B000);
    Order32(u, 0x7FFF_AFFF);
    ValueOfCode(15, 2, 0xFFF, 0x7FFF_AFFF);
    ScaleAway(62, 0x1FFF, 12);
    Exp2At50();
  }

  lemma Exp2At50()
    ensures Exp2(50) == 1125899906842624.0
  {
    Pow2At12();
  }

  lemma InInt64(p: nat, i: int)
    requires Real32(p) && -9223372036854775808.0 <= Value(p) <= 9223372036854775808.0
    requires if Value(p) >= 9223372036854775808.0 then i == 0x7FFF_FFFF_FFFF_FFFF
      else if Value(p) <= -9223372036854775808.0 then i == -0x8000_0000_0000_0000
      else NearestInt(Value(p), i)
    ensures Int64(i)
  {
    hide Value, Value32, Magnitude;
    if p == 0 {
      ZeroToInt();
    } else {
      ValueOfMagnitude(p);
      if Value32(Magnitude(p)) < 9223372036854775808.0 {
        BelowTop(Magnitude(p));
      }
    }
  }

  lemma NearestAtBottom(p: nat, i: int)
    requires Real32(p) && Value(p) < 9223372036854775808.0
    requires if Value(p) <= -9223372036854775808.0 then i == -0x8000_0000_0000_0000 else NearestInt(Value(p), i)
    requires Value(p) >= -9223372036854775808.0
    ensures NearestInt(Value(p), i)
  {
    hide Value;
  }

  lemma AtTheTop(p: nat)
    requires Real32(p) && Value(p) == 9223372036854775808.0
    ensures p == 0x7FFF_B000
  {
    hide Value, Value32, Magnitude;
    if p == 0 {
      ZeroToInt();
    } else {
      Threshold63();
      ValueOfMagnitude(p);
      MagnitudeIs(p);
      Order32(Magnitude(p), 0x7FFF_B000);
    }
  }
}
