// p32_lt, the successor of an encoding, and what order-preserving rounding gives the kernels.
module P32Order {
  import opened Powers
  import opened Posit
  import opened PositRounding
  import opened P32Fields
  import opened ScaledNumbers
  import opened P32Mul
  import opened Int64ToP32
  import opened P32ToInt
  import opened Elements

  // The encoding as an int32_t.
  function AsInt32(u: nat): int {
    if u >= 0x8000_0000 then u - 0x1_0000_0000 else u
  }

  // p32_lt compares encodings as signed integers. On reals that is the order of their values,
  // and NaR is below all of them.
  predicate Lt(a: nat, b: nat)
    requires Bits32(a) && Bits32(b)
  {
    AsInt32(a) < AsInt32(b)
  }

  lemma LtIsLess(a: nat, b: nat)
    requires Bits32(a) && Bits32(b)
    ensures Real32(a) && Real32(b) ==> (Lt(a, b) <==> Value(a) < Value(b))
    ensures Real32(a) && Real32(b) ==> (a == b <==> Value(a) == Value(b))
    ensures a == NAR ==> (Lt(a, b) <==> b != NAR)
    ensures b == NAR ==> !Lt(a, b)
  {
    hide Value, Value32, Magnitude;
    ZeroToInt();
    if Real32(a) && Real32(b) {
      if a != 0 { ValueOfMagnitude(a); MagnitudeIs(a); }
      if b != 0 { ValueOfMagnitude(b); MagnitudeIs(b); }
      if a != 0 && b != 0 { Order32(Magnitude(a), Magnitude(b)); }
    }
  }

  lemma OneIsOne()
    ensures Real32(0x4000_0000) && Value(0x4000_0000) == 1.0
  {
    hide ValPos, Exp2, Pow2;
    Pow2Words();
    Pow2Small();
    OneFields();
  }

  lemma OneFields()
    ensures Positive(32, 0x4000_0000) && ValPos(32, 2, 0x4000_0000) == 1.0
  {
    hide Exp2, Pow2;
    Pow2Words();
    Pow2Small();
    Exp2Zero();
    var b, w := 0x4000_0000, 31;
    assert Ones(b - 0x4000_0000, 30) == 0;
    assert Ones(b, w) == 1;
    assert RestWidth(b, w) == 29 && Rest(b, w) == 0 && Regime(b, w) == 0;
    assert Exponent(2, b, w) == 0 && Scale(2, b, w) == 0;
  }

  // Adding one to an encoding gives the next larger value, whether the carry stays in the
  // fraction or runs through exponent and regime; nothing representable lies between.
  lemma NextEncodingIsNextValue(p: nat, c: nat)
    requires Real32(p) && p != MAXPOS && Real32(c)
    ensures var next := (p + 1) % 0x1_0000_0000;
      Real32(next) && Value(p) < Value(next) && !(Value(p) < Value(c) < Value(next))
  {
    hide Value;
    var next := (p + 1) % 0x1_0000_0000;
    LtIsLess(p, next);
    LtIsLess(p, c);
    LtIsLess(c, next);
  }

  // What unary minus makes of the value: flipping the sign bit mirrors the magnitude as well, so a
  // posit becomes the negative of the one whose encoding is as far from the other end of its half.
  lemma MinusMirrors(e: Elt)
    requires Real32(e.bits) && e.bits != 0
    ensures var z := Minus(e).bits;
      && Real32(z) && z != 0
      && (e.bits < 0x8000_0000 ==> Value(z) == -Value(0x8000_0000 - e.bits))
      && (e.bits > 0x8000_0000 ==> Value(z) == -Value(0x1_8000_0000 - e.bits))
  {
    hide Value, Value32, Magnitude;
    var p, z := e.bits, Minus(e).bits;
    var c: nat := if p < 0x8000_0000 then 0x8000_0000 - p else 0x1_8000_0000 - p;
    ValueOfMagnitude(z);
    ValueOfMagnitude(c);
    MagnitudeIs(z);
    MagnitudeIs(c);
  }

  // Flipping the sign bit, which the program's unary minus does, negates 1 and -1 only: the negative
  // of a posit is the two's complement of its encoding. So zero becomes NaR, and NaR zero.
  lemma MinusNegates(e: Elt)
    requires Bits32(e.bits)
    ensures var z := Minus(e).bits;
      Real32(e.bits) ==>
        ((Real32(z) && Value(z) == -Value(e.bits)) <==> (e.bits == 0x4000_0000 || e.bits == 0xC000_0000))
    ensures e == ZERO <==> Minus(e).bits == NAR
    ensures e.bits == NAR <==> Minus(e) == ZERO
  {
    hide Value, Lt;
    if e.bits != 0 && e.bits != NAR {
      MinusMirrors(e);
      LtIsLess(if e.bits < 0x8000_0000 then 0x8000_0000 - e.bits else 0x1_8000_0000 - e.bits, e.bits);
    }
  }

  // Every operation that rounds correctly keeps order: a larger exact result never gets the
  // smaller encoding.
  lemma RoundingKeepsOrder(x: real, p: nat, y: real, q: nat)
    requires Bits32(p) && Bits32(q) && Rounds32(x, p) && Rounds32(y, q) && x <= y
    ensures AsInt32(p) <= AsInt32(q)
  {
    hide RoundsPos;
    Pow2Words();
    if x != 0.0 { var r := RoundsPosTotal(32, 2, if x < 0.0 then -x else x); }
    if y != 0.0 { var r := RoundsPosTotal(32, 2, if y < 0.0 then -y else y); }
    if 0.0 < x {
      RoundsMonotone(32, 2, x, p, y, q);
    } else if y < 0.0 {
      RoundsMonotone(32, 2, -y, 0x1_0000_0000 - q, -x, 0x1_0000_0000 - p);
    }
  }

  // So the conversion of integers is monotone.
  method FromOrderedInt64(i: int, j: int) returns (z: nat, z': nat)
    requires Int64(i) && Int64(j) && i <= j
    ensures Bits32(z) && Bits32(z') && Rounds32(i as real, z) && Rounds32(j as real, z')
    ensures AsInt32(z) <= AsInt32(z')
  {
    hide Rounds32;
    z := FromInt64(i);
    z' := FromInt64(j);
    RoundingKeepsOrder(i as real, z, j as real, z');
  }

  // 2^60 * 2^59 is the product p32_mul gets wrong: the rounding of 2^119 is maxpos, so by the
  // contract of Mul it is not what Mul returns.
  lemma MulLosesSticky()
    ensures var a, b := 0x7FFF_8000, 0x7FFF_6000;
      Product(a, b) == Exp2(119) && LosesSticky(Product(a, b)) && Rounds32(Product(a, b), MAXPOS)
  {
    hide Exp2, Value, RoundsPos, Cut32;
    PowerValues();
    Exp2Add(60, 59);
    RoundsToMaxpos();
  }

  lemma PowerValues()
    ensures Value(0x7FFF_8000) == Exp2(60) && Value(0x7FFF_6000) == Exp2(59)
  {
    hide ValPos, Exp2, Num, Value32, Value, Pow2;
    Pow2Words();
    Pow2Double(14);
    Pow2Double(13);
    Pow2Double(12);
    ValueOfCode(15, 0, 0, 0x7FFF_8000);
    ValueOfCode(14, 3, 0, 0x7FFF_6000);
    PowerNum(60, 12);
    PowerNum(59, 13);
    ValueOfMagnitude(0x7FFF_8000);
    ValueOfMagnitude(0x7FFF_6000);
  }

  lemma RoundsToMaxpos()
    ensures Rounds32(Exp2(119), MAXPOS)
  {
    hide Exp2, Num, RoundsPos, Cut32, InCell, Pow2;
    Pow2Words();
    ScaleOf2(29, 3);
    PowerNum(119, 60);
    CellOfExact(119, 0, 60);
    CutRounds(Exp2(119), 29, 3, 0, 60, false);
    LostStickyBits();
  }

  lemma PowerNum(s: int, m: nat)
    ensures Num(s, Pow2(m), m) == Exp2(s)
  {
    hide Exp2, Pow2;
    NumWithHidden(s, 0, m);
    assert 0 as real * Exp2(0 - m) == 0.0;
  }
}
