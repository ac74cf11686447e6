// Encodings in order: the position of an encoding on the regime axis, and why the order of
// encodings is the order of values.
module PositOrder {
  import opened Powers
  import opened Posit

  // The regime plus the rest read as a binary fraction.
  ghost function Pos(b: nat, w: nat): real {
    Regime(b, w) as real + Rest(b, w) as real * Exp2(0 - RestWidth(b, w))
  }

  // ----- Pos, one regime bit at a time -----

  lemma PosStripOne(b: nat, w: nat)
    requires w >= 2 && Pow2(w - 1) + Pow2(w - 2) <= b < Pow2(w)
    ensures Pow2(w - 2) <= b - Pow2(w - 1) < Pow2(w - 1)
    ensures Pos(b, w) == 1.0 + Pos(b - Pow2(w - 1), w - 1)
  {
    LowBits(b - Pow2(w - 1), w - 1, RestWidth(b, w));
  }

  lemma PosStripZero(b: nat, w: nat)
    requires w >= 2 && 0 < b < Pow2(w - 2)
    ensures Pos(b, w) == Pos(b, w - 1) - 1.0
  {
  }

  lemma FieldsTerminatedOne(t: nat, w: nat)
    requires w >= 2 && t < Pow2(w - 2)
    ensures var b := Pow2(w - 1) + t; Regime(b, w) == 0 && RestWidth(b, w) == w - 2 && Rest(b, w) == t
  {
    assert Ones(Pow2(w - 1) + t, w) == 1 + Ones(t, w - 1) == 1;
    LowBits(t, w - 1, w - 2);
    DivModUnique(t, Pow2(w - 2), 0, t);
  }

  lemma FieldsTerminatedZero(t: nat, w: nat)
    requires w >= 2 && t < Pow2(w - 2)
    ensures var b := Pow2(w - 2) + t; Regime(b, w) == -1 && RestWidth(b, w) == w - 2 && Rest(b, w) == t
  {
    var b := Pow2(w - 2) + t;
    assert Zeros(b, w) == 1 + Zeros(b, w - 1) == 1;
    LowBits(t, w - 2, w - 2);
    DivModUnique(t, Pow2(w - 2), 0, t);
  }

  lemma PosOneBit()
    ensures Pos(1, 1) == 0.0
  {
    assert Ones(1, 1) == 1 + Ones(0, 0) == 1;
  }

  // The four shapes of the first two bits.
  datatype Shape = TwoOnes | OneZero | ZeroOne | TwoZeros

  function ShapeOf(b: nat, w: nat): Shape
    requires w >= 2
  {
    if b >= Pow2(w - 1) + Pow2(w - 2) then TwoOnes
    else if b >= Pow2(w - 1) then OneZero
    else if b >= Pow2(w - 2) then ZeroOne
    else TwoZeros
  }

  lemma PosByShape(b: nat, w: nat)
    requires w >= 2 && 0 < b < Pow2(w)
    ensures match ShapeOf(b, w)
      case TwoOnes => Pos(b, w) == 1.0 + Pos(b - Pow2(w - 1), w - 1)
      case OneZero => Pos(b, w) == (b - Pow2(w - 1)) as real * Exp2(0 - (w - 2))
      case ZeroOne => Pos(b, w) == (b - Pow2(w - 2)) as real * Exp2(0 - (w - 2)) - 1.0
      case TwoZeros => Pos(b, w) == Pos(b, w - 1) - 1.0
  {
    hide Exp2, Regime, RestWidth, Rest;
    match ShapeOf(b, w)
    case TwoOnes => PosStripOne(b, w);
    case OneZero => FieldsTerminatedOne(b - Pow2(w - 1), w);
    case ZeroOne => FieldsTerminatedZero(b - Pow2(w - 2), w);
    case TwoZeros => PosStripZero(b, w);
  }

  // ----- Pos is strictly monotone -----

  lemma {:induction false} PosSign(b: nat, w: nat)
    requires 0 < b < Pow2(w)
    ensures b < Pow2(w - 1) ==> Pos(b, w) < 0.0
    ensures b >= Pow2(w - 1) ==> Pos(b, w) >= 0.0
  {
    if w == 1 {
      SignOfOneBit(b);
    } else {
      hide Pos, Exp2, Pow2;
      Pow2Double(w - 1);
      Pow2Double(w - 2);
      match ShapeOf(b, w)
      case TwoOnes =>
        PosByShape(b, w);
        PosSign(b - Pow2(w - 1), w - 1);
      case OneZero => TerminatedSign(b, w);
      case ZeroOne => TerminatedSign(b, w);
      case TwoZeros =>
        PosByShape(b, w);
        PosSign(b, w - 1);
    }
  }

  lemma SignOfOneBit(b: nat)
    requires 0 < b < Pow2(1)
    ensures b >= Pow2(0) && Pos(b, 1) >= 0.0
  {
    hide Pos, Exp2;
    PosOneBit();
  }

  // An encoding whose regime ends at once is a fraction, or one less.
  lemma PosTerminated(b: nat, w: nat) returns (r: nat)
    requires w >= 2 && 0 < b < Pow2(w) && (ShapeOf(b, w).OneZero? || ShapeOf(b, w).ZeroOne?)
    ensures r < Pow2(w - 2) && r == b - if ShapeOf(b, w).OneZero? then Pow2(w - 1) else Pow2(w - 2)
    ensures ShapeOf(b, w).OneZero? ==> Pos(b, w) == FractionOf(r, w - 2)
    ensures ShapeOf(b, w).ZeroOne? ==> Pos(b, w) == FractionOf(r, w - 2) - 1.0
  {
    hide Pos, Exp2, Pow2;
    Pow2Double(w - 2);
    PosByShape(b, w);
    r := b - (if ShapeOf(b, w).OneZero? then Pow2(w - 1) else Pow2(w - 2));
  }

  ghost function FractionOf(r: nat, k: nat): real {
    r as real * Exp2(0 - k)
  }

  lemma TerminatedSign(b: nat, w: nat)
    requires w >= 2 && 0 < b < Pow2(w) && (ShapeOf(b, w).OneZero? || ShapeOf(b, w).ZeroOne?)
    ensures if ShapeOf(b, w).OneZero? then Pos(b, w) >= 0.0 else Pos(b, w) < 0.0
  {
    hide *;
    var r := PosTerminated(b, w);
    FractionInUnit(r, w - 2);
  }

  lemma FractionInUnit(a: nat, k: nat)
    requires a < Pow2(k)
    ensures 0.0 <= FractionOf(a, k) < 1.0
  {
    hide Exp2, Pow2;
    Exp2OfNat(k);
    BelowScaled(a, Pow2(k), Exp2(0 - k), 1.0);
  }

  lemma BelowScaled(a: nat, p: nat, s: real, one: real)
    requires a < p && s > 0.0 && s * p as real == one
    ensures 0.0 <= a as real * s < one
  {
    MulLt(s, a as real, p as real);
  }

  lemma FractionNext(r: nat, k: nat)
    ensures FractionOf(r, k) < FractionOf(r + 1, k)
  {
    hide Exp2;
    MulLt(Exp2(0 - k), r as real, (r + 1) as real);
  }

  lemma NextTerminated(b: nat, w: nat)
    requires w >= 2 && 0 < b && b + 1 < Pow2(w) && ShapeOf(b, w) == ShapeOf(b + 1, w)
    requires ShapeOf(b, w).OneZero? || ShapeOf(b, w).ZeroOne?
    ensures Pos(b, w) < Pos(b + 1, w)
  {
    hide Pos, FractionOf, Pow2;
    var r := PosTerminated(b, w);
    var r' := PosTerminated(b + 1, w);
    FractionNext(r, w - 2);
  }

  lemma NextShape(b: nat, w: nat)
    requires w >= 2 && 0 < b && b + 1 < Pow2(w) && ShapeOf(b, w) != ShapeOf(b + 1, w)
    ensures Pos(b, w) < Pos(b + 1, w)
  {
    hide Pos, FractionOf, Pow2;
    Pow2Double(w - 1);
    Pow2Double(w - 2);
    match ShapeOf(b, w)
    case OneZero =>
      var r := PosTerminated(b, w);
      FractionInUnit(r, w - 2);
      PosByShape(b + 1, w);
      PosSign(b + 1 - Pow2(w - 1), w - 1);
    case ZeroOne =>
      PosSign(b, w);
      PosSign(b + 1, w);
    case TwoZeros =>
      PosByShape(b, w);
      PosSign(b, w - 1);
      var r := PosTerminated(b + 1, w);
      FractionInUnit(r, w - 2);
  }

  lemma {:induction false} PosNext(b: nat, w: nat)
    requires 0 < b && b + 1 < Pow2(w)
    ensures Pos(b, w) < Pos(b + 1, w)
  {
    hide Pos, Exp2, FractionOf, Pow2;
    WidthOfTwo(b, w);
    if ShapeOf(b, w) != ShapeOf(b + 1, w) {
      NextShape(b, w);
    } else {
      Pow2Double(w - 1);
      Pow2Double(w - 2);
      match ShapeOf(b, w)
      case TwoOnes =>
        PosByShape(b, w);
        PosByShape(b + 1, w);
        PosNext(b - Pow2(w - 1), w - 1);
      case OneZero => NextTerminated(b, w);
      case ZeroOne => NextTerminated(b, w);
      case TwoZeros =>
        PosByShape(b, w);
        PosByShape(b + 1, w);
        PosNext(b, w - 1);
    }
  }

  lemma WidthOfTwo(b: nat, w: nat)
    requires 0 < b && b + 1 < Pow2(w)
    ensures w >= 2
  {
    assert Pow2(0) == 1 && Pow2(1) == 2;
  }

  lemma {:induction false} PosMono(a: nat, b: nat, w: nat)
    requires 0 < a < b < Pow2(w)
    ensures Pos(a, w) < Pos(b, w)
    decreases b
  {
    hide Pos;
    PosNext(b - 1, w);
    if a < b - 1 { PosMono(a, b - 1, w); }
  }

  // Appending a zero bit does not move an encoding.
  lemma {:induction false} PosAppendZero(b: nat, w: nat)
    requires 0 < b < Pow2(w)
    ensures Pos(2 * b, w + 1) == Pos(b, w)
  {
    if w == 1 {
      PosAppendOne(b);
    } else {
      hide Pos, Exp2, Pow2;
      Pow2Double(w - 1);
      Pow2Double(w - 2);
      match ShapeOf(b, w)
      case TwoOnes =>
        ShapeDoubles(b, w);
        PosByShape(2 * b, w + 1);
        PosByShape(b, w);
        PosAppendZero(b - Pow2(w - 1), w - 1);
      case OneZero => AppendTerminated(b, w);
      case ZeroOne => AppendTerminated(b, w);
      case TwoZeros =>
        ShapeDoubles(b, w);
        PosByShape(2 * b, w + 1);
        PosByShape(b, w);
        PosAppendZero(b, w - 1);
    }
  }

  lemma ShapeDoubles(b: nat, w: nat)
    requires w >= 2 && 0 < b < Pow2(w)
    ensures 2 * b < Pow2(w + 1) && ShapeOf(2 * b, w + 1) == ShapeOf(b, w)
  {
    hide Pow2;
    Pow2Double(w - 1);
    Pow2Double(w - 2);
    Pow2Double(w);
  }

  lemma AppendTerminated(b: nat, w: nat)
    requires w >= 2 && 0 < b < Pow2(w) && (ShapeOf(b, w).OneZero? || ShapeOf(b, w).ZeroOne?)
    ensures Pos(2 * b, w + 1) == Pos(b, w)
  {
    hide Pos, Exp2, Pow2;
    ShapeDoubles(b, w);
    Pow2Double(w - 1);
    Pow2Double(w - 2);
    PosByShape(2 * b, w + 1);
    PosByShape(b, w);
    Exp2Step(0 - (w - 1));
    var top := if ShapeOf(b, w).OneZero? then Pow2(w - 1) else Pow2(w - 2);
    TwiceHalf(b - top, Exp2(0 - (w - 1)), Exp2(0 - (w - 2)));
  }

  lemma PosAppendOne(b: nat)
    requires 0 < b < Pow2(1)
    ensures Pos(2 * b, 2) == Pos(b, 1)
  {
    hide Pos, Exp2;
    PosByShape(2 * b, 2);
    PosOneBit();
  }

  lemma TwiceHalf(x: int, s: real, t: real)
    requires t == 2.0 * s
    ensures (2 * x) as real * s == x as real * t
  {
  }

  // ----- Composing an encoding from its fields -----

  // The number of identical regime bits that encode the regime k.
  function RunOf(k: int): (r: nat)
    ensures r > 0
  {
    if k < 0 then -k else k + 1
  }

  // The regime bits and the terminating bit, in place above a rest of w - 1 - RunOf(k) bits.
  function RegimeBits(k: int, w: nat): (r: nat)
    requires RunOf(k) < w
  {
    if k < 0 then Pow2(w - 1 - RunOf(k))
    else Pow2Mono(w - RunOf(k), w); Pow2(w) - Pow2(w - RunOf(k))
  }

  // Peeling one regime bit off leaves the regime bits of the neighbouring regime.
  lemma RegimeBitsPeel(k: int, m: nat)
    ensures var w := RunOf(k) + 1 + m;
      if k > 0 then
        && RegimeBits(k, w) == Pow2(w - 1) + RegimeBits(k - 1, w - 1)
        && RegimeBits(k - 1, w - 1) >= Pow2(w - 2)
      else if k == 0 then RegimeBits(k, w) == Pow2(w - 1)
      else RegimeBits(k, w) == Pow2(m)
  {
    var w := RunOf(k) + 1 + m;
    if k > 0 {
      Pow2Mono(w - RunOf(k), w - 2);
    }
  }

  lemma {:induction false} PosOfFields(k: int, t: nat, m: nat)
    requires t < Pow2(m)
    ensures var w := RunOf(k) + 1 + m;
      && 0 < RegimeBits(k, w) + t < Pow2(w)
      && Pos(RegimeBits(k, w) + t, w) == k as real + t as real * Exp2(0 - m)
    decreases if k < 0 then -k else k
  {
    hide Pos, Exp2, RegimeBits, Pow2;
    if k == 0 || k == -1 {
      PosOfFirst(k, t, m);
    } else if k > 0 {
      PosOfFields(k - 1, t, m);
      PosOfMoreOnes(k, t, m);
    } else {
      PosOfFields(k + 1, t, m);
      PosOfMoreZeros(k, t, m);
    }
  }

  lemma PosOfFirst(k: int, t: nat, m: nat)
    requires t < Pow2(m) && (k == 0 || k == -1)
    ensures var w := RunOf(k) + 1 + m;
      && 0 < RegimeBits(k, w) + t < Pow2(w)
      && Pos(RegimeBits(k, w) + t, w) == k as real + t as real * Exp2(0 - m)
  {
    hide Pos, Exp2, RegimeBits;
    RegimeBitsPeel(k, m);
    PosByShape(RegimeBits(k, m + 2) + t, m + 2);
  }

  // One more regime bit moves the position by one.
  lemma PosOfMoreOnes(k: int, t: nat, m: nat)
    requires t < Pow2(m) && k > 0
    ensures var w, b := RunOf(k) + m, RegimeBits(k - 1, RunOf(k) + m) + t;
      0 < b < Pow2(w) ==>
        0 < RegimeBits(k, w + 1) + t < Pow2(w + 1) && Pos(RegimeBits(k, w + 1) + t, w + 1) == 1.0 + Pos(b, w)
  {
    hide Pos, Exp2, RegimeBits;
    var w := RunOf(k) + m;
    RegimeBitsPeel(k, m);
    if 0 < RegimeBits(k - 1, w) + t < Pow2(w) {
      PosByShape(RegimeBits(k, w + 1) + t, w + 1);
    }
  }

  lemma PosOfMoreZeros(k: int, t: nat, m: nat)
    requires t < Pow2(m) && k < -1
    ensures var w, b := RunOf(k) + m, RegimeBits(k + 1, RunOf(k) + m) + t;
      0 < b < Pow2(w) ==>
        0 < RegimeBits(k, w + 1) + t < Pow2(w + 1) && Pos(RegimeBits(k, w + 1) + t, w + 1) == Pos(b, w) - 1.0
  {
    hide Pos, Exp2, RegimeBits;
    var w := RunOf(k) + m;
    RegimeBitsPeel(k, m);
    RegimeBitsPeel(k + 1, m);
    Pow2Mono(m + 1, w - 1);
    if 0 < RegimeBits(k + 1, w) + t < Pow2(w) {
      PosByShape(RegimeBits(k, w + 1) + t, w + 1);
    }
  }
}
