// Values of encodings: order, appended zeros, and the value a composed encoding has.
module PositValue {
  import opened Powers
  import opened Posit
  import opened PositOrder

  // A divided number, as quotient plus scaled remainder.
  lemma QuotientPlusRemainder(q: int, d: nat, r: int, s: real, one: real)
    requires 0 <= r < d && s > 0.0 && s * d as real == one
    ensures 0.0 <= r as real * s < one
    ensures q as real * one + r as real * s == (q * d + r) as real * s
  {
    MulSign(s, r as real);
    MulLt(s, r as real, d as real);
    assert (q * d) as real == q as real * d as real;
    Regroup(q as real, d as real, s);
  }

  lemma ScaleAndFraction(es: nat, b: nat, w: nat)
    ensures 0.0 <= Fraction(es, b, w) < 1.0
    ensures Scale(es, b, w) as real + Fraction(es, b, w) == Pow2(es) as real * Pos(b, w)
  {
    hide Rest, RestWidth, Regime, Exp2, Pow2;
    var r: nat, m: nat, u: nat := Rest(b, w), RestWidth(b, w), Pow2(es);
    Exp2OfNat(m);
    assert r * u >= 0;
    DivMod(r * u, Pow2(m));
    QuotientPlusRemainder(r * u / Pow2(m), Pow2(m), r * u % Pow2(m), Exp2(0 - m), 1.0);
    Spread(u, Regime(b, w), r, Exp2(0 - m));
  }

  lemma Spread(u: int, k: int, r: int, s: real)
    ensures (u * k) as real + (r * u) as real * s == u as real * (k as real + r as real * s)
  {
    assert (r * u) as real == r as real * u as real && (u * k) as real == u as real * k as real;
    Regroup(u as real, r as real, s);
  }

  // (s, f) |-> Exp2(s) * (1 + f) follows the order of s + f.
  lemma CompareScaled(s: int, f: real, s': int, f': real)
    requires 0.0 <= f < 1.0 && 0.0 <= f' < 1.0
    requires s as real + f < s' as real + f'
    ensures Exp2(s) * (1.0 + f) < Exp2(s') * (1.0 + f')
  {
    hide *;
    Exp2Mono(s, s');
    if s == s' {
      MulLt(Exp2(s), 1.0 + f, 1.0 + f');
    } else {
      NextBinade(Exp2(s), 1.0 + f, Exp2(s'), 1.0 + f');
    }
  }

  lemma NextBinade(c: real, x: real, c': real, y: real)
    requires 0.0 < c && 2.0 * c <= c' && x < 2.0 && 1.0 <= y
    ensures c * x < c' * y
  {
    MulLt(c, x, 2.0);
    MulLe(c', 1.0, y);
  }

  // The value of an encoding is fixed by its position.
  lemma ValAt(n: nat, es: nat, b: nat, s: int, f: real)
    requires Positive(n, b) && 0.0 <= f < 1.0
    requires s as real + f == Pow2(es) as real * Pos(b, n - 1)
    ensures ValPos(n, es, b) == Exp2(s) * (1.0 + f)
  {
    hide Pos, Scale, Fraction, Exp2;
    ScaleAndFraction(es, b, n - 1);
    assert s == Scale(es, b, n - 1) && f == Fraction(es, b, n - 1);
  }

  lemma SameValue(n: nat, es: nat, b: nat, n': nat, b': nat)
    requires Positive(n, b) && Positive(n', b') && Pos(b, n - 1) == Pos(b', n' - 1)
    ensures ValPos(n, es, b) == ValPos(n', es, b')
  {
    hide Pos, Scale, Fraction, Exp2;
    ScaleAndFraction(es, b', n' - 1);
    ValAt(n, es, b, Scale(es, b', n' - 1), Fraction(es, b', n' - 1));
  }

  lemma ScaledLess(c: real, x: real, y: real, cx: real, cy: real)
    requires c > 0.0 && x < y && cx == c * x && cy == c * y
    ensures cx < cy
  {
    MulLt(c, x, y);
  }

  lemma SmallerValue(n: nat, es: nat, a: nat, b: nat)
    requires Positive(n, a) && Positive(n, b) && Pos(a, n - 1) < Pos(b, n - 1)
    ensures ValPos(n, es, a) < ValPos(n, es, b)
  {
    hide Pos, Scale, Fraction, Exp2, Pow2;
    ScaleAndFraction(es, a, n - 1);
    ScaleAndFraction(es, b, n - 1);
    ScaledLess(Pow2(es) as real, Pos(a, n - 1), Pos(b, n - 1),
               Scale(es, a, n - 1) as real + Fraction(es, a, n - 1),
               Scale(es, b, n - 1) as real + Fraction(es, b, n - 1));
    CompareScaled(Scale(es, a, n - 1), Fraction(es, a, n - 1), Scale(es, b, n - 1), Fraction(es, b, n - 1));
  }

  lemma ValPosOrder(n: nat, es: nat, a: nat, b: nat)
    requires Positive(n, a) && Positive(n, b)
    ensures a < b <==> ValPos(n, es, a) < ValPos(n, es, b)
    ensures a == b <==> ValPos(n, es, a) == ValPos(n, es, b)
  {
    hide Pos, ValPos;
    if a < b {
      PosMono(a, b, n - 1);
      SmallerValue(n, es, a, b);
    } else if b < a {
      PosMono(b, a, n - 1);
      SmallerValue(n, es, b, a);
    }
  }

  // A longer posit whose extra bits are 0 has the same value.
  lemma {:induction false} AppendZeros(n: nat, es: nat, b: nat, j: nat)
    requires Positive(n, b)
    ensures Positive(n + j, b * Pow2(j))
    ensures ValPos(n + j, es, b * Pow2(j)) == ValPos(n, es, b)
    decreases j
  {
    hide Pos, ValPos;
    if j > 0 {
      AppendZeros(n, es, b, j - 1);
      var c := b * Pow2(j - 1);
      assert 2 * c == b * Pow2(j);
      PosAppendZero(c, n + j - 2);
      SameValue(n + j, es, 2 * c, n + j - 1, c);
    }
  }

  // The power of two that regime k and exponent e stand for.
  function ScaleOf(es: nat, k: int, e: nat): int {
    Pow2(es) * k + e
  }

  // Exponent and fraction as one number.
  function Tail(e: nat, f: nat, m: nat): nat {
    e * Pow2(m) + f
  }

  // Regime k, exponent e and fraction f / 2^m, written one after the other, have the value the
  // fields say.
  lemma ValOfFields(es: nat, k: int, e: nat, f: nat, m: nat)
    requires e < Pow2(es) && f < Pow2(m)
    ensures var n, t := RunOf(k) + 2 + es + m, Tail(e, f, m);
      && t < Pow2(es + m)
      && Positive(n, RegimeBits(k, n - 1) + t)
      && ValPos(n, es, RegimeBits(k, n - 1) + t) == Exp2(ScaleOf(es, k, e)) * (1.0 + f as real * Exp2(0 - m))
  {
    hide *;
    var n, t := RunOf(k) + 2 + es + m, Tail(e, f, m);
    TailFits(e, f, es, m);
    PosOfFields(k, t, es + m);
    IsPositive(n, RegimeBits(k, n - 1) + t);
    var g := f as real * Exp2(0 - m);
    Exp2OfNat(m);
    QuotientPlusRemainder(0, Pow2(m), f, Exp2(0 - m), 1.0);
    RestInUnits(es, e, f, m);
    PlaceFields(es, k, e, t as real * Exp2(0 - (es + m)), g);
    ValAt(n, es, RegimeBits(k, n - 1) + t, ScaleOf(es, k, e), g);
  }

  lemma IsPositive(n: nat, b: int)
    requires n >= 2 && 0 < b < Pow2(n - 1)
    ensures Positive(n, b)
  {
  }

  lemma PlaceFields(es: nat, k: int, e: nat, r: real, g: real)
    requires Pow2(es) as real * r == e as real + g
    ensures ScaleOf(es, k, e) as real + g == Pow2(es) as real * (k as real + r)
  {
    hide Pow2;
    assert (Pow2(es) * k) as real == Pow2(es) as real * k as real;
  }

  lemma TailFits(e: nat, f: nat, es: nat, m: nat)
    requires e < Pow2(es) && f < Pow2(m)
    ensures Tail(e, f, m) < Pow2(es + m)
  {
    Pow2Add(es, m);
    MulLess(e, Pow2(es), Pow2(m));
  }

  lemma MulLess(a: int, b: int, c: int)
    requires a < b && c > 0
    ensures a * c + c <= b * c
  {
    MulNat(b - a - 1, c);
    assert b * c == (b - a - 1) * c + (a * c + c);
  }

  lemma RestInUnits(es: nat, e: nat, f: nat, m: nat)
    ensures Pow2(es) as real * (Tail(e, f, m) as real * Exp2(0 - (es + m))) == e as real + f as real * Exp2(0 - m)
  {
    hide *;
    Exp2Add(es, 0 - (es + m));
    Exp2OfNat(es);
    Exp2OfNat(m);
    var u, p, s, q := Pow2(es) as real, Pow2(m) as real, Exp2(0 - (es + m)), Exp2(0 - m);
    assert es + (0 - (es + m)) == 0 - m;
    assert u * s == q && q * p == 1.0;
    UnitsAlgebra(u, s, q, p, e as real, f as real);
    TailAsReal(e, f, m);
  }

  lemma TailAsReal(e: nat, f: nat, m: nat)
    ensures Tail(e, f, m) as real == e as real * Pow2(m) as real + f as real
  {
    hide Pow2;
  }

  lemma UnitsAlgebra(u: real, s: real, q: real, p: real, e: real, f: real)
    requires u * s == q && q * p == 1.0
    ensures u * ((e * p + f) * s) == e + f * q
  {
    assert u * ((e * p + f) * s) == (e * p + f) * (u * s);
    assert (e * p + f) * q == e * (q * p) + f * q;
  }
}
