// Exact numbers the kernels compute with: a power of two times a fixed-point fraction.
module ScaledNumbers {
  import opened Powers
  import opened Posit
  import opened PositOrder
  import opened PositValue
  import opened PositRounding
  import opened RegimeSplit
  import opened P32Fields

  // 2^s * f / 2^m
  ghost function Num(s: int, f: int, m: nat): real {
    Exp2(s) * (f as real * Exp2(0 - m))
  }

  lemma NumPositive(s: int, f: int, m: nat)
    requires f > 0
    ensures Num(s, f, m) > 0.0
  {
    hide Exp2;
    assert f as real * Exp2(0 - m) > 0.0;
  }

  lemma NumTimes(s: int, f: int, m: nat, s': int, f': int, m': nat)
    ensures Num(s, f, m) * Num(s', f', m') == Num(s + s', f * f', m + m')
  {
    hide Exp2;
    Exp2Add(s, s');
    Exp2Add(0 - m, 0 - m');
    assert (f * f') as real == f as real * f' as real;
    FourFactors(Exp2(s), f as real, Exp2(0 - m), Exp2(s'), f' as real, Exp2(0 - m'));
  }

  lemma FourFactors(a: real, f: real, u: real, b: real, g: real, v: real)
    ensures (a * (f * u)) * (b * (g * v)) == (a * b) * ((f * g) * (u * v))
  {
    Regroup(a, f * u, b * (g * v));
    Regroup(f * u, b, g * v);
    Regroup(f, g, u * v);
    assert (f * u) * (g * v) == (f * g) * (u * v) by {
      Regroup(f, u, g * v);
      Regroup(u, g, v);
      Regroup(g, u, v);
    }
    Regroup(a, b, (f * u) * (g * v));
    Regroup(b, f * u, g * v);
  }

  lemma NumHalved(s: int, f: int, m: nat)
    ensures Num(s, 2 * f, m) == Num(s + 1, f, m)
  {
    hide Exp2;
    Exp2Step(s);
    Regroup(2.0, Exp2(s), f as real * Exp2(0 - m));
    assert (2 * f) as real * Exp2(0 - m) == 2.0 * (f as real * Exp2(0 - m));
  }

  lemma NumFiner(s: int, f: int, m: nat)
    ensures Num(s, f, m) == Num(s, 2 * f, m + 1)
  {
    hide Exp2;
    Exp2Step(0 - (m + 1));
    assert (2 * f) as real * Exp2(0 - (m + 1)) == f as real * (2.0 * Exp2(0 - (m + 1)));
  }

  lemma {:induction false} NumShifted(s: int, f: int, m: nat, j: nat)
    ensures Num(s, f, m) == Num(s, f * Pow2(j), m + j)
    decreases j
  {
    hide Num, Exp2;
    if j > 0 {
      NumShifted(s, f, m, j - 1);
      NumFiner(s, f * Pow2(j - 1), m + j - 1);
      assert 2 * (f * Pow2(j - 1)) == f * Pow2(j);
    }
  }

  lemma NumMono(s: int, f: int, f': int, m: nat)
    requires f < f'
    ensures Num(s, f, m) < Num(s, f', m)
  {
    hide Exp2;
    MulLt(Exp2(0 - m), f as real, f' as real);
    MulLt(Exp2(s), f as real * Exp2(0 - m), f' as real * Exp2(0 - m));
  }

  // With the hidden bit in place the number is one of a cell.
  lemma NumWithHidden(s: int, f: nat, m: nat)
    ensures Num(s, Pow2(m) + f, m) == Exp2(s) * (1.0 + f as real * Exp2(0 - m))
  {
    hide Exp2, Pow2;
    Exp2OfNat(m);
    assert (Pow2(m) + f) as real * Exp2(0 - m) == Exp2(0 - m) * Pow2(m) as real + f as real * Exp2(0 - m);
  }

  lemma CellOf(x: real, s: int, f: nat, m: nat, sticky: bool)
    requires Num(s, Pow2(m) + f, m) <= x < Num(s, Pow2(m) + f + 1, m)
    requires sticky <==> x != Num(s, Pow2(m) + f, m)
    ensures InCell(x, s, f, m, sticky)
  {
    hide Num, Exp2, Pow2;
    NumWithHidden(s, f, m);
    NumWithHidden(s, f + 1, m);
  }

  lemma CellOfExact(s: int, f: nat, m: nat)
    ensures InCell(Num(s, Pow2(m) + f, m), s, f, m, false)
  {
    hide Num, Exp2, Pow2;
    NumMono(s, Pow2(m) + f, Pow2(m) + f + 1, m);
    CellOf(Num(s, Pow2(m) + f, m), s, f, m, false);
  }

  // ((tmp << 1) | 0x40000000) & 0x7FFFFFFF: the hidden bit above 30 fraction bits.
  function Hidden(tmp: nat): nat {
    0x4000_0000 + tmp * 2 % 0x4000_0000
  }

  lemma ScaleOf2(k: int, e: int)
    requires e >= 0
    ensures ScaleOf(2, k, e) == 4 * k + e
  {
    Pow2Small();
  }

  lemma HiddenBits(tmp: nat)
    ensures Hidden(tmp) == 0x4000_0000 + 2 * (tmp % 0x2000_0000)
    ensures 0x4000_0000 <= Hidden(tmp) < 0x8000_0000
  {
  }

  lemma MagnitudeAsNum(ui: nat, k: int, tmp: nat)
    requires Pos32(ui) && IsSplit(32, ui, k, tmp)
    ensures tmp / 0x2000_0000 < 4
    ensures Value32(ui) == Num(4 * k + tmp / 0x2000_0000, Hidden(tmp), 30)
  {
    hide IsSplit, Num, Exp2, ValPos, Pow2;
    Pow2Words();
    Pow2Small();
    ValueFromSplit(32, 2, ui, k, tmp);
    ScaleOf2(k, tmp / 0x2000_0000);
    HiddenBits(tmp);
    NumWithHidden(4 * k + tmp / 0x2000_0000, tmp % 0x2000_0000, 29);
    NumFiner(4 * k + tmp / 0x2000_0000, 0x2000_0000 + tmp % 0x2000_0000, 29);
  }

  // How many low bits of the fraction with hidden bit are surely zero after reading regime k.
  function FractionSlack(k: int): (s: nat)
    ensures 3 <= s <= 30
  {
    if Slack(k) + 1 < 30 then Slack(k) + 1 else 30
  }

  predicate Multiple(x: int, j: nat) {
    x % Pow2(j) == 0
  }

  lemma MultipleIs(x: int, j: nat)
    requires Multiple(x, j)
    ensures x == x / Pow2(j) * Pow2(j)
  {
  }

  lemma MultipleTimes(x: int, a: nat, y: int, b: nat)
    requires Multiple(x, a) && Multiple(y, b)
    ensures Multiple(x * y, a + b)
  {
    hide Pow2;
    var p, q := x / Pow2(a), y / Pow2(b);
    DivMod(x, Pow2(a));
    DivMod(y, Pow2(b));
    Pow2Add(a, b);
    assert (p * Pow2(a)) * (q * Pow2(b)) == (p * q) * (Pow2(a) * Pow2(b));
    DivModUnique(x * y, Pow2(a + b), p * q, 0);
  }

  lemma MultipleOfFewer(x: int, a: nat, b: nat)
    requires Multiple(x, a) && b <= a
    ensures Multiple(x, b)
  {
    hide Pow2;
    DivMod(x, Pow2(a));
    Pow2Add(a - b, b);
    Regroup3(x / Pow2(a), Pow2(a - b), Pow2(b));
    DivModUnique(x, Pow2(b), x / Pow2(a) * Pow2(a - b), 0);
  }

  lemma MultipleSum(x: int, y: int, j: nat)
    requires Multiple(x, j) && Multiple(y, j)
    ensures Multiple(x + y, j) && Multiple(x - y, j)
  {
    hide Pow2;
    var d := Pow2(j);
    DivMod(x, d);
    DivMod(y, d);
    DivModUnique(x + y, d, x / d + y / d, 0);
    DivModUnique(x - y, d, x / d - y / d, 0);
  }

  lemma MultipleHalf(x: int, j: nat)
    requires Multiple(x, j + 1)
    ensures x % 2 == 0 && Multiple(x / 2, j)
  {
    hide Pow2;
    Pow2Double(j);
    DivMod(x, 2 * Pow2(j));
    DivModUnique(x / 2, Pow2(j), x / (2 * Pow2(j)), 0);
  }

  lemma MultipleOfSmaller(a: nat, b: nat)
    requires b <= a
    ensures Multiple(Pow2(a), b)
  {
    hide Pow2;
    Pow2Add(a - b, b);
    DivModUnique(Pow2(a), Pow2(b), Pow2(a - b), 0);
  }

  lemma FractionIsMultiple(ui: nat, k: int, tmp: nat)
    requires IsSplit(32, ui, k, tmp)
    ensures Multiple(Hidden(tmp), FractionSlack(k))
  {
    hide Pow2, Pos, Exp2;
    Pow2Words();
    Pow2Small();
    HiddenBits(tmp);
    var r := tmp % 0x2000_0000;
    MultipleOfSmaller(30, FractionSlack(k));
    if Slack(k) < 29 {
      MultipleOfSmaller(29, Slack(k));
      MultipleTimes(tmp / 0x2000_0000, 0, 0x2000_0000, Slack(k));
      MultipleSum(tmp, tmp / 0x2000_0000 * 0x2000_0000, Slack(k));
      MultipleTimes(2, 1, r, Slack(k));
      MultipleSum(0x4000_0000, 2 * r, FractionSlack(k));
    } else {
      MultipleOfFewer(tmp, Slack(k), 29);
      assert r == 0;
    }
  }
}
