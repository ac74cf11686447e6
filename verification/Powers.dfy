// Powers of two, as naturals (shift counts and field widths) and as reals (scales).
module Powers {

  function Pow2(k: nat): (r: nat)
    ensures r > 0
  {
    if k == 0 then 1 else 2 * Pow2(k - 1)
  }

  function Exp2(s: int): (r: real)
    ensures r > 0.0
  {
    if s >= 0 then Pow2(s) as real else 1.0 / (Pow2(-s) as real)
  }

  lemma Pow2Double(j: nat)
    ensures Pow2(j + 1) == 2 * Pow2(j)
  {
  }

  lemma DoubledProduct(x: nat, y: nat)
    ensures (2 * x) * y == 2 * (x * y)
  {
  }

  lemma {:induction false} Pow2Add(a: nat, b: nat)
    ensures Pow2(a + b) == Pow2(a) * Pow2(b)
  {
    if a == 0 {
      assert Pow2(0) == 1;
    } else {
      hide Pow2;
      Pow2Add(a - 1, b);
      Pow2Double(a - 1 + b);
      Pow2Double(a - 1);
      DoubledProduct(Pow2(a - 1), Pow2(b));
    }
  }

  lemma {:induction false} Pow2Mono(a: nat, b: nat)
    requires a <= b
    ensures Pow2(a) <= Pow2(b)
    ensures a < b ==> 2 * Pow2(a) <= Pow2(b)
    decreases b - a
  {
    if a < b {
      Pow2Mono(a, b - 1);
    }
  }

  lemma Exp2Step(s: int)
    ensures Exp2(s + 1) == 2.0 * Exp2(s)
  {
  }

  lemma Exp2Zero()
    ensures Exp2(0) == 1.0
  {
  }

  lemma {:induction false} Exp2Add(a: int, b: int)
    ensures Exp2(a + b) == Exp2(a) * Exp2(b)
    decreases if a < 0 then -a else a
  {
    hide *;
    Exp2Zero();
    if a > 0 {
      Exp2Add(a - 1, b);
      Exp2Step(a - 1);
      Exp2Step(a - 1 + b);
      Regroup(2.0, Exp2(a - 1), Exp2(b));
    } else if a < 0 {
      Exp2Add(a + 1, b);
      Exp2Step(a);
      Exp2Step(a + b);
      Regroup(2.0, Exp2(a), Exp2(b));
    }
  }

  // ----- Products of reals -----

  lemma MulSign(c: real, x: real)
    requires c >= 0.0 && x >= 0.0
    ensures c * x >= 0.0
  {
  }

  lemma MulLe(c: real, x: real, y: real)
    requires c >= 0.0 && x <= y
    ensures c * x <= c * y
  {
    MulSign(c, y - x);
    assert c * (y - x) == c * y - c * x;
  }

  lemma MulLt(c: real, x: real, y: real)
    requires c > 0.0 && x < y
    ensures c * x < c * y
  {
    assert c * (y - x) > 0.0;
    assert c * (y - x) == c * y - c * x;
  }

  lemma Regroup(x: real, y: real, z: real)
    ensures x * (y * z) == (x * y) * z
  {
  }

  lemma {:induction false} Exp2Mono(a: int, b: int)
    requires a <= b
    ensures Exp2(a) <= Exp2(b)
    ensures a < b ==> 2.0 * Exp2(a) <= Exp2(b)
    decreases b - a
  {
    hide Exp2;
    if a < b {
      Exp2Mono(a, b - 1);
      Exp2Step(b - 1);
    }
  }

  lemma Exp2OfNat(k: nat)
    ensures Exp2(k) == Pow2(k) as real
    ensures Exp2(0 - k) * Pow2(k) as real == 1.0
  {
  }

  lemma Pow2Small()
    ensures Pow2(0) == 1 && Pow2(1) == 2 && Pow2(2) == 4 && Pow2(3) == 8 && Pow2(4) == 16
  {
    assert Pow2(2) == 4;
  }

  // The word sizes and masks that occur in the kernels.
  lemma Pow2Words()
    ensures Pow2(15) == 0x8000 && Pow2(16) == 0x1_0000 && Pow2(17) == 0x2_0000 && Pow2(18) == 0x4_0000
    ensures Pow2(28) == 0x1000_0000 && Pow2(29) == 0x2000_0000 && Pow2(30) == 0x4000_0000
    ensures Pow2(31) == 0x8000_0000 && Pow2(32) == 0x1_0000_0000 && Pow2(33) == 0x2_0000_0000
    ensures Pow2(60) == 0x1000_0000_0000_0000 && Pow2(61) == 0x2000_0000_0000_0000
    ensures Pow2(62) == 0x4000_0000_0000_0000 && Pow2(63) == 0x8000_0000_0000_0000
    ensures Pow2(64) == 0x1_0000_0000_0000_0000
  {
    Pow2Small();
    Pow2Add(4, 4);
    Pow2Add(8, 7);
    Pow2Add(15, 15);
    assert Pow2(17) == 2 * Pow2(16) && Pow2(29) == 2 * Pow2(28);
    Pow2Add(15, 13);
    Pow2Add(30, 30);
    assert Pow2(33) == 2 * Pow2(32);
    assert Pow2(62) == 2 * Pow2(61) && Pow2(64) == 2 * Pow2(63);
  }

  // ----- Natural division -----

  lemma DivMod(t: int, d: int)
    requires d > 0
    ensures t == (t / d) * d + t % d && 0 <= t % d < d
    ensures t >= 0 ==> 0 <= t / d <= t
  {
    var q := t / d;
    if t >= 0 {
      MulNat(q, d - 1);
      assert q * d == q * (d - 1) + q;
    }
  }

  lemma {:induction false} MulNat(a: nat, b: nat)
    ensures a * b >= 0
  {
    if a > 0 {
      MulNat(a - 1, b);
      assert a * b == (a - 1) * b + b;
    }
  }

  lemma DivModUnique(x: int, d: int, q: int, r: int)
    requires d > 0 && 0 <= r < d && x == q * d + r
    ensures x / d == q && x % d == r
  {
    var q' := x / d;
    assert (q - q') * d == x % d - r;
    MulAtLeast(q - q', d);
    MulAtLeast(q' - q, d);
  }

  lemma MulAtLeast(k: int, d: int)
    requires d > 0
    ensures k >= 1 ==> k * d >= d
  {
  }

  lemma AddMultiple(c: int, d: int, b: int)
    requires d > 0
    ensures (c * d + b) % d == b % d
    ensures (c * d + b) / d == c + b / d
  {
    var q, r := b / d, b % d;
    assert c * d + b == (c + q) * d + r;
    DivModUnique(c * d + b, d, c + q, r);
  }

  // The low m bits do not see bits m and up.
  lemma LowBits(b: nat, v: nat, m: nat)
    requires m <= v
    ensures (Pow2(v) + b) % Pow2(m) == b % Pow2(m)
  {
    hide *;
    Pow2Add(v - m, m);
    AddMultiple(Pow2(v - m), Pow2(m), b);
  }
}
