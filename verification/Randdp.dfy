// The generator as the benchmarks compute it, in floating point: every operation is followed by a
// rounding fl, of which only 48 mantissa bits are known.
module Randdp {

  import opened Powers
  import opened Lcg

  const R23: real := 1.0 / 8388608.0
  const R46: real := R23 * R23
  const T23: real := 8388608.0
  const T46: real := T23 * T23

  type Rounding = real -> real

  // Numbers of at most 48 bits, and those divided by 2^23 or 2^46, are not changed by rounding.
  ghost predicate Precise(fl: Rounding) {
    forall m: nat :: m < 0x1_0000_0000_0000 ==> Kept(fl, m)
  }

  ghost predicate Kept(fl: Rounding, m: nat) {
    && fl(m as real) == m as real
    && fl(R23 * m as real) == R23 * m as real
    && fl(R46 * m as real) == R46 * m as real
  }

  // A seed or multiplier: an integer below 2^46, held in a double.
  predicate IsSeed(x: real) {
    0.0 <= x && x == x.Floor as real && x.Floor < M46
  }

  ghost function Seed(x: real): (n: nat)
    requires IsSeed(x)
    ensures n < M46 && x == n as real
  {
    x.Floor
  }

  // (int) v truncates and is defined only in the range of a 32-bit int.
  function CInt(v: real): int
    requires -2147483649.0 < v < 2147483648.0
  {
    if v >= 0.0 then v.Floor else -((-v).Floor)
  }

  // Rounds the product of two integers below 2^24, exactly.
  lemma ProductKept(fl: Rounding, v: real, w: real, x: nat, y: nat)
    requires Precise(fl) && x <= M23 && y <= M23 && v == x as real && w == y as real
    ensures fl(v * w) == (x * y) as real && x * y <= M46
  {
    MulReal(x, y);
    assert v * w == (x * y) as real;
    MulBound(x, y, M23);
    assert Kept(fl, x * y);
  }

  lemma MulReal(x: nat, y: nat)
    ensures x as real * y as real == (x * y) as real
  {
  }

  lemma MulBound(x: nat, y: nat, b: nat)
    requires x <= b && y <= b
    ensures x * y <= b * b
  {
    assert x * y <= b * y <= b * b;
  }

  // v = 2^23 * hi + lo, split without rounding error.
  method Split(fl: Rounding, v: real) returns (hi: real, lo: real)
    requires Precise(fl) && IsSeed(v)
    ensures hi == (Seed(v) / M23) as real && lo == (Seed(v) % M23) as real
  {
    ghost var n := Seed(v);
    assert Kept(fl, n) && Kept(fl, n / M23 * M23) && Kept(fl, n % M23);
    var t1 := fl(R23 * v);
    FloorOf(n, M23, R23, t1);
    hi := CInt(t1) as real;
    lo := fl(v - fl(T23 * hi));
  }

  // Scaling by a power of two and truncating is an integer division.
  lemma FloorOf(n: nat, d: nat, r: real, t: real)
    requires d > 0 && r > 0.0 && r * d as real == 1.0 && t == r * n as real && 0 <= n / d
    ensures 0.0 <= t && t.Floor == n / d && t < (n / d + 1) as real
  {
    var q, m := n / d, n % d;
    assert n == q * d + m;
    assert t == q as real + r * m as real by {
      assert n as real == q as real * d as real + m as real by { MulReal(q, d); }
      assert r * (q as real * d as real) == q as real * (r * d as real);
    }
    MulLt(r, m as real, d as real);
    MulSign(r, m as real);
  }

  // The same value in integers, as the comment in the source has it.
  lemma SplitProduct(a: nat, x: nat, t: nat, z: nat)
    requires a < M46 && x < M46
    requires t == a / M23 * (x % M23) + a % M23 * (x / M23) && z == t % M23
    ensures (M23 * z + a % M23 * (x % M23)) % M46 == a * x % M46
  {
    var a1, a2, x1, x2 := a / M23, a % M23, x / M23, x % M23;
    assert a == a1 * M23 + a2 && x == x1 * M23 + x2;
    var q := t / M23;
    assert t == q * M23 + z;
    Expand(a1, a2, x1, x2, M23);
    assert a * x == (a1 * x1 + q) * M46 + (M23 * z + a2 * x2);
    AddMultiple(a1 * x1 + q, M46, M23 * z + a2 * x2);
  }

  lemma Expand(a1: nat, a2: nat, x1: nat, x2: nat, b: nat)
    ensures (a1 * b + a2) * (x1 * b + x2) == a1 * x1 * b * b + (a1 * x2 + a2 * x1) * b + a2 * x2
  {
    assert (a1 * b + a2) * (x1 * b + x2) == a1 * b * (x1 * b) + a1 * b * x2 + a2 * (x1 * b) + a2 * x2;
  }

  lemma CrossExact(fl: Rounding, a1: real, a2: real, x1: real, x2: real, i1: nat, i2: nat, j1: nat, j2: nat)
    requires Precise(fl) && i1 < M23 && i2 < M23 && j1 < M23 && j2 < M23
    requires a1 == i1 as real && a2 == i2 as real && x1 == j1 as real && x2 == j2 as real
    ensures fl(fl(a1 * x2) + fl(a2 * x1)) == (i1 * j2 + i2 * j1) as real
    ensures 0 <= i1 * j2 + i2 * j1 < 2 * M46
  {
    ProductKept(fl, a1, x2, i1, j2);
    ProductKept(fl, a2, x1, i2, j1);
    MulBound(i1, j2, M23 - 1);
    MulBound(i2, j1, M23 - 1);
    SumKept(fl, i1 * j2, i2 * j1);
  }

  lemma SumKept(fl: Rounding, x: nat, y: nat)
    requires Precise(fl) && x + y < 0x1_0000_0000_0000
    ensures fl(x as real + y as real) == (x + y) as real
  {
    assert Kept(fl, x + y);
    assert x as real + y as real == (x + y) as real;
  }

  lemma CombineExact(fl: Rounding, z: real, a2: real, x2: real, k: nat, i2: nat, j2: nat)
    requires Precise(fl) && k < M23 && i2 < M23 && j2 < M23
    requires z == k as real && a2 == i2 as real && x2 == j2 as real
    ensures fl(fl(T23 * z) + fl(a2 * x2)) == (M23 * k + i2 * j2) as real
    ensures 0 <= M23 * k + i2 * j2 < 2 * M46
  {
    ProductKept(fl, a2, x2, i2, j2);
    MulBound(i2, j2, M23 - 1);
    assert Kept(fl, M23 * k);
    SumKept(fl, M23 * k, i2 * j2);
  }

  lemma ReduceExact(fl: Rounding, r: real, s: real, t: real, n: nat, d: nat)
    requires Precise(fl) && t == n as real && n < 2 * M46
    requires (d == M23 && r == R23 && s == T23) || (d == M46 && r == R46 && s == T46)
    ensures fl(r * t) == r * t && fl(t - fl(s * (n / d) as real)) == (n % d) as real
    ensures r * d as real == 1.0 && n / d < M46
  {
    hide Precise;
    if d == M23 { Reduce23(fl, t, n); } else { Reduce46(fl, t, n); }
  }

  lemma Reduce23(fl: Rounding, t: real, n: nat)
    requires Precise(fl) && t == n as real && n < 2 * M46
    ensures fl(R23 * t) == R23 * t && fl(t - fl(T23 * (n / M23) as real)) == (n % M23) as real
    ensures n / M23 < M46
  {
    assert Kept(fl, n) && Kept(fl, n / M23 * M23) && Kept(fl, n % M23);
  }

  lemma Reduce46(fl: Rounding, t: real, n: nat)
    requires Precise(fl) && t == n as real && n < 2 * M46
    ensures fl(R46 * t) == R46 * t && fl(t - fl(T46 * (n / M46) as real)) == (n % M46) as real
    ensures n / M46 < M46
  {
    assert Kept(fl, n) && Kept(fl, n / M46 * M46) && Kept(fl, n % M46);
  }

  // t - s * (int)(r * t), where r is 1/s: the remainder of t by s.
  method Reduce(fl: Rounding, r: real, s: real, t: real, ghost n: nat, ghost d: nat) returns (z: real)
    requires Precise(fl) && t == n as real && n < 2 * M46
    requires (d == M23 && r == R23 && s == T23) || (d == M46 && r == R46 && s == T46)
    ensures z == (n % d) as real
  {
    hide Precise;
    ReduceExact(fl, r, s, t, n, d);
    FloorOf(n, d, r, r * t);
    var t2 := CInt(fl(r * t)) as real;
    z := fl(t - fl(s * t2));
  }

  // z = a1 * x2 + a2 * x1 (mod 2^23)
  method Cross(fl: Rounding, a1: real, a2: real, x1: real, x2: real,
               ghost i1: nat, ghost i2: nat, ghost j1: nat, ghost j2: nat) returns (z: real)
    requires Precise(fl) && i1 < M23 && i2 < M23 && j1 < M23 && j2 < M23
    requires a1 == i1 as real && a2 == i2 as real && x1 == j1 as real && x2 == j2 as real
    ensures z == ((i1 * j2 + i2 * j1) % M23) as real
  {
    hide Precise;
    CrossExact(fl, a1, a2, x1, x2, i1, i2, j1, j2);
    var t1 := fl(fl(a1 * x2) + fl(a2 * x1));
    z := Reduce(fl, R23, T23, t1, i1 * j2 + i2 * j1, M23);
  }

  // x = 2^23 * z + a2 * x2 (mod 2^46)
  method Combine(fl: Rounding, z: real, a2: real, x2: real, ghost k: nat, ghost i2: nat, ghost j2: nat)
      returns (x: real)
    requires Precise(fl) && k < M23 && i2 < M23 && j2 < M23
    requires z == k as real && a2 == i2 as real && x2 == j2 as real
    ensures x == ((M23 * k + i2 * j2) % M46) as real
  {
    hide Precise;
    CombineExact(fl, z, a2, x2, k, i2, j2);
    var t3 := fl(fl(T23 * z) + fl(a2 * x2));
    x := Reduce(fl, R46, T46, t3, M23 * k + i2 * j2, M46);
  }

  // One number of the generator: every intermediate is an integer of at most 48 bits and every cast
  // is in range, so no rounding happens at all.
  method Step(fl: Rounding, ghost a: nat, a1: real, a2: real, x: real) returns (x': real)
    requires Precise(fl) && a < M46 && IsSeed(x)
    requires a1 == (a / M23) as real && a2 == (a % M23) as real
    ensures IsSeed(x') && Seed(x') == a * Seed(x) % M46
  {
    ghost var n := Seed(x);
    var x1, x2 := Split(fl, x);
    var z := Cross(fl, a1, a2, x1, x2, a / M23, a % M23, n / M23, n % M23);
    ghost var t: nat := a / M23 * (n % M23) + a % M23 * (n / M23);
    x' := Combine(fl, z, a2, x2, t % M23, a % M23, n % M23);
    SplitProduct(a, n, t, t % M23);
  }

  lemma NormalisedKept(fl: Rounding, x: real)
    requires Precise(fl) && IsSeed(x)
    ensures fl(R46 * x) == R46 * x && x == Seed(x) as real
  {
    assert Kept(fl, Seed(x));
  }

  // The number in (0, 1) that is returned, and the new seed.
  method Randlc(fl: Rounding, x: real, a: real) returns (r: real, x': real)
    requires Precise(fl) && IsSeed(x) && IsSeed(a)
    ensures IsSeed(x') && Seed(x') == Times(Seed(a), Seed(x))
    ensures r == R46 * x'
  {
    var a1, a2 := Split(fl, a);
    x' := Step(fl, Seed(a), a1, a2, x);
    r := fl(R46 * x');
    NormalisedKept(fl, x');
  }

  // The i-th number after seed x, as a number in (0, 1).
  ghost function Uniform(a: real, x: real, i: nat): real
    requires IsSeed(x) && IsSeed(a)
  {
    R46 * Stream(Seed(a), Seed(x), i) as real
  }

  // n numbers into y[1..n], and the seed after the last.
  method Vranlc(fl: Rounding, n: nat, xSeed: real, a: real, y: array<real>) returns (x: real)
    requires Precise(fl) && IsSeed(xSeed) && IsSeed(a) && n < y.Length
    modifies y
    ensures IsSeed(x) && Seed(x) == Stream(Seed(a), Seed(xSeed), n)
    ensures forall i :: 1 <= i <= n ==> y[i] == Uniform(a, xSeed, i)
    ensures forall i :: 0 <= i < y.Length && !(1 <= i <= n) ==> y[i] == old(y[i])
  {
    hide Precise, IsSeed, Seed;
    var a1, a2 := Split(fl, a);
    x := xSeed;
    for i := 1 to n + 1
      invariant IsSeed(x) && Seed(x) == Stream(Seed(a), Seed(xSeed), i - 1)
      invariant forall j :: 1 <= j < i ==> y[j] == Uniform(a, xSeed, j)
      invariant forall j :: 0 <= j < y.Length && !(1 <= j < i) ==> y[j] == old(y[j])
    {
      x := Step(fl, Seed(a), a1, a2, x);
      NormalisedKept(fl, x);
      y[i] := fl(R46 * x);
    }
  }
}
