// The linear congruential generator x := a * x mod 2^46 as a mathematical stream.
module Lcg {

  import opened Powers

  const M23: nat := 0x80_0000
  const M46: nat := 0x4000_0000_0000

  function Times(x: nat, y: nat): (r: nat)
    ensures r < M46
  {
    x * y % M46
  }

  // The number that follows x, i steps on.
  function Stream(a: nat, x: nat, i: nat): (r: nat)
    ensures x < M46 ==> r < M46
  {
    if i == 0 then x else a * Stream(a, x, i - 1) % M46
  }

  // a to the power n, mod 2^46.
  function PowerMod(a: nat, n: nat): (r: nat)
    ensures r < M46
  {
    if n == 0 then 1 else a * PowerMod(a, n - 1) % M46
  }

  lemma {:induction false} StreamAdd(a: nat, x: nat, i: nat, j: nat)
    ensures Stream(a, x, i + j) == Stream(a, Stream(a, x, i), j)
  {
    if j > 0 { StreamAdd(a, x, i, j - 1); }
  }

  // A factor may be reduced before multiplying.
  lemma MulMod(x: nat, y: nat)
    ensures (x % M46) * y % M46 == x * y % M46
    ensures y * (x % M46) % M46 == y * x % M46
  {
    var q, r := x / M46, x % M46;
    assert x * y == q * y * M46 + r * y by { assert x == q * M46 + r; }
    AddMultiple(q * y, M46, r * y);
  }

  // Jump-ahead: multiplying by a^n takes n steps of the stream at once.
  lemma {:induction false} JumpAhead(a: nat, x: nat, n: nat)
    requires x < M46
    ensures PowerMod(a, n) * x % M46 == Stream(a, x, n)
  {
    if n > 0 {
      var p := PowerMod(a, n - 1);
      calc {
        (a * p % M46) * x % M46;
        { MulMod(a * p, x); }
        (a * p) * x % M46;
        { assert (a * p) * x == a * (p * x); }
        a * (p * x) % M46;
        { MulMod(p * x, a); }
        a * (p * x % M46) % M46;
        { JumpAhead(a, x, n - 1); }
        a * Stream(a, x, n - 1) % M46;
      }
    }
  }

  lemma PowerIsStream(a: nat, n: nat)
    ensures PowerMod(a, n) == Stream(a, 1, n)
  {
    JumpAhead(a, 1, n);
  }

  lemma {:induction false} PowerAdd(a: nat, m: nat, n: nat)
    ensures PowerMod(a, m + n) == PowerMod(a, m) * PowerMod(a, n) % M46
  {
    PowerIsStream(a, m + n);
    PowerIsStream(a, n);
    StreamAdd(a, 1, n, m);
    JumpAhead(a, PowerMod(a, n), m);
  }

  // A power of a power.
  lemma {:induction false} PowerMul(a: nat, m: nat, n: nat)
    ensures PowerMod(PowerMod(a, m), n) == PowerMod(a, m * n)
  {
    if n > 0 {
      PowerMul(a, m, n - 1);
      PowerAdd(a, m, m * (n - 1));
      assert m * n == m + m * (n - 1);
    }
  }

  // Stepping in strides of a^m visits every m-th number of the stream.
  lemma {:induction false} Strides(a: nat, x: nat, m: nat, n: nat)
    requires x < M46
    ensures Stream(PowerMod(a, m), x, n) == Stream(a, x, m * n)
  {
    if n > 0 {
      Strides(a, x, m, n - 1);
      StreamAdd(a, x, m * (n - 1), m);
      assert m * n == m * (n - 1) + m;
      JumpAhead(a, Stream(a, x, m * (n - 1)), m);
    }
  }

  lemma PowerOne(a: nat)
    requires a < M46
    ensures PowerMod(a, 1) == a && PowerMod(a, 0) == 1
  {
    assert PowerMod(a, 1) == a * PowerMod(a, 0) % M46;
  }
}
