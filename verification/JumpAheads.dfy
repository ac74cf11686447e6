// Powers of the multiplier modulo 2^46 by repeated squaring, as FT and MG compute them.
module JumpAheads {

  import opened Lcg
  import opened Randdp

  // r * q^n, the quantity that repeated squaring keeps.
  function Pending(r: nat, q: nat, n: nat): nat {
    PowerMod(q, n) * r % M46
  }

  lemma Square(r: nat, q: nat, h: nat)
    requires q < M46
    ensures Pending(r, q * q % M46, h) == Pending(r, q, 2 * h)
  {
    PowerMul(q, 2, h);
    PowerOne(q);
    assert PowerMod(q, 2) == q * PowerMod(q, 1) % M46;
  }

  lemma Multiply(r: nat, q: nat, n: nat)
    requires n > 0
    ensures Pending(q * r % M46, q, n - 1) == Pending(r, q, n)
  {
    var p := PowerMod(q, n - 1);
    MulMod(q * r, p);
    MulMod(q * p, r);
    assert p * (q * r) == (q * p) * r;
  }

  lemma PendingEnds(r: nat, q: nat)
    requires r < M46
    ensures Pending(r, q, 0) == r
  {
  }

  lemma PendingStarts(q: nat, n: nat)
    ensures Pending(1, q, n) == PowerMod(q, n)
  {
  }

  method Ipow46(fl: Rounding, a: real, exponent: nat) returns (result: real)
    requires Precise(fl) && IsSeed(a)
    ensures IsSeed(result) && Seed(result) == PowerMod(Seed(a), exponent)
  {
    result := 1.0;
    if exponent == 0 { return; }
    var q, r, n := a, 1.0, exponent;
    PendingStarts(Seed(a), exponent);
    while n > 1
      invariant n >= 1 && IsSeed(q) && IsSeed(r)
      invariant Pending(Seed(r), Seed(q), n) == PowerMod(Seed(a), exponent)
    {
      var n2 := n / 2;
      if n2 * 2 == n {
        Square(Seed(r), Seed(q), n2);
        var dummy;
        dummy, q := Randlc(fl, q, q);
        n := n2;
      } else {
        Multiply(Seed(r), Seed(q), n);
        var dummy;
        dummy, r := Randlc(fl, r, q);
        n := n - 1;
      }
    }
    Multiply(Seed(r), Seed(q), 1);
    var dummy;
    dummy, r := Randlc(fl, r, q);
    PendingEnds(Seed(r), Seed(q));
    result := r;
  }

  method Power(fl: Rounding, a: real, n: nat) returns (power: real)
    requires Precise(fl) && IsSeed(a)
    ensures IsSeed(power) && Seed(power) == PowerMod(Seed(a), n)
  {
    power := 1.0;
    var nj, aj := n, a;
    PendingStarts(Seed(a), n);
    while nj != 0
      invariant IsSeed(power) && IsSeed(aj)
      invariant Pending(Seed(power), Seed(aj), nj) == PowerMod(Seed(a), n)
    {
      var rdummy;
      if nj % 2 == 1 {
        Multiply(Seed(power), Seed(aj), nj);
        rdummy, power := Randlc(fl, power, aj);
      }
      Square(Seed(power), Seed(aj), nj / 2);
      rdummy, aj := Randlc(fl, aj, aj);
      nj := nj / 2;
    }
    PendingEnds(Seed(power), Seed(aj));
  }
}
