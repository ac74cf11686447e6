// The posit format of section 3 and the rounding rule of section 4 of the Standard for
// Posit Arithmetic (2022), for any precision n and exponent size es.
module Posit {
  import opened Powers

  // ----- Section 3: fields and value of a positive encoding -----
  // A positive encoding is a number b of w == n - 1 bits, read from the top.

  function Ones(b: nat, w: nat): (c: nat)
    ensures c <= w
  {
    if w == 0 || b < Pow2(w - 1) then 0 else 1 + Ones(b - Pow2(w - 1), w - 1)
  }

  function Zeros(b: nat, w: nat): (c: nat)
    ensures c <= w
  {
    if w == 0 || b >= Pow2(w - 1) then 0 else 1 + Zeros(b, w - 1)
  }

  function Run(b: nat, w: nat): (c: nat)
    ensures c <= w
  {
    if w > 0 && b >= Pow2(w - 1) then Ones(b, w) else Zeros(b, w)
  }

  // k identical regime bits mean r == k - 1 for ones and r == -k for zeros.
  function Regime(b: nat, w: nat): int {
    if w > 0 && b >= Pow2(w - 1) then Ones(b, w) - 1 else 0 - Zeros(b, w)
  }

  // What is left below the regime and its terminating bit.
  function RestWidth(b: nat, w: nat): nat {
    if Run(b, w) == w then 0 else w - 1 - Run(b, w)
  }

  function Rest(b: nat, w: nat): (r: nat)
    ensures r < Pow2(RestWidth(b, w))
  {
    b % Pow2(RestWidth(b, w))
  }

  // The exponent is the first es bits of the rest; bits beyond the end are 0.
  function Exponent(es: nat, b: nat, w: nat): int {
    Rest(b, w) * Pow2(es) / Pow2(RestWidth(b, w))
  }

  // The fraction is what follows the exponent, as a number in [0, 1).
  ghost function Fraction(es: nat, b: nat, w: nat): real {
    (Rest(b, w) * Pow2(es) % Pow2(RestWidth(b, w))) as real * Exp2(0 - RestWidth(b, w))
  }

  ghost function Scale(es: nat, b: nat, w: nat): int {
    Pow2(es) * Regime(b, w) + Exponent(es, b, w)
  }

  predicate Positive(n: nat, b: int) {
    n >= 2 && 0 < b < Pow2(n - 1)
  }

  ghost function ValPos(n: nat, es: nat, b: nat): (x: real)
    requires Positive(n, b)
    ensures x > 0.0
  {
    assert Fraction(es, b, n - 1) >= 0.0;
    Exp2(Scale(es, b, n - 1)) * (1.0 + Fraction(es, b, n - 1))
  }

  function MaxPos(n: nat): nat
    requires n >= 2
  {
    Pow2(n - 1) - 1
  }

  predicate IsNaR(n: nat, b: nat) {
    n >= 2 && b == Pow2(n - 1)
  }

  // Every n-bit encoding but NaR; negative ones are two's complements.
  ghost function Val(n: nat, es: nat, b: nat): real
    requires n >= 2 && b < Pow2(n) && !IsNaR(n, b)
  {
    if b == 0 then 0.0
    else if b < Pow2(n - 1) then ValPos(n, es, b)
    else -ValPos(n, es, Pow2(n) - b)
  }

  // ----- Section 4: rounding -----

  // Between the neighbours u and u + 1, compare with the (n+1)-bit posit that appends a 1 to u;
  // a tie goes to the even encoding.
  ghost function Nearest(n: nat, es: nat, x: real, u: nat): nat
    requires Positive(n, u)
  {
    var v := ValPos(n + 1, es, 2 * u + 1);
    if x < v || (x == v && u % 2 == 0) then u else u + 1
  }

  ghost predicate Straddles(n: nat, es: nat, x: real, u: int) {
    Positive(n, u) && Positive(n, u + 1) && ValPos(n, es, u) <= x < ValPos(n, es, u + 1)
  }

  ghost predicate RoundsPos(n: nat, es: nat, x: real, p: nat)
    requires n >= 2 && x > 0.0
  {
    if x >= ValPos(n, es, MaxPos(n)) then p == MaxPos(n)
    else if x <= ValPos(n, es, 1) then p == 1
    else exists u: nat :: Straddles(n, es, x, u) && p == Nearest(n, es, x, u)
  }

  // p is the n-bit encoding of the real x after rounding.
  ghost predicate Rounds(n: nat, es: nat, x: real, p: nat)
    requires n >= 2
  {
    if x == 0.0 then p == 0
    else if x > 0.0 then RoundsPos(n, es, x, p)
    else 0 < p < Pow2(n) && RoundsPos(n, es, -x, Pow2(n) - p)
  }
}
