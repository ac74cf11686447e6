// q32_to_p32: the 512-bit quire, eight 64-bit limbs with the most significant first, to a
// 32-bit posit.
module Quire32 {
  import opened Powers
  import opened PositOrder
  import opened PositRounding
  import opened PositValue
  import opened P32Fields
  import opened ScaledNumbers

  const WORD: nat := 0x1_0000_0000_0000_0000

  predicate Limbs(q: seq<int>) {
    forall i :: 0 <= i < |q| ==> 0 <= q[i] < WORD
  }

  // The weight of the k-th limb from the bottom.
  function Weight(k: nat): (w: nat)
    ensures w > 0
  {
    if k == 0 then 1 else WORD * Weight(k - 1)
  }

  lemma {:induction false} WeightIsPow2(k: nat)
    ensures Weight(k) == Pow2(64 * k)
  {
    if k > 0 {
      WeightIsPow2(k - 1);
      Pow2Words();
      Pow2Add(64, 64 * (k - 1));
    }
  }

  lemma {:induction false} WeightAdd(a: nat, b: nat)
    ensures Weight(a + b) == Weight(a) * Weight(b)
  {
    if a > 0 {
      WeightAdd(a - 1, b);
      Regroup3(WORD, Weight(a - 1), Weight(b));
    }
  }

  // The unsigned number some limbs hold.
  function Unsigned(q: seq<int>): int {
    if q == [] then 0 else q[0] * Weight(|q| - 1) + Unsigned(q[1..])
  }

  // A quire is a two's complement number of 2^-240 units.
  function Signed(q: seq<int>): int
    requires |q| == 8 && Limbs(q)
  {
    if q[0] / 0x8000_0000_0000_0000 == 1 then Unsigned(q) - Weight(8) else Unsigned(q)
  }

  ghost function QuireValue(q: seq<int>): real
    requires |q| == 8 && Limbs(q)
  {
    InUnits(Signed(q))
  }

  ghost function InUnits(u: int): real {
    u as real * Exp2(-240)
  }

  predicate IsNaRQ(q: seq<int>) {
    q == [0x8000_0000_0000_0000, 0, 0, 0, 0, 0, 0, 0]
  }

  // ----- Limb sequences -----

  lemma {:induction false} UnsignedBound(q: seq<int>)
    requires Limbs(q)
    ensures 0 <= Unsigned(q) < Weight(|q|)
  {
    if q != [] {
      UnsignedBound(q[1..]);
      MulLess(q[0], WORD, Weight(|q| - 1));
    }
  }

  lemma {:induction false} UnsignedConcat(p: seq<int>, q: seq<int>)
    ensures Unsigned(p + q) == Unsigned(p) * Weight(|q|) + Unsigned(q)
  {
    if p == [] {
      assert p + q == q;
    } else {
      assert (p + q)[1..] == p[1..] + q;
      UnsignedConcat(p[1..], q);
      WeightAdd(|p| - 1, |q|);
      Distribute(p[0], Weight(|p| - 1), Unsigned(p[1..]), Weight(|q|));
    }
  }

  lemma Distribute(a: int, b: int, c: int, d: int)
    ensures (a * b + c) * d == a * (b * d) + c * d
  {
  }

  lemma {:induction false} UnsignedZero(q: seq<int>)
    requires Limbs(q)
    ensures Unsigned(q) == 0 <==> forall i :: 0 <= i < |q| ==> q[i] == 0
  {
    if q != [] {
      UnsignedZero(q[1..]);
      UnsignedBound(q[1..]);
      assert q == [q[0]] + q[1..];
      if q[0] > 0 {
        MulLess(0, q[0], Weight(|q| - 1));
      }
    }
  }

  // ----- Two's complement in place -----

  function Complement(q: seq<int>): (r: seq<int>)
    ensures |r| == |q|
    ensures forall i :: 0 <= i < |q| ==> r[i] == WORD - 1 - q[i]
  {
    seq(|q|, i requires 0 <= i < |q| => WORD - 1 - q[i])
  }

  lemma {:induction false} ComplementSum(q: seq<int>)
    ensures Unsigned(Complement(q)) == Weight(|q|) - 1 - Unsigned(q)
  {
    if q != [] {
      assert Complement(q)[1..] == Complement(q[1..]);
      ComplementSum(q[1..]);
      assert (WORD - 1 - q[0]) * Weight(|q| - 1) == WORD * Weight(|q| - 1) - Weight(|q| - 1) - q[0] * Weight(|q| - 1);
    }
  }

  // Everything above the lowest non-zero limb is complemented, that limb negated.
  lemma NegationByLimbs(p: seq<int>, l: int, z: seq<int>)
    requires Limbs(z) && forall i :: 0 <= i < |z| ==> z[i] == 0
    ensures Unsigned(Complement(p) + [WORD - l] + z) == Weight(|p| + 1 + |z|) - Unsigned(p + [l] + z)
  {
    hide Unsigned, Weight;
    UnsignedZero(z);
    NegatedTop(p, l);
    UnsignedConcat(p + [l], z);
    UnsignedConcat(Complement(p) + [WORD - l], z);
    WeightAdd(|p| + 1, |z|);
    Difference(Weight(|p| + 1), Unsigned(p + [l]), Weight(|z|));
  }

  lemma Difference(a: int, b: int, c: int)
    ensures (a - b) * c == a * c - b * c
  {
  }

  lemma NegatedTop(p: seq<int>, l: int)
    ensures Unsigned(Complement(p) + [WORD - l]) == Weight(|p| + 1) - Unsigned(p + [l])
  {
    hide Unsigned, Weight;
    UnsignedConcat(p, [l]);
    UnsignedConcat(Complement(p), [WORD - l]);
    ComplementSum(p);
    OneLimb(l);
    OneLimb(WORD - l);
    WeightAdd(|p|, 1);
    Difference(Weight(|p|) - 1, Unsigned(p), WORD);
  }

  lemma OneLimb(l: int)
    ensures Unsigned([l]) == l && Weight(1) == WORD
  {
    assert [l][1..] == [];
  }

  // The limbs above the lowest nonzero one are complemented, and that one is negated.
  lemma NegatedLimbs(q: seq<int>, l: nat, a: seq<int>)
    requires |q| == |a| == 8 && l < 8 && Limbs(q) && q[l] > 0 && forall j :: l < j < 8 ==> q[j] == 0
    requires forall j :: 0 <= j < l ==> a[j] == WORD - 1 - q[j]
    requires forall j :: l < j < 8 ==> a[j] == q[j]
    requires a[l] == WORD - q[l]
    ensures Limbs(a) && Unsigned(a) == Weight(8) - Unsigned(q)
  {
    hide Unsigned, Weight;
    SplitAt(q, l);
    NegatedParts(q, l, a);
    NegationByLimbs(q[..l], q[l], q[l + 1..]);
  }

  lemma SplitAt(q: seq<int>, l: nat)
    requires l < |q|
    ensures q == q[..l] + [q[l]] + q[l + 1..]
  {
  }

  lemma NegatedParts(q: seq<int>, l: nat, a: seq<int>)
    requires |q| == |a| == 8 && l < 8 && forall j :: 0 <= j < l ==> a[j] == WORD - 1 - q[j]
    requires forall j :: l < j < 8 ==> a[j] == q[j]
    requires a[l] == WORD - q[l]
    ensures a == Complement(q[..l]) + [WORD - q[l]] + q[l + 1..]
  {
    SplitAt(a, l);
    assert a[..l] == Complement(q[..l]);
    assert a[l + 1..] == q[l + 1..];
  }

  // The inner loop.
  method ComplementFrom(a: array<int>, l: nat)
    requires l < 8 == a.Length
    modifies a
    ensures forall j :: 0 <= j < l ==> a[j] == WORD - 1 - old(a[j])
    ensures forall j :: l <= j < 8 ==> a[j] == old(a[j])
  {
    var i := l - 1;
    while i >= 0
      invariant -1 <= i < l
      invariant forall j :: i < j < l ==> a[j] == WORD - 1 - old(a[j])
      invariant forall j :: 0 <= j <= i || l <= j < 8 ==> a[j] == old(a[j])
    {
      a[i] := WORD - 1 - a[i];
      i := i - 1;
    }
  }

  // The negation loop: find the lowest nonzero limb from the end, negate it, complement the limbs
  // above it.
  method Negate(a: array<int>)
    requires a.Length == 8 && Limbs(a[..]) && Unsigned(a[..]) != 0
    modifies a
    ensures Limbs(a[..])
    ensures Unsigned(a[..]) == Weight(8) - old(Unsigned(a[..]))
  {
    hide Unsigned, Weight;
    ghost var q := a[..];
    UnsignedZero(q);
    var i := 7;
    while i >= 0
      invariant -1 <= i <= 7 && a[..] == q
      invariant forall j :: i < j < 8 ==> q[j] == 0
    {
      if a[i] > 0 {
        a[i] := (-a[i]) % WORD;
        ComplementFrom(a, i);
        NegatedLimbs(q, i, a[..]);
        return;
      }
      i := i - 1;
    }
  }

  // ----- Normalisation -----

  // noLZ leading zeros, then the 64 bits frac; sticky says whether anything is below them.
  ghost predicate IsNormalised(q: seq<int>, noLZ: nat, frac: int, sticky: bool) {
    && |q| == 8 && noLZ < 512
    && 0x8000_0000_0000_0000 <= frac < WORD
    && exists r: nat :: Leaves(q, noLZ, frac, sticky, r)
  }

  // q, shifted up until its first bit is bit 511, is frac followed by r in the lower limbs.
  ghost predicate Leaves(q: seq<int>, noLZ: nat, frac: int, sticky: bool, r: nat) {
    && Unsigned(q) * Pow2(noLZ) == frac * Weight(7) + r
    && r < Weight(7) && (sticky <==> r != 0)
  }

  // Shift one limb up until its top bit is set.
  method LeadingZeros(l: nat) returns (z: nat, tmp: nat)
    requires 0 < l < WORD
    ensures z < 64 && tmp == l * Pow2(z) && 0x8000_0000_0000_0000 <= tmp < WORD
  {
    hide Pow2;
    Pow2Small();
    z, tmp := 0, l;
    while tmp / 0x8000_0000_0000_0000 == 0
      invariant z < 64 && tmp == l * Pow2(z) && 0 < tmp < WORD
      decreases WORD - tmp
    {
      Pow2Double(z);
      ShiftsInWord(l, z, tmp);
      z := z + 1;
      tmp := tmp * 2;
    }
  }

  lemma ShiftsInWord(l: nat, z: nat, tmp: nat)
    requires l > 0 && tmp == l * Pow2(z) && tmp < 0x8000_0000_0000_0000
    ensures z < 63
  {
    Pow2Words();
    if z >= 63 {
      Pow2Mono(63, z);
      MulLess(0, l, Pow2(z));
    }
  }

  lemma FromFirstLimb(q: seq<int>, i: nat)
    requires i < |q| && Limbs(q) && forall j :: 0 <= j < i ==> q[j] == 0
    ensures Unsigned(q) == q[i] * Weight(|q| - 1 - i) + Unsigned(q[i + 1..])
  {
    hide Weight, Unsigned;
    assert q == q[..i] + q[i..];
    UnsignedZero(q[..i]);
    UnsignedConcat(q[..i], q[i..]);
    HeadLimb(q[i..]);
    assert q[i..][1..] == q[i + 1..];
  }

  lemma HeadLimb(q: seq<int>)
    requires q != []
    ensures Unsigned(q) == q[0] * Weight(|q| - 1) + Unsigned(q[1..])
  {
  }

  // The zero limbs above the first non-zero one only scale.
  lemma LiftZeroLimbs(q: seq<int>, i: nat, z: nat, frac: nat, sticky: bool, r: nat)
    requires i < 8 && z < 64 && 0x8000_0000_0000_0000 <= frac < WORD && |q| == 8
    requires Unsigned(q) * Pow2(z) == frac * Weight(7 - i) + r
    requires r < Weight(7 - i) && (sticky <==> r != 0)
    ensures IsNormalised(q, 64 * i + z, frac, sticky)
  {
    hide Unsigned, Pow2, Weight;
    var w, v, u := Weight(i), Weight(7 - i), Unsigned(q);
    WeightIsPow2(i);
    Pow2Add(z, 64 * i);
    WeightAdd(7 - i, i);
    Regroup3(u, Pow2(z), w);
    Distribute(frac, v, r, w);
    MulLess(r, v, w);
    if r != 0 { MulLess(0, r, w); }
    assert Leaves(q, 64 * i + z, frac, sticky, r * w);
  }

  lemma NoBitsBorrowed(q: seq<int>, i: nat, z: nat, tmp: nat, sticky: bool)
    requires |q| == 8 && Limbs(q) && i < 8 && (forall j :: 0 <= j < i ==> q[j] == 0)
    requires z < 64 && tmp == q[i] * Pow2(z) && 0x8000_0000_0000_0000 <= tmp < WORD
    requires i == 7 || z == 0
    requires sticky <==> exists j :: i < j < 8 && q[j] != 0
    ensures IsNormalised(q, 64 * i + z, tmp, sticky)
  {
    hide Unsigned, Pow2, Weight, IsNormalised;
    Pow2Small();
    var rest := q[i + 1..];
    FromFirstLimb(q, i);
    UnsignedZero(rest);
    UnsignedBound(rest);
    assert sticky <==> exists j :: 0 <= j < |rest| && rest[j] != 0 by {
      if sticky {
        var j :| i < j < 8 && q[j] != 0;
        assert rest[j - i - 1] == q[j];
      }
    }
    if z == 0 {
      LiftZeroLimbs(q, i, 0, tmp, sticky, Unsigned(rest));
    } else {
      assert rest == [];
      Unit();
      LiftZeroLimbs(q, i, z, tmp, sticky, 0);
    }
  }

  lemma Unit()
    ensures Weight(0) == 1 && Unsigned([]) == 0
  {
  }

  lemma BitsBorrowed(q: seq<int>, i: nat, z: nat, tmp: nat, sticky: bool)
    requires |q| == 8 && Limbs(q) && i < 7 && (forall j :: 0 <= j < i ==> q[j] == 0)
    requires 0 < z < 64 && tmp == q[i] * Pow2(z) && 0x8000_0000_0000_0000 <= tmp < WORD
    requires sticky <==> q[i + 1] % Pow2(64 - z) != 0 || exists j :: i + 1 < j < 8 && q[j] != 0
    ensures IsNormalised(q, 64 * i + z, tmp + q[i + 1] / Pow2(64 - z), sticky)
  {
    hide Unsigned, Pow2, Weight, IsNormalised;
    var rest, p, n := q[i + 2..], Pow2(z), Pow2(64 - z);
    var h, lo := q[i + 1] / n, q[i + 1] % n;
    FromFirstLimb(q, i);
    assert q[i + 1..][1..] == rest;
    FromFirstLimb(q[i + 1..], 0);
    UnsignedZero(rest);
    UnsignedBound(rest);
    assert (exists j :: i + 1 < j < 8 && q[j] != 0) <==> exists j :: 0 <= j < |rest| && rest[j] != 0 by {
      if j :| i + 1 < j < 8 && q[j] != 0 {
        assert rest[j - i - 2] == q[j];
      }
    }
    Pow2Words();
    Pow2Add(z, 64 - z);
    DivMod(q[i + 1], n);
    WeightStep(6 - i);
    var r := BorrowedSplit(q[i], q[i + 1], Unsigned(rest), Weight(6 - i), p, n);
    LiftZeroLimbs(q, i, z, tmp + h, sticky, r);
  }

  lemma WeightStep(k: nat)
    ensures Weight(k + 1) == WORD * Weight(k)
  {
  }

  // Shifting two limbs and what is below them up by p: the carry h joins the first limb, the
  // rest stays below it.
  lemma BorrowedSplit(l: nat, m: nat, u: nat, w: nat, p: nat, n: nat) returns (r: nat)
    requires p > 0 && n > 0 && p * n == WORD && m < WORD && u < w && l * p < WORD
    ensures l * p + m / n < WORD
    ensures (l * (WORD * w) + (m * w + u)) * p == (l * p + m / n) * (WORD * w) + r
    ensures r < WORD * w && (r != 0 <==> m % n != 0 || u != 0)
  {
    var h, lo := m / n, m % n;
    DivMod(m, n);
    r := lo * p * w + u * p;
    Carry(l, h, p, n, m);
    assert m * p == h * WORD + lo * p by { Distribute(h, n, lo, p); }
    Below(lo, n, p, w, u);
    JoinParts(l, h, lo, m, u, w, p, r);
  }

  lemma JoinParts(l: nat, h: nat, lo: nat, m: nat, u: nat, w: nat, p: nat, r: nat)
    requires m * p == h * WORD + lo * p && r == lo * p * w + u * p
    ensures (l * (WORD * w) + (m * w + u)) * p == (l * p + h) * (WORD * w) + r
  {
    ThreeTerms(l, WORD * w, m, w, u, p);
    Distribute(h, WORD, lo * p, w);
    Distribute(l * p, 1, h, WORD * w);
  }

  lemma ThreeTerms(l: int, v: int, m: int, w: int, u: int, p: int)
    ensures (l * v + (m * w + u)) * p == (l * p) * v + (m * p) * w + u * p
  {
  }

  lemma Carry(l: nat, h: int, p: nat, n: nat, m: nat)
    requires p * n == WORD && n > 0 && p > 0 && h * n <= m < WORD && l * p < WORD
    ensures l * p + h < WORD
  {
    if h >= p { MulLess(p - 1, h, n); }
    if l >= n { MulLess(n - 1, l, p); }
    MulLess(l, n, p);
  }

  lemma Below(lo: int, n: nat, p: nat, w: nat, u: nat)
    requires 0 <= lo < n && p * n == WORD && p > 0 && u < w
    ensures 0 <= lo * p * w + u * p < WORD * w
    ensures lo * p * w + u * p != 0 <==> lo != 0 || u != 0
  {
    var t := lo * p;
    MulLess(lo, n, p);
    MulLess(u, w, p);
    assert t + p <= WORD;
    BelowWord(t, p, w, u * p);
    if lo != 0 { MulLess(0, lo, p); MulLess(0, t, w); }
    if u != 0 { MulLess(0, u, p); }
  }

  lemma BelowWord(t: int, p: nat, w: nat, v: int)
    requires 0 <= t && t + p <= WORD && 0 <= v < w * p
    ensures 0 <= t * w && t * w + v < WORD * w
  {
    assert t * w >= 0;
    assert (WORD - t - p) * w >= 0;
    assert (WORD - t - p) * w == WORD * w - t * w - w * p;
  }

  method Normalise(q: seq<int>) returns (noLZ: nat, frac64A: nat, bitsMore: bool)
    requires |q| == 8 && Limbs(q) && Unsigned(q) != 0
    ensures IsNormalised(q, noLZ, frac64A, bitsMore)
  {
    hide Unsigned, Weight, Pow2, IsNormalised;
    noLZ, frac64A, bitsMore := 0, 0, false;
    UnsignedZero(q);
    var i := 0;
    while i < 8
      invariant 0 <= i <= 8 && noLZ == 64 * i && !bitsMore
      invariant forall j :: 0 <= j < i ==> q[j] == 0
    {
      if q[i] == 0 {
        noLZ := noLZ + 64;
      } else {
        ghost var first := i;
        var noLZtmp, tmp := LeadingZeros(q[i]);
        noLZ := noLZ + noLZtmp;
        frac64A := tmp;
        if i != 7 && noLZtmp != 0 {
          frac64A := frac64A + q[i + 1] / Pow2(64 - noLZtmp);
          if q[i + 1] % Pow2(64 - noLZtmp) != 0 {
            bitsMore := true;
          }
          i := i + 1;
        }
        i := i + 1;
        ghost var rest, here := i, bitsMore;
        while i < 8
          invariant rest <= i <= 8 && bitsMore == here
          invariant forall j :: rest <= j < i ==> q[j] == 0
        {
          if q[i] > 0 {
            bitsMore := true;
            break;
          }
          i := i + 1;
        }
        if first != 7 && noLZtmp != 0 {
          BitsBorrowed(q, first, noLZtmp, tmp, bitsMore);
        } else {
          NoBitsBorrowed(q, first, noLZtmp, tmp, bitsMore);
        }
        return;
      }
      i := i + 1;
    }
  }

  // A normalised quire as a number with 63 fraction bits.
  lemma NormalisedCell(q: seq<int>, noLZ: nat, frac: nat, sticky: bool)
    requires IsNormalised(q, noLZ, frac, sticky)
    ensures InCell(InUnits(Unsigned(q)), 271 - noLZ, frac - 0x8000_0000_0000_0000, 63, sticky)
  {
    hide *;
    var r := Below64(q, noLZ, frac, sticky);
    var x, w := InUnits(Unsigned(q)), Weight(7);
    UnitsOfQuire(Unsigned(q), noLZ);
    UnitsOfNum(noLZ, frac);
    UnitsOfNum(noLZ, frac + 1);
    NextWeight(frac, w);
    CellFromUnits(x, 271 - noLZ, frac, sticky, Exp2(-240 - noLZ), frac * w, frac * w + r, (frac + 1) * w);
  }

  lemma CellFromUnits(x: real, s: int, frac: nat, sticky: bool, u: real, lo: int, mid: int, hi: int)
    requires frac >= 0x8000_0000_0000_0000 && u > 0.0 && lo <= mid < hi && (sticky <==> mid != lo)
    requires x == u * mid as real && Num(s, frac, 63) == u * lo as real && Num(s, frac + 1, 63) == u * hi as real
    ensures InCell(x, s, frac - 0x8000_0000_0000_0000, 63, sticky)
  {
    hide Num, InCell, Pow2;
    Pow2Words();
    ScaledBracket(u, lo, mid, hi);
    CellOf(x, s, frac - 0x8000_0000_0000_0000, 63, sticky);
  }

  lemma Below64(q: seq<int>, noLZ: nat, frac: nat, sticky: bool) returns (r: nat)
    requires IsNormalised(q, noLZ, frac, sticky)
    ensures 0x8000_0000_0000_0000 <= frac
    ensures Unsigned(q) * Pow2(noLZ) == frac * Weight(7) + r && r < Weight(7) && (sticky <==> r != 0)
  {
    hide Unsigned, Pow2, Weight;
    r :| Leaves(q, noLZ, frac, sticky, r);
  }

  lemma NextWeight(f: int, w: int)
    ensures (f + 1) * w == f * w + w
  {
  }

  lemma ScaledBracket(u: real, lo: int, mid: int, hi: int)
    requires u > 0.0 && lo <= mid < hi
    ensures u * lo as real <= u * mid as real < u * hi as real
    ensures u * mid as real != u * lo as real <==> mid != lo
  {
    MulLt(u, mid as real, hi as real);
    if lo != mid { MulLt(u, lo as real, mid as real); }
  }

  lemma UnitsOfQuire(u: int, noLZ: nat)
    ensures InUnits(u) == Exp2(-240 - noLZ) * (u * Pow2(noLZ)) as real
  {
    hide Pow2, Exp2;
    Exp2Add(-240 - noLZ, noLZ);
    Exp2OfNat(noLZ);
    assert (u * Pow2(noLZ)) as real == u as real * Pow2(noLZ) as real;
    Regroup(Exp2(-240 - noLZ), Pow2(noLZ) as real, u as real);
  }

  lemma UnitsOfNum(noLZ: nat, f: int)
    ensures Num(271 - noLZ, f, 63) == Exp2(-240 - noLZ) * (f * Weight(7)) as real
  {
    hide Pow2, Exp2, Weight;
    WeightIsPow2(7);
    Exp2OfNat(448);
    Exp2Add(-240 - noLZ, 448);
    Exp2Add(271 - noLZ, 0 - 63);
    assert (f * Weight(7)) as real == f as real * Pow2(448) as real;
    Regroup(Exp2(-240 - noLZ), Pow2(448) as real, f as real);
    Regroup(Exp2(271 - noLZ), Exp2(0 - 63), f as real);
  }

  // ----- Cutting the quire -----

  // The numbers q32_to_p32 rounds down although the sticky bit of the limbs asks for up: with
  // a 30-bit regime that bit is overwritten by the exponent's.
  ghost predicate LosesLimbs(x: real) {
    Exp2(118) < x < Exp2(118) * (1.0 + Exp2(-63))
  }

  method Pack(noLZ: nat, frac: nat, sticky: bool, ghost x: real) returns (uZ: nat)
    requires noLZ < 512 && 0x8000_0000_0000_0000 <= frac < WORD
    requires InCell(x, 271 - noLZ, frac - 0x8000_0000_0000_0000, 63, sticky)
    ensures x > 0.0 && Pos32(uZ)
    ensures RoundsPos32(x, uZ) <==> !LosesLimbs(x)
    ensures LosesLimbs(x) ==> uZ == 0x7FFF_FFFE
  {
    hide Pow2, RegimeWord, RoundsPos32, InCell, LosesLimbs;
    var kA := (271 - noLZ) / 4;
    var expA := 271 - noLZ - kA * 4;
    var f := frac % 0x8000_0000_0000_0000;
    ghost var e := expA;
    QuireCut(x, kA, e, f, sticky);
    var regA := RunOf(kA);
    if regA > 30 {
      uZ := if kA < 0 then 0x1 else 0x7FFF_FFFF;
    } else {
      var frac64A := f;
      var shift := regA + 35;
      var bitNPlusOne, bitsMore := false, sticky;
      // A 64-bit word shifted by 64 or more is unspecified unless it is 0.
      var fracA: int := *;
      if shift < 64 {
        fracA := frac64A / Pow2(shift);
      } else if frac64A == 0 {
        fracA := 0;
      }
      if regA <= 28 {
        bitNPlusOne := frac64A / Pow2(shift - 1) % 2 == 1;
        expA := expA * Pow2(28 - regA);
        DropTopBits(frac64A, shift);
        if frac64A * Pow2(65 - shift) % WORD != 0 { bitsMore := true; }
      } else {
        if regA == 30 {
          bitNPlusOne := expA / 2 % 2 == 1;
          bitsMore := expA % 2 == 1;
          expA := 0;
        } else {
          bitNPlusOne := expA % 2 == 1;
          expA := expA / 2;
        }
        if frac64A > 0 {
          fracA := 0;
          bitsMore := true;
        }
      }
      var u := RegimeWord(kA) + expA + fracA;
      if bitNPlusOne { u := u + if u % 2 == 1 || bitsMore then 1 else 0; }
      assert u == QuireBits(kA, e, f, sticky);
      uZ := u;
    }
  }

  // Shifting the low bits to the top of the word tests them.
  lemma DropTopBits(f: nat, shift: nat)
    requires 1 <= shift <= 64
    ensures f * Pow2(65 - shift) % WORD != 0 <==> f % Pow2(shift - 1) != 0
  {
    hide Pow2;
    Pow2Words();
    ShiftedUp(f, 65 - shift, shift - 1, f * Pow2(65 - shift));
  }

  // What q32_to_p32 computes from the 63 fraction bits and the sticky bit of the limbs.
  function QuireBits(k: int, e: nat, f: nat, sticky: bool): int
    requires RunOf(k) <= 30
  {
    var r := RunOf(k);
    if r <= 28 then RoundGuard(RegimeWord(k) + e * Pow2(28 - r) + f / Pow2(r + 35),
                               f / Pow2(r + 34) % 2 == 1, f % Pow2(r + 34) != 0 || sticky)
    else if r == 29 then RoundGuard(RegimeWord(k) + e / 2, e % 2 == 1, f != 0 || sticky)
    else RoundGuard(RegimeWord(k), e / 2 % 2 == 1, e % 2 == 1 || f != 0)
  }

  lemma QuireCut(x: real, k: int, e: nat, f: nat, sticky: bool)
    requires e < 4 && f < 0x8000_0000_0000_0000 && InCell(x, 4 * k + e, f, 63, sticky)
    ensures x > 0.0
    ensures RunOf(k) > 30 ==> RoundsPos32(x, if k < 0 then 1 else MAXPOS)
    ensures LosesLimbs(x) <==> k == 29 && e == 2 && f == 0 && sticky
    ensures LosesLimbs(x) ==> QuireBits(k, e, f, sticky) == 0x7FFF_FFFE
    ensures RunOf(k) <= 30 ==>
      Pos32(QuireBits(k, e, f, sticky)) && (RoundsPos32(x, QuireBits(k, e, f, sticky)) <==> !LosesLimbs(x))
  {
    hide Pow2, Cut32, RoundsPos32, InCell, QuireBits, LosesLimbs;
    Pow2Words();
    ScaleOf2(k, e);
    CutRounds(x, k, e, f, 63, sticky);
    WhenLimbsLost(x, 4 * k + e, f, sticky);
    LostLimbBits();
    if RunOf(k) <= 30 {
      QuireBitsAreCut(k, e, f, sticky);
      Pos32OfRounded(x, Cut32(k, e, f, 63, sticky));
      if k == 29 && e == 2 && f == 0 && sticky {
        WrongRounding(x, Cut32(k, e, f, 63, sticky), QuireBits(k, e, f, sticky));
      }
    }
  }

  lemma LostLimbBits()
    ensures QuireBits(29, 2, 0, true) == 0x7FFF_FFFE
    ensures Cut32(29, 2, 0, 63, true) == 0x7FFF_FFFF
  {
    RegimeWordAtEnds();
    CutBeforeExponent(29, 2, 0, 63, true);
  }

  lemma QuireBitsAreCut(k: int, e: nat, f: nat, sticky: bool)
    requires RunOf(k) <= 30 && e < 4 && f < Pow2(63)
    ensures !(k == 29 && e == 2 && f == 0 && sticky) ==> QuireBits(k, e, f, sticky) == Cut32(k, e, f, 63, sticky)
  {
    hide Pow2, RegimeWord, Cut32;
    if RunOf(k) <= 28 {
      CutInFraction(k, e, f, 63, sticky);
    } else if RunOf(k) == 29 {
      CutAfterOneExponentBit(k, e, f, 63, sticky);
    } else {
      CutBeforeExponent(k, e, f, 63, sticky);
      RegimeWordAtEnds();
    }
  }

  lemma WhenLimbsLost(x: real, s: int, f: nat, sticky: bool)
    requires f < Pow2(63) && InCell(x, s, f, 63, sticky)
    ensures LosesLimbs(x) <==> s == 118 && f == 0 && sticky
  {
    hide Num, Exp2, Pow2;
    CellBounds(x, s, f, 63, sticky);
    var c, u := Exp2(118), Exp2(0 - 63);
    if s < 118 {
      Exp2Mono(s + 1, 118);
    } else if s > 118 {
      Exp2Mono(119, s);
      Exp2Step(118);
      SmallUnit();
      MulLt(c, 1.0 + u, 2.0);
      AboveLostLimbs(x);
    } else if f > 0 {
      MulLe(u, 1.0, f as real);
      MulLe(c, 1.0 + u, 1.0 + f as real * u);
    } else {
      assert c * (1.0 + 0 as real * u) == c;
    }
  }

  lemma AboveLostLimbs(x: real)
    requires x >= Exp2(118) * (1.0 + Exp2(0 - 63))
    ensures !LosesLimbs(x)
  {
    hide Exp2;
  }

  lemma SmallUnit()
    ensures Exp2(0 - 63) < 1.0
  {
    hide Exp2;
    Exp2Mono(0 - 63, 0);
    Exp2Zero();
  }

  // ----- q32_to_p32 -----

  method FromQuire(q: seq<int>) returns (z: nat)
    requires |q| == 8 && Limbs(q)
    ensures Bits32(z)
    ensures IsNaRQ(q) ==> z == NAR
    ensures !IsNaRQ(q) ==>
      (Rounds32(QuireValue(q), z) <==> !LosesLimbs(QuireValue(q)) && !LosesLimbs(-QuireValue(q)))
    ensures !IsNaRQ(q) && LosesLimbs(QuireValue(q)) ==> z == 0x7FFF_FFFE
    ensures !IsNaRQ(q) && LosesLimbs(-QuireValue(q)) ==> z == 0x8000_0002
  {
    hide Unsigned, Weight, Pow2, Exp2, InCell, Rounds32, RoundsPos32, IsNormalised, LosesLimbs;
    if q == [0, 0, 0, 0, 0, 0, 0, 0] {
      ZeroQuire(q);
      return 0;
    } else if q == [0x8000_0000_0000_0000, 0, 0, 0, 0, 0, 0, 0] {
      return NAR;
    }
    UnsignedZero(q);
    UnsignedBound(q);
    var uZ := new int[8];
    forall i | 0 <= i < 8 { uZ[i] := q[i]; }
    assert uZ[..] == q;
    var sign := uZ[0] / 0x8000_0000_0000_0000 == 1;
    if sign { Negate(uZ); }
    var m := uZ[..];
    var noLZ, frac, sticky := Normalise(m);
    ghost var x := InUnits(Unsigned(m));
    NormalisedCell(m, noLZ, frac, sticky);
    NormalisedRange(m, noLZ, frac, sticky);
    z := Pack(noLZ, frac, sticky, x);
    SignedRounding(x, z, sign);
    NotNegative(x);
    assert QuireValue(q) == if sign then -x else x;
    if sign { z := Neg32(z); }
  }

  lemma NormalisedRange(q: seq<int>, noLZ: nat, frac: nat, sticky: bool)
    requires IsNormalised(q, noLZ, frac, sticky)
    ensures noLZ < 512 && 0x8000_0000_0000_0000 <= frac < WORD
  {
  }

  lemma NotNegative(x: real)
    requires x > 0.0
    ensures !LosesLimbs(-x)
  {
    hide Pow2;
  }

  lemma ZeroQuire(q: seq<int>)
    requires |q| == 8 && forall i :: 0 <= i < 8 ==> q[i] == 0
    ensures QuireValue(q) == 0.0 && Rounds32(QuireValue(q), 0) && !LosesLimbs(0.0)
  {
    hide Unsigned, Weight, Exp2;
    UnsignedZero(q);
  }

  // A quire of 2^118 + 2^-240 is one that q32_to_p32 gets wrong: it rounds to maxpos, which by the
  // contract of FromQuire is not what FromQuire returns.
  lemma QuireLosesSticky()
    ensures var q := [0, 0, 0x40_0000_0000, 0, 0, 0, 0, 1];
      Limbs(q) && LosesLimbs(QuireValue(q)) && Rounds32(QuireValue(q), MAXPOS)
  {
    hide Unsigned, Weight, Pow2, Exp2, InCell, Rounds32, RoundsPos32, IsNormalised, LosesLimbs, QuireBits, Cut32;
    var q := [0, 0, 0x40_0000_0000, 0, 0, 0, 0, 1];
    Pow2At25();
    assert q[7] != 0;
    BitsBorrowed(q, 2, 25, 0x8000_0000_0000_0000, true);
    NormalisedCell(q, 153, 0x8000_0000_0000_0000, true);
    var x := InUnits(Unsigned(q));
    assert QuireValue(q) == x;
    QuireCut(x, 29, 2, 0, true);
    ScaleOf2(29, 2);
    CutRounds(x, 29, 2, 0, 63, true);
    LostLimbBits();
    SignedRounding(x, MAXPOS, false);
  }

  lemma Pow2At25()
    ensures Pow2(25) == 0x200_0000 && Pow2(39) == 0x80_0000_0000
  {
    hide Pow2;
    Pow2Words();
    Pow2Small();
    Pow2Add(17, 4);
    Pow2Add(21, 4);
    Pow2Add(21, 18);
  }
}
