// The decimation-in-frequency Fourier transform by recursion, for any three operations on elements;
// over a commutative ring with a root of unity it is the discrete Fourier transform.
module Fft {

  import opened Powers

  datatype Ops<!C> = Ops(plus: (C, C) -> C, minus: (C, C) -> C, times: (C, C) -> C)

  // Sums of the two halves, and their differences times the twiddle factors u[h], u[h+1], ...
  function Sums<C>(o: Ops<C>, s: seq<C>): (r: seq<C>)
    ensures |r| == |s| / 2
  {
    seq(|s| / 2, i requires 0 <= i < |s| / 2 => o.plus(s[i], s[i + |s| / 2]))
  }

  function Differences<C>(o: Ops<C>, u: seq<C>, s: seq<C>): (r: seq<C>)
    requires |s| / 2 + |s| / 2 <= |u|
    ensures |r| == |s| / 2
  {
    seq(|s| / 2, i requires 0 <= i < |s| / 2 => o.times(u[|s| / 2 + i], o.minus(s[i], s[i + |s| / 2])))
  }

  // Two sequences of n elements in turns.
  function Interleaved<C>(a: seq<C>, b: seq<C>, n: nat): (r: seq<C>)
    requires |a| == n && |b| == n
    ensures |r| == 2 * n
  {
    seq(2 * n, q requires 0 <= q < 2 * n => if q % 2 == 0 then a[q / 2] else b[q / 2])
  }

  // The transform of 2^p elements.
  function Dif<C>(o: Ops<C>, u: seq<C>, s: seq<C>, p: nat): (r: seq<C>)
    requires |s| == Pow2(p) && |s| <= |u|
    ensures |r| == |s|
    decreases p
  {
    if p == 0 then s
    else
      Interleaved(Dif(o, u, Sums(o, s), p - 1), Dif(o, u, Differences(o, u, s), p - 1), Pow2(p - 1))
  }

  lemma DifParts<C>(o: Ops<C>, u: seq<C>, s: seq<C>, p: nat, q: nat)
    requires |s| == Pow2(p + 1) && |s| <= |u| && q < Pow2(p)
    ensures 2 * q + 1 < |s|
    ensures Dif(o, u, s, p + 1)[2 * q] == Dif(o, u, Sums(o, s), p)[q]
    ensures Dif(o, u, s, p + 1)[2 * q + 1] == Dif(o, u, Differences(o, u, s), p)[q]
  {
    hide Sums, Differences, Interleaved;
    InterleavedAt(Dif(o, u, Sums(o, s), p), Dif(o, u, Differences(o, u, s), p), Pow2(p), q);
  }

  lemma InterleavedAt<C>(a: seq<C>, b: seq<C>, n: nat, q: nat)
    requires |a| == |b| == n && q < n
    ensures Interleaved(a, b, n)[2 * q] == a[q] && Interleaved(a, b, n)[2 * q + 1] == b[q]
  {
    assert (2 * q) / 2 == q && (2 * q) % 2 == 0 && (2 * q + 1) / 2 == q && (2 * q + 1) % 2 == 1;
  }

  // ----- the discrete Fourier transform -----

  datatype Ring<!C> = Ring(o: Ops<C>, zero: C, one: C)

  ghost predicate IsRing<C(!new)>(r: Ring<C>) {
    && (forall a, b :: r.o.plus(a, b) == r.o.plus(b, a))
    && (forall a, b, c :: r.o.plus(r.o.plus(a, b), c) == r.o.plus(a, r.o.plus(b, c)))
    && (forall a :: r.o.plus(a, r.zero) == a)
    && (forall a, b :: r.o.plus(r.o.minus(a, b), b) == a)
    && (forall a, b :: r.o.times(a, b) == r.o.times(b, a))
    && (forall a, b, c :: r.o.times(r.o.times(a, b), c) == r.o.times(a, r.o.times(b, c)))
    && (forall a :: r.o.times(a, r.one) == a)
    && (forall a, b, c :: r.o.times(r.o.plus(a, b), c) == r.o.plus(r.o.times(a, c), r.o.times(b, c)))
  }

  function Power<C>(r: Ring<C>, w: C, k: nat): C {
    if k == 0 then r.one else r.o.times(w, Power(r, w, k - 1))
  }

  function Total<C>(r: Ring<C>, t: seq<C>): C {
    if t == [] then r.zero else r.o.plus(Total(r, t[..|t| - 1]), t[|t| - 1])
  }

  function Terms<C>(r: Ring<C>, w: C, s: seq<C>, q: nat): (t: seq<C>)
    ensures |t| == |s|
  {
    seq(|s|, i requires 0 <= i < |s| => r.o.times(s[i], Power(r, w, i * q)))
  }

  // Output q of the discrete Fourier transform with root w.
  function Dft<C>(r: Ring<C>, w: C, s: seq<C>, q: nat): C {
    Total(r, Terms(r, w, s, q))
  }

  // The laws, one at a time.
  lemma PlusComm<C(!new)>(r: Ring<C>, a: C, b: C)
    requires IsRing(r)
    ensures r.o.plus(a, b) == r.o.plus(b, a)
  {
  }

  lemma PlusAssoc<C(!new)>(r: Ring<C>, a: C, b: C, c: C)
    requires IsRing(r)
    ensures r.o.plus(r.o.plus(a, b), c) == r.o.plus(a, r.o.plus(b, c))
  {
  }

  lemma PlusZero<C(!new)>(r: Ring<C>, a: C)
    requires IsRing(r)
    ensures r.o.plus(a, r.zero) == a && r.o.plus(r.zero, a) == a
  {
    PlusComm(r, a, r.zero);
  }

  lemma MinusPlus<C(!new)>(r: Ring<C>, a: C, b: C)
    requires IsRing(r)
    ensures r.o.plus(r.o.minus(a, b), b) == a
  {
  }

  lemma TimesComm<C(!new)>(r: Ring<C>, a: C, b: C)
    requires IsRing(r)
    ensures r.o.times(a, b) == r.o.times(b, a)
  {
  }

  lemma TimesAssoc<C(!new)>(r: Ring<C>, a: C, b: C, c: C)
    requires IsRing(r)
    ensures r.o.times(r.o.times(a, b), c) == r.o.times(a, r.o.times(b, c))
  {
  }

  lemma TimesOne<C(!new)>(r: Ring<C>, a: C)
    requires IsRing(r)
    ensures r.o.times(a, r.one) == a && r.o.times(r.one, a) == a
  {
    TimesComm(r, a, r.one);
  }

  lemma Distributes<C(!new)>(r: Ring<C>, a: C, b: C, c: C)
    requires IsRing(r)
    ensures r.o.times(r.o.plus(a, b), c) == r.o.plus(r.o.times(a, c), r.o.times(b, c))
  {
  }

  // Their consequences.
  lemma Cancel<C(!new)>(r: Ring<C>, a: C, b: C, c: C)
    requires IsRing(r) && r.o.plus(a, c) == r.o.plus(b, c)
    ensures a == b
  {
    hide *;
    var n := r.o.minus(r.zero, c);
    MinusPlus(r, r.zero, c);
    PlusComm(r, n, c);
    PlusAssoc(r, a, c, n);
    PlusAssoc(r, b, c, n);
    PlusZero(r, a);
    PlusZero(r, b);
  }

  lemma ZeroTimes<C(!new)>(r: Ring<C>, b: C)
    requires IsRing(r)
    ensures r.o.times(r.zero, b) == r.zero
  {
    hide *;
    var z := r.o.times(r.zero, b);
    PlusZero(r, r.zero);
    Distributes(r, r.zero, r.zero, b);
    PlusZero(r, z);
    Cancel(r, z, r.zero, z);
  }

  function MinusOne<C>(r: Ring<C>): C {
    r.o.minus(r.zero, r.one)
  }

  lemma MinusIs<C(!new)>(r: Ring<C>, a: C, b: C)
    requires IsRing(r)
    ensures r.o.minus(a, b) == r.o.plus(a, r.o.times(MinusOne(r), b))
  {
    hide IsRing;
    var m := MinusOne(r);
    var mb := r.o.times(m, b);
    MinusPlus(r, r.zero, r.one);
    Distributes(r, m, r.one, b);
    TimesOne(r, b);
    ZeroTimes(r, b);
    PlusAssoc(r, a, mb, b);
    PlusZero(r, a);
    MinusPlus(r, a, b);
    Cancel(r, r.o.minus(a, b), r.o.plus(a, mb), b);
  }

  lemma FourPlus<C(!new)>(r: Ring<C>, a: C, b: C, c: C, d: C)
    requires IsRing(r)
    ensures r.o.plus(r.o.plus(a, b), r.o.plus(c, d)) == r.o.plus(r.o.plus(a, c), r.o.plus(b, d))
  {
    hide *;
    PlusAssoc(r, a, b, r.o.plus(c, d));
    PlusAssoc(r, b, c, d);
    PlusComm(r, b, c);
    PlusAssoc(r, c, b, d);
    PlusAssoc(r, a, c, r.o.plus(b, d));
  }

  lemma {:induction false} PowerAdd<C(!new)>(r: Ring<C>, w: C, a: nat, b: nat)
    requires IsRing(r)
    ensures Power(r, w, a + b) == r.o.times(Power(r, w, a), Power(r, w, b))
  {
    hide IsRing;
    if a == 0 {
      TimesOne(r, Power(r, w, b));
    } else {
      PowerAdd(r, w, a - 1, b);
      TimesAssoc(r, w, Power(r, w, a - 1), Power(r, w, b));
    }
  }

  // Powers of the square are even powers.
  lemma {:induction false} PowerSquare<C(!new)>(r: Ring<C>, w: C, k: nat)
    requires IsRing(r)
    ensures Power(r, r.o.times(w, w), k) == Power(r, w, 2 * k)
  {
    hide IsRing;
    if k > 0 {
      PowerSquare(r, w, k - 1);
      assert Power(r, w, 2 * k) == r.o.times(w, r.o.times(w, Power(r, w, 2 * (k - 1))));
      TimesAssoc(r, w, w, Power(r, w, 2 * (k - 1)));
    }
  }

  lemma PowerZero<C>(r: Ring<C>, w: C)
    ensures Power(r, w, 0) == r.one
  {
  }

  // If w^h is -1, then w^(h (2 q)) is 1 and w^(h (2 q + 1)) is -1.
  lemma {:induction false} PowerTurns<C(!new)>(r: Ring<C>, w: C, h: nat, q: nat)
    requires IsRing(r) && Power(r, w, h) == MinusOne(r)
    ensures Power(r, w, h * (2 * q)) == r.one && Power(r, w, h * (2 * q + 1)) == MinusOne(r)
  {
    hide *;
    PowerZero(r, w);
    if q > 0 {
      PowerTurns(r, w, h, q - 1);
      assert h * (2 * q) == h * (2 * (q - 1) + 1) + h;
      PowerAdd(r, w, h * (2 * (q - 1) + 1), h);
      MinusOneSquared(r);
    } else {
      assert h * (2 * q) == 0;
    }
    assert h * (2 * q + 1) == h * (2 * q) + h;
    PowerAdd(r, w, h * (2 * q), h);
    TimesOne(r, MinusOne(r));
  }

  lemma MinusOneSquared<C(!new)>(r: Ring<C>)
    requires IsRing(r)
    ensures r.o.times(MinusOne(r), MinusOne(r)) == r.one
  {
    hide IsRing;
    var m := MinusOne(r);
    // m * m + m == (m + 1) * m == 0 == 1 + m
    MinusPlus(r, r.zero, r.one);
    Distributes(r, m, r.one, m);
    TimesOne(r, m);
    ZeroTimes(r, m);
    PlusComm(r, m, r.one);
    Cancel(r, r.o.times(m, m), r.one, m);
  }

  lemma {:induction false} TotalSplit<C(!new)>(r: Ring<C>, a: seq<C>, b: seq<C>)
    requires IsRing(r)
    ensures Total(r, a + b) == r.o.plus(Total(r, a), Total(r, b))
  {
    hide IsRing;
    if b == [] {
      assert a + b == a;
      PlusZero(r, Total(r, a));
    } else {
      var rest, last := b[..|b| - 1], b[|b| - 1];
      assert (a + b)[..|a + b| - 1] == a + rest;
      TotalSplit(r, a, rest);
      PlusAssoc(r, Total(r, a), Total(r, rest), last);
    }
  }

  function Zip<C>(r: Ring<C>, a: seq<C>, b: seq<C>): (t: seq<C>)
    requires |a| == |b|
    ensures |t| == |a|
  {
    seq(|a|, i requires 0 <= i < |a| => r.o.plus(a[i], b[i]))
  }

  lemma {:induction false} TotalZip<C(!new)>(r: Ring<C>, a: seq<C>, b: seq<C>)
    requires IsRing(r) && |a| == |b|
    ensures Total(r, Zip(r, a, b)) == r.o.plus(Total(r, a), Total(r, b))
  {
    hide IsRing;
    if a == [] {
      PlusZero(r, r.zero);
    } else {
      var n := |a| - 1;
      assert Zip(r, a, b)[..n] == Zip(r, a[..n], b[..n]);
      TotalZip(r, a[..n], b[..n]);
      FourPlus(r, Total(r, a[..n]), Total(r, b[..n]), a[n], b[n]);
    }
  }

  // The first half of the terms and the second half.
  lemma TermsSplit<C(!new)>(r: Ring<C>, w: C, s: seq<C>, h: nat, q: nat, t: seq<C>)
    requires IsRing(r) && |s| == 2 * h && |t| == h
    requires forall i :: 0 <= i < h ==> t[i] == r.o.plus(Terms(r, w, s, q)[i], Terms(r, w, s, q)[i + h])
    ensures Dft(r, w, s, q) == Total(r, t)
  {
    hide IsRing, Terms, Total;
    var all := Terms(r, w, s, q);
    var a, b := all[..h], all[h..];
    TotalSplit(r, a, b);
    assert all == a + b;
    TotalZip(r, a, b);
    assert t == Zip(r, a, b);
  }

  lemma HalfTurn<C(!new)>(r: Ring<C>, w: C, i: nat, h: nat, k: nat, e: nat, f: nat, d: nat)
    requires IsRing(r) && e == i * k && f == (i + h) * k && d == h * k
    ensures Power(r, w, f) == r.o.times(Power(r, w, e), Power(r, w, d))
  {
    hide *;
    assert f == e + d;
    PowerAdd(r, w, e, d);
  }

  lemma EvenTurn<C(!new)>(r: Ring<C>, w: C, h: nat, q: nat, d: nat)
    requires IsRing(r) && Power(r, w, h) == MinusOne(r) && d == h * (2 * q)
    ensures Power(r, w, d) == r.one
  {
    hide *;
    PowerTurns(r, w, h, q);
  }

  lemma OddTurn<C(!new)>(r: Ring<C>, w: C, h: nat, q: nat, d: nat)
    requires IsRing(r) && Power(r, w, h) == MinusOne(r) && d == h * (2 * q + 1)
    ensures Power(r, w, d) == MinusOne(r)
  {
    hide *;
    PowerTurns(r, w, h, q);
  }

  lemma EvenPower<C(!new)>(r: Ring<C>, w: C, i: nat, q: nat, e: nat, g: nat)
    requires IsRing(r) && e == i * (2 * q) && g == i * q
    ensures Power(r, w, e) == Power(r, r.o.times(w, w), g)
  {
    hide *;
    PowerSquare(r, w, g);
    assert e == 2 * g;
  }

  // A term of an even output, with e == 2 q i: a_i w^e + a_(i+h) w^(2 q (i+h)) == (a_i + a_(i+h)) (w w)^(q i).
  lemma EvenTerm<C(!new)>(r: Ring<C>, w: C, a: C, b: C, h: nat, i: nat, q: nat, e: nat, f: nat, g: nat)
    requires IsRing(r) && Power(r, w, h) == MinusOne(r)
    requires e == i * (2 * q) && f == (i + h) * (2 * q) && g == i * q
    ensures r.o.plus(r.o.times(a, Power(r, w, e)), r.o.times(b, Power(r, w, f)))
         == r.o.times(r.o.plus(a, b), Power(r, r.o.times(w, w), g))
  {
    hide *;
    var d: nat := h * (2 * q);
    HalfTurn(r, w, i, h, 2 * q, e, f, d);
    EvenTurn(r, w, h, q, d);
    EvenPower(r, w, i, q, e, g);
    EvenSum(r, a, b, Power(r, w, e), Power(r, w, f), Power(r, w, d), Power(r, r.o.times(w, w), g));
  }

  lemma EvenSum<C(!new)>(r: Ring<C>, a: C, b: C, p: C, p': C, turn: C, t: C)
    requires IsRing(r) && p' == r.o.times(p, turn) && turn == r.one && p == t
    ensures r.o.plus(r.o.times(a, p), r.o.times(b, p')) == r.o.times(r.o.plus(a, b), t)
  {
    hide *;
    TimesOne(r, p);
    Distributes(r, a, b, p);
  }

  // A term of an odd output, where the second half changes sign.
  lemma OddTerm<C(!new)>(r: Ring<C>, w: C, a: C, b: C, h: nat, i: nat, q: nat, e: nat, f: nat, g: nat)
    requires IsRing(r) && Power(r, w, h) == MinusOne(r)
    requires e == i * (2 * q + 1) && f == (i + h) * (2 * q + 1) && g == i * q
    ensures r.o.plus(r.o.times(a, Power(r, w, e)), r.o.times(b, Power(r, w, f)))
         == r.o.times(r.o.times(Power(r, w, i), r.o.minus(a, b)), Power(r, r.o.times(w, w), g))
  {
    hide *;
    var d: nat := h * (2 * q + 1);
    HalfTurn(r, w, i, h, 2 * q + 1, e, f, d);
    OddTurn(r, w, h, q, d);
    OddPower(r, w, i, q, r.o.minus(a, b), e, g);
    OddSum(r, a, b, Power(r, w, e), Power(r, w, f), Power(r, w, d));
  }

  lemma OddSum<C(!new)>(r: Ring<C>, a: C, b: C, p: C, p': C, turn: C)
    requires IsRing(r) && p' == r.o.times(p, turn) && turn == MinusOne(r)
    ensures r.o.plus(r.o.times(a, p), r.o.times(b, p')) == r.o.times(r.o.minus(a, b), p)
  {
    hide *;
    TimesComm(r, p, turn);
    TimesAssoc(r, b, turn, p);
    TimesComm(r, b, turn);
    Distributes(r, a, r.o.times(turn, b), p);
    MinusIs(r, a, b);
  }

  lemma OddPower<C(!new)>(r: Ring<C>, w: C, i: nat, q: nat, d: C, e: nat, g: nat)
    requires IsRing(r) && e == i * (2 * q + 1) && g == i * q
    ensures r.o.times(d, Power(r, w, e)) == r.o.times(r.o.times(Power(r, w, i), d), Power(r, r.o.times(w, w), g))
  {
    hide *;
    PowerSquare(r, w, g);
    assert e == i + 2 * g;
    PowerAdd(r, w, i, 2 * g);
    TimesAssoc(r, d, Power(r, w, i), Power(r, w, 2 * g));
    TimesComm(r, d, Power(r, w, i));
  }

  // w[k] is a root of unity of order 2^k, each the square of the next, and u holds their powers as the
  // table of the program does.
  ghost predicate Roots<C>(r: Ring<C>, w: seq<C>, u: seq<C>, p: nat) {
    && |w| > p && Pow2(p) <= |u|
    && forall k :: 1 <= k <= p ==> RootAt(r, w, u, k)
  }

  ghost predicate RootAt<C>(r: Ring<C>, w: seq<C>, u: seq<C>, k: nat)
    requires 1 <= k < |w|
  {
    && r.o.times(w[k], w[k]) == w[k - 1]
    && Power(r, w[k], Pow2(k - 1)) == MinusOne(r)
    && forall i :: 0 <= i < Pow2(k - 1) ==> Pow2(k - 1) + i < |u| && u[Pow2(k - 1) + i] == Power(r, w[k], i)
  }

  lemma DftIs<C>(r: Ring<C>, w: C, s: seq<C>, q: nat)
    ensures Dft(r, w, s, q) == Total(r, Terms(r, w, s, q))
  {
  }

  lemma TermAt<C>(r: Ring<C>, w: C, s: seq<C>, q: nat, i: nat, k: nat)
    requires i < |s| && k == i * q
    ensures Terms(r, w, s, q)[i] == r.o.times(s[i], Power(r, w, k))
  {
  }

  lemma SumsAt<C>(o: Ops<C>, u: seq<C>, s: seq<C>, h: nat, i: nat)
    requires |s| == 2 * h && |s| <= |u| && i < h
    ensures Sums(o, s)[i] == o.plus(s[i], s[i + h])
    ensures Differences(o, u, s)[i] == o.times(u[h + i], o.minus(s[i], s[i + h]))
  {
  }

  lemma DftEven<C(!new)>(r: Ring<C>, w: seq<C>, u: seq<C>, s: seq<C>, p: nat, q: nat)
    requires IsRing(r) && Roots(r, w, u, p + 1) && |s| == Pow2(p + 1)
    ensures Dft(r, w[p + 1], s, 2 * q) == Dft(r, w[p], Sums(r.o, s), q)
  {
    hide *;
    RootFacts(r, w, u, p);
    var h, v := Pow2(p), w[p + 1];
    var t := Terms(r, w[p], Sums(r.o, s), q);
    forall i | 0 <= i < h
      ensures t[i] == r.o.plus(Terms(r, v, s, 2 * q)[i], Terms(r, v, s, 2 * q)[i + h])
    {
      EvenTerm(r, v, s[i], s[i + h], h, i, q, i * (2 * q), (i + h) * (2 * q), i * q);
      SumsAt(r.o, u, s, h, i);
      TermAt(r, w[p], Sums(r.o, s), q, i, i * q);
      TermAt(r, v, s, 2 * q, i, i * (2 * q));
      TermAt(r, v, s, 2 * q, i + h, (i + h) * (2 * q));
    }
    TermsSplit(r, v, s, h, 2 * q, t);
    DftIs(r, w[p], Sums(r.o, s), q);
  }

  lemma RootFacts<C>(r: Ring<C>, w: seq<C>, u: seq<C>, p: nat)
    requires Roots(r, w, u, p + 1)
    ensures |w| > p + 1 && Pow2(p + 1) == 2 * Pow2(p) && Pow2(p + 1) <= |u|
    ensures r.o.times(w[p + 1], w[p + 1]) == w[p] && Power(r, w[p + 1], Pow2(p)) == MinusOne(r)
  {
    assert RootAt(r, w, u, p + 1);
  }

  lemma TwiddleAt<C>(r: Ring<C>, w: seq<C>, u: seq<C>, p: nat, i: nat)
    requires Roots(r, w, u, p + 1) && i < Pow2(p)
    ensures |w| > p + 1 && Pow2(p) + i < |u| && u[Pow2(p) + i] == Power(r, w[p + 1], i)
  {
    assert RootAt(r, w, u, p + 1);
  }

  lemma DftOdd<C(!new)>(r: Ring<C>, w: seq<C>, u: seq<C>, s: seq<C>, p: nat, q: nat)
    requires IsRing(r) && Roots(r, w, u, p + 1) && |s| == Pow2(p + 1)
    ensures |s| / 2 + |s| / 2 <= |u|
    ensures Dft(r, w[p + 1], s, 2 * q + 1) == Dft(r, w[p], Differences(r.o, u, s), q)
  {
    hide *;
    RootFacts(r, w, u, p);
    var h, v := Pow2(p), w[p + 1];
    var t := Terms(r, w[p], Differences(r.o, u, s), q);
    forall i | 0 <= i < h
      ensures t[i] == r.o.plus(Terms(r, v, s, 2 * q + 1)[i], Terms(r, v, s, 2 * q + 1)[i + h])
    {
      OddTerm(r, v, s[i], s[i + h], h, i, q, i * (2 * q + 1), (i + h) * (2 * q + 1), i * q);
      TwiddleAt(r, w, u, p, i);
      SumsAt(r.o, u, s, h, i);
      TermAt(r, w[p], Differences(r.o, u, s), q, i, i * q);
      TermAt(r, v, s, 2 * q + 1, i, i * (2 * q + 1));
      TermAt(r, v, s, 2 * q + 1, i + h, (i + h) * (2 * q + 1));
    }
    TermsSplit(r, v, s, h, 2 * q + 1, t);
    DftIs(r, w[p], Differences(r.o, u, s), q);
  }

  // The recursive transform is the discrete Fourier transform.
  lemma {:induction false} DifIsDft<C(!new)>(r: Ring<C>, w: seq<C>, u: seq<C>, s: seq<C>, p: nat, q: nat)
    requires IsRing(r) && Roots(r, w, u, p) && |s| == Pow2(p) && q < Pow2(p)
    ensures Dif(r.o, u, s, p)[q] == Dft(r, w[p], s, q)
    decreases p
  {
    hide *;
    if p == 0 {
      RootsSize(r, w, u, 0);
      DifZero(r.o, u, s);
      DftOne(r, w[0], s);
    } else {
      RootsSize(r, w, u, p);
      FewerRoots(r, w, u, p - 1);
      DifParts(r.o, u, s, p - 1, q / 2);
      DftEven(r, w, u, s, p - 1, q / 2);
      DftOdd(r, w, u, s, p - 1, q / 2);
      DifIsDft(r, w, u, Sums(r.o, s), p - 1, q / 2);
      DifIsDft(r, w, u, Differences(r.o, u, s), p - 1, q / 2);
      assert q == 2 * (q / 2) || q == 2 * (q / 2) + 1;
    }
  }

  lemma FewerRoots<C>(r: Ring<C>, w: seq<C>, u: seq<C>, p: nat)
    requires Roots(r, w, u, p + 1)
    ensures Roots(r, w, u, p) && Pow2(p + 1) == 2 * Pow2(p)
  {
  }

  lemma RootsSize<C>(r: Ring<C>, w: seq<C>, u: seq<C>, p: nat)
    requires Roots(r, w, u, p)
    ensures |w| > p && Pow2(p) <= |u| && Pow2(0) == 1
  {
  }

  lemma DifZero<C>(o: Ops<C>, u: seq<C>, s: seq<C>)
    requires |s| == 1 <= |u|
    ensures Pow2(0) == 1 && Dif(o, u, s, 0) == s
  {
  }

  lemma DftOne<C(!new)>(r: Ring<C>, w: C, s: seq<C>)
    requires IsRing(r) && |s| == 1
    ensures Dft(r, w, s, 0) == s[0]
  {
    hide IsRing;
    var t := Terms(r, w, s, 0);
    TermAt(r, w, s, 0, 0, 0);
    TimesOne(r, s[0]);
    assert Power(r, w, 0) == r.one;
    assert t[0] == s[0];
    assert t[..|t| - 1] == [];
    assert Total(r, t[..|t| - 1]) == r.zero;
    PlusZero(r, s[0]);
  }
}
