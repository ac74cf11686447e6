// The transforms of the FT benchmark are discrete Fourier transforms when the arithmetic on elements
// is that of a commutative ring and the table holds powers of roots of unity.
module CfftzDft {

  import opened Powers
  import opened Elements
  import opened Fft
  import opened Cfftz

  ghost function BaseRing(ar: Arith, zero: Elt, one: Elt): Ring<Elt> {
    Ring(Ops(ar.add, ar.sub, ar.mul), zero, one)
  }

  ghost function ComplexRing(ar: Arith, zero: Elt, one: Elt): Ring<Complex> {
    Ring(ComplexOps(ar), Complex(zero, zero), Complex(one, zero))
  }

  // ----- more laws of rings -----

  lemma MinusZero<C(!new)>(r: Ring<C>, a: C)
    requires IsRing(r)
    ensures r.o.minus(a, r.zero) == a
  {
    hide *;
    MinusPlus(r, a, r.zero);
    PlusZero(r, r.o.minus(a, r.zero));
  }

  lemma TimesZero<C(!new)>(r: Ring<C>, a: C)
    requires IsRing(r)
    ensures r.o.times(a, r.zero) == r.zero
  {
    hide *;
    ZeroTimes(r, a);
    TimesComm(r, a, r.zero);
  }

  lemma TimesPlus<C(!new)>(r: Ring<C>, c: C, a: C, b: C)
    requires IsRing(r)
    ensures r.o.times(c, r.o.plus(a, b)) == r.o.plus(r.o.times(c, a), r.o.times(c, b))
  {
    hide *;
    Distributes(r, a, b, c);
    TimesComm(r, c, r.o.plus(a, b));
    TimesComm(r, c, a);
    TimesComm(r, c, b);
  }

  lemma MinusTimes<C(!new)>(r: Ring<C>, a: C, b: C, c: C)
    requires IsRing(r)
    ensures r.o.times(r.o.minus(a, b), c) == r.o.minus(r.o.times(a, c), r.o.times(b, c))
  {
    hide *;
    var m := MinusOne(r);
    MinusIs(r, a, b);
    Distributes(r, a, r.o.times(m, b), c);
    TimesAssoc(r, m, b, c);
    MinusIs(r, r.o.times(a, c), r.o.times(b, c));
  }

  lemma TimesMinus<C(!new)>(r: Ring<C>, c: C, a: C, b: C)
    requires IsRing(r)
    ensures r.o.times(c, r.o.minus(a, b)) == r.o.minus(r.o.times(c, a), r.o.times(c, b))
  {
    hide *;
    MinusTimes(r, a, b, c);
    TimesComm(r, c, r.o.minus(a, b));
    TimesComm(r, c, a);
    TimesComm(r, c, b);
  }

  // (a + b) - (c + d) == (a - c) + (b - d)
  lemma FourMinus<C(!new)>(r: Ring<C>, a: C, b: C, c: C, d: C)
    requires IsRing(r)
    ensures r.o.minus(r.o.plus(a, b), r.o.plus(c, d)) == r.o.plus(r.o.minus(a, c), r.o.minus(b, d))
  {
    hide *;
    var m := MinusOne(r);
    MinusIs(r, r.o.plus(a, b), r.o.plus(c, d));
    TimesPlus(r, m, c, d);
    FourPlus(r, a, b, r.o.times(m, c), r.o.times(m, d));
    MinusIs(r, a, c);
    MinusIs(r, b, d);
  }

  // (p - q) - (s + t) == (p - s) - (t + q)
  lemma MinusInTurn<C(!new)>(r: Ring<C>, p: C, q: C, s: C, t: C)
    requires IsRing(r)
    ensures r.o.minus(r.o.minus(p, q), r.o.plus(s, t)) == r.o.minus(r.o.minus(p, s), r.o.plus(t, q))
  {
    hide *;
    var m := MinusOne(r);
    var mq, ms, mt := r.o.times(m, q), r.o.times(m, s), r.o.times(m, t);
    MinusIs(r, p, q);
    MinusIs(r, p, s);
    MinusIs(r, r.o.minus(p, q), r.o.plus(s, t));
    MinusIs(r, r.o.minus(p, s), r.o.plus(t, q));
    TimesPlus(r, m, s, t);
    TimesPlus(r, m, t, q);
    FourPlus(r, p, mq, ms, mt);
    PlusComm(r, mt, mq);
  }

  // (p - q) + (s + t) == (p + s) + (t - q)
  lemma PlusInTurn<C(!new)>(r: Ring<C>, p: C, q: C, s: C, t: C)
    requires IsRing(r)
    ensures r.o.plus(r.o.minus(p, q), r.o.plus(s, t)) == r.o.plus(r.o.plus(p, s), r.o.minus(t, q))
  {
    hide *;
    var mq := r.o.times(MinusOne(r), q);
    MinusIs(r, p, q);
    MinusIs(r, t, q);
    FourPlus(r, p, mq, s, t);
    PlusComm(r, mq, t);
  }

  // ----- complex numbers over a commutative ring are one -----

  lemma ComplexSums(ar: Arith, zero: Elt, one: Elt, a: Complex, b: Complex, c: Complex)
    requires IsRing(BaseRing(ar, zero, one))
    ensures var o := ComplexOps(ar);
      && o.plus(a, b) == o.plus(b, a) && o.plus(o.plus(a, b), c) == o.plus(a, o.plus(b, c))
      && o.plus(a, Complex(zero, zero)) == a && o.plus(o.minus(a, b), b) == a
  {
    hide IsRing;
    var r := BaseRing(ar, zero, one);
    PlusComm(r, a.re, b.re);
    PlusComm(r, a.im, b.im);
    PlusAssoc(r, a.re, b.re, c.re);
    PlusAssoc(r, a.im, b.im, c.im);
    PlusZero(r, a.re);
    PlusZero(r, a.im);
    MinusPlus(r, a.re, b.re);
    MinusPlus(r, a.im, b.im);
  }

  lemma ComplexTimes(ar: Arith, zero: Elt, one: Elt, a: Complex, b: Complex)
    requires IsRing(BaseRing(ar, zero, one))
    ensures ComplexOps(ar).times(a, b) == ComplexOps(ar).times(b, a)
    ensures ComplexOps(ar).times(a, Complex(one, zero)) == a
  {
    hide IsRing;
    var r := BaseRing(ar, zero, one);
    TimesComm(r, a.re, b.re);
    TimesComm(r, a.im, b.im);
    TimesComm(r, a.re, b.im);
    TimesComm(r, a.im, b.re);
    PlusComm(r, ar.mul(a.re, b.im), ar.mul(a.im, b.re));
    TimesOne(r, a.re);
    TimesOne(r, a.im);
    TimesZero(r, a.re);
    TimesZero(r, a.im);
    MinusZero(r, a.re);
    PlusZero(r, a.im);
  }

  lemma ComplexDistributes(ar: Arith, zero: Elt, one: Elt, a: Complex, b: Complex, c: Complex)
    requires IsRing(BaseRing(ar, zero, one))
    ensures var o := ComplexOps(ar); o.times(o.plus(a, b), c) == o.plus(o.times(a, c), o.times(b, c))
  {
    hide IsRing;
    var r := BaseRing(ar, zero, one);
    Distributes(r, a.re, b.re, c.re);
    Distributes(r, a.im, b.im, c.im);
    Distributes(r, a.re, b.re, c.im);
    Distributes(r, a.im, b.im, c.re);
    FourMinus(r, ar.mul(a.re, c.re), ar.mul(b.re, c.re), ar.mul(a.im, c.im), ar.mul(b.im, c.im));
    FourPlus(r, ar.mul(a.re, c.im), ar.mul(b.re, c.im), ar.mul(a.im, c.re), ar.mul(b.im, c.re));
  }

  // The real parts of (a b) c and a (b c), written out over the ring below.
  lemma RealParts<C(!new)>(r: Ring<C>, a: C, a': C, b: C, b': C, c: C, c': C)
    requires IsRing(r)
    ensures var o := r.o;
      o.minus(o.times(o.minus(o.times(a, b), o.times(a', b')), c),
              o.times(o.plus(o.times(a, b'), o.times(a', b)), c'))
      == o.minus(o.times(a, o.minus(o.times(b, c), o.times(b', c'))),
                 o.times(a', o.plus(o.times(b, c'), o.times(b', c))))
  {
    hide *;
    var o := r.o;
    MinusTimes(r, o.times(a, b), o.times(a', b'), c);
    Distributes(r, o.times(a, b'), o.times(a', b), c');
    TimesMinus(r, a, o.times(b, c), o.times(b', c'));
    TimesPlus(r, a', o.times(b, c'), o.times(b', c));
    TimesAssoc(r, a, b, c);
    TimesAssoc(r, a', b', c);
    TimesAssoc(r, a, b', c');
    TimesAssoc(r, a', b, c');
    MinusInTurn(r, o.times(a, o.times(b, c)), o.times(a', o.times(b', c)), o.times(a, o.times(b', c')),
                o.times(a', o.times(b, c')));
  }

  lemma ImaginaryParts<C(!new)>(r: Ring<C>, a: C, a': C, b: C, b': C, c: C, c': C)
    requires IsRing(r)
    ensures var o := r.o;
      o.plus(o.times(o.minus(o.times(a, b), o.times(a', b')), c'),
             o.times(o.plus(o.times(a, b'), o.times(a', b)), c))
      == o.plus(o.times(a, o.plus(o.times(b, c'), o.times(b', c))),
                o.times(a', o.minus(o.times(b, c), o.times(b', c'))))
  {
    hide *;
    var o := r.o;
    MinusTimes(r, o.times(a, b), o.times(a', b'), c');
    Distributes(r, o.times(a, b'), o.times(a', b), c);
    TimesPlus(r, a, o.times(b, c'), o.times(b', c));
    TimesMinus(r, a', o.times(b, c), o.times(b', c'));
    TimesAssoc(r, a, b, c');
    TimesAssoc(r, a', b', c');
    TimesAssoc(r, a, b', c);
    TimesAssoc(r, a', b, c);
    PlusInTurn(r, o.times(a, o.times(b, c')), o.times(a', o.times(b', c')), o.times(a, o.times(b', c)),
               o.times(a', o.times(b, c)));
  }

  lemma ComplexAssoc(ar: Arith, zero: Elt, one: Elt, a: Complex, b: Complex, c: Complex)
    requires IsRing(BaseRing(ar, zero, one))
    ensures var o := ComplexOps(ar); o.times(o.times(a, b), c) == o.times(a, o.times(b, c))
  {
    hide IsRing;
    var r := BaseRing(ar, zero, one);
    RealParts(r, a.re, a.im, b.re, b.im, c.re, c.im);
    ImaginaryParts(r, a.re, a.im, b.re, b.im, c.re, c.im);
  }

  lemma RingFrom<C(!new)>(r: Ring<C>)
    requires forall a, b :: r.o.plus(a, b) == r.o.plus(b, a)
    requires forall a, b, c :: r.o.plus(r.o.plus(a, b), c) == r.o.plus(a, r.o.plus(b, c))
    requires forall a :: r.o.plus(a, r.zero) == a
    requires forall a, b :: r.o.plus(r.o.minus(a, b), b) == a
    requires forall a, b :: r.o.times(a, b) == r.o.times(b, a)
    requires forall a, b, c :: r.o.times(r.o.times(a, b), c) == r.o.times(a, r.o.times(b, c))
    requires forall a :: r.o.times(a, r.one) == a
    requires forall a, b, c :: r.o.times(r.o.plus(a, b), c) == r.o.plus(r.o.times(a, c), r.o.times(b, c))
    ensures IsRing(r)
  {
  }

  // Complex arithmetic as the butterflies write it out is that of a commutative ring.
  lemma ComplexIsRing(ar: Arith, zero: Elt, one: Elt)
    requires IsRing(BaseRing(ar, zero, one))
    ensures IsRing(ComplexRing(ar, zero, one))
  {
    hide IsRing, ComplexOps, BaseRing;
    var r := ComplexRing(ar, zero, one);
    var o, z := r.o, r.zero;
    forall a, b ensures o.plus(a, b) == o.plus(b, a) { ComplexSums(ar, zero, one, a, b, z); }
    forall a, b, c ensures o.plus(o.plus(a, b), c) == o.plus(a, o.plus(b, c)) {
      ComplexSums(ar, zero, one, a, b, c);
    }
    forall a ensures o.plus(a, z) == a { ComplexSums(ar, zero, one, a, z, z); }
    forall a, b ensures o.plus(o.minus(a, b), b) == a { ComplexSums(ar, zero, one, a, b, z); }
    forall a, b ensures o.times(a, b) == o.times(b, a) { ComplexTimes(ar, zero, one, a, b); }
    forall a, b, c ensures o.times(o.times(a, b), c) == o.times(a, o.times(b, c)) {
      ComplexAssoc(ar, zero, one, a, b, c);
    }
    forall a ensures o.times(a, r.one) == a { ComplexTimes(ar, zero, one, a, z); }
    forall a, b, c ensures o.times(o.plus(a, b), c) == o.plus(o.times(a, c), o.times(b, c)) {
      ComplexDistributes(ar, zero, one, a, b, c);
    }
    RingFrom(r);
  }

  // ----- the table and the transform -----

  // w[k] is the complex number that cosine and sine give for the angle pi / 2^(k-1): a primitive
  // 2^k-th root of unity, the square root of the one before, and its powers are the other factors.
  ghost predicate TwiddleRoot(ring: Ring<Complex>, w: seq<Complex>, fl: real -> real, cosOf: real -> Elt,
                              sinOf: real -> Elt, pi: real, k: nat)
    requires 1 <= k < |w|
  {
    && ring.o.times(w[k], w[k]) == w[k - 1]
    && Power(ring, w[k], Pow2(k - 1)) == MinusOne(ring)
    && forall i :: 0 <= i < Pow2(k - 1) ==> Twiddle(fl, cosOf, sinOf, pi, Pow2(k - 1), i) == Power(ring, w[k], i)
  }

  ghost predicate TwiddleRoots(ring: Ring<Complex>, w: seq<Complex>, fl: real -> real, cosOf: real -> Elt,
                               sinOf: real -> Elt, pi: real, m: nat)
  {
    |w| > m && forall k :: 1 <= k <= m ==> TwiddleRoot(ring, w, fl, cosOf, sinOf, pi, k)
  }

  // Then the table that FftInit makes serves the transforms of every length up to its own.
  lemma LevelsAreRoots(ring: Ring<Complex>, w: seq<Complex>, u: seq<Complex>, fl: real -> real, cosOf: real -> Elt,
                       sinOf: real -> Elt, pi: real, mx: nat, m: nat)
    requires m <= mx && Pow2(mx) <= |u| && TwiddleRoots(ring, w, fl, cosOf, sinOf, pi, mx)
    requires forall j :: 1 <= j <= mx ==> Level(u, fl, cosOf, sinOf, pi, j)
    ensures Roots(ring, w, u, m)
  {
    hide Twiddle, Power;
    Pow2Mono(m, mx);
    forall k | 1 <= k <= m ensures RootAt(ring, w, u, k) {
      assert TwiddleRoot(ring, w, fl, cosOf, sinOf, pi, k) && Level(u, fl, cosOf, sinOf, pi, k);
    }
  }

  lemma ForwardTable(u: seq<Complex>, n: nat)
    ensures Table(1, u, n) == u
  {
  }

  // Initialised with such factors, the transform leaves the discrete Fourier transform of every column.
  method InitAndTransform(ar: Arith, fl: real -> real, cosOf: real -> Elt, sinOf: real -> Elt, fromInt: nat -> Elt,
                          toInt: Elt -> int, pi: real, ghost mx: nat, nmax: nat, m: nat, n: nat, ny: nat,
                          u: array<Complex>, x: array2<Complex>, y: array2<Complex>,
                          ghost one: Elt, ghost zero: Elt, ghost w: seq<Complex>)
    requires 1 <= m <= mx && n == Pow2(m) && nmax == Pow2(mx) <= u.Length && toInt(fromInt(mx)) == mx
    requires x != y && n <= x.Length0 && n <= y.Length0 && ny <= x.Length1 && ny <= y.Length1
    requires IsRing(BaseRing(ar, zero, one))
    requires TwiddleRoots(ComplexRing(ar, zero, one), w, fl, cosOf, sinOf, pi, mx)
    modifies x, y, u
    ensures |w| > m
    ensures forall j, q :: 0 <= j < ny && 0 <= q < n ==>
      Block(x, j, n)[q] == Dft(ComplexRing(ar, zero, one), w[m], old(Block(x, j, n)), q)
  {
    Pow2Mono(m, mx);
    FftInit(nmax, u, fl, cosOf, sinOf, fromInt, pi, mx);
    ghost var ring := ComplexRing(ar, zero, one);
    LevelsAreRoots(ring, w, u[..], fl, cosOf, sinOf, pi, mx, m);
    ComplexIsRing(ar, zero, one);
    ForwardTable(u[..], n);
    var ok := Transform(ar, toInt, 1, m, n, ny, u, x, y);
    forall j, q | 0 <= j < ny && 0 <= q < n
      ensures Block(x, j, n)[q] == Dft(ring, w[m], old(Block(x, j, n)), q)
    {
      DifIsDft(ring, w, u[..], old(Block(x, j, n)), m, q);
    }
  }

  lemma TurnedBack(u: seq<Complex>, n: nat)
    ensures Table(-1, Table(-1, u, n), n) == u
  {
    forall c: Complex ensures Turned(-1, Turned(-1, c)) == c { MinusTwice(c.im); }
  }

  // ----- cosine and sine -----

  // The addition theorems for two angles, over the elements.
  ghost predicate AddsUp(r: Ring<Elt>, cosOf: real -> Elt, sinOf: real -> Elt, x: real, y: real) {
    && cosOf(x + y) == r.o.minus(r.o.times(cosOf(x), cosOf(y)), r.o.times(sinOf(x), sinOf(y)))
    && sinOf(x + y) == r.o.plus(r.o.times(sinOf(x), cosOf(y)), r.o.times(cosOf(x), sinOf(y)))
  }

  ghost predicate Trigonometry(r: Ring<Elt>, cosOf: real -> Elt, sinOf: real -> Elt, pi: real) {
    && (forall x, y :: AddsUp(r, cosOf, sinOf, x, y))
    && cosOf(0.0) == r.one && sinOf(0.0) == r.zero && cosOf(pi) == MinusOne(r) && sinOf(pi) == r.zero
  }

  // The point at angle x on the unit circle.
  function Turn(cosOf: real -> Elt, sinOf: real -> Elt, x: real): Complex {
    Complex(cosOf(x), sinOf(x))
  }

  // i times the angle x.
  ghost function Multiple(i: nat, x: real): real {
    i as real * x
  }

  ghost function Part(pi: real, n: nat): real
    requires n > 0
  {
    pi / n as real
  }

  lemma MultipleNext(i: nat, x: real)
    ensures Multiple(0, x) == 0.0 && Multiple(i + 1, x) == x + Multiple(i, x)
  {
  }

  lemma WholePart(pi: real, n: nat)
    requires n > 0
    ensures Multiple(n, Part(pi, n)) == pi
  {
  }

  lemma HalfPart(pi: real, n: nat)
    requires n > 0
    ensures Part(pi, 2 * n) + Part(pi, 2 * n) == Part(pi, n)
  {
  }

  lemma TurnAdd(ar: Arith, zero: Elt, one: Elt, cosOf: real -> Elt, sinOf: real -> Elt, pi: real, x: real, y: real)
    requires IsRing(BaseRing(ar, zero, one)) && Trigonometry(BaseRing(ar, zero, one), cosOf, sinOf, pi)
    ensures ComplexOps(ar).times(Turn(cosOf, sinOf, x), Turn(cosOf, sinOf, y)) == Turn(cosOf, sinOf, x + y)
  {
    hide IsRing;
    var r := BaseRing(ar, zero, one);
    assert AddsUp(r, cosOf, sinOf, x, y);
    PlusComm(r, ar.mul(sinOf(x), cosOf(y)), ar.mul(cosOf(x), sinOf(y)));
  }

  lemma TurnEnds(ar: Arith, zero: Elt, one: Elt, cosOf: real -> Elt, sinOf: real -> Elt, pi: real)
    requires IsRing(BaseRing(ar, zero, one)) && Trigonometry(BaseRing(ar, zero, one), cosOf, sinOf, pi)
    ensures Turn(cosOf, sinOf, 0.0) == ComplexRing(ar, zero, one).one
    ensures Turn(cosOf, sinOf, pi) == MinusOne(ComplexRing(ar, zero, one))
  {
    hide IsRing;
    MinusZero(BaseRing(ar, zero, one), zero);
  }

  // De Moivre's formula.
  lemma {:induction false} TurnPower(ar: Arith, zero: Elt, one: Elt, cosOf: real -> Elt, sinOf: real -> Elt, pi: real,
                                     x: real, i: nat)
    requires IsRing(BaseRing(ar, zero, one)) && Trigonometry(BaseRing(ar, zero, one), cosOf, sinOf, pi)
    ensures Power(ComplexRing(ar, zero, one), Turn(cosOf, sinOf, x), i) == Turn(cosOf, sinOf, Multiple(i, x))
  {
    hide IsRing, Trigonometry, Turn, Multiple, ComplexOps;
    if i == 0 {
      MultipleNext(0, x);
      TurnEnds(ar, zero, one, cosOf, sinOf, pi);
    } else {
      TurnPower(ar, zero, one, cosOf, sinOf, pi, x, i - 1);
      MultipleNext(i - 1, x);
      TurnAdd(ar, zero, one, cosOf, sinOf, pi, x, Multiple(i - 1, x));
    }
  }

  // The twiddle factors of the table are the multiples of the angle pi / ln.
  lemma TwiddleTurns(fl: real -> real, cosOf: real -> Elt, sinOf: real -> Elt, pi: real, ln: nat, i: nat)
    requires ln > 0 && forall x: real :: fl(x) == x
    ensures Twiddle(fl, cosOf, sinOf, pi, ln, i) == Turn(cosOf, sinOf, Multiple(i, Part(pi, ln)))
  {
    var t := fl(pi / ln as real);
    assert t == Part(pi, ln);
    assert Angle(fl, t, i) == Multiple(i, t);
  }

  // The root of level k, for the angle pi / 2^(k-1).
  ghost predicate TurnRoots(ring: Ring<Complex>, w: seq<Complex>, cosOf: real -> Elt, sinOf: real -> Elt, pi: real) {
    && |w| > 0 && w[0] == ring.one
    && forall k :: 1 <= k < |w| ==> w[k] == Turn(cosOf, sinOf, Part(pi, Pow2(k - 1)))
  }

  lemma TurnsAreRoots(ar: Arith, zero: Elt, one: Elt, fl: real -> real, cosOf: real -> Elt, sinOf: real -> Elt,
                      pi: real, w: seq<Complex>, k: nat)
    requires IsRing(BaseRing(ar, zero, one)) && Trigonometry(BaseRing(ar, zero, one), cosOf, sinOf, pi)
    requires TurnRoots(ComplexRing(ar, zero, one), w, cosOf, sinOf, pi) && 1 <= k < |w|
    requires forall x: real :: fl(x) == x
    ensures TwiddleRoot(ComplexRing(ar, zero, one), w, fl, cosOf, sinOf, pi, k)
  {
    hide IsRing, Trigonometry, Turn, Multiple, Part, ComplexOps, Twiddle, Power, Pow2, MinusOne;
    var ring, n := ComplexRing(ar, zero, one), Pow2(k - 1);
    var x := Part(pi, n);
    TurnPower(ar, zero, one, cosOf, sinOf, pi, x, n);
    WholePart(pi, n);
    TurnEnds(ar, zero, one, cosOf, sinOf, pi);
    forall i | 0 <= i < n ensures Twiddle(fl, cosOf, sinOf, pi, n, i) == Power(ring, w[k], i) {
      TwiddleTurns(fl, cosOf, sinOf, pi, n, i);
      TurnPower(ar, zero, one, cosOf, sinOf, pi, x, i);
    }
    SquareRoot(ar, zero, one, cosOf, sinOf, pi, w, k);
  }

  lemma SquareRoot(ar: Arith, zero: Elt, one: Elt, cosOf: real -> Elt, sinOf: real -> Elt, pi: real,
                   w: seq<Complex>, k: nat)
    requires IsRing(BaseRing(ar, zero, one)) && Trigonometry(BaseRing(ar, zero, one), cosOf, sinOf, pi)
    requires TurnRoots(ComplexRing(ar, zero, one), w, cosOf, sinOf, pi) && 1 <= k < |w|
    ensures ComplexRing(ar, zero, one).o.times(w[k], w[k]) == w[k - 1]
  {
    hide IsRing, Trigonometry, Turn, Part, ComplexOps, Pow2, MinusOne;
    if k == 1 {
      HalfTurnIsPi(pi);
      TurnEnds(ar, zero, one, cosOf, sinOf, pi);
      ComplexIsRing(ar, zero, one);
      MinusOneSquared(ComplexRing(ar, zero, one));
    } else {
      Pow2Double(k - 2);
      var x := Part(pi, Pow2(k - 1));
      TurnAdd(ar, zero, one, cosOf, sinOf, pi, x, x);
      HalfPart(pi, Pow2(k - 2));
    }
  }

  lemma HalfTurnIsPi(pi: real)
    ensures Part(pi, Pow2(0)) == pi
  {
  }

  ghost function Columns(x: array2<Complex>, n: nat, ny: nat): (f: seq<seq<Complex>>)
    requires n <= x.Length0 && ny <= x.Length1
    reads x
    ensures |f| == ny && forall j :: 0 <= j < ny ==> f[j] == Block(x, j, n)
  {
    seq(ny, j requires 0 <= j < ny reads x => Block(x, j, n))
  }

  // Every column of g is the discrete Fourier transform of the column of f.
  ghost predicate AreDfts(ring: Ring<Complex>, root: Complex, f: seq<seq<Complex>>, g: seq<seq<Complex>>) {
    && |g| == |f|
    && forall j :: 0 <= j < |f| ==>
         |g[j]| == |f[j]| && forall q :: 0 <= q < |f[j]| ==> g[j][q] == Dft(ring, root, f[j], q)
  }

  // Initialised with cosine and sine, the transform leaves the discrete Fourier transform of every
  // column with the root at the angle pi / 2^(m-1), which is the n-th part of the whole circle.
  method TransformColumns(ar: Arith, fl: real -> real, cosOf: real -> Elt, sinOf: real -> Elt, fromInt: nat -> Elt,
                          toInt: Elt -> int, pi: real, ghost mx: nat, nmax: nat, m: nat, n: nat, ny: nat,
                          u: array<Complex>, x: array2<Complex>, y: array2<Complex>, ghost one: Elt, ghost zero: Elt)
    requires 1 <= m <= mx && n == Pow2(m) && nmax == Pow2(mx) <= u.Length && toInt(fromInt(mx)) == mx
    requires x != y && n <= x.Length0 && n <= y.Length0 && ny <= x.Length1 && ny <= y.Length1
    requires IsRing(BaseRing(ar, zero, one)) && Trigonometry(BaseRing(ar, zero, one), cosOf, sinOf, pi)
    requires forall v: real :: fl(v) == v
    modifies x, y, u
    ensures AreDfts(ComplexRing(ar, zero, one), Turn(cosOf, sinOf, Part(pi, Pow2(m - 1))),
                    old(Columns(x, n, ny)), Columns(x, n, ny))
  {
    hide *;
    ghost var before := Columns(x, n, ny);
    ghost var w := TurnSequence(ar, zero, one, cosOf, sinOf, pi, mx);
    TurnsMake(ar, zero, one, fl, cosOf, sinOf, pi, w, mx);
    RootIs(ComplexRing(ar, zero, one), w, cosOf, sinOf, pi, m);
    InitAndTransform(ar, fl, cosOf, sinOf, fromInt, toInt, pi, mx, nmax, m, n, ny, u, x, y, one, zero, w);
    ghost var ring, root := ComplexRing(ar, zero, one), Turn(cosOf, sinOf, Part(pi, Pow2(m - 1)));
    ghost var after := Columns(x, n, ny);
    forall j, q | 0 <= j < ny && 0 <= q < n ensures after[j][q] == Dft(ring, root, before[j], q) {
      assert after[j] == Block(x, j, n);
    }
    AreDftsFrom(ring, root, before, after, n);
  }

  lemma AreDftsFrom(ring: Ring<Complex>, root: Complex, f: seq<seq<Complex>>, g: seq<seq<Complex>>, n: nat)
    requires |g| == |f| && forall j :: 0 <= j < |f| ==> |g[j]| == |f[j]| == n
    requires forall j, q :: 0 <= j < |f| && 0 <= q < n ==> g[j][q] == Dft(ring, root, f[j], q)
    ensures AreDfts(ring, root, f, g)
  {
    hide Dft;
  }

  ghost function TurnSequence(ar: Arith, zero: Elt, one: Elt, cosOf: real -> Elt, sinOf: real -> Elt, pi: real,
                              m: nat): (w: seq<Complex>)
    ensures |w| == m + 1 && TurnRoots(ComplexRing(ar, zero, one), w, cosOf, sinOf, pi)
  {
    seq(m + 1, k requires 0 <= k <= m =>
      if k == 0 then Complex(one, zero) else Turn(cosOf, sinOf, Part(pi, Pow2(k - 1))))
  }

  lemma TurnsMake(ar: Arith, zero: Elt, one: Elt, fl: real -> real, cosOf: real -> Elt, sinOf: real -> Elt,
                  pi: real, w: seq<Complex>, m: nat)
    requires IsRing(BaseRing(ar, zero, one)) && Trigonometry(BaseRing(ar, zero, one), cosOf, sinOf, pi)
    requires TurnRoots(ComplexRing(ar, zero, one), w, cosOf, sinOf, pi) && |w| == m + 1
    requires forall x: real :: fl(x) == x
    ensures TwiddleRoots(ComplexRing(ar, zero, one), w, fl, cosOf, sinOf, pi, m)
  {
    hide IsRing, Trigonometry, TurnRoots, TwiddleRoot;
    forall k | 1 <= k <= m ensures TwiddleRoot(ComplexRing(ar, zero, one), w, fl, cosOf, sinOf, pi, k) {
      TurnsAreRoots(ar, zero, one, fl, cosOf, sinOf, pi, w, k);
    }
  }

  lemma RootIs(ring: Ring<Complex>, w: seq<Complex>, cosOf: real -> Elt, sinOf: real -> Elt, pi: real, m: nat)
    requires TurnRoots(ring, w, cosOf, sinOf, pi) && 1 <= m < |w|
    ensures w[m] == Turn(cosOf, sinOf, Part(pi, Pow2(m - 1)))
  {
  }

  // ----- the inverse transform -----

  const NAR := Elt(0x8000_0000)

  // On posits NaR is absorbing.
  ghost predicate Absorbs(op: (Elt, Elt) -> Elt) {
    forall a :: op(NAR, a) == NAR && op(a, NAR) == NAR
  }

  ghost predicate AllAbsorb(ar: Arith) {
    Absorbs(ar.add) && Absorbs(ar.sub) && Absorbs(ar.mul)
  }

  predicate Lost(c: Complex) {
    c == Complex(NAR, NAR)
  }

  // Both parts are lost if an operand is, or if the imaginary part of a twiddle factor is NaR.
  lemma LostSpreads(ar: Arith, u: Complex, a: Complex, b: Complex)
    requires AllAbsorb(ar)
    ensures var o := ComplexOps(ar);
      && (Lost(a) || Lost(b) ==> Lost(o.plus(a, b)) && Lost(o.minus(a, b)))
      && (Lost(a) || u.im == NAR ==> Lost(o.times(u, a)))
  {
  }

  // One lost input loses every output.
  lemma {:induction false} AllLost(ar: Arith, u: seq<Complex>, s: seq<Complex>, p: nat, i: nat, q: nat)
    requires AllAbsorb(ar) && |s| == Pow2(p) && |s| <= |u| && i < |s| && Lost(s[i]) && q < |s|
    ensures Lost(Dif(ComplexOps(ar), u, s, p)[q])
    decreases p
  {
    hide AllAbsorb, ComplexOps, Lost, Sums, Differences, Dif;
    var o := ComplexOps(ar);
    if p == 0 {
      DifOfOne(o, u, s);
    } else {
      var h := Pow2(p - 1);
      var k := if i < h then i else i - h;
      SumsAt(o, u, s, h, k);
      LostSpreads(ar, u[h + k], s[k], s[k + h]);
      LostSpreads(ar, u[h + k], o.minus(s[k], s[k + h]), s[k]);
      DifParts(o, u, s, p - 1, q / 2);
      AllLost(ar, u, if q % 2 == 0 then Sums(o, s) else Differences(o, u, s), p - 1, k, q / 2);
    }
  }

  lemma DifOfOne<C>(o: Ops<C>, u: seq<C>, s: seq<C>)
    requires |s| == 1 <= |u|
    ensures Dif(o, u, s, 0) == s
  {
  }

  // Output q of 2^p takes the differences on level k + 1 if this bit of it is set.
  predicate TakesDifference(q: nat, p: nat, k: nat)
    requires k < p
  {
    q / Pow2(p - 1 - k) % 2 == 1
  }

  // If the imaginary part of the first twiddle factor of a level is NaR, every output is lost that
  // takes the differences on this level.
  lemma {:induction false} LevelLost(ar: Arith, u: seq<Complex>, s: seq<Complex>, p: nat, k: nat, q: nat)
    requires AllAbsorb(ar) && |s| == Pow2(p) && |s| <= |u| && k < p && q < |s|
    requires Pow2(k) < |u| && u[Pow2(k)].im == NAR && TakesDifference(q, p, k)
    ensures Lost(Dif(ComplexOps(ar), u, s, p)[q])
    decreases p
  {
    hide AllAbsorb, ComplexOps, Lost, Sums, Differences, Dif;
    var o := ComplexOps(ar);
    var h := Pow2(p - 1);
    DifParts(o, u, s, p - 1, q / 2);
    if k == p - 1 {
      SumsAt(o, u, s, h, 0);
      LostSpreads(ar, u[h], o.minus(s[0], s[h]), s[0]);
      AllLost(ar, u, Differences(o, u, s), p - 1, 0, q / 2);
    } else {
      HalvedBit(q, p, k);
      LevelLost(ar, u, if q % 2 == 0 then Sums(o, s) else Differences(o, u, s), p - 1, k, q / 2);
    }
  }

  lemma HalvedBit(q: nat, p: nat, k: nat)
    requires k < p - 1 && TakesDifference(q, p, k)
    ensures TakesDifference(q / 2, p - 1, k)
  {
    var d := Pow2(p - 2 - k);
    assert Pow2(p - 1 - k) == 2 * d;
    HalveTwice(q, d);
  }

  lemma HalveTwice(q: nat, d: nat)
    requires d > 0
    ensures q / 2 / d == q / (2 * d)
  {
    DivMod(q, 2 * d);
    var a, r := q / (2 * d), q % (2 * d);
    assert 2 * (a * d) == a * (2 * d);
    assert q / 2 == a * d + r / 2;
    DivModUnique(q / 2, d, a, r / 2);
  }

  // Every output but the first takes the differences on some level.
  lemma {:induction false} SomeLevel(q: nat, p: nat) returns (k: nat)
    requires 0 < q < Pow2(p)
    ensures k < p && TakesDifference(q, p, k)
    decreases p
  {
    if q % 2 == 1 {
      k := p - 1;
    } else {
      k := SomeLevel(q / 2, p - 1);
      HalveTwice(q, Pow2(p - 2 - k));
    }
  }

  // The table after a run of transforms, each with its direction and its length.
  ghost function TableAfter(u: seq<Complex>, calls: seq<(int, nat)>): (v: seq<Complex>)
    ensures |v| == |u|
  {
    if calls == [] then u
    else Table(calls[|calls| - 1].0, TableAfter(u, calls[..|calls| - 1]), calls[|calls| - 1].1)
  }

  // How many of them are inverse transforms that reach place i.
  function Flips(calls: seq<(int, nat)>, i: nat): nat {
    if calls == [] then 0
    else
      Flips(calls[..|calls| - 1], i)
      + if calls[|calls| - 1].0 < 1 && i < calls[|calls| - 1].1 then 1 else 0
  }

  // A factor is flipped exactly after an odd number of them.
  lemma {:induction false} FlippedAfter(u: seq<Complex>, calls: seq<(int, nat)>, i: nat)
    requires 1 <= i < |u|
    ensures TableAfter(u, calls)[i] == if Flips(calls, i) % 2 == 1 then Turned(-1, u[i]) else u[i]
  {
    if calls != [] {
      FlippedAfter(u, calls[..|calls| - 1], i);
      MinusTwice(u[i].im);
    }
  }

  // The lengths are powers of two, so the factors of one level are flipped together.
  ghost predicate PowerCalls(calls: seq<(int, nat)>) {
    forall c :: c in calls ==> exists m: nat :: c.1 == Pow2(m)
  }

  lemma {:induction false} LevelFlips(calls: seq<(int, nat)>, k: nat, i: nat)
    requires PowerCalls(calls) && i < Pow2(k)
    ensures Flips(calls, Pow2(k) + i) == Flips(calls, Pow2(k))
  {
    if calls != [] {
      var last := calls[|calls| - 1];
      assert last in calls;
      var m: nat :| last.1 == Pow2(m);
      if m <= k { Pow2Mono(m, k); } else { Pow2Mono(k + 1, m); }
      LevelFlips(calls[..|calls| - 1], k, i);
    }
  }

  // The first factor of every level has imaginary part sin(0), which is zero.
  ghost predicate ZeroSines(u: seq<Complex>, m: nat) {
    forall k: nat :: k < m ==> Pow2(k) < |u| && u[Pow2(k)].im == ZERO
  }

  lemma InitZeroSines(u: seq<Complex>, fl: real -> real, cosOf: real -> Elt, sinOf: real -> Elt, pi: real, m: nat)
    requires fl(0.0) == 0.0 && sinOf(0.0) == ZERO
    requires forall j :: 1 <= j <= m ==> Level(u, fl, cosOf, sinOf, pi, j)
    ensures ZeroSines(u, m)
  {
    forall k: nat | k < m ensures Pow2(k) < |u| && u[Pow2(k)].im == ZERO {
      assert Level(u, fl, cosOf, sinOf, pi, k + 1);
      FirstTwiddle(fl, cosOf, sinOf, pi, Pow2(k));
    }
  }

  lemma FirstTwiddle(fl: real -> real, cosOf: real -> Elt, sinOf: real -> Elt, pi: real, ln: nat)
    requires ln > 0 && fl(0.0) == 0.0 && sinOf(0.0) == ZERO
    ensures Twiddle(fl, cosOf, sinOf, pi, ln, 0).im == ZERO
  {
    assert 0 as real * fl(pi / ln as real) == 0.0;
  }

  // Two tables with the same factors on level k + 1.
  ghost predicate LevelAgrees<C>(u: seq<C>, v: seq<C>, k: nat) {
    2 * Pow2(k) <= |u| == |v| && forall i :: Pow2(k) <= i < 2 * Pow2(k) ==> u[i] == v[i]
  }

  // The transform looks at the factors of its levels only.
  lemma {:induction false} SameFactors<C>(o: Ops<C>, u: seq<C>, v: seq<C>, s: seq<C>, m: nat)
    requires |s| == Pow2(m) && |s| <= |u| == |v|
    requires forall k: nat :: k < m ==> LevelAgrees(u, v, k)
    ensures Dif(o, u, s, m) == Dif(o, v, s, m)
    decreases m
  {
    if m > 0 {
      SameFactors(o, u, v, Sums(o, s), m - 1);
      assert LevelAgrees(u, v, m - 1);
      assert Differences(o, u, s) == Differences(o, v, s);
      SameFactors(o, u, v, Differences(o, u, s), m - 1);
    }
  }

  ghost predicate Even(calls: seq<(int, nat)>, k: nat) {
    Flips(calls, Pow2(k)) % 2 == 0
  }

  lemma LevelBack(u0: seq<Complex>, calls: seq<(int, nat)>, m: nat, k: nat)
    requires k < m && Pow2(m) <= |u0| && PowerCalls(calls) && Even(calls, k)
    ensures LevelAgrees(TableAfter(u0, calls), u0, k)
  {
    hide TableAfter, Flips, PowerCalls;
    Pow2Mono(k + 1, m);
    forall i | Pow2(k) <= i < 2 * Pow2(k) ensures TableAfter(u0, calls)[i] == u0[i] {
      LevelFlips(calls, k, i - Pow2(k));
      FlippedAfter(u0, calls, i);
    }
  }

  // If every level has been flipped an even number of times, the factors are the initial ones again.
  lemma ForwardAgain(ar: Arith, u0: seq<Complex>, calls: seq<(int, nat)>, s: seq<Complex>, m: nat)
    requires |s| == Pow2(m) && |s| <= |u0| && PowerCalls(calls)
    requires forall k: nat :: k < m ==> Even(calls, k)
    ensures Dif(ComplexOps(ar), TableAfter(u0, calls), s, m) == Dif(ComplexOps(ar), u0, s, m)
  {
    hide *;
    forall k: nat | k < m ensures LevelAgrees(TableAfter(u0, calls), u0, k) { LevelBack(u0, calls, m, k); }
    SameFactors(ComplexOps(ar), TableAfter(u0, calls), u0, s, m);
  }

  // A level that has been flipped an odd number of times loses outputs.
  lemma OddLoses(ar: Arith, u0: seq<Complex>, calls: seq<(int, nat)>, s: seq<Complex>, m: nat, k: nat, q: nat)
    requires AllAbsorb(ar) && |s| == Pow2(m) && |s| <= |u0| && q < |s| && ZeroSines(u0, m)
    requires k < m && !Even(calls, k) && TakesDifference(q, m, k)
    ensures Lost(Dif(ComplexOps(ar), TableAfter(u0, calls), s, m)[q])
  {
    hide AllAbsorb, ComplexOps, Dif, TableAfter, Flips, Lost, TakesDifference;
    FlippedAfter(u0, calls, Pow2(k));
    LevelLost(ar, TableAfter(u0, calls), s, m, k, q);
  }

  // So right after the initialisation an inverse transform loses every output but the first.
  method InitAndInverse(ar: Arith, fl: real -> real, cosOf: real -> Elt, sinOf: real -> Elt, fromInt: nat -> Elt,
                        toInt: Elt -> int, pi: real, ghost mx: nat, nmax: nat, m: nat, n: nat, ny: nat,
                        u: array<Complex>, x: array2<Complex>, y: array2<Complex>)
    requires 1 <= m <= mx && n == Pow2(m) && nmax == Pow2(mx) <= u.Length && toInt(fromInt(mx)) == mx
    requires x != y && n <= x.Length0 && n <= y.Length0 && ny <= x.Length1 && ny <= y.Length1
    requires AllAbsorb(ar) && fl(0.0) == 0.0 && sinOf(0.0) == ZERO
    modifies x, y, u
    ensures forall j, q :: 0 <= j < ny && 0 < q < n ==> Lost(x[q, j])
  {
    hide AllAbsorb;
    Pow2Mono(m, mx);
    FftInit(nmax, u, fl, cosOf, sinOf, fromInt, pi, mx);
    ghost var u0 := u[..];
    InitZeroSines(u0, fl, cosOf, sinOf, pi, mx);
    var ok := Transform(ar, toInt, -1, m, n, ny, u, x, y);
    forall j, q | 0 <= j < ny && 0 < q < n ensures Lost(x[q, j]) {
      InverseLoses(ar, u0, old(Block(x, j, n)), m, n, q);
      assert Block(x, j, n)[q] == x[q, j];
    }
  }

  lemma InverseLoses(ar: Arith, u0: seq<Complex>, s: seq<Complex>, m: nat, n: nat, q: nat)
    requires AllAbsorb(ar) && |s| == n == Pow2(m) && n <= |u0| && 0 < q < n && ZeroSines(u0, m)
    ensures Lost(Dif(ComplexOps(ar), Table(-1, u0, n), s, m)[q])
  {
    var k := SomeLevel(q, m);
    Pow2Mono(k + 1, m);
    LevelLost(ar, Table(-1, u0, n), s, m, k, q);
  }

  ghost predicate RowLost(x: array2<Complex>, ny: nat, q: nat)
    requires q < x.Length0 && ny <= x.Length1
    reads x
  {
    forall j :: 0 <= j < ny ==> Lost(x[q, j])
  }

  // After any run of transforms an inverse transform either is a forward transform, because every
  // level has been flipped back, or loses a row of the block.
  method AnyInverse(ar: Arith, toInt: Elt -> int, m: nat, n: nat, ny: nat, u: array<Complex>,
                    x: array2<Complex>, y: array2<Complex>, ghost u0: seq<Complex>, ghost calls: seq<(int, nat)>)
      returns (ghost forward: bool, ghost q: nat)
    requires u.Length > 0 && 1 <= m <= toInt(u[0].re) && n == Pow2(m) && n <= u.Length == |u0|
    requires u[..] == TableAfter(u0, calls) && PowerCalls(calls) && ZeroSines(u0, m) && AllAbsorb(ar)
    requires x != y && n <= x.Length0 && n <= y.Length0 && ny <= x.Length1 && ny <= y.Length1
    modifies x, y, u
    ensures u[..] == TableAfter(u0, calls + [(-1, n)])
    ensures forward <==> forall k: nat :: k < m ==> !Even(calls, k)
    ensures forward ==> forall j :: 0 <= j < ny ==>
      Block(x, j, n) == Dif(ComplexOps(ar), u0, old(Block(x, j, n)), m)
    ensures !forward ==> 0 < q < n && RowLost(x, ny, q)
  {
    hide *;
    ghost var all := calls + [(-1, n)];
    OneMore(u0, calls, n, m);
    var ok := Transform(ar, toInt, -1, m, n, ny, u, x, y);
    forward, q := forall k: nat :: k < m ==> !Even(calls, k), 0;
    if forward {
      forall j | 0 <= j < ny ensures Block(x, j, n) == Dif(ComplexOps(ar), u0, old(Block(x, j, n)), m) {
        ForwardAgain(ar, u0, all, old(Block(x, j, n)), m);
      }
    } else {
      ghost var k: nat :| k < m && Even(calls, k);
      q := LevelOutput(m, k);
      forall j | 0 <= j < ny ensures Lost(x[q, j]) {
        OddLoses(ar, u0, all, old(Block(x, j, n)), m, k, q);
        assert Block(x, j, n)[q] == x[q, j];
      }
      RowLostFrom(x, ny, q);
    }
  }

  lemma RowLostFrom(x: array2<Complex>, ny: nat, q: nat)
    requires q < x.Length0 && ny <= x.Length1 && forall j :: 0 <= j < ny ==> Lost(x[q, j])
    ensures RowLost(x, ny, q)
  {
  }

  lemma LevelOutput(m: nat, k: nat) returns (q: nat)
    requires k < m
    ensures 0 < q < Pow2(m) && TakesDifference(q, m, k)
  {
    q := Pow2(m - 1 - k);
    Pow2Mono(m - k, m);
  }

  // An inverse transform of 2^m elements flips each of its levels once more.
  lemma OneMore(u0: seq<Complex>, calls: seq<(int, nat)>, n: nat, m: nat)
    requires PowerCalls(calls) && n == Pow2(m)
    ensures var all := calls + [(-1, n)];
      && PowerCalls(all) && TableAfter(u0, all) == Table(-1, TableAfter(u0, calls), n)
      && forall k: nat :: k < m ==> Even(all, k) == !Even(calls, k)
  {
    var all := calls + [(-1, n)];
    assert all[..|all| - 1] == calls;
    forall k: nat | k < m ensures Even(all, k) == !Even(calls, k) {
      Pow2Mono(k + 1, m);
    }
  }

  // Of two inverse transforms of one length in a row the second finds the factors that the first has
  // found, so it is a forward transform if they were the initial ones, whatever the elements are.
  method InverseTwice(ar: Arith, toInt: Elt -> int, m: nat, n: nat, ny: nat, u: array<Complex>,
                      x: array2<Complex>, z: array2<Complex>, y: array2<Complex>)
    requires u.Length > 0 && 1 <= m <= toInt(u[0].re) && n == Pow2(m) && n <= u.Length
    requires x != y && x != z && y != z && n <= x.Length0 && n <= y.Length0 && n <= z.Length0
    requires ny <= x.Length1 && ny <= y.Length1 && ny <= z.Length1
    modifies x, y, z, u
    ensures forall j :: 0 <= j < ny ==>
      Block(x, j, n) == Dif(ComplexOps(ar), Table(-1, old(u[..]), n), old(Block(x, j, n)), m)
    ensures forall j :: 0 <= j < ny ==>
      Block(z, j, n) == Dif(ComplexOps(ar), old(u[..]), old(Block(z, j, n)), m)
    ensures u[..] == old(u[..])
  {
    ghost var u0 := u[..];
    TurnedBack(u0, n);
    var ok := Transform(ar, toInt, -1, m, n, ny, u, x, y);
    ok := Transform(ar, toInt, -1, m, n, ny, u, z, y);
  }
}
