// The FT benchmark's one-dimensional transforms: a block of columns is transformed at once, stage by
// stage, between the array x and the scratch array y.
module Cfftz {

  import opened Powers
  import opened Elements
  import opened Fft
  import opened Stockham

  // Complex elements, and the three operations on elements that the transform uses.
  datatype Complex = Complex(re: Elt, im: Elt)
  datatype Arith = Arith(add: (Elt, Elt) -> Elt, sub: (Elt, Elt) -> Elt, mul: (Elt, Elt) -> Elt)

  // Complex arithmetic as the butterfly writes it out.
  function ComplexOps(ar: Arith): Ops<Complex> {
    Ops((a: Complex, b: Complex) => Complex(ar.add(a.re, b.re), ar.add(a.im, b.im)),
        (a: Complex, b: Complex) => Complex(ar.sub(a.re, b.re), ar.sub(a.im, b.im)),
        (u: Complex, d: Complex) => Complex(ar.sub(ar.mul(u.re, d.re), ar.mul(u.im, d.im)),
                                            ar.add(ar.mul(u.re, d.im), ar.mul(u.im, d.re))))
  }

  // The n elements of column j of a block.
  ghost function Block(x: array2<Complex>, j: nat, n: nat): (s: seq<Complex>)
    requires n <= x.Length0 && j < x.Length1
    reads x
    ensures |s| == n && forall i :: 0 <= i < n ==> s[i] == x[i, j]
  {
    seq(n, i requires 0 <= i < n reads x => x[i, j])
  }

  // Row a of y gets the sums of rows i11 and i12 of x, row b their differences times u1.
  method Butterflies(ar: Arith, u1: Complex, x: array2<Complex>, y: array2<Complex>,
                     i11: nat, i12: nat, i21: nat, i22: nat, ny: nat)
    requires x != y && i11 < x.Length0 && i12 < x.Length0 && i21 < y.Length0 && i22 < y.Length0 && i21 != i22
    requires ny <= x.Length1 && ny <= y.Length1
    modifies y
    ensures forall j :: 0 <= j < ny ==> y[i21, j] == ComplexOps(ar).plus(x[i11, j], x[i12, j])
    ensures forall j :: 0 <= j < ny ==>
      y[i22, j] == ComplexOps(ar).times(u1, ComplexOps(ar).minus(x[i11, j], x[i12, j]))
    ensures forall i, j :: 0 <= i < y.Length0 && 0 <= j < y.Length1 && i != i21 && i != i22 ==> y[i, j] == old(y[i, j])
  {
    for j := 0 to ny
      invariant forall k :: 0 <= k < j ==> y[i21, k] == ComplexOps(ar).plus(x[i11, k], x[i12, k])
      invariant forall k :: 0 <= k < j ==>
        y[i22, k] == ComplexOps(ar).times(u1, ComplexOps(ar).minus(x[i11, k], x[i12, k]))
      invariant forall i, k :: 0 <= i < y.Length0 && 0 <= k < y.Length1 && i != i21 && i != i22 ==>
        y[i, k] == old(y[i, k])
    {
      var x11real, x11imag := x[i11, j].re, x[i11, j].im;
      var x21real, x21imag := x[i12, j].re, x[i12, j].im;
      y[i21, j] := Complex(ar.add(x11real, x21real), ar.add(x11imag, x21imag));
      y[i22, j] := Complex(
        ar.sub(ar.mul(u1.re, ar.sub(x11real, x21real)), ar.mul(u1.im, ar.sub(x11imag, x21imag))),
        ar.add(ar.mul(u1.re, ar.sub(x11imag, x21imag)), ar.mul(u1.im, ar.sub(x11real, x21real))));
    }
  }

  // Row idx of y is what the stage asks for, in every column.
  ghost predicate RowDone(ar: Arith, u: seq<Complex>, x: array2<Complex>, y: array2<Complex>, n: nat, ny: nat,
                          lk: nat, li: nat, idx: nat)
    requires lk > 0 && n == 2 * (li * lk) && 2 * li <= |u| && idx < n
    requires n <= x.Length0 && n <= y.Length0 && ny <= x.Length1 && ny <= y.Length1
    reads x, y
  {
    forall j :: 0 <= j < ny ==> y[idx, j] == StageAt(ComplexOps(ar), u, Block(x, j, n), lk, li, idx)
  }

  lemma RowsDone(ar: Arith, u: seq<Complex>, x: array2<Complex>, y: array2<Complex>, n: nat, ny: nat,
                 lk: nat, li: nat, i: nat, k: nat, n1: nat)
    requires lk > 0 && n == 2 * (li * lk) && 2 * li <= |u| && i < li && k < lk && n1 == n / 2
    requires n <= x.Length0 && n <= y.Length0 && ny <= x.Length1 && ny <= y.Length1
    ensures var i11, i21 := i * lk + k, i * (2 * lk) + k;
      && 0 <= i11 && i11 + n1 < n && 0 <= i21 && i21 + lk < n
    ensures var i11, i21 := i * lk + k, i * (2 * lk) + k;
      (forall j :: 0 <= j < ny ==> y[i21, j] == ComplexOps(ar).plus(x[i11, j], x[i11 + n1, j]))
      ==> RowDone(ar, u, x, y, n, ny, lk, li, i21)
    ensures var i11, i21 := i * lk + k, i * (2 * lk) + k;
      (forall j :: 0 <= j < ny ==>
         y[i21 + lk, j] == ComplexOps(ar).times(u[li + i], ComplexOps(ar).minus(x[i11, j], x[i11 + n1, j])))
      ==> RowDone(ar, u, x, y, n, ny, lk, li, i21 + lk)
  {
    hide ComplexOps, StageAt;
    InColumns(lk, k, li, i);
    InColumns(2 * lk, k + lk, li, i);
    Halves(lk, li);
    forall j | 0 <= j < ny
      ensures var s, i11, i21 := Block(x, j, n), i * lk + k, i * (2 * lk) + k;
        && StageAt(ComplexOps(ar), u, s, lk, li, i21) == ComplexOps(ar).plus(x[i11, j], x[i11 + n1, j])
        && StageAt(ComplexOps(ar), u, s, lk, li, i21 + lk)
           == ComplexOps(ar).times(u[li + i], ComplexOps(ar).minus(x[i11, j], x[i11 + n1, j]))
    {
      StageElement(ComplexOps(ar), u, Block(x, j, n), lk, li, i, k);
    }
  }

  // 2 << (e - 1), or 1 when e is 0.
  function ShiftedTwo(e: nat): (r: nat)
    ensures r == Pow2(e)
  {
    if e == 0 then 1 else 2 * Pow2(e - 1)
  }

  // The twiddle factor that a stage takes from the table. For the inverse transform the program
  // applies unary minus to the imaginary part, which changes the table too.
  function Turned(sign: int, c: Complex): Complex {
    if sign >= 1 then c else Complex(c.re, Minus(c.im))
  }

  // The table after a transform of n elements.
  ghost function Table(sign: int, u: seq<Complex>, n: nat): (v: seq<Complex>)
    ensures |v| == |u|
    ensures forall i :: 0 <= i < |u| ==> v[i] == if 1 <= i < n then Turned(sign, u[i]) else u[i]
  {
    seq(|u|, i requires 0 <= i < |u| => if 1 <= i < n then Turned(sign, u[i]) else u[i])
  }

  // Half-way: the places from lo to hi are as in v, the others as in u0.
  ghost predicate Between(u: seq<Complex>, u0: seq<Complex>, v: seq<Complex>, lo: nat, hi: nat) {
    && |u| == |u0| == |v|
    && forall i :: 0 <= i < |u| ==> u[i] == if lo <= i < hi then v[i] else u0[i]
  }

  lemma PairPlaces(n: nat, lk: nat, li: nat, i: nat, k: nat)
    requires lk > 0 && n == 2 * (li * lk) && i < li && k < lk
    ensures i * lk + n / 2 + k < n && i * (2 * lk) + lk + k < n
  {
    InColumns(lk, k, li, i);
    InColumns(2 * lk, k + lk, li, i);
    Halves(lk, li);
  }

  // One pair of rows of a stage; the rows already done stay done.
  method RowPair(ar: Arith, ghost u: seq<Complex>, x: array2<Complex>, y: array2<Complex>, n: nat, ny: nat,
                 lk: nat, li: nat, i: nat, k: nat, u1: Complex, i11: nat, i12: nat, i21: nat, i22: nat)
    requires lk > 0 && n == 2 * (li * lk) && 2 * li <= |u| && i < li && k < lk && x != y
    requires n <= x.Length0 && n <= y.Length0 && ny <= x.Length1 && ny <= y.Length1
    requires u1 == u[li + i] && i11 == i * lk && i12 == i11 + n / 2 && i21 == i * (2 * lk) && i22 == i21 + lk
    modifies y
    ensures i22 + k < n
    ensures RowDone(ar, u, x, y, n, ny, lk, li, i21 + k) && RowDone(ar, u, x, y, n, ny, lk, li, i22 + k)
    ensures forall idx ::
      (0 <= idx < n && idx != i21 + k && idx != i22 + k && old(RowDone(ar, u, x, y, n, ny, lk, li, idx)))
      ==> RowDone(ar, u, x, y, n, ny, lk, li, idx)
  {
    hide ComplexOps, StageAt;
    PairPlaces(n, lk, li, i, k);
    Butterflies(ar, u1, x, y, i11 + k, i12 + k, i21 + k, i22 + k, ny);
    RowsDone(ar, u, x, y, n, ny, lk, li, i, k, n / 2);
  }

  // The rows that twiddle factor i is for.
  method RowGroup(ar: Arith, ghost u: seq<Complex>, x: array2<Complex>, y: array2<Complex>, n: nat, ny: nat,
                  lk: nat, li: nat, i: nat, u1: Complex, i11: nat, i12: nat, i21: nat, i22: nat)
    requires lk > 0 && n == 2 * (li * lk) && 2 * li <= |u| && i < li && x != y
    requires n <= x.Length0 && n <= y.Length0 && ny <= x.Length1 && ny <= y.Length1
    requires u1 == u[li + i] && i11 == i * lk && i12 == i11 + n / 2 && i21 == i * (2 * lk) && i22 == i21 + lk
    requires i21 + 2 * lk <= n
    requires forall idx :: 0 <= idx < i21 ==> RowDone(ar, u, x, y, n, ny, lk, li, idx)
    modifies y
    ensures forall idx :: 0 <= idx < i21 + 2 * lk ==> RowDone(ar, u, x, y, n, ny, lk, li, idx)
  {
    hide *;
    for k := 0 to lk
      invariant forall idx :: 0 <= idx < i21 ==> RowDone(ar, u, x, y, n, ny, lk, li, idx)
      invariant forall idx :: i21 <= idx < i21 + k ==> RowDone(ar, u, x, y, n, ny, lk, li, idx)
      invariant forall idx :: i22 <= idx < i22 + k ==> RowDone(ar, u, x, y, n, ny, lk, li, idx)
    {
      RowPair(ar, u, x, y, n, ny, lk, li, i, k, u1, i11, i12, i21, i22);
    }
  }

  // The l-th iteration, from x to y, with the twiddle factors that stand in v.
  method Fftz2(ar: Arith, sign: int, l: nat, m: nat, n: nat, ny: nat, u: array<Complex>,
               x: array2<Complex>, y: array2<Complex>, ghost v: seq<Complex>)
    requires 1 <= l <= m && n == Pow2(m) && n <= u.Length == |v| && x != y
    requires n <= x.Length0 && n <= y.Length0 && ny <= x.Length1 && ny <= y.Length1
    requires 2 * Pow2(m - l) <= u.Length
    requires forall i :: Pow2(m - l) <= i < 2 * Pow2(m - l) ==> v[i] == Turned(sign, u[i])
    modifies y, u
    ensures n == 2 * (Pow2(m - l) * Pow2(l - 1)) && 2 * Pow2(m - l) <= u.Length
    ensures forall j :: 0 <= j < ny ==>
      Block(y, j, n) == Stage(ComplexOps(ar), v, Block(x, j, n), Pow2(l - 1), Pow2(m - l))
    ensures Between(u[..], old(u[..]), v, Pow2(m - l), 2 * Pow2(m - l))
  {
    hide *;
    var n1 := n / 2;
    var lk := ShiftedTwo(l - 1);
    var li := ShiftedTwo(m - l);
    var lj := 2 * lk;
    var ku := li;
    Sizes(m, l);
    RowStarts(lk, li, n, 0);
    for i := 0 to li
      invariant RowStart(lk, i) <= n
      invariant forall k :: 0 <= k < u.Length ==> u[k] == if li <= k < li + i then v[k] else old(u[k])
      invariant forall idx :: 0 <= idx < RowStart(lk, i) ==> RowDone(ar, v, x, y, n, ny, lk, li, idx)
    {
      var i11 := i * lk;
      var i12 := i11 + n1;
      var i21 := i * lj;
      var i22 := i21 + lk;
      var u1 := Factor(sign, u, ku + i);
      RowStarts(lk, li, n, i);
      RowGroup(ar, v, x, y, n, ny, lk, li, i, u1, i11, i12, i21, i22);
    }
    RowStarts(lk, li, n, li);
    BetweenFrom(u[..], old(u[..]), v, li, 2 * li);
    forall j | 0 <= j < ny
      ensures Block(y, j, n) == Stage(ComplexOps(ar), v, Block(x, j, n), lk, li)
    {
      AllRows(ar, v, x, y, n, ny, lk, li, j);
    }
  }

  // The factor of one group of rows; the inverse transform leaves it in the table.
  method Factor(sign: int, u: array<Complex>, i: nat) returns (u1: Complex)
    requires i < u.Length
    modifies u
    ensures u1 == Turned(sign, old(u[i])) && u[i] == u1
    ensures forall k :: 0 <= k < u.Length && k != i ==> u[k] == old(u[k])
  {
    if sign < 1 {
      u[i] := Complex(u[i].re, Minus(u[i].im));
    }
    u1 := u[i];
  }

  lemma BetweenFrom(u: seq<Complex>, u0: seq<Complex>, v: seq<Complex>, lo: nat, hi: nat)
    requires |u| == |u0| == |v|
    requires forall i :: 0 <= i < |u| ==> u[i] == if lo <= i < hi then v[i] else u0[i]
    ensures Between(u, u0, v, lo, hi)
  {
  }

  ghost function RowStart(lk: nat, i: nat): nat {
    i * (2 * lk)
  }

  lemma RowStarts(lk: nat, li: nat, n: nat, i: nat)
    requires n == 2 * (li * lk) && i <= li
    ensures RowStart(lk, 0) == 0 && RowStart(lk, li) == n && RowStart(lk, i) == i * (2 * lk)
    ensures i < li ==> RowStart(lk, i + 1) == RowStart(lk, i) + 2 * lk <= n
  {
    Halves(lk, li);
    if i < li { NextRows(lk, li, i); }
  }

  lemma NextRows(lk: nat, li: nat, i: nat)
    requires i < li
    ensures i * (2 * lk) + 2 * lk == (i + 1) * (2 * lk) <= 2 * (li * lk)
  {
    Halves(lk, li);
    MulMono(li, i + 1, 2 * lk);
  }

  lemma AllRows(ar: Arith, u: seq<Complex>, x: array2<Complex>, y: array2<Complex>, n: nat, ny: nat,
                lk: nat, li: nat, j: nat)
    requires lk > 0 && n == 2 * (li * lk) && 2 * li <= |u| && j < ny
    requires n <= x.Length0 && n <= y.Length0 && ny <= x.Length1 && ny <= y.Length1
    requires forall idx :: 0 <= idx < n ==> RowDone(ar, u, x, y, n, ny, lk, li, idx)
    ensures Block(y, j, n) == Stage(ComplexOps(ar), u, Block(x, j, n), lk, li)
  {
    hide StageAt, ComplexOps;
    var s, t := Block(y, j, n), Stage(ComplexOps(ar), u, Block(x, j, n), lk, li);
    forall idx | 0 <= idx < n ensures s[idx] == t[idx] {
      assert RowDone(ar, u, x, y, n, ny, lk, li, idx);
    }
  }

  lemma Sizes(m: nat, l: nat)
    requires 1 <= l <= m
    ensures Pow2(m) == 2 * (Pow2(m - l) * Pow2(l - 1)) && 2 * Pow2(m - l) <= Pow2(m)
  {
    Pow2Add(m - l, l - 1);
    Pow2Mono(m - l, m - 1);
  }

  // After l stages every column of the block is half-way to its transform.
  ghost predicate Staged(ar: Arith, u: seq<Complex>, x: array2<Complex>, n: nat, ny: nat, f: seq<seq<Complex>>,
                         m: nat, l: nat)
    requires n <= x.Length0 && ny <= x.Length1 && ny <= |f| && l <= m
    reads x
  {
    forall j :: 0 <= j < ny ==> Partial(ComplexOps(ar), u, f[j], Block(x, j, n), m - l, Pow2(l), Pow2(m - l))
  }

  // The factors of stage l are still to be taken when those of the stages before have been.
  lemma NextFactors(sign: int, u: seq<Complex>, u0: seq<Complex>, m: nat, l: nat)
    requires 1 <= l <= m && Pow2(m) <= |u0|
    requires Between(u, u0, Table(sign, u0, Pow2(m)), Pow2(m - l + 1), Pow2(m))
    ensures 2 * Pow2(m - l) <= |u| == |u0|
    ensures forall i :: Pow2(m - l) <= i < 2 * Pow2(m - l) ==> Table(sign, u0, Pow2(m))[i] == Turned(sign, u[i])
  {
    hide Turned;
    Pow2Mono(m - l + 1, m);
    Whole(m - l);
  }

  lemma BetweenNext(u: seq<Complex>, u': seq<Complex>, u0: seq<Complex>, v: seq<Complex>, lo: nat, mid: nat, hi: nat)
    requires Between(u, u0, v, mid, hi) && Between(u', u, v, lo, mid) && lo <= mid <= hi
    ensures Between(u', u0, v, lo, hi)
  {
  }

  // One iteration, for all columns.
  method Iterate(ar: Arith, sign: int, l: nat, m: nat, n: nat, ny: nat, u: array<Complex>,
                 x: array2<Complex>, y: array2<Complex>, ghost f: seq<seq<Complex>>, ghost u0: seq<Complex>)
    requires 1 <= l <= m && n == Pow2(m) && n <= u.Length == |u0| && x != y && ny <= |f|
    requires n <= x.Length0 && n <= y.Length0 && ny <= x.Length1 && ny <= y.Length1
    requires Staged(ar, Table(sign, u0, n), x, n, ny, f, m, l - 1)
    requires Between(u[..], u0, Table(sign, u0, n), Pow2(m - l + 1), n)
    modifies y, u
    ensures Staged(ar, Table(sign, u0, n), y, n, ny, f, m, l)
    ensures Between(u[..], u0, Table(sign, u0, n), Pow2(m - l), n)
  {
    hide *;
    ghost var v, was := Table(sign, u0, n), u[..];
    NextFactors(sign, u[..], u0, m, l);
    Fftz2(ar, sign, l, m, n, ny, u, x, y, v);
    Whole(m - l);
    Pow2Mono(m - l + 1, m);
    BetweenNext(was, u[..], u0, v, Pow2(m - l), Pow2(m - l + 1), n);
    forall j | 0 <= j < ny
      ensures Partial(ComplexOps(ar), v, f[j], Block(y, j, n), m - l, Pow2(l), Pow2(m - l))
    {
      StagedAt(ar, v, x, n, ny, f, m, l - 1, j);
      Whole(l - 1);
      PartialNext(ComplexOps(ar), v, f[j], Block(x, j, n), m - l, Pow2(l - 1), Pow2(m - l));
    }
    StagedFrom(ar, v, y, n, ny, f, m, l);
  }

  lemma StagedAt(ar: Arith, u: seq<Complex>, x: array2<Complex>, n: nat, ny: nat, f: seq<seq<Complex>>,
                 m: nat, l: nat, j: nat)
    requires n <= x.Length0 && ny <= x.Length1 && ny <= |f| && l <= m && Staged(ar, u, x, n, ny, f, m, l) && j < ny
    ensures Partial(ComplexOps(ar), u, f[j], Block(x, j, n), m - l, Pow2(l), Pow2(m - l))
  {
  }

  lemma StagedFrom(ar: Arith, u: seq<Complex>, x: array2<Complex>, n: nat, ny: nat, f: seq<seq<Complex>>,
                   m: nat, l: nat)
    requires n <= x.Length0 && ny <= x.Length1 && ny <= |f| && l <= m
    requires forall j :: 0 <= j < ny ==> Partial(ComplexOps(ar), u, f[j], Block(x, j, n), m - l, Pow2(l), Pow2(m - l))
    ensures Staged(ar, u, x, n, ny, f, m, l)
  {
  }

  // Transforms every column of the block x in place, with y as scratch. The exponent the table was
  // made for stands in its first element. With other parameters the program stops.
  method Transform(ar: Arith, toInt: Elt -> int, sign: int, m: int, n: nat, ny: nat, u: array<Complex>,
                   x: array2<Complex>, y: array2<Complex>) returns (ok: bool)
    requires u.Length > 0 && (1 <= m <= toInt(u[0].re) ==> n == Pow2(m) && n <= u.Length)
    requires x != y && n <= x.Length0 && n <= y.Length0 && ny <= x.Length1 && ny <= y.Length1
    modifies x, y, u
    ensures ok <==> (sign == 1 || sign == -1) && 1 <= m <= toInt(old(u[0].re))
    ensures ok ==> u[..] == Table(sign, old(u[..]), n)
    ensures ok ==> forall j :: 0 <= j < ny ==>
      Block(x, j, n) == Dif(ComplexOps(ar), u[..], old(Block(x, j, n)), m)
    ensures !ok ==> u[..] == old(u[..])
    ensures !ok ==> forall i, j :: 0 <= i < x.Length0 && 0 <= j < x.Length1 ==> x[i, j] == old(x[i, j])
  {
    var mx := toInt(u[0].re);
    if (sign != 1 && sign != -1) || m < 1 || m > mx {
      return false;
    }
    ghost var u0 := u[..];
    ghost var v := Table(sign, u0, n);
    ghost var f := seq(ny, j requires 0 <= j < ny reads x => Dif(ComplexOps(ar), v, Block(x, j, n), m));
    StagedStart(ar, v, x, n, ny, f, m);
    Stages(ar, sign, m, n, ny, u, x, y, f, u0);
    StagedEnd(ar, v, x, n, ny, f, m);
    ok := true;
  }

  lemma StagedStart(ar: Arith, u: seq<Complex>, x: array2<Complex>, n: nat, ny: nat, f: seq<seq<Complex>>, m: nat)
    requires n == Pow2(m) && n <= |u| && n <= x.Length0 && ny <= x.Length1 && ny == |f|
    requires forall j :: 0 <= j < ny ==> f[j] == Dif(ComplexOps(ar), u, Block(x, j, n), m)
    ensures Staged(ar, u, x, n, ny, f, m, 0)
  {
    forall j | 0 <= j < ny
      ensures Partial(ComplexOps(ar), u, f[j], Block(x, j, n), m - 0, Pow2(0), Pow2(m - 0))
    {
      PartialStart(ComplexOps(ar), u, Block(x, j, n), m);
    }
  }

  lemma StagedEnd(ar: Arith, u: seq<Complex>, x: array2<Complex>, n: nat, ny: nat, f: seq<seq<Complex>>, m: nat)
    requires n <= x.Length0 && ny <= x.Length1 && ny <= |f| && Staged(ar, u, x, n, ny, f, m, m)
    ensures forall j :: 0 <= j < ny ==> Block(x, j, n) == f[j]
  {
    forall j | 0 <= j < ny ensures Block(x, j, n) == f[j] {
      PartialEnd(ComplexOps(ar), u, f[j], Block(x, j, n), Pow2(m));
    }
  }

  // The stages in turns from x to y and back, and a copy if the last one ended in y.
  method Stages(ar: Arith, sign: int, m: nat, n: nat, ny: nat, u: array<Complex>,
                x: array2<Complex>, y: array2<Complex>, ghost f: seq<seq<Complex>>, ghost u0: seq<Complex>)
    requires 1 <= m && n == Pow2(m) && n <= u.Length && u[..] == u0 && x != y && ny <= |f|
    requires n <= x.Length0 && n <= y.Length0 && ny <= x.Length1 && ny <= y.Length1
    requires Staged(ar, Table(sign, u0, n), x, n, ny, f, m, 0)
    modifies x, y, u
    ensures Staged(ar, Table(sign, u0, n), x, n, ny, f, m, m)
    ensures u[..] == Table(sign, u0, n)
  {
    hide *;
    ghost var v := Table(sign, u0, n);
    BetweenStart(u0, v, n);
    var l := 1;
    while l <= m
      invariant 1 <= l <= m + 1 && l % 2 == 1
      invariant Staged(ar, v, x, n, ny, f, m, l - 1)
      invariant Between(u[..], u0, v, Pow2(m - l + 1), n)
    {
      Iterate(ar, sign, l, m, n, ny, u, x, y, f, u0);
      if l == m { break; }
      Iterate(ar, sign, l + 1, m, n, ny, u, y, x, f, u0);
      l := l + 2;
    }
    BetweenEnd(sign, u[..], u0, n);
    if m % 2 == 1 {
      CopyBack(ar, v, n, ny, x, y, f, m);
    }
  }

  lemma BetweenStart(u: seq<Complex>, v: seq<Complex>, n: nat)
    requires |u| == |v|
    ensures Between(u, u, v, n, n)
  {
  }

  lemma BetweenEnd(sign: int, u: seq<Complex>, u0: seq<Complex>, n: nat)
    requires n <= |u0| && Between(u, u0, Table(sign, u0, n), Pow2(0), n)
    ensures u == Table(sign, u0, n)
  {
  }

  method CopyBack(ar: Arith, ghost u: seq<Complex>, n: nat, ny: nat, x: array2<Complex>, y: array2<Complex>,
                  ghost f: seq<seq<Complex>>, ghost m: nat)
    requires x != y && ny <= |f| && n <= x.Length0 && n <= y.Length0 && ny <= x.Length1 && ny <= y.Length1
    requires Staged(ar, u, y, n, ny, f, m, m)
    modifies x
    ensures Staged(ar, u, x, n, ny, f, m, m)
  {
    hide Partial;
    for j := 0 to n
      invariant forall k, i :: 0 <= k < j && 0 <= i < ny ==> x[k, i] == y[k, i]
    {
      for i := 0 to ny
        invariant forall k, h :: 0 <= k < j && 0 <= h < ny ==> x[k, h] == y[k, h]
        invariant forall h :: 0 <= h < i ==> x[j, h] == y[j, h]
      {
        x[j, i] := y[j, i];
      }
    }
    forall i | 0 <= i < ny ensures Block(x, i, n) == Block(y, i, n) {
    }
  }

  // The i-th of the ln twiddle factors of a level, e^(i pi / ln), as the program computes it: fl rounds.
  function Twiddle(fl: real -> real, cosOf: real -> Elt, sinOf: real -> Elt, pi: real, ln: nat, i: nat): Complex
    requires ln > 0
  {
    var ti := Angle(fl, fl(pi / ln as real), i);
    Complex(cosOf(ti), sinOf(ti))
  }

  function Angle(fl: real -> real, t: real, i: nat): real {
    fl(i as real * t)
  }

  // The exponent of a power of two.
  method Ilog2(n: nat, ghost m: nat) returns (lg: nat)
    requires n == Pow2(m)
    ensures lg == m
  {
    if m > 0 { Pow2Mono(1, m); }
    if n == 1 {
      return 0;
    }
    lg := 1;
    var nn := 2;
    while nn < n
      invariant 1 <= lg <= m && nn == Pow2(lg)
      decreases n - nn
    {
      if lg == m { assert false; }
      nn := nn * 2;
      lg := lg + 1;
    }
    if lg < m { Pow2Mono(lg, m); }
  }

  // The roots of level j stand at the places from 2^(j-1) on.
  ghost predicate Level(u: seq<Complex>, fl: real -> real, cosOf: real -> Elt, sinOf: real -> Elt, pi: real, j: nat)
    requires j >= 1
  {
    var ln := Pow2(j - 1);
    2 * ln <= |u| && forall i :: 0 <= i < ln ==> u[ln + i] == Twiddle(fl, cosOf, sinOf, pi, ln, i)
  }

  method FillLevel(u: array<Complex>, ku: nat, ln: nat, t: real, cosOf: real -> Elt, sinOf: real -> Elt,
                   fl: real -> real, ghost pi: real)
    requires 0 < ln && ku + ln <= u.Length && t == fl(pi / ln as real)
    modifies u
    ensures forall i :: 0 <= i < ln ==> u[ku + i] == Twiddle(fl, cosOf, sinOf, pi, ln, i)
    ensures forall i :: 0 <= i < ku ==> u[i] == old(u[i])
  {
    hide Angle;
    for i := 0 to ln
      invariant forall h :: 0 <= h < i ==> u[ku + h] == Twiddle(fl, cosOf, sinOf, pi, ln, h)
      invariant forall h :: 0 <= h < ku ==> u[h] == old(u[h])
    {
      var ti := Angle(fl, t, i);
      u[i + ku] := Complex(cosOf(ti), sinOf(ti));
    }
  }

  // The table of n = 2^m roots: level by level, so that level ln starts at place ln.
  method FftInit(n: nat, u: array<Complex>, fl: real -> real, cosOf: real -> Elt, sinOf: real -> Elt,
                 fromInt: nat -> Elt, pi: real, ghost m: nat)
    requires n == Pow2(m) <= u.Length
    modifies u
    ensures u[0] == Complex(fromInt(m), ZERO)
    ensures forall j :: 1 <= j <= m ==> Level(u[..], fl, cosOf, sinOf, pi, j)
  {
    hide Twiddle;
    var lg := Ilog2(n, m);
    u[0] := Complex(fromInt(lg), ZERO);
    var ku, ln := 1, 1;
    for j := 1 to lg + 1
      invariant ku == ln == Pow2(j - 1)
      invariant u[0] == Complex(fromInt(m), ZERO)
      invariant forall k :: 1 <= k < j ==> Level(u[..], fl, cosOf, sinOf, pi, k)
    {
      Pow2Mono(j, m);
      ghost var was := u[..];
      var t := fl(pi / ln as real);
      FillLevel(u, ku, ln, t, cosOf, sinOf, fl, pi);
      forall k | 1 <= k < j ensures Level(u[..], fl, cosOf, sinOf, pi, k) {
        assert Level(was, fl, cosOf, sinOf, pi, k);
        Pow2Mono(k, j - 1);
      }
      ku := ku + ln;
      ln := 2 * ln;
    }
  }
}
