// The arrays of the FT and MG benchmarks start as consecutive pieces of one random stream.
module InitialConditions {

  import opened Powers
  import opened Lcg
  import opened Randdp
  import opened JumpAheads
  import opened P32Fields
  import DoubleToP32

  // Two encodings of posits.
  datatype Complex = Complex(re: nat, im: nat)

  // The rounding of doubles to single precision, of which nothing is assumed here.
  type Narrowing = real -> real

  // Assigned to a posit, a double is narrowed to single precision before it is converted.
  ghost predicate Stores(narrow: Narrowing, v: real, z: nat) {
    Bits32(z) && Rounds32(narrow(v), z)
  }

  ghost predicate StoresPair(narrow: Narrowing, re: real, im: real, z: Complex) {
    Stores(narrow, re, z.re) && Stores(narrow, im, z.im)
  }

  method Store(narrow: Narrowing, v: real) returns (z: nat)
    ensures Stores(narrow, v, z)
  {
    z := DoubleToP32.FromDouble(DoubleToP32.Finite(narrow(v)));
  }

  method StorePair(narrow: Narrowing, re: real, im: real) returns (z: Complex)
    ensures StoresPair(narrow, re, im, z)
  {
    hide Stores;
    var zre := Store(narrow, re);
    var zim := Store(narrow, im);
    z := Complex(zre, zim);
  }

  // The place in a plane's numbers of the real part of element (j, i).
  function PlaceInPlane(nx: nat, j: nat, i: nat): nat {
    2 * (j * nx + i) + 1
  }

  // The numbers in a plane of n rows of nx complex elements.
  function PlaneSize(nx: nat, n: nat): nat {
    2 * nx * n
  }

  lemma PlaceFits(nx: nat, ny: nat, j: nat, i: nat)
    requires j < ny && i < nx
    ensures 1 <= PlaceInPlane(nx, j, i) && PlaceInPlane(nx, j, i) + 1 <= PlaneSize(nx, ny)
  {
    MulStep(j, ny, nx);
    TwiceRows(ny, nx);
  }

  lemma MulStep(j: nat, n: nat, d: nat)
    requires j < n
    ensures j * d + d <= n * d
  {
    assert n * d == j * d + (n - j) * d;
    if d > 0 { MulAtLeast(n - j, d); }
  }

  lemma TwiceRows(n: nat, d: nat)
    ensures 2 * d * n == 2 * (n * d)
  {
  }

  method FillPlane(narrow: Narrowing, u0: array3<Complex>, k: nat, nx: nat, d1: nat, tmp: array<real>)
    requires k < u0.Length0 && d1 <= u0.Length1 && nx <= u0.Length2
    requires PlaneSize(nx, d1) < tmp.Length
    modifies u0
    ensures forall j, i :: 0 <= j < d1 && 0 <= i < nx ==>
      PlaceInPlane(nx, j, i) + 1 < tmp.Length
      && StoresPair(narrow, tmp[PlaceInPlane(nx, j, i)], tmp[PlaceInPlane(nx, j, i) + 1], u0[k, j, i])
    ensures forall l, j, i :: 0 <= l < u0.Length0 && l != k && 0 <= j < u0.Length1 && 0 <= i < u0.Length2 ==>
      u0[l, j, i] == old(u0[l, j, i])
  {
    hide StoresPair;
    var t := 1;
    for j := 0 to d1
      invariant t == PlaceInPlane(nx, j, 0)
      invariant forall y, x :: 0 <= y < j && 0 <= x < nx ==>
        PlaceInPlane(nx, y, x) + 1 < tmp.Length
        && StoresPair(narrow, tmp[PlaceInPlane(nx, y, x)], tmp[PlaceInPlane(nx, y, x) + 1], u0[k, y, x])
      invariant forall l, y, x :: 0 <= l < u0.Length0 && l != k && 0 <= y < u0.Length1 && 0 <= x < u0.Length2 ==>
        u0[l, y, x] == old(u0[l, y, x])
    {
      for i := 0 to nx
        invariant t == PlaceInPlane(nx, j, i)
        invariant forall y, x :: (0 <= y < j && 0 <= x < nx) || (y == j && 0 <= x < i) ==>
          PlaceInPlane(nx, y, x) + 1 < tmp.Length
          && StoresPair(narrow, tmp[PlaceInPlane(nx, y, x)], tmp[PlaceInPlane(nx, y, x) + 1], u0[k, y, x])
        invariant forall l, y, x :: 0 <= l < u0.Length0 && l != k && 0 <= y < u0.Length1 && 0 <= x < u0.Length2 ==>
          u0[l, y, x] == old(u0[l, y, x])
      {
        PlaceFits(nx, d1, j, i);
        var pair := StorePair(narrow, tmp[t], tmp[t + 1]);
        u0[k, j, i] := pair;
        t := t + 2;
      }
      assert j * nx + nx == (j + 1) * nx;
    }
  }

  // The place of element (k, j, i) of the whole array in the stream, when base numbers come first.
  function Place(base: nat, nx: nat, ny: nat, k: nat, j: nat, i: nat): nat {
    base + 2 * ((k * ny + j) * nx + i) + 1
  }

  // The numbers before plane k.
  function PlaneFirst(base: nat, nx: nat, ny: nat, k: nat): nat {
    base + PlaneSize(nx, ny) * k
  }

  lemma PlaneNext(base: nat, nx: nat, ny: nat, k: nat)
    ensures PlaneFirst(base, nx, ny, k) + PlaneSize(nx, ny) == PlaneFirst(base, nx, ny, k + 1)
    ensures PlaneFirst(base, nx, ny, 0) == base
  {
    assert PlaneSize(nx, ny) * (k + 1) == PlaneSize(nx, ny) * k + PlaneSize(nx, ny);
  }

  lemma PlaceSplits(base: nat, nx: nat, ny: nat, k: nat, j: nat, i: nat)
    ensures Place(base, nx, ny, k, j, i) == PlaneFirst(base, nx, ny, k) + PlaceInPlane(nx, j, i)
  {
    assert (k * ny + j) * nx == k * ny * nx + j * nx;
    assert PlaneSize(nx, ny) * k == 2 * (k * ny * nx);
  }

  // The pairs of numbers after base are taken in order, each by exactly one element.
  lemma PlaceOnto(base: nat, nx: nat, ny: nat, t: nat) returns (k: nat, j: nat, i: nat)
    requires nx > 0 && ny > 0
    ensures j < ny && i < nx && Place(base, nx, ny, k, j, i) == base + 2 * t + 1
  {
    var row := t / nx;
    k, j, i := row / ny, row % ny, t % nx;
    DivMod(t, nx);
    DivMod(row, ny);
  }

  lemma PlaceOnce(base: nat, nx: nat, ny: nat, k: nat, j: nat, i: nat, k': nat, j': nat, i': nat)
    requires j < ny && i < nx && j' < ny && i' < nx
    requires Place(base, nx, ny, k, j, i) == Place(base, nx, ny, k', j', i')
    ensures k' == k && j' == j && i' == i
  {
    var row, row' := k * ny + j, k' * ny + j';
    var t := row * nx + i;
    DivModUnique(t, nx, row, i);
    DivModUnique(t, nx, row', i');
    DivModUnique(row, ny, k, j);
    DivModUnique(row, ny, k', j');
  }

  // A number counted from a later seed of the stream.
  lemma UniformFrom(a: real, x: real, x0: real, m: nat, t: nat)
    requires IsSeed(a) && IsSeed(x) && IsSeed(x0) && Seed(x0) == Stream(Seed(a), Seed(x), m)
    ensures Uniform(a, x0, t) == Uniform(a, x, m + t)
  {
    StreamAdd(Seed(a), Seed(x), m, t);
  }

  // A jump of m places.
  lemma Jumps(a: real, an: real, x: real, start: real, k: nat, m: nat)
    requires IsSeed(a) && IsSeed(an) && IsSeed(x) && IsSeed(start)
    requires Seed(an) == PowerMod(Seed(a), m) && Seed(start) == Stream(Seed(a), Seed(x), k)
    ensures Times(Seed(an), Seed(start)) == Stream(Seed(a), Seed(x), k + m)
  {
    JumpAhead(Seed(a), Stream(Seed(a), Seed(x), k), m);
    StreamAdd(Seed(a), Seed(x), k, m);
  }

  // The number of random numbers before the first element of this processor's part.
  function Before(nx: nat, ny: nat, zstart: nat, ystart: nat): nat
    requires zstart >= 1 && ystart >= 1
  {
    (zstart - 1) * 2 * nx * ny + (ystart - 1) * 2 * nx
  }

  // Plane k takes the numbers that follow start.
  method RandomPlane(fl: Rounding, narrow: Narrowing, a: real, seed: real, start: real, ghost base: nat, nx: nat,
                     ghost ny: nat, d1: nat, k: nat, u0: array3<Complex>, tmp: array<real>)
    requires Precise(fl) && IsSeed(a) && IsSeed(seed)
    requires k < u0.Length0 && d1 <= u0.Length1 && nx <= u0.Length2 && PlaneSize(nx, d1) < tmp.Length
    requires IsSeed(start) && Seed(start) == Stream(Seed(a), Seed(seed), PlaneFirst(base, nx, ny, k))
    modifies u0, tmp
    ensures PlaneFilled(narrow, u0, a, seed, base, nx, ny, d1, k)
    ensures forall l :: 0 <= l < u0.Length0 && l != k && old(PlaneFilled(narrow, u0, a, seed, base, nx, ny, d1, l)) ==>
      PlaneFilled(narrow, u0, a, seed, base, nx, ny, d1, l)
  {
    hide Precise, IsSeed, Seed, Stream, Uniform, PlaneFirst, PlaneSize, PlaceInPlane, Place;
    var x0 := start;
    x0 := Vranlc(fl, PlaneSize(nx, d1), x0, a, tmp);
    FillPlane(narrow, u0, k, nx, d1, tmp);
    PlaneDone(narrow, u0, a, seed, tmp, start, base, nx, ny, d1, k);
  }

  // Every element of u0 takes the next two numbers of one stream, plane after plane.
  method ComputeInitialConditions(fl: Rounding, narrow: Narrowing, a: real, seed: real, nx: nat, ny: nat,
                                  d1: nat, d2: nat, zstart: nat, ystart: nat, u0: array3<Complex>, tmp: array<real>)
    requires Precise(fl) && IsSeed(a) && IsSeed(seed) && zstart >= 1 && ystart >= 1
    requires d2 <= u0.Length0 && d1 <= u0.Length1 && nx <= u0.Length2 && PlaneSize(nx, d1) < tmp.Length
    modifies u0, tmp
    ensures PartFilled(narrow, u0, a, seed, nx, ny, zstart, ystart, d2, d1)
  {
    hide *;
    StreamStarts(a, seed);
    ghost var base := Before(nx, ny, zstart, ystart);
    PlaneNext(base, nx, ny, 0);
    var start := seed;
    var dummy;
    var an := Ipow46(fl, a, Before(nx, ny, zstart, ystart));
    Jumps(a, an, seed, start, 0, base);
    dummy, start := Randlc(fl, start, an);
    an := Ipow46(fl, a, PlaneSize(nx, ny));
    for k := 0 to d2
      invariant IsSeed(start) && Seed(start) == Stream(Seed(a), Seed(seed), PlaneFirst(base, nx, ny, k))
      invariant forall l :: 0 <= l < k ==> PlaneFilled(narrow, u0, a, seed, base, nx, ny, d1, l)
    {
      RandomPlane(fl, narrow, a, seed, start, base, nx, ny, d1, k, u0, tmp);
      PlaneNext(base, nx, ny, k);
      if k != d2 {
        Jumps(a, an, seed, start, PlaneFirst(base, nx, ny, k), PlaneSize(nx, ny));
        dummy, start := Randlc(fl, start, an);
      }
    }
    PlanesFillPart(narrow, u0, a, seed, nx, ny, zstart, ystart, d2, d1);
  }

  // Element (k, j, i) of the part of the array that begins at (zstart, ystart), counted from 1, holds
  // the pair of numbers at its place in the whole array.
  ghost predicate PartFilled(narrow: Narrowing, u0: array3<Complex>, a: real, seed: real, nx: nat, ny: nat,
                             zstart: nat, ystart: nat, d2: nat, d1: nat)
    requires d2 <= u0.Length0 && d1 <= u0.Length1 && nx <= u0.Length2 && zstart >= 1 && ystart >= 1
    reads u0
  {
    && IsSeed(a) && IsSeed(seed)
    && forall k, j, i :: 0 <= k < d2 && 0 <= j < d1 && 0 <= i < nx ==>
        var p := Place(0, nx, ny, zstart - 1 + k, ystart - 1 + j, i);
        StoresPair(narrow, Uniform(a, seed, p), Uniform(a, seed, p + 1), u0[k, j, i])
  }

  lemma PlaceInWhole(nx: nat, ny: nat, zstart: nat, ystart: nat, k: nat, j: nat, i: nat)
    requires zstart >= 1 && ystart >= 1
    ensures Place(Before(nx, ny, zstart, ystart), nx, ny, k, j, i)
         == Place(0, nx, ny, zstart - 1 + k, ystart - 1 + j, i)
  {
    var z, y := zstart - 1, ystart - 1;
    assert (z + k) * ny == z * ny + k * ny;
    assert (z * ny + k * ny + y + j) * nx == z * ny * nx + (k * ny + j) * nx + y * nx;
    assert z * 2 * nx * ny == 2 * (z * ny * nx) && y * 2 * nx == 2 * (y * nx);
  }

  lemma PlanesFillPart(narrow: Narrowing, u0: array3<Complex>, a: real, seed: real, nx: nat, ny: nat,
                       zstart: nat, ystart: nat, d2: nat, d1: nat)
    requires d2 <= u0.Length0 && d1 <= u0.Length1 && nx <= u0.Length2 && zstart >= 1 && ystart >= 1
    requires IsSeed(a) && IsSeed(seed)
    requires forall k :: 0 <= k < d2 ==> PlaneFilled(narrow, u0, a, seed, Before(nx, ny, zstart, ystart), nx, ny, d1, k)
    ensures PartFilled(narrow, u0, a, seed, nx, ny, zstart, ystart, d2, d1)
  {
    hide IsSeed, Uniform, Place, Before, StoresPair;
    forall k, j, i | 0 <= k < d2 && 0 <= j < d1 && 0 <= i < nx
      ensures var p := Place(0, nx, ny, zstart - 1 + k, ystart - 1 + j, i);
        StoresPair(narrow, Uniform(a, seed, p), Uniform(a, seed, p + 1), u0[k, j, i])
    {
      assert PlaneFilled(narrow, u0, a, seed, Before(nx, ny, zstart, ystart), nx, ny, d1, k);
      PlaceInWhole(nx, ny, zstart, ystart, k, j, i);
    }
  }

  ghost predicate PlaneFilled(narrow: Narrowing, u0: array3<Complex>, a: real, seed: real, base: nat,
                              nx: nat, ny: nat, d1: nat, k: nat)
    requires k < u0.Length0 && d1 <= u0.Length1 && nx <= u0.Length2
    reads u0
  {
    && IsSeed(a) && IsSeed(seed)
    && forall j, i :: 0 <= j < d1 && 0 <= i < nx ==>
        var p := Place(base, nx, ny, k, j, i);
        StoresPair(narrow, Uniform(a, seed, p), Uniform(a, seed, p + 1), u0[k, j, i])
  }

  lemma PlaneDone(narrow: Narrowing, u0: array3<Complex>, a: real, seed: real, tmp: array<real>, start: real, base: nat,
                  nx: nat, ny: nat, d1: nat, k: nat)
    requires k < u0.Length0 && d1 <= u0.Length1 && nx <= u0.Length2 && PlaneSize(nx, d1) < tmp.Length
    requires IsSeed(a) && IsSeed(seed)
    requires IsSeed(start) && Seed(start) == Stream(Seed(a), Seed(seed), PlaneFirst(base, nx, ny, k))
    requires forall t :: 1 <= t <= PlaneSize(nx, d1) ==> tmp[t] == Uniform(a, start, t)
    requires forall j, i :: 0 <= j < d1 && 0 <= i < nx ==>
      PlaceInPlane(nx, j, i) + 1 < tmp.Length
      && StoresPair(narrow, tmp[PlaceInPlane(nx, j, i)], tmp[PlaceInPlane(nx, j, i) + 1], u0[k, j, i])
    ensures PlaneFilled(narrow, u0, a, seed, base, nx, ny, d1, k)
  {
    hide IsSeed, Seed, Stream, Uniform, PlaneFirst, PlaneSize, PlaceInPlane, Place, StoresPair;
    forall j, i | 0 <= j < d1 && 0 <= i < nx
      ensures var p := Place(base, nx, ny, k, j, i);
        StoresPair(narrow, Uniform(a, seed, p), Uniform(a, seed, p + 1), u0[k, j, i])
    {
      hide *;
      PlaceSplits(base, nx, ny, k, j, i);
      PlaceFits(nx, d1, j, i);
      var t := PlaceInPlane(nx, j, i);
      UniformFrom(a, seed, start, PlaneFirst(base, nx, ny, k), t);
      UniformFrom(a, seed, start, PlaneFirst(base, nx, ny, k), t + 1);
    }
  }

  lemma StreamStarts(a: real, seed: real)
    requires IsSeed(a) && IsSeed(seed)
    ensures Stream(Seed(a), Seed(seed), 0) == Seed(seed)
  {
  }

  // The multiplier 5^13 and the seed of both benchmarks are admissible.
  lemma BenchmarkSeeds()
    ensures IsSeed(1220703125.0) && IsSeed(314159265.0)
  {
  }

  // The i-th number of the generator, converted to a posit.
  method NextStored(fl: Rounding, narrow: Narrowing, ghost a: real, a1: real, a2: real, x: real,
                    ghost xSeed: real, ghost i: nat)
      returns (x': real, z: nat)
    requires Precise(fl) && IsSeed(a) && IsSeed(x) && IsSeed(xSeed) && i > 0
    requires a1 == (Seed(a) / M23) as real && a2 == (Seed(a) % M23) as real
    requires Seed(x) == Stream(Seed(a), Seed(xSeed), i - 1)
    ensures IsSeed(x') && Seed(x') == Stream(Seed(a), Seed(xSeed), i)
    ensures Stores(narrow, Uniform(a, xSeed, i), z)
  {
    hide *;
    NextIs(a, xSeed, i);
    x' := Step(fl, Seed(a), a1, a2, x);
    NormalisedKept(fl, x');
    var y := fl(R46 * x');
    assert y == Uniform(a, xSeed, i);
    z := Store(narrow, y);
  }

  lemma NextIs(a: real, xSeed: real, i: nat)
    requires IsSeed(a) && IsSeed(xSeed) && i > 0
    ensures Seed(a) < M46 && Stream(Seed(a), Seed(xSeed), i) == Seed(a) * Stream(Seed(a), Seed(xSeed), i - 1) % M46
    ensures Uniform(a, xSeed, i) == R46 * Stream(Seed(a), Seed(xSeed), i) as real
  {
  }

  // The generator writing n numbers into z[i3, i2, 1..n].
  method VranlcRow(fl: Rounding, narrow: Narrowing, n: nat, xSeed: real, a: real, z: array3<nat>, i3: nat, i2: nat)
      returns (x: real)
    requires Precise(fl) && IsSeed(xSeed) && IsSeed(a)
    requires i3 < z.Length0 && i2 < z.Length1 && n < z.Length2
    modifies z
    ensures IsSeed(x) && Seed(x) == Stream(Seed(a), Seed(xSeed), n)
    ensures forall i :: 1 <= i <= n ==> Stores(narrow, Uniform(a, xSeed, i), z[i3, i2, i])
    ensures forall l, j, i :: 0 <= l < z.Length0 && 0 <= j < z.Length1 && 0 <= i < z.Length2 && (l, j) != (i3, i2) ==>
      z[l, j, i] == old(z[l, j, i])
  {
    hide *;
    var a1, a2 := Split(fl, a);
    x := xSeed;
    StreamStarts(a, xSeed);
    for i := 1 to n + 1
      invariant IsSeed(x) && Seed(x) == Stream(Seed(a), Seed(xSeed), i - 1)
      invariant forall j :: 1 <= j < i ==> Stores(narrow, Uniform(a, xSeed, j), z[i3, i2, j])
      invariant forall l, j, k ::
        0 <= l < z.Length0 && 0 <= j < z.Length1 && 0 <= k < z.Length2 && (l, j) != (i3, i2) ==>
          z[l, j, k] == old(z[l, j, k])
    {
      var value;
      x, value := NextStored(fl, narrow, a, a1, a2, x, xSeed, i);
      z[i3, i2, i] := value;
    }
  }

  // The place of grid point (i3, i2, i1), counted from 1 in each direction, after first numbers.
  function GridPlace(first: nat, nx: nat, ny: nat, i3: nat, i2: nat, i1: nat): nat
    requires i3 >= 1 && i2 >= 1
  {
    RowFirst(GridPlaneFirst(first, nx, ny, i3), nx, i2) + i1
  }

  // The numbers before grid plane i3, and before row i2 of a plane.
  function GridPlaneFirst(first: nat, nx: nat, ny: nat, i3: nat): nat
    requires i3 >= 1
  {
    first + nx * ny * (i3 - 1)
  }

  function RowFirst(from: nat, nx: nat, i2: nat): nat
    requires i2 >= 1
  {
    from + nx * (i2 - 1)
  }

  lemma GridPlaneNext(first: nat, nx: nat, ny: nat, i3: nat)
    requires i3 >= 1
    ensures GridPlaneFirst(first, nx, ny, i3) + nx * ny == GridPlaneFirst(first, nx, ny, i3 + 1)
    ensures GridPlaneFirst(first, nx, ny, 1) == first
  {
    assert nx * ny * (i3 - 1) + nx * ny == nx * ny * i3;
  }

  lemma RowNext(from: nat, nx: nat, i2: nat)
    requires i2 >= 1
    ensures RowFirst(from, nx, i2) + nx == RowFirst(from, nx, i2 + 1)
    ensures RowFirst(from, nx, 1) == from
  {
    assert nx * (i2 - 1) + nx == nx * i2;
  }

  ghost predicate SeededTo(narrow: Narrowing, z: array3<nat>, a: real, seed: real, first: nat, nx: nat, ny: nat,
                           i3: nat, i2: nat, d1: nat)
    requires 1 <= i3 < z.Length0 && 1 <= i2 < z.Length1 && d1 < z.Length2
    reads z
  {
    && IsSeed(a) && IsSeed(seed)
    && forall i1 :: 1 <= i1 <= d1 ==>
      Stores(narrow, Uniform(a, seed, GridPlace(first, nx, ny, i3, i2, i1)), z[i3, i2, i1])
  }

  // Row (i3, i2) takes the numbers that follow x1; the other rows stay as they are.
  method SeedRow(fl: Rounding, narrow: Narrowing, a: real, seed: real, z: array3<nat>, nx: nat, ny: nat,
                 i3: nat, i2: nat, d1: nat, x1: real, ghost first: nat)
    requires Precise(fl) && IsSeed(a) && IsSeed(seed)
    requires 1 <= i3 < z.Length0 && 1 <= i2 < z.Length1 && d1 < z.Length2
    requires IsSeed(x1)
    requires Seed(x1) == Stream(Seed(a), Seed(seed), RowFirst(GridPlaneFirst(first, nx, ny, i3), nx, i2))
    modifies z
    ensures SeededTo(narrow, z, a, seed, first, nx, ny, i3, i2, d1)
    ensures forall l, j ::
      (1 <= l < z.Length0 && 1 <= j < z.Length1 && (l, j) != (i3, i2)
       && old(SeededTo(narrow, z, a, seed, first, nx, ny, l, j, d1)))
      ==> SeededTo(narrow, z, a, seed, first, nx, ny, l, j, d1)
  {
    hide Precise, IsSeed, Seed, Stream, Uniform, GridPlace, GridPlaneFirst, RowFirst, Stores;
    var xx := x1;
    xx := VranlcRow(fl, narrow, d1, xx, a, z, i3, i2);
    forall i1 | 1 <= i1 <= d1
      ensures Stores(narrow, Uniform(a, seed, GridPlace(first, nx, ny, i3, i2, i1)), z[i3, i2, i1])
    {
      RowUniform(a, seed, first, nx, ny, i3, i2, i1, x1);
    }
  }

  lemma RowUniform(a: real, seed: real, first: nat, nx: nat, ny: nat, i3: nat, i2: nat, i1: nat, x1: real)
    requires IsSeed(a) && IsSeed(seed) && IsSeed(x1) && i3 >= 1 && i2 >= 1
    requires Seed(x1) == Stream(Seed(a), Seed(seed), RowFirst(GridPlaneFirst(first, nx, ny, i3), nx, i2))
    ensures Uniform(a, x1, i1) == Uniform(a, seed, GridPlace(first, nx, ny, i3, i2, i1))
  {
    hide IsSeed, Seed, Stream, Uniform, GridPlaneFirst, RowFirst;
    UniformFrom(a, seed, x1, RowFirst(GridPlaneFirst(first, nx, ny, i3), nx, i2), i1);
  }

  // One plane of rows, each a stride of nx further on in the stream.
  method SeedPlane(fl: Rounding, narrow: Narrowing, a: real, seed: real, z: array3<nat>, nx: nat, ny: nat,
                   i3: nat, d1: nat, e2: nat, a1: real, x0: real, ghost first: nat)
    requires Precise(fl) && 1 <= i3 < z.Length0 && 1 <= e2 <= z.Length1 && d1 < z.Length2
    requires IsSeed(a) && IsSeed(seed) && IsSeed(a1) && Seed(a1) == PowerMod(Seed(a), nx)
    requires IsSeed(x0) && Seed(x0) == Stream(Seed(a), Seed(seed), GridPlaneFirst(first, nx, ny, i3))
    modifies z
    ensures forall i2 :: 1 <= i2 < e2 ==> SeededTo(narrow, z, a, seed, first, nx, ny, i3, i2, d1)
    ensures forall l, j ::
      (1 <= l < z.Length0 && 1 <= j < z.Length1 && l != i3
       && old(SeededTo(narrow, z, a, seed, first, nx, ny, l, j, d1)))
      ==> SeededTo(narrow, z, a, seed, first, nx, ny, l, j, d1)
  {
    hide *;
    ghost var from := GridPlaneFirst(first, nx, ny, i3);
    var x1 := x0;
    RowNext(from, nx, 1);
    for i2 := 1 to e2
      invariant IsSeed(x1) && Seed(x1) == Stream(Seed(a), Seed(seed), RowFirst(from, nx, i2))
      invariant forall j :: 1 <= j < i2 ==> SeededTo(narrow, z, a, seed, first, nx, ny, i3, j, d1)
      invariant forall l, j ::
        (1 <= l < z.Length0 && 1 <= j < z.Length1 && l != i3
       && old(SeededTo(narrow, z, a, seed, first, nx, ny, l, j, d1)))
        ==> SeededTo(narrow, z, a, seed, first, nx, ny, l, j, d1)
    {
      SeedRow(fl, narrow, a, seed, z, nx, ny, i3, i2, d1, x1, first);
      Jumps(a, a1, seed, x1, RowFirst(from, nx, i2), nx);
      RowNext(from, nx, i2);
      var rdummy;
      rdummy, x1 := Randlc(fl, x1, a1);
    }
  }

  // The number that point (i3, i2, i1) of the whole grid takes, all counted from 1.
  function GridNumber(nx: nat, ny: nat, i3: nat, i2: nat, i1: nat): nat
    requires i3 >= 1 && i2 >= 1
  {
    nx * (ny * (i3 - 1) + (i2 - 1)) + i1
  }

  // The number of point (i3, i2, i1) of the part of the grid that begins at (is3, is2, is1).
  function PartNumber(nx: nat, ny: nat, is1: nat, is2: nat, is3: nat, i3: nat, i2: nat, i1: nat): nat
    requires is1 >= 1 && is2 >= 1 && is3 >= 1 && i3 >= 1 && i2 >= 1
  {
    GridNumber(nx, ny, is3 - 1 + i3, is2 - 1 + i2, is1 - 1 + i1)
  }

  // Every point of the part holds the number at its place in the whole grid.
  ghost predicate GridSeeded(narrow: Narrowing, z: array3<nat>, a: real, seed: real, nx: nat, ny: nat,
                             is1: nat, is2: nat, is3: nat, d3: nat, d2: nat, d1: nat)
    requires d3 < z.Length0 && d2 < z.Length1 && d1 < z.Length2 && is1 >= 1 && is2 >= 1 && is3 >= 1
    reads z
  {
    && IsSeed(a) && IsSeed(seed)
    && forall i3, i2, i1 :: 1 <= i3 <= d3 && 1 <= i2 <= d2 && 1 <= i1 <= d1 ==>
        Stores(narrow, Uniform(a, seed, PartNumber(nx, ny, is1, is2, is3, i3, i2, i1)), z[i3, i2, i1])
  }

  lemma GridPlaceInWhole(nx: nat, ny: nat, is1: nat, is2: nat, is3: nat, i3: nat, i2: nat, i1: nat)
    requires is1 >= 1 && is2 >= 1 && is3 >= 1 && i3 >= 1 && i2 >= 1
    ensures GridPlace(First(nx, ny, is1, is2, is3), nx, ny, i3, i2, i1)
         == PartNumber(nx, ny, is1, is2, is3, i3, i2, i1)
  {
    var z, y, k, j := is3 - 1, is2 - 1, i3 - 1, i2 - 1;
    assert ny * (z + k) == ny * z + ny * k;
    assert nx * (y + ny * z) + nx * (ny * k) + nx * j == nx * (ny * z + ny * k + (y + j));
    assert nx * ny * k == nx * (ny * k);
  }

  lemma RowsSeedGrid(narrow: Narrowing, z: array3<nat>, a: real, seed: real, nx: nat, ny: nat,
                     is1: nat, is2: nat, is3: nat, d3: nat, d2: nat, d1: nat)
    requires d3 < z.Length0 && d2 < z.Length1 && d1 < z.Length2 && is1 >= 1 && is2 >= 1 && is3 >= 1
    requires IsSeed(a) && IsSeed(seed)
    requires forall i3, i2 :: 1 <= i3 <= d3 && 1 <= i2 <= d2 ==>
      SeededTo(narrow, z, a, seed, First(nx, ny, is1, is2, is3), nx, ny, i3, i2, d1)
    ensures GridSeeded(narrow, z, a, seed, nx, ny, is1, is2, is3, d3, d2, d1)
  {
    hide IsSeed, Uniform, GridPlace, PartNumber, First, Stores;
    forall i3, i2, i1 | 1 <= i3 <= d3 && 1 <= i2 <= d2 && 1 <= i1 <= d1
      ensures Stores(narrow, Uniform(a, seed, PartNumber(nx, ny, is1, is2, is3, i3, i2, i1)),
                     z[i3, i2, i1])
    {
      assert SeededTo(narrow, z, a, seed, First(nx, ny, is1, is2, is3), nx, ny, i3, i2, d1);
      GridPlaceInWhole(nx, ny, is1, is2, is3, i3, i2, i1);
    }
  }

  // The numbers of the stream go to the points of the whole grid in order, each to exactly one.
  lemma GridNumberOnto(nx: nat, ny: nat, t: nat) returns (i3: nat, i2: nat, i1: nat)
    requires nx > 0 && ny > 0 && t >= 1
    ensures i3 >= 1 && 1 <= i2 <= ny && 1 <= i1 <= nx && GridNumber(nx, ny, i3, i2, i1) == t
  {
    var row := (t - 1) / nx;
    i3, i2, i1 := row / ny + 1, row % ny + 1, (t - 1) % nx + 1;
    DivMod(t - 1, nx);
    DivMod(row, ny);
    assert ny * (row / ny) == row / ny * ny && nx * row == row * nx;
  }

  lemma GridNumberOnce(nx: nat, ny: nat, i3: nat, i2: nat, i1: nat, i3': nat, i2': nat, i1': nat)
    requires i3 >= 1 && 1 <= i2 <= ny && 1 <= i1 <= nx && i3' >= 1 && 1 <= i2' <= ny && 1 <= i1' <= nx
    requires GridNumber(nx, ny, i3, i2, i1) == GridNumber(nx, ny, i3', i2', i1')
    ensures i3' == i3 && i2' == i2 && i1' == i1
  {
    var row, row' := ny * (i3 - 1) + (i2 - 1), ny * (i3' - 1) + (i2' - 1);
    DivModUnique(nx * row + (i1 - 1), nx, row, i1 - 1);
    DivModUnique(nx * row' + (i1' - 1), nx, row', i1' - 1);
    DivModUnique(row, ny, i3 - 1, i2 - 1);
    DivModUnique(row', ny, i3' - 1, i2' - 1);
  }

  // The rows of the grid are pieces of one stream, in grid order.
  method SeedGrid(fl: Rounding, narrow: Narrowing, a: real, seed: real, z: array3<nat>, nx: nat, ny: nat,
                  is1: nat, is2: nat, is3: nat, ie1: nat, ie2: nat, ie3: nat)
    requires Precise(fl) && IsSeed(a) && IsSeed(seed)
    requires 1 <= is1 <= ie1 + 1 && 1 <= is2 <= ie2 + 1 && 1 <= is3 <= ie3 + 1
    requires ie3 - is3 + 2 <= z.Length0 && ie2 - is2 + 2 <= z.Length1 && ie1 - is1 + 1 < z.Length2
    modifies z
    ensures GridSeeded(narrow, z, a, seed, nx, ny, is1, is2, is3, ie3 - is3 + 1, ie2 - is2 + 1, ie1 - is1 + 1)
  {
    hide *;
    var a1 := Power(fl, a, nx);
    var a2 := Power(fl, a, nx * ny);
    var i := First(nx, ny, is1, is2, is3);
    var ai := Power(fl, a, i);
    var d1, e2, e3 := ie1 - is1 + 1, ie2 - is2 + 2, ie3 - is3 + 2;
    var x0 := seed;
    StreamStarts(a, seed);
    Jumps(a, ai, seed, x0, 0, i);
    GridPlaneNext(i, nx, ny, 1);
    var rdummy;
    rdummy, x0 := Randlc(fl, x0, ai);
    for i3 := 1 to e3
      invariant IsSeed(x0) && Seed(x0) == Stream(Seed(a), Seed(seed), GridPlaneFirst(i, nx, ny, i3))
      invariant forall l, j :: 1 <= l < i3 && 1 <= j < e2 ==> SeededTo(narrow, z, a, seed, i, nx, ny, l, j, d1)
    {
      SeedPlane(fl, narrow, a, seed, z, nx, ny, i3, d1, e2, a1, x0, i);
      Jumps(a, a2, seed, x0, GridPlaneFirst(i, nx, ny, i3), nx * ny);
      GridPlaneNext(i, nx, ny, i3);
      rdummy, x0 := Randlc(fl, x0, a2);
    }
    RowsSeedGrid(narrow, z, a, seed, nx, ny, is1, is2, is3, ie3 - is3 + 1, ie2 - is2 + 1, d1);
  }

  // The numbers before this processor's part of the grid.
  function First(nx: nat, ny: nat, is1: nat, is2: nat, is3: nat): nat
    requires is1 >= 1 && is2 >= 1 && is3 >= 1
  {
    is1 - 1 + nx * (is2 - 1 + ny * (is3 - 1))
  }
}
