// The two halves of zran3 joined: the grid that the generator fills, and the candidates found in it.
module SeededGrid {

  import opened Powers
  import opened Posit
  import opened PositValue
  import opened PositRounding
  import opened P32Fields
  import opened P32Order
  import opened Lcg
  import opened Randdp
  import opened InitialConditions
  import opened TopTen
  import opened Zran3

  // Half-way between 1 and the largest posit below it, 1 - 2^-28.
  const HALFWAY: real := 1.0 - 1.0 / 536870912.0

  predicate InUnit(x: real) {
    0.0 < x < HALFWAY
  }

  // The 33-bit posit between the encodings of 1 - 2^-28 and 1.
  lemma HalfwayValue()
    ensures Positive(33, 0x7FFF_FFFF) && ValPos(33, 2, 0x7FFF_FFFF) == HALFWAY
  {
    hide Exp2, Pow2;
    Pow2Words();
    Pow2Small();
    var b, w := 0x7FFF_FFFF, 32;
    assert Zeros(b, 31) == 0;
    assert Zeros(b, w) == 1;
    assert RestWidth(b, w) == 30 && Rest(b, w) == 0x3FFF_FFFF && Regime(b, w) == -1;
    assert Exponent(2, b, w) == 3 && Scale(2, b, w) == -1;
    Exp2Values();
    assert Fraction(2, b, w) == 0x3FFF_FFFC as real * (1.0 / 1073741824.0);
  }

  lemma Exp2Values()
    ensures Exp2(-1) == 0.5 && Exp2(0) == 1.0 && Exp2(0 - 30) == 1.0 / 1073741824.0
  {
    Pow2Words();
    Pow2Small();
  }

  lemma JustBelowOne()
    ensures Positive(32, 0x3FFF_FFFF) && ValPos(32, 2, 0x3FFF_FFFF) < HALFWAY
  {
    hide ValPos, Pow2;
    Pow2Words();
    Pow2Small();
    HalfwayValue();
    AppendZeros(32, 2, 0x3FFF_FFFF, 1);
    ValPosOrder(33, 2, 0x7FFF_FFFE, 0x7FFF_FFFF);
  }

  // Below one a number is rounded to a smaller posit exactly up to the half-way point.
  lemma BelowOne(x: real, p: nat)
    requires x > 0.0 && RoundsPos32(x, p) && Pos32(p)
    ensures p < 0x4000_0000 <==> x < HALFWAY
  {
    hide ValPos, Pow2, Nearest;
    Pow2Words();
    OneFields();
    JustBelowOne();
    ValPosOrder(32, 2, 0x4000_0000, MaxPos(32));
    ValPosOrder(32, 2, 1, 0x3FFF_FFFF);
    if ValPos(32, 2, 1) < x < ValPos(32, 2, MaxPos(32)) {
      var u: nat :| Straddles(32, 2, x, u) && p == Nearest(32, 2, x, u);
      NearestBelowOne(x, u);
    }
  }

  lemma NearestBelowOne(x: real, u: nat)
    requires Straddles(32, 2, x, u)
    ensures Nearest(32, 2, x, u) < 0x4000_0000 <==> x < HALFWAY
  {
    hide ValPos, Pow2;
    HalfwayValue();
    OneFields();
    JustBelowOne();
    if u >= 0x4000_0000 {
      ValPosOrder(32, 2, 0x4000_0000, u);
    } else if u < 0x3FFF_FFFF {
      ValPosOrder(32, 2, u + 1, 0x3FFF_FFFF);
    }
  }

  lemma PositiveEncoding(x: real, p: nat)
    requires x > 0.0 && Rounds32(x, p)
    ensures Pos32(p) && RoundsPos32(x, p)
  {
    hide RoundsPos;
    var r := RoundsPosTotal(32, 2, x);
    Pos32IsPositive(p);
  }

  lemma NegativeEncoding(x: real, p: nat)
    requires x < 0.0 && Rounds32(x, p)
    ensures 0x8000_0000 < p < 0x1_0000_0000
  {
    hide RoundsPos;
    Pow2Words();
    var q: nat := Pow2(32) - p;
    var r := RoundsPosTotal(32, 2, -x);
    assert RoundsPos(32, 2, -x, q);
    Pos32IsPositive(q);
  }

  // So the encoding of a number is strictly between 0 and 1 exactly if the number is in this range.
  lemma UnitEncoding(x: real, p: nat)
    requires Bits32(p) && Rounds32(x, p)
    ensures 0 < AsInt32(p) < ONE <==> InUnit(x)
  {
    if x > 0.0 {
      hide RoundsPos32, Rounds32;
      PositiveEncoding(x, p);
      BelowOne(x, p);
    } else if x < 0.0 {
      hide Rounds32;
      NegativeEncoding(x, p);
    }
  }

  // Every number that the part of the grid takes is stored strictly between 0 and 1.
  ghost predicate UnitNumbers(narrow: Narrowing, a: real, seed: real, nx: nat, ny: nat,
                              is1: nat, is2: nat, is3: nat, d3: nat, d2: nat, d1: nat)
    requires IsSeed(a) && IsSeed(seed) && is1 >= 1 && is2 >= 1 && is3 >= 1
  {
    forall i3, i2, i1 :: 1 <= i3 <= d3 && 1 <= i2 <= d2 && 1 <= i1 <= d1 ==>
      InUnit(narrow(Uniform(a, seed, PartNumber(nx, ny, is1, is2, is3, i3, i2, i1))))
  }

  lemma SeededUnit(narrow: Narrowing, z: array3<nat>, a: real, seed: real, nx: nat, ny: nat,
                   is1: nat, is2: nat, is3: nat, d3: nat, d2: nat, d1: nat)
    requires d3 + 2 <= z.Length0 && d2 + 2 <= z.Length1 && d1 + 2 <= z.Length2 && IsSeed(a) && IsSeed(seed)
    requires is1 >= 1 && is2 >= 1 && is3 >= 1
    requires GridSeeded(narrow, z, a, seed, nx, ny, is1, is2, is3, d3, d2, d1)
    ensures UnitGrid(z, d1 + 2, d2 + 2, d3 + 2)
      <==> UnitNumbers(narrow, a, seed, nx, ny, is1, is2, is3, d3, d2, d1)
    ensures RealGrid(z, d1 + 2, d2 + 2, d3 + 2)
  {
    hide Uniform, PartNumber, InUnit, Rounds32, IsSeed, AsInt32;
    forall i3, i2, i1 | 1 <= i3 <= d3 && 1 <= i2 <= d2 && 1 <= i1 <= d1
      ensures Real32(z[i3, i2, i1])
      ensures 0 < AsInt32(z[i3, i2, i1]) < ONE
        <==> InUnit(narrow(Uniform(a, seed, PartNumber(nx, ny, is1, is2, is3, i3, i2, i1))))
    {
      var x := narrow(Uniform(a, seed, PartNumber(nx, ny, is1, is2, is3, i3, i2, i1)));
      assert Stores(narrow, Uniform(a, seed, PartNumber(nx, ny, is1, is2, is3, i3, i2, i1)),
                    z[i3, i2, i1]);
      UnitEncoding(x, z[i3, i2, i1]);
      RealEncoding(x, z[i3, i2, i1]);
    }
  }

  lemma RealEncoding(x: real, p: nat)
    requires Bits32(p) && Rounds32(x, p)
    ensures Real32(p)
  {
    if x > 0.0 {
      PositiveEncoding(x, p);
    } else if x < 0.0 {
      NegativeEncoding(x, p);
    }
  }

  // zran3 up to the candidates. The interior values are all strictly between 0 and 1 exactly if the
  // narrowed numbers of the stream at their places are; then the tables hold the ten best of each kind.
  method SeedAndScan(fl: Rounding, narrow: Narrowing, a: real, seed: real, z: array3<nat>, t: Tables,
                     nx: nat, ny: nat, is1: nat, is2: nat, is3: nat, ie1: nat, ie2: nat, ie3: nat,
                     n1: nat, n2: nat, n3: nat)
    requires Precise(fl) && IsSeed(a) && IsSeed(seed) && t.Valid()
    requires 1 <= is1 <= ie1 + 1 && 1 <= is2 <= ie2 + 1 && 1 <= is3 <= ie3 + 1
    requires n1 == ie1 - is1 + 3 && n2 == ie2 - is2 + 3 && n3 == ie3 - is3 + 3
    requires n3 <= z.Length0 && n2 <= z.Length1 && n1 <= z.Length2
    modifies z, t.ten, t.j1, t.j2, t.j3
    ensures GridSeeded(narrow, z, a, seed, nx, ny, is1, is2, is3, n3 - 2, n2 - 2, n1 - 2)
    ensures RealGrid(z, n1, n2, n3)
    ensures UnitGrid(z, n1, n2, n3)
      <==> UnitNumbers(narrow, a, seed, nx, ny, is1, is2, is3, n3 - 2, n2 - 2, n1 - 2)
    ensures Unit(GridPoints(z, n1, n2, n3 - 1))
      <==> (n3 - 2) * ((n2 - 2) * (n1 - 2)) >= MM && UnitGrid(z, n1, n2, n3)
    ensures Unit(GridPoints(z, n1, n2, n3 - 1)) ==>
      && TenBest(1, t.Column(1), GridPoints(z, n1, n2, n3 - 1))
      && TenBest(0, t.Column(0), GridPoints(z, n1, n2, n3 - 1))
    ensures UnitGrid(z, n1, n2, n3) && (n3 - 2) * ((n2 - 2) * (n1 - 2)) >= MM ==>
      TenLargest(z, n1, n2, n3, t.Column(1)) && TenSmallest(z, n1, n2, n3, t.Column(0))
  {
    hide *;
    SeedGrid(fl, narrow, a, seed, z, nx, ny, is1, is2, is3, ie1, ie2, ie3);
    ghost var d1: nat, d2: nat, d3: nat := ie1 - is1 + 1, ie2 - is2 + 1, ie3 - is3 + 1;
    assert d1 == n1 - 2 && d2 == n2 - 2 && d3 == n3 - 2;
    SeededUnit(narrow, z, a, seed, nx, ny, is1, is2, is3, d3, d2, d1);
    t.Scan(z, n1, n2, n3);
    UnitExactly(z, n1, n2, n3);
    BestInValues(z, n1, n2, n3, t.Column(1));
    BestInValues(z, n1, n2, n3, t.Column(0));
  }

  // ----- single precision -----

  // What narrowing to single precision does to the numbers of the generator: they stay positive, and
  // those from 1 - 2^-25 on become 1, while the largest float below is 1 - 2^-24.
  ghost predicate Single(narrow: Narrowing) {
    forall v: real :: R46 <= v < 1.0 ==> (InUnit(narrow(v)) <==> v < 1.0 - 1.0 / 33554432.0)
  }

  // An odd stream stays odd, so no number is zero.
  lemma {:induction false} StaysOdd(a: nat, x: nat, i: nat)
    requires a % 2 == 1 && x % 2 == 1
    ensures Stream(a, x, i) % 2 == 1
  {
    if i > 0 {
      StaysOdd(a, x, i - 1);
      OddProduct(a, Stream(a, x, i - 1));
    }
  }

  lemma OddProduct(a: nat, b: nat)
    requires a % 2 == 1 && b % 2 == 1
    ensures a * b % M46 % 2 == 1
  {
    var c, d := a / 2, b / 2;
    var p := 2 * c * d + c + d;
    assert a * b == 2 * p + 1;
    OddRemainder(p);
  }

  lemma OddRemainder(p: nat)
    ensures (2 * p + 1) % M46 % 2 == 1
  {
  }

  // With single precision and odd seeds a number is stored below 1 exactly if it is one of the first
  // 2^46 - 2^21 of the generator's numbers.
  lemma SingleUnit(narrow: Narrowing, a: real, seed: real, i: nat)
    requires Single(narrow) && IsSeed(a) && IsSeed(seed) && Seed(a) % 2 == 1 && Seed(seed) % 2 == 1
    ensures InUnit(narrow(Uniform(a, seed, i))) <==> Stream(Seed(a), Seed(seed), i) < M46 - 0x20_0000
  {
    hide InUnit, Stream, IsSeed, Seed;
    var k := Stream(Seed(a), Seed(seed), i);
    StaysOdd(Seed(a), Seed(seed), i);
    StreamBelow(a, seed, i);
    var v := Uniform(a, seed, i);
    assert v == R46 * k as real;
    ScaledBounds(k);
    assert R46 <= v < 1.0;
  }

  lemma StreamBelow(a: real, seed: real, i: nat)
    requires IsSeed(a) && IsSeed(seed)
    ensures Stream(Seed(a), Seed(seed), i) < M46
  {
  }

  lemma ScaledBounds(k: nat)
    requires 0 < k < M46
    ensures R46 <= R46 * k as real < 1.0
    ensures R46 * k as real < 1.0 - 1.0 / 33554432.0 <==> k < M46 - 0x20_0000
  {
  }

  // Such numbers occur: this seed is followed by the largest number there is, which is stored as 1.
  lemma LargestNumber()
    ensures Stream(1220703125, 20916654096451, 1) == M46 - 1
  {
    assert Stream(1220703125, 20916654096451, 0) == 20916654096451;
    assert 1220703125 * 20916654096451 == 362846108 * M46 + (M46 - 1);
    DivModUnique(1220703125 * 20916654096451, M46, 362846108, M46 - 1);
  }

  const MULTIPLIER: real := 1220703125.0
  const FIRST_SEED: real := 314159265.0

  // No number of the stream that the grid takes is one of the last 2^21.
  ghost predicate LowNumbers(a: nat, seed: nat, nx: nat, ny: nat, is1: nat, is2: nat, is3: nat,
                             d3: nat, d2: nat, d1: nat)
    requires is1 >= 1 && is2 >= 1 && is3 >= 1
  {
    forall i3, i2, i1 :: 1 <= i3 <= d3 && 1 <= i2 <= d2 && 1 <= i1 <= d1 ==>
      Stream(a, seed, PartNumber(nx, ny, is1, is2, is3, i3, i2, i1)) < M46 - 0x20_0000
  }

  lemma LowIsUnit(narrow: Narrowing, a: real, seed: real, nx: nat, ny: nat, is1: nat, is2: nat, is3: nat,
                  d3: nat, d2: nat, d1: nat)
    requires Single(narrow) && IsSeed(a) && IsSeed(seed) && Seed(a) % 2 == 1 && Seed(seed) % 2 == 1
    requires is1 >= 1 && is2 >= 1 && is3 >= 1
    ensures UnitNumbers(narrow, a, seed, nx, ny, is1, is2, is3, d3, d2, d1)
      <==> LowNumbers(Seed(a), Seed(seed), nx, ny, is1, is2, is3, d3, d2, d1)
  {
    hide InUnit, Uniform, Stream, PartNumber, Seed, IsSeed, Single;
    forall i3, i2, i1 | 1 <= i3 <= d3 && 1 <= i2 <= d2 && 1 <= i1 <= d1
      ensures var i := PartNumber(nx, ny, is1, is2, is3, i3, i2, i1);
        InUnit(narrow(Uniform(a, seed, i))) <==> Stream(Seed(a), Seed(seed), i) < M46 - 0x20_0000
    {
      SingleUnit(narrow, a, seed, PartNumber(nx, ny, is1, is2, is3, i3, i2, i1));
    }
  }

  lemma OddSeeds()
    ensures IsSeed(MULTIPLIER) && IsSeed(FIRST_SEED) && Seed(MULTIPLIER) == 1220703125 && Seed(FIRST_SEED) == 314159265
  {
    BenchmarkSeeds();
  }

  // The benchmark's own seeds.
  method SeedBenchmark(fl: Rounding, narrow: Narrowing, z: array3<nat>, t: Tables, nx: nat, ny: nat,
                       is1: nat, is2: nat, is3: nat, ie1: nat, ie2: nat, ie3: nat, n1: nat, n2: nat, n3: nat)
    requires Precise(fl) && Single(narrow) && t.Valid()
    requires 1 <= is1 <= ie1 + 1 && 1 <= is2 <= ie2 + 1 && 1 <= is3 <= ie3 + 1
    requires n1 == ie1 - is1 + 3 && n2 == ie2 - is2 + 3 && n3 == ie3 - is3 + 3
    requires n3 <= z.Length0 && n2 <= z.Length1 && n1 <= z.Length2
    modifies z, t.ten, t.j1, t.j2, t.j3
    ensures RealGrid(z, n1, n2, n3)
    ensures UnitGrid(z, n1, n2, n3)
      <==> LowNumbers(1220703125, 314159265, nx, ny, is1, is2, is3, n3 - 2, n2 - 2, n1 - 2)
    ensures Unit(GridPoints(z, n1, n2, n3 - 1))
      <==> (n3 - 2) * ((n2 - 2) * (n1 - 2)) >= MM && UnitGrid(z, n1, n2, n3)
    ensures Unit(GridPoints(z, n1, n2, n3 - 1)) ==>
      && TenBest(1, t.Column(1), GridPoints(z, n1, n2, n3 - 1))
      && TenBest(0, t.Column(0), GridPoints(z, n1, n2, n3 - 1))
    ensures UnitGrid(z, n1, n2, n3) && (n3 - 2) * ((n2 - 2) * (n1 - 2)) >= MM ==>
      TenLargest(z, n1, n2, n3, t.Column(1)) && TenSmallest(z, n1, n2, n3, t.Column(0))
  {
    OddSeeds();
    hide *;
    SeedAndScan(fl, narrow, MULTIPLIER, FIRST_SEED, z, t, nx, ny, is1, is2, is3, ie1, ie2, ie3, n1, n2, n3);
    LowIsUnit(narrow, MULTIPLIER, FIRST_SEED, nx, ny, is1, is2, is3, n3 - 2, n2 - 2, n1 - 2);
  }
}
