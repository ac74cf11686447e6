// The candidate search of zran3 on its arrays.
module Zran3 {

  import opened TopTen
  import opened P32Fields
  import opened P32Order

  // The two tables: values and the three coordinates where they occur, table ind in column ind.
  class Tables {
    const ten: array2<int>
    const j1: array2<int>
    const j2: array2<int>
    const j3: array2<int>

    constructor ()
      ensures Valid() && fresh(ten) && fresh(j1) && fresh(j2) && fresh(j3)
    {
      ten, j1, j2, j3 := new int[MM, 2], new int[MM, 2], new int[MM, 2], new int[MM, 2];
    }

    ghost predicate Valid() {
      && ten.Length0 == MM && ten.Length1 == 2 && j1.Length0 == MM && j1.Length1 == 2
      && j2.Length0 == MM && j2.Length1 == 2 && j3.Length0 == MM && j3.Length1 == 2
      && ten != j1 && ten != j2 && ten != j3 && j1 != j2 && j1 != j3 && j2 != j3
    }

    ghost function At(ind: nat, i: nat): Point
      requires Valid() && ind < 2 && i < MM
      reads ten, j1, j2, j3
    {
      Point(ten[i, ind], j1[i, ind], j2[i, ind], j3[i, ind])
    }

    ghost function Column(ind: nat): (c: seq<Point>)
      requires Valid() && ind < 2
      reads ten, j1, j2, j3
      ensures |c| == MM && forall i :: 0 <= i < MM ==> c[i] == At(ind, i)
    {
      seq(MM, i requires 0 <= i < MM reads ten, j1, j2, j3 => At(ind, i))
    }

    method Swap(a: array2<int>, i: nat, ind: nat)
      requires i + 1 < a.Length0 && ind < a.Length1
      modifies a
      ensures a[i, ind] == old(a[i + 1, ind]) && a[i + 1, ind] == old(a[i, ind])
      ensures forall k, c :: 0 <= k < a.Length0 && 0 <= c < a.Length1 && !(c == ind && i <= k <= i + 1) ==>
        a[k, c] == old(a[k, c])
    {
      var temp := a[i + 1, ind];
      a[i + 1, ind] := a[i, ind];
      a[i, ind] := temp;
    }

    method SwapAll(i: nat, ind: nat)
      requires Valid() && i + 1 < MM && ind < 2
      modifies ten, j1, j2, j3
      ensures Column(ind) == old(Column(ind))[i := old(At(ind, i + 1))][i + 1 := old(At(ind, i))]
      ensures Column(1 - ind) == old(Column(1 - ind))
    {
      Swap(ten, i, ind);
      Swap(j1, i, ind);
      Swap(j2, i, ind);
      Swap(j3, i, ind);
    }

    // Moves the first entry of table ind behind those that it beats.
    method Bubble(ind: nat)
      requires Valid() && ind < 2
      modifies ten, j1, j2, j3
      ensures Column(ind) == Settled(ind, old(Column(ind)))
      ensures Column(1 - ind) == old(Column(1 - ind))
    {
      hide Settled;
      var i := 0;
      ghost var before := Column(ind);
      NothingSettled(ind, before);
      while i < MM - 1
        invariant 0 <= i <= MM - 1 && Column(1 - ind) == old(Column(1 - ind))
        invariant Settled(ind, before) == Column(ind)[..i] + Settled(ind, Column(ind)[i..])
      {
        ghost var c := Column(ind);
        if (ind == 1 && ten[i, ind] > ten[i + 1, ind]) || (ind != 1 && ten[i, ind] < ten[i + 1, ind]) {
          SwapAll(i, ind);
          OneUp(ind, c, i, Column(ind));
        } else {
          Stops(ind, c, i);
          return;
        }
        i := i + 1;
      }
      Stops(ind, Column(ind), i);
    }

    lemma Stops(ind: nat, c: seq<Point>, i: nat)
      requires i < |c| && (i + 1 < |c| ==> !Beats(ind, c[i], c[i + 1]))
      ensures c[..i] + Settled(ind, c[i..]) == c
    {
      assert c[i..][0] == c[i] && (i + 1 < |c| ==> c[i..][1] == c[i + 1]);
      assert c == c[..i] + c[i..];
    }

    lemma NothingSettled(ind: nat, c: seq<Point>)
      ensures c[..0] + Settled(ind, c[0..]) == Settled(ind, c)
    {
      assert c[0..] == c && c[..0] == [];
    }

    lemma OneUp(ind: nat, c: seq<Point>, i: nat, c': seq<Point>)
      requires i + 1 < |c| && Beats(ind, c[i], c[i + 1]) && c' == c[i := c[i + 1]][i + 1 := c[i]]
      ensures c[..i] + Settled(ind, c[i..]) == c'[..i + 1] + Settled(ind, c'[i + 1..])
    {
      assert c[i..][0] == c[i] && c[i..][1] == c[i + 1] && c[i..][2..] == c[i + 2..];
      assert c'[i + 1..] == [c[i]] + c[i + 2..];
      assert c'[..i + 1] == c[..i] + [c[i + 1]];
    }
  
    // A better point replaces the first entry.
    method Offer(ind: nat, v: int, i1: int, i2: int, i3: int)
      requires Valid() && ind < 2
      modifies ten, j1, j2, j3
      ensures Column(ind) == Offered(ind, old(Column(ind)), Point(v, i1, i2, i3))
      ensures Column(1 - ind) == old(Column(1 - ind))
    {
      if (ind == 1 && v > ten[0, ind]) || (ind != 1 && v < ten[0, ind]) {
        ten[0, ind] := v;
        j1[0, ind] := i1;
        j2[0, ind] := i2;
        j3[0, ind] := i3;
        assert Column(ind) == old(Column(ind))[0 := Point(v, i1, i2, i3)];
        assert Column(1 - ind) == old(Column(1 - ind));
        Bubble(ind);
      }
    }

    method Reset()
      requires Valid()
      modifies ten, j1, j2, j3
      ensures Column(0) == Blanks(0) && Column(1) == Blanks(1)
    {
      for i := 0 to MM
        invariant forall k :: 0 <= k < i ==> ten[k, 0] == ONE && j1[k, 0] == 0 && j2[k, 0] == 0 && j3[k, 0] == 0
        invariant forall k :: 0 <= k < i ==> ten[k, 1] == 0 && j1[k, 1] == 0 && j2[k, 1] == 0 && j3[k, 1] == 0
      {
        ten[i, 1] := 0;
        j1[i, 1] := 0;
        j2[i, 1] := 0;
        j3[i, 1] := 0;
        ten[i, 0] := ONE;
        j1[i, 0] := 0;
        j2[i, 0] := 0;
        j3[i, 0] := 0;
      }
    }

    ghost predicate Holds(points: seq<Point>)
      requires Valid()
      reads ten, j1, j2, j3
    {
      Column(0) == Scanned(0, Blanks(0), points) && Column(1) == Scanned(1, Blanks(1), points)
    }

    // One grid point is offered to both tables.
    method Visit(z: array3<nat>, i3: nat, i2: nat, i1: nat, ghost points: seq<Point>)
      requires Valid() && i3 < z.Length0 && i2 < z.Length1 && i1 < z.Length2 && Holds(points)
      modifies ten, j1, j2, j3
      ensures Holds(points + [Point(AsInt32(z[i3, i2, i1]), i1, i2, i3)])
    {
      ghost var p := Point(AsInt32(z[i3, i2, i1]), i1, i2, i3);
      assert (points + [p])[..|points|] == points;
      Offer(1, AsInt32(z[i3, i2, i1]), i1, i2, i3);
      Offer(0, AsInt32(z[i3, i2, i1]), i1, i2, i3);
    }

    method ScanRow(z: array3<nat>, n1: nat, i3: nat, i2: nat, ghost before: seq<Point>)
      requires Valid() && i3 < z.Length0 && i2 < z.Length1 && n1 <= z.Length2 && Holds(before)
      modifies ten, j1, j2, j3
      ensures Holds(before + RowPoints(z, i3, i2, n1 - 1))
    {
      assert before + [] == before;
      var i1 := 1;
      while i1 < n1 - 1
        invariant 1 <= i1 && (i1 == 1 || i1 <= n1 - 1) && Holds(before + RowPoints(z, i3, i2, i1))
      {
        ghost var points := before + RowPoints(z, i3, i2, i1);
        assert RowPoints(z, i3, i2, i1 + 1) == RowPoints(z, i3, i2, i1) + [Point(AsInt32(z[i3, i2, i1]), i1, i2, i3)];
        assert before + RowPoints(z, i3, i2, i1 + 1) == points + [Point(AsInt32(z[i3, i2, i1]), i1, i2, i3)];
        hide *;
        Visit(z, i3, i2, i1, points);
        i1 := i1 + 1;
      }
    }

    method ScanPlane(z: array3<nat>, n1: nat, n2: nat, i3: nat, ghost before: seq<Point>)
      requires Valid() && i3 < z.Length0 && n2 <= z.Length1 && n1 <= z.Length2 && Holds(before)
      modifies ten, j1, j2, j3
      ensures Holds(before + PlanePoints(z, n1, i3, n2 - 1))
    {
      hide *;
      assert before + [] == before;
      PlaneStep(z, n1, i3, 1);
      PlaneStep(z, n1, i3, n2 - 1);
      var i2 := 1;
      while i2 < n2 - 1
        invariant 1 <= i2 && (i2 == 1 || i2 <= n2 - 1) && Holds(before + PlanePoints(z, n1, i3, i2))
      {
        ghost var points := before + PlanePoints(z, n1, i3, i2);
        PlaneStep(z, n1, i3, i2 + 1);
        assert before + PlanePoints(z, n1, i3, i2 + 1) == points + RowPoints(z, i3, i2, n1 - 1);
        ScanRow(z, n1, i3, i2, points);
        i2 := i2 + 1;
      }
    }

    // All interior points in order, and then the tables hold the ten largest and the ten smallest.
    method Scan(z: array3<nat>, n1: nat, n2: nat, n3: nat)
      requires Valid() && n3 <= z.Length0 && n2 <= z.Length1 && n1 <= z.Length2
      modifies ten, j1, j2, j3
      ensures Holds(GridPoints(z, n1, n2, n3 - 1))
      ensures Unit(GridPoints(z, n1, n2, n3 - 1)) ==>
        && TenBest(1, Column(1), GridPoints(z, n1, n2, n3 - 1))
        && TenBest(0, Column(0), GridPoints(z, n1, n2, n3 - 1))
      ensures TenBest(1, Column(1), GridPoints(z, n1, n2, n3 - 1)) <==> |Good(1, GridPoints(z, n1, n2, n3 - 1))| >= MM
      ensures TenBest(0, Column(0), GridPoints(z, n1, n2, n3 - 1)) <==> |Good(0, GridPoints(z, n1, n2, n3 - 1))| >= MM
      ensures RealGrid(z, n1, n2, n3) ==>
        && (TenLargest(z, n1, n2, n3, Column(1)) <==> |AboveZero(z, n1, n2, n3)| >= MM)
        && (TenSmallest(z, n1, n2, n3, Column(0)) <==> |BelowOne(z, n1, n2, n3)| >= MM)
    {
      hide *;
      Reset();
      Untouched(z, n1, n2, n3);
      var i3 := 1;
      while i3 < n3 - 1
        invariant 1 <= i3 && (i3 == 1 || i3 <= n3 - 1) && Holds(GridPoints(z, n1, n2, i3))
      {
        ghost var points := GridPoints(z, n1, n2, i3);
        GridStep(z, n1, n2, i3 + 1);
        ScanPlane(z, n1, n2, i3, points);
        i3 := i3 + 1;
      }
      HoldsBest(GridPoints(z, n1, n2, n3 - 1));
      NoBlanks(z, n1, n2, n3 - 1);
      HoldsExactly(GridPoints(z, n1, n2, n3 - 1));
      if RealGrid(z, n1, n2, n3) { ScanInValues(z, n1, n2, n3, Column(1), Column(0)); }
    }

    lemma Untouched(z: array3<nat>, n1: nat, n2: nat, n3: nat)
      requires Valid() && n3 <= z.Length0 && n2 <= z.Length1 && n1 <= z.Length2
      requires Column(0) == Blanks(0) && Column(1) == Blanks(1)
      ensures Holds(GridPoints(z, n1, n2, 1)) && (n3 <= 2 ==> GridPoints(z, n1, n2, n3 - 1) == GridPoints(z, n1, n2, 1))
    {
    }

    lemma HoldsExactly(points: seq<Point>)
      requires Valid() && Holds(points) && Blank(0) !in points && Blank(1) !in points
      ensures TenBest(1, Column(1), points) <==> |Good(1, points)| >= MM
      ensures TenBest(0, Column(0), points) <==> |Good(0, points)| >= MM
    {
      hide TenBest, Good, Scanned, Blanks, Column, Blank;
      ScanFindsTenExactly(0, points);
      ScanFindsTenExactly(1, points);
    }

    lemma HoldsBest(points: seq<Point>)
      requires Valid() && Holds(points)
      ensures Unit(points) ==> TenBest(1, Column(1), points) && TenBest(0, Column(0), points)
    {
      if Unit(points) {
        ScanFindsTen(0, points);
        ScanFindsTen(1, points);
      }
    }
  }

  // At least ten points, with values strictly between 0 and 1.
  ghost predicate Unit(points: seq<Point>) {
    |points| >= MM && forall p :: p in points ==> 0 < p.val < ONE
  }

  // The interior points of row (i3, i2) before k, of the rows of plane i3 before k, of the planes before k.
  ghost function RowPoints(z: array3<nat>, i3: nat, i2: nat, k: int): seq<Point>
    requires i3 < z.Length0 && i2 < z.Length1 && (k <= 1 || k <= z.Length2)
    reads z
  {
    if k <= 1 then [] else RowPoints(z, i3, i2, k - 1) + [Point(AsInt32(z[i3, i2, k - 1]), k - 1, i2, i3)]
  }

  ghost function PlanePoints(z: array3<nat>, n1: nat, i3: nat, k: int): seq<Point>
    requires i3 < z.Length0 && (k <= 1 || k <= z.Length1) && n1 <= z.Length2
    reads z
  {
    if k <= 1 then [] else PlanePoints(z, n1, i3, k - 1) + RowPoints(z, i3, k - 1, n1 - 1)
  }

  ghost function GridPoints(z: array3<nat>, n1: nat, n2: nat, k: int): seq<Point>
    requires (k <= 1 || k <= z.Length0) && n2 <= z.Length1 && n1 <= z.Length2
    reads z
  {
    if k <= 1 then [] else GridPoints(z, n1, n2, k - 1) + PlanePoints(z, n1, k - 1, n2 - 1)
  }

  ghost function Count(points: seq<Point>, p: Point): nat {
    multiset(points)[p]
  }

  lemma PlaneStep(z: array3<nat>, n1: nat, i3: nat, k: int)
    requires i3 < z.Length0 && (k <= 1 || k <= z.Length1) && n1 <= z.Length2
    ensures k <= 1 ==> PlanePoints(z, n1, i3, k) == []
    ensures k > 1 ==> PlanePoints(z, n1, i3, k) == PlanePoints(z, n1, i3, k - 1) + RowPoints(z, i3, k - 1, n1 - 1)
  {
  }

  lemma GridStep(z: array3<nat>, n1: nat, n2: nat, k: int)
    requires (k <= 1 || k <= z.Length0) && n2 <= z.Length1 && n1 <= z.Length2
    ensures k <= 1 ==> GridPoints(z, n1, n2, k) == []
    ensures k > 1 ==> GridPoints(z, n1, n2, k) == GridPoints(z, n1, n2, k - 1) + PlanePoints(z, n1, k - 1, n2 - 1)
  {
  }

  lemma CountBoth(a: seq<Point>, b: seq<Point>, p: Point)
    ensures Count(a + b, p) == Count(a, p) + Count(b, p) && Count([], p) == 0
  {
  }

  // The points visited are the interior points of the grid, each once, with their values.
  lemma {:induction false} RowOnce(z: array3<nat>, i3: nat, i2: nat, k: int, p: Point)
    requires i3 < z.Length0 && i2 < z.Length1 && (k <= 1 || k <= z.Length2)
    ensures Count(RowPoints(z, i3, i2, k), p) ==
      if 1 <= p.x1 < k && p.x2 == i2 && p.x3 == i3 && p.val == AsInt32(z[i3, i2, p.x1]) then 1 else 0
  {
    if k > 1 { RowOnce(z, i3, i2, k - 1, p); }
  }

  lemma {:induction false} PlaneOnce(z: array3<nat>, n1: nat, i3: nat, k: int, p: Point)
    requires i3 < z.Length0 && (k <= 1 || k <= z.Length1) && n1 <= z.Length2
    ensures Count(PlanePoints(z, n1, i3, k), p) ==
      if 1 <= p.x1 < n1 - 1 && 1 <= p.x2 < k && p.x3 == i3 && p.val == AsInt32(z[i3, p.x2, p.x1]) then 1 else 0
  {
    hide *;
    PlaneStep(z, n1, i3, k);
    CountBoth([], [], p);
    if k > 1 {
      CountBoth(PlanePoints(z, n1, i3, k - 1), RowPoints(z, i3, k - 1, n1 - 1), p);
      PlaneOnce(z, n1, i3, k - 1, p);
      RowOnce(z, i3, k - 1, n1 - 1, p);
    }
  }

  lemma {:induction false} GridOnce(z: array3<nat>, n1: nat, n2: nat, k: int, p: Point)
    requires (k <= 1 || k <= z.Length0) && n2 <= z.Length1 && n1 <= z.Length2
    ensures Count(GridPoints(z, n1, n2, k), p) ==
      if 1 <= p.x1 < n1 - 1 && 1 <= p.x2 < n2 - 1 && 1 <= p.x3 < k && p.val == AsInt32(z[p.x3, p.x2, p.x1])
      then 1 else 0
  {
    hide *;
    GridStep(z, n1, n2, k);
    CountBoth([], [], p);
    if k > 1 {
      CountBoth(GridPoints(z, n1, n2, k - 1), PlanePoints(z, n1, k - 1, n2 - 1), p);
      GridOnce(z, n1, n2, k - 1, p);
      PlaneOnce(z, n1, k - 1, n2 - 1, p);
    }
  }

  // A blank entry has coordinates outside the interior.
  lemma NoBlanks(z: array3<nat>, n1: nat, n2: nat, k: int)
    requires (k <= 1 || k <= z.Length0) && n2 <= z.Length1 && n1 <= z.Length2
    ensures Blank(0) !in GridPoints(z, n1, n2, k) && Blank(1) !in GridPoints(z, n1, n2, k)
  {
    hide GridPoints;
    GridOnce(z, n1, n2, k, Blank(0));
    GridOnce(z, n1, n2, k, Blank(1));
  }

  // How many interior points there are.
  lemma {:induction false} RowCount(z: array3<nat>, i3: nat, i2: nat, k: int)
    requires i3 < z.Length0 && i2 < z.Length1 && (k <= 1 || k <= z.Length2)
    ensures |RowPoints(z, i3, i2, k)| == if k <= 1 then 0 else k - 1
  {
    if k > 1 { RowCount(z, i3, i2, k - 1); }
  }

  lemma {:induction false} PlaneCount(z: array3<nat>, n1: nat, i3: nat, k: int)
    requires i3 < z.Length0 && (k <= 1 || k <= z.Length1) && 2 <= n1 <= z.Length2
    ensures |PlanePoints(z, n1, i3, k)| == if k <= 1 then 0 else (k - 1) * (n1 - 2)
  {
    hide RowPoints;
    if k > 1 {
      PlaneCount(z, n1, i3, k - 1);
      RowCount(z, i3, k - 1, n1 - 1);
      assert (k - 1) * (n1 - 2) == (k - 2) * (n1 - 2) + (n1 - 2);
    }
  }

  lemma {:induction false} GridCount(z: array3<nat>, n1: nat, n2: nat, k: int)
    requires (k <= 1 || k <= z.Length0) && 2 <= n2 <= z.Length1 && 2 <= n1 <= z.Length2
    ensures |GridPoints(z, n1, n2, k)| == if k <= 1 then 0 else (k - 1) * ((n2 - 2) * (n1 - 2))
  {
    hide PlanePoints;
    if k > 1 {
      GridCount(z, n1, n2, k - 1);
      PlaneCount(z, n1, k - 1, n2 - 1);
      OneMore(k - 2, (n2 - 2) * (n1 - 2));
    }
  }

  lemma OneMore(a: int, d: int)
    ensures a * d + d == (a + 1) * d
  {
  }

  // The interior values are strictly between 0 and 1.
  ghost predicate UnitGrid(z: array3<nat>, n1: nat, n2: nat, n3: nat)
    requires n3 <= z.Length0 && n2 <= z.Length1 && n1 <= z.Length2
    reads z
  {
    forall i3, i2, i1 :: 1 <= i3 < n3 - 1 && 1 <= i2 < n2 - 1 && 1 <= i1 < n1 - 1 ==>
      0 < AsInt32(z[i3, i2, i1]) < ONE
  }

  lemma UnitExactly(z: array3<nat>, n1: nat, n2: nat, n3: nat)
    requires 2 <= n3 <= z.Length0 && 2 <= n2 <= z.Length1 && 2 <= n1 <= z.Length2
    ensures Unit(GridPoints(z, n1, n2, n3 - 1)) <==>
      (n3 - 2) * ((n2 - 2) * (n1 - 2)) >= MM && UnitGrid(z, n1, n2, n3)
  {
    hide GridPoints;
    GridCount(z, n1, n2, n3 - 1);
    var points := GridPoints(z, n1, n2, n3 - 1);
    if Unit(points) {
      forall i3, i2, i1 | 1 <= i3 < n3 - 1 && 1 <= i2 < n2 - 1 && 1 <= i1 < n1 - 1
        ensures 0 < AsInt32(z[i3, i2, i1]) < ONE
      {
        var p := Point(AsInt32(z[i3, i2, i1]), i1, i2, i3);
        GridOnce(z, n1, n2, n3 - 1, p);
        assert p in multiset(points);
      }
    }
    if UnitGrid(z, n1, n2, n3) {
      forall p | p in points ensures 0 < p.val < ONE {
        GridOnce(z, n1, n2, n3 - 1, p);
        assert p in multiset(points);
      }
    }
  }

  // ----- in values -----

  // To beat is to be larger or smaller as a number, for any two posits.
  lemma BeatsIsOrder(a: nat, b: nat, p: Point, q: Point)
    requires Real32(a) && Real32(b) && p.val == AsInt32(a) && q.val == AsInt32(b)
    ensures Beats(1, p, q) <==> Value(a) > Value(b)
    ensures Beats(0, p, q) <==> Value(a) < Value(b)
  {
    LtIsLess(a, b);
    LtIsLess(b, a);
  }

  lemma BeatsBlank(a: nat, p: Point)
    requires Real32(a) && p.val == AsInt32(a)
    ensures Beats(1, p, Blank(1)) <==> Value(a) > 0.0
    ensures Beats(0, p, Blank(0)) <==> Value(a) < 1.0
  {
    hide Value;
    ZeroValue();
    OneIsOne();
    BeatsIsOrder(a, 0, p, Blank(1));
    BeatsIsOrder(a, 0x4000_0000, p, Blank(0));
  }

  lemma ZeroValue()
    ensures Real32(0) && Value(0) == 0.0
  {
  }

  // No interior point is NaR.
  ghost predicate RealGrid(z: array3<nat>, n1: nat, n2: nat, n3: nat)
    requires n3 <= z.Length0 && n2 <= z.Length1 && n1 <= z.Length2
    reads z
  {
    forall i3, i2, i1 :: 1 <= i3 < n3 - 1 && 1 <= i2 < n2 - 1 && 1 <= i1 < n1 - 1 ==> Real32(z[i3, i2, i1])
  }

  // An interior point with its encoding.
  ghost predicate IsPoint(z: array3<nat>, n1: nat, n2: nat, n3: nat, p: Point)
    requires n3 <= z.Length0 && n2 <= z.Length1 && n1 <= z.Length2
    reads z
  {
    && 1 <= p.x1 < n1 - 1 && 1 <= p.x2 < n2 - 1 && 1 <= p.x3 < n3 - 1
    && p.val == AsInt32(z[p.x3, p.x2, p.x1])
  }

  ghost function PointValue(z: array3<nat>, n1: nat, n2: nat, n3: nat, p: Point): real
    requires n3 <= z.Length0 && n2 <= z.Length1 && n1 <= z.Length2
    requires RealGrid(z, n1, n2, n3) && IsPoint(z, n1, n2, n3, p)
    reads z
  {
    Value(z[p.x3, p.x2, p.x1])
  }

  ghost function AllPoints(z: array3<nat>, n1: nat, n2: nat, n3: nat): set<Point>
    requires n3 <= z.Length0 && n2 <= z.Length1 && n1 <= z.Length2
    reads z
  {
    set i3, i2, i1 | 1 <= i3 < n3 - 1 && 1 <= i2 < n2 - 1 && 1 <= i1 < n1 - 1 ::
      Point(AsInt32(z[i3, i2, i1]), i1, i2, i3)
  }

  lemma AllPointsAre(z: array3<nat>, n1: nat, n2: nat, n3: nat, p: Point)
    requires n3 <= z.Length0 && n2 <= z.Length1 && n1 <= z.Length2
    ensures p in AllPoints(z, n1, n2, n3) <==> IsPoint(z, n1, n2, n3, p)
  {
  }

  ghost function AboveZero(z: array3<nat>, n1: nat, n2: nat, n3: nat): set<Point>
    requires n3 <= z.Length0 && n2 <= z.Length1 && n1 <= z.Length2 && RealGrid(z, n1, n2, n3)
    reads z
  {
    set p | p in AllPoints(z, n1, n2, n3) && PointValue(z, n1, n2, n3, p) > 0.0
  }

  ghost function BelowOne(z: array3<nat>, n1: nat, n2: nat, n3: nat): set<Point>
    requires n3 <= z.Length0 && n2 <= z.Length1 && n1 <= z.Length2 && RealGrid(z, n1, n2, n3)
    reads z
  {
    set p | p in AllPoints(z, n1, n2, n3) && PointValue(z, n1, n2, n3, p) < 1.0
  }

  // Ten different interior points.
  ghost predicate TenPoints(z: array3<nat>, n1: nat, n2: nat, n3: nat, c: seq<Point>)
    requires n3 <= z.Length0 && n2 <= z.Length1 && n1 <= z.Length2
    reads z
  {
    && |c| == MM && (forall i :: 0 <= i < |c| ==> IsPoint(z, n1, n2, n3, c[i]))
    && (forall i, j :: 0 <= i < j < |c| ==> c[i] != c[j])
  }

  // They ascend in value, and no other interior point has a larger value than any of them.
  ghost predicate TenLargest(z: array3<nat>, n1: nat, n2: nat, n3: nat, c: seq<Point>)
    requires n3 <= z.Length0 && n2 <= z.Length1 && n1 <= z.Length2 && RealGrid(z, n1, n2, n3)
    reads z
  {
    && TenPoints(z, n1, n2, n3, c)
    && (forall i, j :: 0 <= i < j < |c| ==> PointValue(z, n1, n2, n3, c[i]) <= PointValue(z, n1, n2, n3, c[j]))
    && forall p, i :: p in AllPoints(z, n1, n2, n3) && p !in c && 0 <= i < |c| ==>
         PointValue(z, n1, n2, n3, p) <= PointValue(z, n1, n2, n3, c[i])
  }

  // They descend in value, and no other interior point has a smaller value than any of them.
  ghost predicate TenSmallest(z: array3<nat>, n1: nat, n2: nat, n3: nat, c: seq<Point>)
    requires n3 <= z.Length0 && n2 <= z.Length1 && n1 <= z.Length2 && RealGrid(z, n1, n2, n3)
    reads z
  {
    && TenPoints(z, n1, n2, n3, c)
    && (forall i, j :: 0 <= i < j < |c| ==> PointValue(z, n1, n2, n3, c[i]) >= PointValue(z, n1, n2, n3, c[j]))
    && forall p, i :: p in AllPoints(z, n1, n2, n3) && p !in c && 0 <= i < |c| ==>
         PointValue(z, n1, n2, n3, p) >= PointValue(z, n1, n2, n3, c[i])
  }

  // The visited points are the interior points, each once.
  lemma PointsOnce(z: array3<nat>, n1: nat, n2: nat, n3: nat, p: Point)
    requires n3 <= z.Length0 && n2 <= z.Length1 && n1 <= z.Length2
    ensures multiset(GridPoints(z, n1, n2, n3 - 1))[p] == if p in AllPoints(z, n1, n2, n3) then 1 else 0
    ensures p in GridPoints(z, n1, n2, n3 - 1) <==> p in AllPoints(z, n1, n2, n3)
  {
    hide GridPoints, AllPoints, AsInt32;
    GridOnce(z, n1, n2, n3 - 1, p);
    AllPointsAre(z, n1, n2, n3, p);
    assert p in GridPoints(z, n1, n2, n3 - 1) <==> p in multiset(GridPoints(z, n1, n2, n3 - 1));
  }

  // A list without repetitions has as many elements as the set of them.
  lemma {:induction false} SetSize(s: seq<Point>, a: set<Point>)
    requires forall p :: p in s <==> p in a
    requires forall p :: multiset(s)[p] <= 1
    ensures |s| == |a|
  {
    if s == [] {
      assert a == {};
    } else {
      var last, rest := s[|s| - 1], s[..|s| - 1];
      assert s == rest + [last];
      forall p ensures multiset(rest)[p] <= 1 && (p in rest <==> p in a - {last}) {
        assert multiset(s)[p] == multiset(rest)[p] + multiset{last}[p];
        assert p in rest <==> multiset(rest)[p] > 0;
        assert p in s <==> p in rest || p == last;
      }
      SetSize(rest, a - {last});
    }
  }

  lemma GoodSize(z: array3<nat>, n1: nat, n2: nat, n3: nat)
    requires n3 <= z.Length0 && n2 <= z.Length1 && n1 <= z.Length2 && RealGrid(z, n1, n2, n3)
    ensures |Good(1, GridPoints(z, n1, n2, n3 - 1))| == |AboveZero(z, n1, n2, n3)|
    ensures |Good(0, GridPoints(z, n1, n2, n3 - 1))| == |BelowOne(z, n1, n2, n3)|
  {
    hide GridPoints, Beats, Blank, Value, AllPoints, AsInt32;
    var points := GridPoints(z, n1, n2, n3 - 1);
    forall p
      ensures p in Good(1, points) <==> p in AboveZero(z, n1, n2, n3)
      ensures p in Good(0, points) <==> p in BelowOne(z, n1, n2, n3)
      ensures multiset(Good(1, points))[p] <= 1 && multiset(Good(0, points))[p] <= 1
    {
      PointsOnce(z, n1, n2, n3, p);
      AllPointsAre(z, n1, n2, n3, p);
      GoodCounts(1, points, p);
      GoodCounts(0, points, p);
      if IsPoint(z, n1, n2, n3, p) { BeatsBlank(z[p.x3, p.x2, p.x1], p); }
    }
    SetSize(Good(1, points), AboveZero(z, n1, n2, n3));
    SetSize(Good(0, points), BelowOne(z, n1, n2, n3));
  }

  // What is left out are the other points.
  lemma LeftOut(points: seq<Point>, c: seq<Point>, p: Point)
    requires multiset(c) <= multiset(points) && multiset(points)[p] <= 1
    ensures p in multiset(points) - multiset(c) <==> p in points && p !in c
    ensures p in c ==> p in points
  {
    assert p in c <==> p in multiset(c);
    assert p in points <==> p in multiset(points);
  }

  ghost predicate Different(c: seq<Point>) {
    forall i, j :: 0 <= i < j < |c| ==> c[i] != c[j]
  }

  lemma {:induction false} NoRepeats(c: seq<Point>)
    ensures Different(c) <==> (forall p :: multiset(c)[p] <= 1)
  {
    if c != [] {
      var last, rest := c[|c| - 1], c[..|c| - 1];
      NoRepeats(rest);
      assert c == rest + [last];
      assert forall p :: multiset(c)[p] == multiset(rest)[p] + multiset{last}[p];
      assert last in rest <==> multiset(rest)[last] > 0;
      if Different(c) {
        forall k | 0 <= k < |rest| ensures rest[k] != last { assert c[k] != c[|c| - 1]; }
        assert Different(rest);
      }
      if forall p :: multiset(c)[p] <= 1 {
        forall p ensures multiset(rest)[p] <= 1 { assert multiset(c)[p] <= 1; }
        assert multiset(c)[last] <= 1;
        DifferentMore(rest, last);
      }
    }
  }

  lemma DifferentMore(rest: seq<Point>, last: Point)
    requires Different(rest) && last !in rest
    ensures Different(rest + [last])
  {
  }

  lemma TenPointsAre(z: array3<nat>, n1: nat, n2: nat, n3: nat, c: seq<Point>)
    requires n3 <= z.Length0 && n2 <= z.Length1 && n1 <= z.Length2
    ensures TenPoints(z, n1, n2, n3, c) <==> |c| == MM && multiset(c) <= multiset(GridPoints(z, n1, n2, n3 - 1))
  {
    hide GridPoints, AllPoints, IsPoint;
    var points := GridPoints(z, n1, n2, n3 - 1);
    NoRepeats(c);
    forall p
      ensures multiset(points)[p] == if IsPoint(z, n1, n2, n3, p) then 1 else 0
    {
      PointsOnce(z, n1, n2, n3, p);
      AllPointsAre(z, n1, n2, n3, p);
    }
    if TenPoints(z, n1, n2, n3, c) {
      forall p ensures multiset(c)[p] <= multiset(points)[p] {
        assert multiset(c)[p] <= 1;
        if p in multiset(c) { assert p in c; }
      }
    }
    if multiset(c) <= multiset(points) {
      forall p ensures multiset(c)[p] <= 1 { assert multiset(c)[p] <= multiset(points)[p]; }
      forall i | 0 <= i < |c| ensures IsPoint(z, n1, n2, n3, c[i]) {
        assert c[i] in multiset(c);
        assert multiset(c)[c[i]] <= multiset(points)[c[i]];
      }
    }
  }

  ghost predicate NoBetter(ind: nat, z: array3<nat>, n1: nat, n2: nat, n3: nat, p: Point, q: Point)
    requires n3 <= z.Length0 && n2 <= z.Length1 && n1 <= z.Length2 && RealGrid(z, n1, n2, n3)
    requires IsPoint(z, n1, n2, n3, p) && IsPoint(z, n1, n2, n3, q)
    reads z
  {
    if ind == 1 then PointValue(z, n1, n2, n3, p) <= PointValue(z, n1, n2, n3, q)
    else PointValue(z, n1, n2, n3, p) >= PointValue(z, n1, n2, n3, q)
  }

  lemma NotBeats(ind: nat, z: array3<nat>, n1: nat, n2: nat, n3: nat, p: Point, q: Point)
    requires n3 <= z.Length0 && n2 <= z.Length1 && n1 <= z.Length2 && RealGrid(z, n1, n2, n3) && ind < 2
    requires IsPoint(z, n1, n2, n3, p) && IsPoint(z, n1, n2, n3, q)
    ensures NoBetter(ind, z, n1, n2, n3, p, q) <==> !Beats(ind, p, q)
  {
    hide Value, AsInt32, Beats;
    BeatsIsOrder(z[p.x3, p.x2, p.x1], z[q.x3, q.x2, q.x1], p, q);
  }

  // The ten best points, said without the comparison of the program.
  ghost predicate Ranked(ind: nat, z: array3<nat>, n1: nat, n2: nat, n3: nat, c: seq<Point>)
    requires n3 <= z.Length0 && n2 <= z.Length1 && n1 <= z.Length2 && RealGrid(z, n1, n2, n3)
    reads z
  {
    && TenPoints(z, n1, n2, n3, c)
    && (forall i, j :: 0 <= i < j < |c| ==> NoBetter(ind, z, n1, n2, n3, c[i], c[j]))
    && forall p, i :: p in AllPoints(z, n1, n2, n3) && p !in c && 0 <= i < |c| ==> NoBetter(ind, z, n1, n2, n3, p, c[i])
  }

  lemma BestIsRanked(ind: nat, z: array3<nat>, n1: nat, n2: nat, n3: nat, c: seq<Point>)
    requires n3 <= z.Length0 && n2 <= z.Length1 && n1 <= z.Length2 && RealGrid(z, n1, n2, n3) && ind < 2
    ensures TenBest(ind, c, GridPoints(z, n1, n2, n3 - 1)) ==> Ranked(ind, z, n1, n2, n3, c)
  {
    hide GridPoints, AllPoints, IsPoint, Beats, NoBetter, RealGrid;
    var points := GridPoints(z, n1, n2, n3 - 1);
    TenPointsAre(z, n1, n2, n3, c);
    if TenBest(ind, c, points) {
      forall i, j | 0 <= i < j < |c| ensures NoBetter(ind, z, n1, n2, n3, c[i], c[j]) {
        NotBeats(ind, z, n1, n2, n3, c[i], c[j]);
      }
      forall p, i | p in AllPoints(z, n1, n2, n3) && p !in c && 0 <= i < |c|
        ensures IsPoint(z, n1, n2, n3, p) && NoBetter(ind, z, n1, n2, n3, p, c[i])
      {
        PointsOnce(z, n1, n2, n3, p);
        AllPointsAre(z, n1, n2, n3, p);
        LeftOut(points, c, p);
        NotBeats(ind, z, n1, n2, n3, p, c[i]);
      }
    }
  }

  lemma RankedIsBest(ind: nat, z: array3<nat>, n1: nat, n2: nat, n3: nat, c: seq<Point>)
    requires n3 <= z.Length0 && n2 <= z.Length1 && n1 <= z.Length2 && RealGrid(z, n1, n2, n3) && ind < 2
    ensures Ranked(ind, z, n1, n2, n3, c) ==> TenBest(ind, c, GridPoints(z, n1, n2, n3 - 1))
  {
    hide GridPoints, AllPoints, IsPoint, Beats, NoBetter, RealGrid;
    var points := GridPoints(z, n1, n2, n3 - 1);
    TenPointsAre(z, n1, n2, n3, c);
    if Ranked(ind, z, n1, n2, n3, c) {
      forall i, j | 0 <= i < j < |c| ensures !Beats(ind, c[i], c[j]) {
        NotBeats(ind, z, n1, n2, n3, c[i], c[j]);
      }
      forall p, q | p in multiset(points) - multiset(c) && q in c ensures !Beats(ind, p, q) {
        PointsOnce(z, n1, n2, n3, p);
        AllPointsAre(z, n1, n2, n3, p);
        LeftOut(points, c, p);
        var i :| 0 <= i < |c| && c[i] == q;
        NotBeats(ind, z, n1, n2, n3, p, c[i]);
      }
    }
  }

  lemma BestInValues(z: array3<nat>, n1: nat, n2: nat, n3: nat, c: seq<Point>)
    requires n3 <= z.Length0 && n2 <= z.Length1 && n1 <= z.Length2 && RealGrid(z, n1, n2, n3)
    ensures TenBest(1, c, GridPoints(z, n1, n2, n3 - 1)) <==> TenLargest(z, n1, n2, n3, c)
    ensures TenBest(0, c, GridPoints(z, n1, n2, n3 - 1)) <==> TenSmallest(z, n1, n2, n3, c)
  {
    hide TenBest, GridPoints, AllPoints, IsPoint, PointValue, RealGrid, TenPoints;
    BestIsRanked(1, z, n1, n2, n3, c);
    RankedIsBest(1, z, n1, n2, n3, c);
    BestIsRanked(0, z, n1, n2, n3, c);
    RankedIsBest(0, z, n1, n2, n3, c);
    RankedInValues(z, n1, n2, n3, c);
  }

  lemma RankedInValues(z: array3<nat>, n1: nat, n2: nat, n3: nat, c: seq<Point>)
    requires n3 <= z.Length0 && n2 <= z.Length1 && n1 <= z.Length2 && RealGrid(z, n1, n2, n3)
    ensures Ranked(1, z, n1, n2, n3, c) <==> TenLargest(z, n1, n2, n3, c)
    ensures Ranked(0, z, n1, n2, n3, c) <==> TenSmallest(z, n1, n2, n3, c)
  {
    hide PointValue;
  }

  lemma ScanInValues(z: array3<nat>, n1: nat, n2: nat, n3: nat, largest: seq<Point>, smallest: seq<Point>)
    requires n3 <= z.Length0 && n2 <= z.Length1 && n1 <= z.Length2 && RealGrid(z, n1, n2, n3)
    requires TenBest(1, largest, GridPoints(z, n1, n2, n3 - 1)) <==> |Good(1, GridPoints(z, n1, n2, n3 - 1))| >= MM
    requires TenBest(0, smallest, GridPoints(z, n1, n2, n3 - 1)) <==> |Good(0, GridPoints(z, n1, n2, n3 - 1))| >= MM
    ensures TenLargest(z, n1, n2, n3, largest) <==> |AboveZero(z, n1, n2, n3)| >= MM
    ensures TenSmallest(z, n1, n2, n3, smallest) <==> |BelowOne(z, n1, n2, n3)| >= MM
  {
    hide *;
    BestInValues(z, n1, n2, n3, largest);
    BestInValues(z, n1, n2, n3, smallest);
    GoodSize(z, n1, n2, n3);
  }
}
