// The ten largest and ten smallest grid values, as the MG benchmark finds them: a small sorted table
// whose first place is replaced and bubbled up. Posits compare as signed integers, so values are
// encodings.
module TopTen {

  const MM: nat := 10
  const ONE: int := 0x4000_0000

  datatype Point = Point(val: int, x1: int, x2: int, x3: int)

  // Table 1 keeps the largest values in ascending order, table 0 the smallest in descending order.
  predicate Beats(ind: nat, p: Point, q: Point) {
    if ind == 1 then p.val > q.val else p.val < q.val
  }

  ghost predicate Sorted(ind: nat, s: seq<Point>) {
    forall i, j :: 0 <= i < j < |s| ==> !Beats(ind, s[i], s[j])
  }

  // The first element moved behind those that it beats.
  function Settled(ind: nat, s: seq<Point>): (r: seq<Point>)
    ensures |r| == |s|
    decreases |s|
  {
    if |s| >= 2 && Beats(ind, s[0], s[1]) then [s[1]] + Settled(ind, [s[0]] + s[2..]) else s
  }

  lemma SwapFirst(s: seq<Point>)
    requires |s| >= 2
    ensures multiset{s[1]} + multiset([s[0]] + s[2..]) == multiset(s)
  {
    assert s == [s[0]] + [s[1]] + s[2..];
  }

  lemma {:induction false} SettledSame(ind: nat, s: seq<Point>)
    ensures multiset(Settled(ind, s)) == multiset(s)
    decreases |s|
  {
    if |s| >= 2 && Beats(ind, s[0], s[1]) {
      SettledSame(ind, [s[0]] + s[2..]);
      SwapFirst(s);
    }
  }

  // Bubbling up sorts a table that is sorted but for its first place.
  lemma {:induction false} SettledSorts(ind: nat, s: seq<Point>)
    requires |s| > 0 && Sorted(ind, s[1..])
    ensures Sorted(ind, Settled(ind, s))
    decreases |s|
  {
    if |s| >= 2 && Beats(ind, s[0], s[1]) {
      var rest := [s[0]] + s[2..];
      assert rest[1..] == s[1..][1..];
      SettledSorts(ind, rest);
      SettledSame(ind, rest);
      var r := Settled(ind, rest);
      forall j | 0 <= j < |r| ensures !Beats(ind, s[1], r[j]) {
        assert r[j] in multiset(rest);
        assert r[j] in rest;
        FirstBeatsNone(ind, s, r[j]);
      }
    } else {
      FirstSorted(ind, s);
    }
  }

  lemma FirstBeatsNone(ind: nat, s: seq<Point>, p: Point)
    requires |s| >= 2 && Sorted(ind, s[1..]) && Beats(ind, s[0], s[1]) && p in [s[0]] + s[2..]
    ensures !Beats(ind, s[1], p)
  {
    if p != s[0] {
      var k :| 2 <= k < |s| && s[k] == p;
      assert s[1..][0] == s[1] && s[1..][k - 1] == p;
    }
  }

  lemma FirstSorted(ind: nat, s: seq<Point>)
    requires |s| > 0 && Sorted(ind, s[1..]) && (|s| >= 2 ==> !Beats(ind, s[0], s[1]))
    ensures Sorted(ind, s)
  {
    forall i, j | 0 <= i < j < |s| ensures !Beats(ind, s[i], s[j]) {
      if i > 0 {
        assert s[1..][i - 1] == s[i] && s[1..][j - 1] == s[j];
      } else if j > 1 {
        assert s[1..][0] == s[1] && s[1..][j - 1] == s[j];
      }
    }
  }

  // A point offered to a table replaces the first entry if it beats it.
  function Offered(ind: nat, table: seq<Point>, p: Point): (r: seq<Point>)
    requires |table| > 0
    ensures |r| == |table|
  {
    if Beats(ind, p, table[0]) then Settled(ind, table[0 := p]) else table
  }

  function Scanned(ind: nat, table: seq<Point>, points: seq<Point>): (r: seq<Point>)
    requires |table| > 0
    ensures |r| == |table|
  {
    if points == [] then table
    else Offered(ind, Scanned(ind, table, points[..|points| - 1]), points[|points| - 1])
  }

  // What a scan has turned away or replaced.
  ghost function Dropped(ind: nat, table: seq<Point>, points: seq<Point>): multiset<Point>
    requires |table| > 0
  {
    if points == [] then multiset{}
    else
      var before, p := Scanned(ind, table, points[..|points| - 1]), points[|points| - 1];
      Dropped(ind, table, points[..|points| - 1]) + multiset{if Beats(ind, p, before[0]) then before[0] else p}
  }

  // The table stays sorted, nothing is lost, and nothing dropped beats anything kept.
  ghost predicate Best(ind: nat, table: seq<Point>, dropped: multiset<Point>, all: multiset<Point>) {
    && Sorted(ind, table) && multiset(table) + dropped == all
    && forall q, p :: q in dropped && p in table ==> !Beats(ind, q, p)
  }

  lemma OfferedBest(ind: nat, table: seq<Point>, dropped: multiset<Point>, all: multiset<Point>, p: Point)
    requires |table| > 0 && Best(ind, table, dropped, all)
    ensures Best(ind, Offered(ind, table, p),
                 dropped + multiset{if Beats(ind, p, table[0]) then table[0] else p}, all + multiset{p})
  {
    var out := if Beats(ind, p, table[0]) then table[0] else p;
    var next := Offered(ind, table, p);
    OfferedSorted(ind, table, p);
    assert multiset(next) + (dropped + multiset{out}) == (multiset(next) + multiset{out}) + dropped;
    assert (multiset(table) + multiset{p}) + dropped == (multiset(table) + dropped) + multiset{p};
    hide Offered;
    forall q, r | q in dropped + multiset{out} && r in next ensures !Beats(ind, q, r) {
      KeptOrNew(ind, table, p, r);
      assert table[0] in table;
    }
  }

  lemma OfferedSorted(ind: nat, table: seq<Point>, p: Point)
    requires |table| > 0 && Sorted(ind, table)
    ensures Sorted(ind, Offered(ind, table, p))
    ensures multiset(Offered(ind, table, p)) + multiset{if Beats(ind, p, table[0]) then table[0] else p}
         == multiset(table) + multiset{p}
  {
    if Beats(ind, p, table[0]) {
      var put := table[0 := p];
      forall i, j | 0 <= i < j < |put[1..]| ensures !Beats(ind, put[1..][i], put[1..][j]) {
        assert put[1..][i] == table[i + 1] && put[1..][j] == table[j + 1];
      }
      SettledSorts(ind, put);
      SettledSame(ind, put);
      assert multiset(put) == multiset(table) - multiset{table[0]} + multiset{p};
    }
  }

  lemma KeptOrNew(ind: nat, table: seq<Point>, p: Point, r: Point)
    requires |table| > 0 && Sorted(ind, table) && r in Offered(ind, table, p)
    ensures r in table || (r == p && Beats(ind, p, table[0]))
    ensures r in table ==> !Beats(ind, table[0], r)
  {
    if Beats(ind, p, table[0]) {
      SettledSame(ind, table[0 := p]);
      assert r in multiset(table[0 := p]);
      assert r in table[0 := p];
    }
  }

  lemma {:induction false} ScannedBest(ind: nat, table: seq<Point>, points: seq<Point>)
    requires |table| > 0 && Sorted(ind, table)
    ensures Best(ind, Scanned(ind, table, points), Dropped(ind, table, points), multiset(table) + multiset(points))
  {
    if points != [] {
      var rest, p := points[..|points| - 1], points[|points| - 1];
      ScannedBest(ind, table, rest);
      OfferedBest(ind, Scanned(ind, table, rest), Dropped(ind, table, rest), multiset(table) + multiset(rest), p);
      assert points == rest + [p];
      assert multiset(table) + multiset(points) == multiset(table) + multiset(rest) + multiset{p};
    }
  }

  // The table before the scan.
  function Blank(ind: nat): Point {
    Point(if ind == 1 then 0 else ONE, 0, 0, 0)
  }

  function Blanks(ind: nat): (r: seq<Point>)
    ensures |r| == MM && forall i :: 0 <= i < MM ==> r[i] == Blank(ind)
  {
    seq(MM, i => Blank(ind))
  }

  // The ten best points: sorted, each one a point of the grid, and no other point beats one of them.
  ghost predicate TenBest(ind: nat, table: seq<Point>, points: seq<Point>) {
    && |table| == MM && Sorted(ind, table)
    && multiset(table) <= multiset(points)
    && forall q, p :: q in multiset(points) - multiset(table) && p in table ==> !Beats(ind, q, p)
  }

  lemma ScanFindsTen(ind: nat, points: seq<Point>)
    requires |points| >= MM && forall p :: p in points ==> Beats(ind, p, Blank(ind))
    ensures TenBest(ind, Scanned(ind, Blanks(ind), points), points)
  {
    var blanks, table, dropped := Blanks(ind), Scanned(ind, Blanks(ind), points), Dropped(ind, Blanks(ind), points);
    ScannedBest(ind, blanks, points);
    hide Scanned, Dropped, Blanks;
    BlankCount(ind);
    assert Blank(ind) !in points;
    NoBlankLeft(multiset(table), dropped, multiset(blanks), multiset(points), Blank(ind), ind);
  }

  // Ten points drive out all blanks: a blank still in the table would mean no point was dropped.
  lemma NoBlankLeft(table: multiset<Point>, dropped: multiset<Point>, blanks: multiset<Point>, points: multiset<Point>,
                    b: Point, ind: nat)
    requires table + dropped == blanks + points && points[b] == 0
    requires forall q :: q != b ==> blanks[q] == 0
    requires |table| == MM && |points| >= MM && blanks[b] == MM
    requires forall q, p :: q in dropped && p in table ==> !Beats(ind, q, p)
    requires forall q :: q in points ==> Beats(ind, q, b)
    ensures b !in table && table <= points && points - table <= dropped
  {
    if b in table {
      forall q | q != b ensures points[q] <= table[q] {
        assert (table + dropped)[q] == (blanks + points)[q];
        if q in points { assert q !in dropped; }
      }
      assert points + multiset{b} <= table;
      Smaller(points + multiset{b}, table);
      assert false;
    }
    forall q ensures table[q] <= points[q] && (points - table)[q] <= dropped[q] {
      assert (table + dropped)[q] == (blanks + points)[q];
    }
  }

  lemma Smaller(a: multiset<Point>, b: multiset<Point>)
    requires a <= b
    ensures |a| <= |b|
  {
    assert b == a + (b - a);
  }

  lemma BlankCount(ind: nat)
    ensures multiset(Blanks(ind))[Blank(ind)] == MM && forall q :: q != Blank(ind) ==> multiset(Blanks(ind))[q] == 0
  {
    var b := Blank(ind);
    assert Blanks(ind) == [b, b, b, b, b, b, b, b, b, b];
  }

  // The points that beat the blank entries.
  function Good(ind: nat, points: seq<Point>): (r: seq<Point>)
    ensures forall p :: p in r <==> p in points && Beats(ind, p, Blank(ind))
  {
    if points == [] then []
    else
      var rest, p := Good(ind, points[..|points| - 1]), points[|points| - 1];
      assert points == points[..|points| - 1] + [p];
      if Beats(ind, p, Blank(ind)) then rest + [p] else rest
  }

  lemma {:induction false} GoodCounts(ind: nat, points: seq<Point>, p: Point)
    ensures multiset(Good(ind, points))[p] == if Beats(ind, p, Blank(ind)) then multiset(points)[p] else 0
  {
    if points != [] {
      GoodCounts(ind, points[..|points| - 1], p);
      assert points == points[..|points| - 1] + [points[|points| - 1]];
    }
  }

  // An entry of the table is blank or beats the blank ones.
  lemma {:induction false} EntriesBeat(ind: nat, points: seq<Point>, r: Point)
    requires r in Scanned(ind, Blanks(ind), points)
    ensures r == Blank(ind) || Beats(ind, r, Blank(ind))
  {
    if points == [] {
      assert r in Blanks(ind);
    } else {
      var rest, p := points[..|points| - 1], points[|points| - 1];
      var before := Scanned(ind, Blanks(ind), rest);
      ScannedBest(ind, Blanks(ind), rest);
      KeptOrNew(ind, before, p, r);
      EntriesBeat(ind, rest, if r in before then r else before[0]);
    }
  }

  // The table holds the ten best points if and only if ten points beat the blank entries; otherwise
  // a blank entry is left.
  lemma ScanFindsTenExactly(ind: nat, points: seq<Point>)
    requires Blank(ind) !in points
    ensures TenBest(ind, Scanned(ind, Blanks(ind), points), points) <==> |Good(ind, points)| >= MM
    ensures |Good(ind, points)| < MM ==> Blank(ind) in Scanned(ind, Blanks(ind), points)
  {
    var b, blanks, good := Blank(ind), Blanks(ind), Good(ind, points);
    var table, dropped := Scanned(ind, blanks, points), Dropped(ind, blanks, points);
    ScannedBest(ind, blanks, points);
    BlankCount(ind);
    forall r | r in table ensures r == b || Beats(ind, r, b) { EntriesBeat(ind, points, r); }
    forall p ensures multiset(good)[p] == if Beats(ind, p, b) then multiset(points)[p] else 0 {
      GoodCounts(ind, points, p);
    }
    hide Scanned, Dropped, Blanks, Good, Blank;
    KeepsGood(ind, multiset(table), dropped, multiset(blanks), multiset(points), multiset(good), b);
    assert b in table <==> b in multiset(table);
    assert |multiset(table)| == MM && |multiset(good)| == |good|;
    if b !in table {
      Smaller(multiset(table), multiset(good));
    } else if |good| >= MM {
      Smaller(multiset(good) + multiset{b}, multiset(table));
      assert false;
    }
  }

  // A blank entry that is left means that all points which beat it are in the table; if none is left,
  // the table consists of such points.
  lemma KeepsGood(ind: nat, table: multiset<Point>, dropped: multiset<Point>, blanks: multiset<Point>,
                  points: multiset<Point>, good: multiset<Point>, b: Point)
    requires table + dropped == blanks + points && points[b] == 0
    requires forall q :: q != b ==> blanks[q] == 0
    requires forall p :: good[p] == if Beats(ind, p, b) then points[p] else 0
    requires forall r :: r in table ==> r == b || Beats(ind, r, b)
    requires forall q, p :: q in dropped && p in table ==> !Beats(ind, q, p)
    ensures b in table ==> good + multiset{b} <= table
    ensures b !in table ==> table <= good && table <= points && points - table <= dropped
  {
    forall q ensures table[q] + dropped[q] == blanks[q] + points[q] {
      assert (table + dropped)[q] == (blanks + points)[q];
    }
    if b in table {
      forall q | q in good ensures good[q] <= table[q] { assert q !in dropped; }
    } else {
      forall q ensures table[q] <= points[q] && table[q] <= good[q] && (points - table)[q] <= dropped[q] {
      }
    }
  }
}
