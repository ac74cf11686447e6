// The CG benchmark's assembly of a sparse matrix: a counting sort of the triples by row, then an
// in-place merge of the entries of each row. Arrays are indexed from 1; element 0 is not used.
module SparseAssembly {

  import opened Elements
  import opened SparseRows
  import opened SparseMerge

  ghost function Triples(arow: array<int>, acol: array<int>, aelt: array<Elt>, nnza: nat, firstrow: int)
      : (ts: seq<Triple>)
    requires nnza < arow.Length && nnza < acol.Length && nnza < aelt.Length
    reads arow, acol, aelt
    ensures |ts| == nnza
    ensures forall t :: 0 <= t < nnza ==> ts[t] == Triple(arow[t + 1] - firstrow + 1, acol[t + 1], aelt[t + 1])
  {
    seq(nnza, t requires 0 <= t < nnza reads arow, acol, aelt =>
      Triple(arow[t + 1] - firstrow + 1, acol[t + 1], aelt[t + 1]))
  }

  ghost predicate RowsInRange(ts: seq<Triple>, nrows: nat) {
    forall t :: 0 <= t < |ts| ==> 1 <= ts[t].row <= nrows
  }

  ghost predicate Counted(rowstr: seq<int>, ts: seq<Triple>, nrows: nat)
    requires nrows + 1 < |rowstr|
  {
    forall j :: 2 <= j <= nrows + 1 ==> CountedAt(rowstr[j], ts, j)
  }

  // The count of a row stands one place on.
  ghost predicate CountedAt(v: int, ts: seq<Triple>, j: int) {
    v == |RowList(ts, j - 1)|
  }

  // The number of triples in each row.
  method CountRows(rowstr: array<int>, mark: array<bool>, arow: array<int>, n: nat, nnza: nat, firstrow: int,
                   nrows: nat, ghost ts: seq<Triple>)
    requires n + 1 < rowstr.Length && n < mark.Length && nnza < arow.Length && rowstr != arow && nrows <= n
    requires |ts| == nnza && RowsInRange(ts, nrows)
    requires forall t :: 0 <= t < nnza ==> ts[t].row == arow[t + 1] - firstrow + 1
    modifies rowstr, mark
    ensures Counted(rowstr[..], ts, nrows)
    ensures rowstr[0] == old(rowstr[0])
  {
    hide *;
    for j := 1 to n + 1
      invariant forall i :: 1 <= i < j ==> rowstr[i] == 0
      invariant rowstr[0] == old(rowstr[0])
    {
      rowstr[j] := 0;
      mark[j] := false;
    }
    rowstr[n + 1] := 0;
    CountStart(rowstr[..], ts, nrows);
    for nza := 1 to nnza + 1
      invariant rowstr[0] == old(rowstr[0])
      invariant Counted(rowstr[..], ts[..nza - 1], nrows)
    {
      var j := (arow[nza] - firstrow + 1) + 1;
      assert ts[nza - 1].row == j - 1;
      RowInRange(ts, nrows, nza - 1);
      CountNext(rowstr[..], ts, nza - 1, nrows);
      rowstr[j] := rowstr[j] + 1;
    }
    assert ts[..nnza] == ts;
  }

  lemma RowInRange(ts: seq<Triple>, nrows: nat, t: nat)
    requires RowsInRange(ts, nrows) && t < |ts|
    ensures 1 <= ts[t].row <= nrows
  {
  }

  lemma CountStart(rowstr: seq<int>, ts: seq<Triple>, nrows: nat)
    requires nrows + 1 < |rowstr| && forall i :: 1 <= i <= nrows + 1 ==> rowstr[i] == 0
    ensures Counted(rowstr, ts[..0], nrows)
  {
  }

  lemma CountNext(rowstr: seq<int>, ts: seq<Triple>, t: nat, nrows: nat)
    requires nrows + 1 < |rowstr| && t < |ts| && RowsInRange(ts, nrows) && Counted(rowstr, ts[..t], nrows)
    ensures var j := ts[t].row + 1; Counted(rowstr[j := rowstr[j] + 1], ts[..t + 1], nrows)
  {
    var r := ts[t].row + 1;
    var rowstr' := rowstr[r := rowstr[r] + 1];
    forall j | 2 <= j <= nrows + 1 ensures CountedAt(rowstr'[j], ts[..t + 1], j) {
      assert CountedAt(rowstr[j], ts[..t], j);
      RowListNext(ts, t, j - 1);
    }
  }

  ghost predicate Located(rowstr: seq<int>, ts: seq<Triple>, nrows: nat)
    requires nrows + 1 < |rowstr|
  {
    forall j :: 1 <= j <= nrows + 1 ==> StartAt(rowstr[j], ts, j)
  }

  ghost predicate StartAt(v: int, ts: seq<Triple>, j: int) {
    v == Start(ts, j)
  }

  method PrefixSums(rowstr: array<int>, nrows: nat, ghost ts: seq<Triple>)
    requires nrows + 1 < rowstr.Length && Counted(rowstr[..], ts, nrows)
    modifies rowstr
    ensures Located(rowstr[..], ts, nrows)
    ensures rowstr[0] == old(rowstr[0])
  {
    assert forall j :: 2 <= j <= nrows + 1 ==> CountedAt(rowstr[..][j], ts, j);
    rowstr[1] := 1;
    for j := 2 to nrows + 2
      invariant forall i :: 1 <= i < j ==> StartAt(rowstr[i], ts, i)
      invariant forall i :: j <= i <= nrows + 1 ==> CountedAt(rowstr[i], ts, i)
      invariant rowstr[0] == old(rowstr[0])
    {
      assert StartAt(rowstr[j - 1], ts, j - 1) && CountedAt(rowstr[j], ts, j);
      rowstr[j] := rowstr[j] + rowstr[j - 1];
    }
  }

  // The pages of the result are touched once; nothing is read from them.
  method Preload(a: array<Elt>, rowstr: array<int>, nrows: nat, ghost ts: seq<Triple>)
    requires nrows + 1 < rowstr.Length && Located(rowstr[..], ts, nrows) && rowstr[0] >= 0
    requires Start(ts, nrows + 1) <= a.Length
    modifies a
  {
    for j := 0 to nrows {
      var k := rowstr[j];
      StartMono(ts, j + 1, nrows + 1);
      if j > 0 { assert rowstr[j] == Start(ts, j); }
      while k <= rowstr[j + 1] - 1
        invariant 0 <= k
      {
        a[k] := ZERO;
        k := k + 1;
      }
    }
  }

  // Row j when the first t triples are in place: its entries so far, and where its next one goes.
  ghost predicate RowAt(a: seq<Elt>, colidx: seq<int>, next: int, ts: seq<Triple>, list: seq<Entry>, j: int) {
    && next == Start(ts, j) + |list| && next <= |a| && next <= |colidx|
    && forall i :: 0 <= i < |list| ==> Entry(colidx[Start(ts, j) + i], a[Start(ts, j) + i]) == list[i]
  }

  ghost predicate Bucketed(a: seq<Elt>, colidx: seq<int>, rowstr: seq<int>, ts: seq<Triple>, t: nat, nrows: nat)
    requires nrows + 1 < |rowstr| && t <= |ts|
  {
    forall j :: 1 <= j <= nrows ==> RowAt(a, colidx, rowstr[j], ts, RowList(ts[..t], j), j)
  }

  method BucketSort(a: array<Elt>, colidx: array<int>, rowstr: array<int>, arow: array<int>, acol: array<int>,
                    aelt: array<Elt>, nnza: nat, firstrow: int, nrows: nat, ghost ts: seq<Triple>)
    requires nnza < arow.Length && nnza < acol.Length && nnza < aelt.Length
    requires nnza < a.Length && nnza < colidx.Length && nrows + 1 < rowstr.Length
    requires a != aelt && colidx != rowstr && colidx != arow && colidx != acol && rowstr != arow && rowstr != acol
    requires ts == Triples(arow, acol, aelt, nnza, firstrow) && RowsInRange(ts, nrows)
    requires Located(rowstr[..], ts, nrows)
    modifies a, colidx, rowstr
    ensures Bucketed(a[..], colidx[..], rowstr[..], ts, nnza, nrows)
  {
    hide *;
    TriplesAre(arow, acol, aelt, nnza, firstrow, ts);
    BucketStart(a[..], colidx[..], rowstr[..], ts, nrows);
    for nza := 1 to nnza + 1
      invariant Bucketed(a[..], colidx[..], rowstr[..], ts, nza - 1, nrows)
    {
      TriplesAre(arow, acol, aelt, nnza, firstrow, ts);
      var j := arow[nza] - firstrow + 1;
      BucketNext(a[..], colidx[..], rowstr[..], ts, nza - 1, nrows);
      var k := rowstr[j];
      a[k] := aelt[nza];
      colidx[k] := acol[nza];
      rowstr[j] := rowstr[j] + 1;
    }
  }

  lemma TriplesAre(arow: array<int>, acol: array<int>, aelt: array<Elt>, nnza: nat, firstrow: int, ts: seq<Triple>)
    requires nnza < arow.Length && nnza < acol.Length && nnza < aelt.Length
    requires ts == Triples(arow, acol, aelt, nnza, firstrow)
    ensures |ts| == nnza
    ensures forall k :: 1 <= k <= nnza ==> ts[k - 1] == Triple(arow[k] - firstrow + 1, acol[k], aelt[k])
  {
  }

  lemma BucketStart(a: seq<Elt>, colidx: seq<int>, rowstr: seq<int>, ts: seq<Triple>, nrows: nat)
    requires nrows + 1 < |rowstr| && |ts| < |a| && |ts| < |colidx|
    requires RowsInRange(ts, nrows) && Located(rowstr, ts, nrows)
    ensures Bucketed(a, colidx, rowstr, ts, 0, nrows)
  {
    StartTotal(ts, nrows);
    forall j | 1 <= j <= nrows ensures RowAt(a, colidx, rowstr[j], ts, RowList(ts[..0], j), j) {
      StartMono(ts, j, nrows + 1);
    }
  }

  lemma BucketNext(a: seq<Elt>, colidx: seq<int>, rowstr: seq<int>, ts: seq<Triple>, t: nat, nrows: nat)
    requires nrows + 1 < |rowstr| && t < |ts| && |ts| < |a| && |ts| < |colidx|
    requires RowsInRange(ts, nrows) && Bucketed(a, colidx, rowstr, ts, t, nrows)
    ensures var j := ts[t].row;
      && 1 <= j <= nrows && var k := rowstr[j];
      && 0 <= k < |a| && k < |colidx|
      && Bucketed(a[k := ts[t].val], colidx[k := ts[t].col], rowstr[j := k + 1], ts, t + 1, nrows)
  {
    hide *;
    BucketPlace(a, colidx, rowstr, ts, t, nrows);
    BucketAll(a, colidx, rowstr, ts, t, nrows, rowstr[ts[t].row]);
  }

  // The next place of row r is inside the arrays.
  lemma BucketPlace(a: seq<Elt>, colidx: seq<int>, rowstr: seq<int>, ts: seq<Triple>, t: nat, nrows: nat)
    requires nrows + 1 < |rowstr| && t < |ts| && |ts| < |a| && |ts| < |colidx|
    requires RowsInRange(ts, nrows) && Bucketed(a, colidx, rowstr, ts, t, nrows)
    ensures var r := ts[t].row; 1 <= r <= nrows && var k := rowstr[r];
      0 <= k < |a| && k < |colidx| && k == Start(ts, r) + |RowList(ts[..t], r)|
  {
    var r := ts[t].row;
    assert RowAt(a, colidx, rowstr[r], ts, RowList(ts[..t], r), r);
    RowListNext(ts, t, r);
    PlaceBound(ts, r, nrows);
  }

  lemma PlaceBound(ts: seq<Triple>, r: int, nrows: nat)
    requires RowsInRange(ts, nrows) && 1 <= r <= nrows
    ensures Start(ts, r) + |RowList(ts, r)| <= |ts| + 1
  {
    StartMono(ts, r, nrows + 1);
    StartTotal(ts, nrows);
  }

  lemma BucketAll(a: seq<Elt>, colidx: seq<int>, rowstr: seq<int>, ts: seq<Triple>, t: nat, nrows: nat, k: nat)
    requires nrows + 1 < |rowstr| && t < |ts| && k < |a| && k < |colidx|
    requires RowsInRange(ts, nrows) && Bucketed(a, colidx, rowstr, ts, t, nrows)
    requires 1 <= ts[t].row <= nrows && rowstr[ts[t].row] == k
    requires k == Start(ts, ts[t].row) + |RowList(ts[..t], ts[t].row)|
    ensures Bucketed(a[k := ts[t].val], colidx[k := ts[t].col], rowstr[ts[t].row := k + 1], ts, t + 1, nrows)
  {
    hide RowAt, RowList, Start;
    var rowstr' := rowstr[ts[t].row := k + 1];
    var a', colidx' := a[k := ts[t].val], colidx[k := ts[t].col];
    forall j | 1 <= j <= nrows ensures RowAt(a', colidx', rowstr'[j], ts, RowList(ts[..t + 1], j), j) {
      assert RowAt(a, colidx, rowstr[j], ts, RowList(ts[..t], j), j);
      BucketNextAt(a, colidx, rowstr[j], ts, t, j, k);
    }
  }

  // Only row r grows; the segments of the other rows lie elsewhere.
  lemma BucketNextAt(a: seq<Elt>, colidx: seq<int>, next: int, ts: seq<Triple>, t: nat, j: int, k: nat)
    requires t < |ts| && k < |a| && k < |colidx| && 1 <= j && 1 <= ts[t].row
    requires RowAt(a, colidx, next, ts, RowList(ts[..t], j), j)
    requires k == Start(ts, ts[t].row) + |RowList(ts[..t], ts[t].row)|
    ensures RowAt(a[k := ts[t].val], colidx[k := ts[t].col], if j == ts[t].row then k + 1 else next,
                  ts, RowList(ts[..t + 1], j), j)
  {
    hide RowList, Start, RowAt;
    var r := ts[t].row;
    RowListNext(ts, t, j);
    RowListNext(ts, t, r);
    RowListPrefix(ts, t, j);
    RowListPrefix(ts, t, r);
    NextPlace(a, colidx, next, ts, RowList(ts[..t], j), j);
    if j == r {
      OneMore(a, colidx, next, ts, RowList(ts[..t], j), j, ts[t]);
    } else {
      if j < r { StartMono(ts, j, r); } else { StartMono(ts, r, j); }
      assert RowList(ts[..t + 1], j) == RowList(ts[..t], j);
      NotHere(a, colidx, next, ts, RowList(ts[..t], j), j, k, ts[t]);
    }
  }

  lemma NextPlace(a: seq<Elt>, colidx: seq<int>, next: int, ts: seq<Triple>, list: seq<Entry>, j: int)
    requires RowAt(a, colidx, next, ts, list, j)
    ensures next == Start(ts, j) + |list|
  {
  }

  lemma OneMore(a: seq<Elt>, colidx: seq<int>, next: int, ts: seq<Triple>, list: seq<Entry>, j: int, t: Triple)
    requires RowAt(a, colidx, next, ts, list, j) && 0 <= next < |a| && next < |colidx|
    ensures RowAt(a[next := t.val], colidx[next := t.col], next + 1, ts, list + [Entry(t.col, t.val)], j)
  {
    hide Start;
  }

  lemma NotHere(a: seq<Elt>, colidx: seq<int>, next: int, ts: seq<Triple>, list: seq<Entry>, j: int, k: nat, t: Triple)
    requires RowAt(a, colidx, next, ts, list, j) && k < |a| && k < |colidx|
    requires k < Start(ts, j) || Start(ts, j) + |list| <= k
    ensures RowAt(a[k := t.val], colidx[k := t.col], next, ts, list, j)
  {
    hide Start;
  }

  ghost predicate EndAt(v: int, ts: seq<Triple>, j: int) {
    v == Start(ts, j) + |RowList(ts, j)|
  }

  // Afterwards rowstr[j] points past row j; moving it on by one place restores the starts.
  method ShiftBack(rowstr: array<int>, nrows: nat, ghost ts: seq<Triple>)
    requires nrows + 1 < rowstr.Length
    requires forall j :: 1 <= j <= nrows ==> EndAt(rowstr[j], ts, j)
    modifies rowstr
    ensures Located(rowstr[..], ts, nrows)
  {
    var j := nrows;
    while j >= 1
      invariant 0 <= j <= nrows
      invariant forall i :: 1 <= i <= j ==> EndAt(rowstr[i], ts, i)
      invariant forall i :: j + 1 < i <= nrows + 1 ==> StartAt(rowstr[i], ts, i)
    {
      assert EndAt(rowstr[j], ts, j);
      rowstr[j + 1] := rowstr[j];
      assert StartAt(rowstr[j + 1], ts, j + 1);
      j := j - 1;
    }
    rowstr[1] := 1;
    assert StartAt(rowstr[1], ts, 1);
  }

  lemma BucketEnds(a: seq<Elt>, colidx: seq<int>, rowstr: seq<int>, ts: seq<Triple>, nrows: nat)
    requires nrows + 1 < |rowstr| && Bucketed(a, colidx, rowstr, ts, |ts|, nrows)
    ensures forall j :: 1 <= j <= nrows ==> EndAt(rowstr[j], ts, j)
    ensures forall j :: 1 <= j <= nrows ==> Unread(a, colidx, ts, j)
  {
    assert ts[..|ts|] == ts;
    forall j | 1 <= j <= nrows ensures EndAt(rowstr[j], ts, j) && Unread(a, colidx, ts, j) {
      assert RowAt(a, colidx, rowstr[j], ts, RowList(ts[..|ts|], j), j);
    }
  }

  lemma TriplesOk(arow: array<int>, acol: array<int>, aelt: array<Elt>, nnza: nat, firstrow: int, lastrow: int, n: nat)
    requires nnza < arow.Length && nnza < acol.Length && nnza < aelt.Length
    requires forall k :: 1 <= k <= nnza ==> firstrow <= arow[k] <= lastrow && 1 <= acol[k] <= n
    requires lastrow - firstrow + 1 >= 0
    ensures var ts := Triples(arow, acol, aelt, nnza, firstrow);
      && RowsInRange(ts, lastrow - firstrow + 1) && AllColumnsInRange(ts, n)
      && forall t :: 0 <= t < nnza ==> ts[t].row == arow[t + 1] - firstrow + 1
  {
  }

  // Assembles the matrix. Any list of triples with rows and columns in range will do, and any
  // addition of elements.
  method Sparse(add: Addition, a: array<Elt>, colidx: array<int>, rowstr: array<int>, n: nat,
                arow: array<int>, acol: array<int>, aelt: array<Elt>, firstrow: int, lastrow: int,
                x: array<Elt>, mark: array<bool>, nzloc: array<int>, nnza: nat)
    requires nnza < arow.Length && nnza < acol.Length && nnza < aelt.Length
    requires nnza < a.Length && nnza < colidx.Length && n + 1 < rowstr.Length && rowstr[0] >= 0
    requires n < x.Length && n < mark.Length && n < nzloc.Length
    requires 0 <= lastrow - firstrow + 1 <= n
    requires forall k :: 1 <= k <= nnza ==> firstrow <= arow[k] <= lastrow && 1 <= acol[k] <= n
    requires a != aelt && a != x && aelt != x
    requires colidx != rowstr && colidx != nzloc && colidx != arow && colidx != acol
    requires rowstr != nzloc && rowstr != arow && rowstr != acol
    modifies a, colidx, rowstr, x, mark, nzloc
    ensures Assembled(add, a[..], colidx[..], rowstr[..],
                      old(Triples(arow, acol, aelt, nnza, firstrow)), lastrow - firstrow + 1)
    ensures Clear(x[..], mark[..], n)
  {
    hide *;
    ghost var ts := Triples(arow, acol, aelt, nnza, firstrow);
    TriplesOk(arow, acol, aelt, nnza, firstrow, lastrow, n);
    var nrows := lastrow - firstrow + 1;
    CountRows(rowstr, mark, arow, n, nnza, firstrow, nrows, ts);
    PrefixSums(rowstr, nrows, ts);
    PlaceLast(ts, nrows);
    Preload(a, rowstr, nrows, ts);
    BucketSort(a, colidx, rowstr, arow, acol, aelt, nnza, firstrow, nrows, ts);
    BucketEnds(a[..], colidx[..], rowstr[..], ts, nrows);
    ShiftBack(rowstr, nrows, ts);
    LocatedMeans(rowstr[..], ts, nrows);
    MergeRows(add, a, colidx, rowstr, n, nrows, x, mark, nzloc, ts);
    MergedAssembled(add, a[..], colidx[..], rowstr[..], ts, nrows);
  }

  lemma LocatedMeans(rowstr: seq<int>, ts: seq<Triple>, nrows: nat)
    requires nrows + 1 < |rowstr| && Located(rowstr, ts, nrows)
    ensures forall i :: 1 <= i <= nrows + 1 ==> rowstr[i] == Start(ts, i)
  {
  }

  lemma PlaceLast(ts: seq<Triple>, nrows: nat)
    requires RowsInRange(ts, nrows)
    ensures Start(ts, nrows + 1) == |ts| + 1
  {
    StartTotal(ts, nrows);
  }
}
