// The second half of the assembly: the entries of each row are added up in a workspace, and the
// nonzero sums are written back over the entries already read.
module SparseMerge {

  import opened Elements
  import opened SparseRows

  // The entries that start at place from.
  ghost predicate Segment(a: seq<Elt>, colidx: seq<int>, from: int, list: seq<Entry>) {
    && 0 <= from && from + |list| <= |a| && from + |list| <= |colidx|
    && forall i :: 0 <= i < |list| ==> Entry(colidx[from + i], a[from + i]) == list[i]
  }

  ghost predicate ColumnsInRange(list: seq<Entry>, n: nat) {
    forall i :: 0 <= i < |list| ==> 1 <= list[i].col <= n
  }

  // The workspace after the entries of list: running sums, marks, and the marked columns in order.
  ghost predicate Work(add: Addition, x: seq<Elt>, mark: seq<bool>, nzloc: seq<int>, n: nat, list: seq<Entry>) {
    var order := Order(add, list);
    && n < |x| && n < |mark| && n < |nzloc| && |order| <= n
    && (forall c :: 1 <= c <= n ==> x[c] == Sum(add, list, c))
    && (forall c :: 1 <= c <= n ==> (mark[c] <==> c in order))
    && (forall i :: 0 <= i < |order| ==> 1 <= order[i] <= n && nzloc[i + 1] == order[i])
  }

  ghost predicate Clear(x: seq<Elt>, mark: seq<bool>, n: nat) {
    && n < |x| && n < |mark|
    && (forall c :: 1 <= c <= n ==> x[c] == ZERO)
    && (forall c :: 1 <= c <= n ==> !mark[c])
  }

  // Distinct columns between 1 and n are at most n.
  lemma {:induction false} FewColumns(s: seq<int>, n: nat)
    requires NoRepeats(s) && forall i :: 0 <= i < |s| ==> 1 <= s[i] <= n
    ensures |s| <= n
    decreases n
  {
    if s == [] {
    } else if k :| 0 <= k < |s| && s[k] == n {
      var rest := s[..k] + s[k + 1..];
      FewColumns(rest, n - 1);
    } else {
      assert 1 <= s[0] <= n;
      FewColumns(s, n - 1);
    }
  }

  lemma {:induction false} OrderInRange(add: Addition, list: seq<Entry>, n: nat)
    requires ColumnsInRange(list, n)
    ensures |Order(add, list)| <= n
    ensures forall i :: 0 <= i < |Order(add, list)| ==> 1 <= Order(add, list)[i] <= n
  {
    OrderNoRepeats(add, list);
    var order := Order(add, list);
    forall i | 0 <= i < |order| ensures 1 <= order[i] <= n {
      assert order[i] in order;
      var e :| e in list && e.col == order[i];
    }
    FewColumns(order, n);
  }

  // One entry more.
  lemma WorkNext(add: Addition, x: seq<Elt>, mark: seq<bool>, nzloc: seq<int>, n: nat, list: seq<Entry>, k: nat)
    requires k < |list| && ColumnsInRange(list, n) && Work(add, x, mark, nzloc, n, list[..k])
    ensures var i, nzrow := list[k].col, |Order(add, list[..k])|;
      && 1 <= i <= n
      && var x' := x[i := add(x[i], list[k].val)];
      && if !mark[i] && x'[i] != ZERO then
           nzrow < n && |Order(add, list[..k + 1])| == nzrow + 1
           && Work(add, x', mark[i := true], nzloc[nzrow + 1 := i], n, list[..k + 1])
         else
           |Order(add, list[..k + 1])| == nzrow && Work(add, x', mark, nzloc, n, list[..k + 1])
  {
    var before, after := list[..k], list[..k + 1];
    assert after[..k] == before && after[k] == list[k];
    OrderInRange(add, after, n);
  }

  lemma WorkStart(add: Addition, x: seq<Elt>, mark: seq<bool>, nzloc: seq<int>, n: nat)
    requires n < |nzloc| && Clear(x, mark, n)
    ensures Work(add, x, mark, nzloc, n, []) && Order(add, []) == []
  {
  }

  lemma SegmentIs(a: seq<Elt>, colidx: seq<int>, from: int, list: seq<Entry>)
    requires Segment(a, colidx, from, list)
    ensures 0 <= from && from + |list| <= |a| && from + |list| <= |colidx|
    ensures forall k :: from <= k < from + |list| ==> Entry(colidx[k], a[k]) == list[k - from]
  {
  }

  // Adds up the entries of one row.
  method Accumulate(add: Addition, a: array<Elt>, colidx: array<int>, x: array<Elt>, mark: array<bool>,
                    nzloc: array<int>, n: nat, from: int, to: int, ghost list: seq<Entry>) returns (nzrow: nat)
    requires Segment(a[..], colidx[..], from, list) && to == from + |list| && ColumnsInRange(list, n)
    requires n < nzloc.Length && Clear(x[..], mark[..], n)
    requires a != x && colidx != nzloc
    modifies x, mark, nzloc
    ensures Work(add, x[..], mark[..], nzloc[..], n, list) && nzrow == |Order(add, list)|
  {
    hide *;
    nzrow := 0;
    var k := from;
    assert list[..k - from] == [];
    WorkStart(add, x[..], mark[..], nzloc[..], n);
    SegmentIs(a[..], colidx[..], from, list);
    while k < to
      invariant from <= k <= to && nzrow == |Order(add, list[..k - from])|
      invariant Work(add, x[..], mark[..], nzloc[..], n, list[..k - from])
    {
      WorkNext(add, x[..], mark[..], nzloc[..], n, list, k - from);
      assert Entry(colidx[k], a[k]) == list[k - from];
      var i := colidx[k];
      x[i] := add(x[i], a[k]);
      if mark[i] == false && !(x[i] == ZERO) {
        mark[i] := true;
        nzrow := nzrow + 1;
        nzloc[nzrow] := i;
      }
      k := k + 1;
    }
    assert list[..|list|] == list;
  }

  // The workspace when the first k marked columns have been taken out again.
  ghost predicate TakenOut(add: Addition, x: seq<Elt>, mark: seq<bool>, n: nat, list: seq<Entry>, k: nat)
    requires k <= |Order(add, list)|
  {
    var order := Order(add, list);
    && n < |x| && n < |mark|
    && (forall c :: 1 <= c <= n ==> x[c] == if c in order[..k] then ZERO else Sum(add, list, c))
    && (forall c :: 1 <= c <= n ==> (mark[c] <==> c in order && c !in order[..k]))
  }

  lemma TakeOutNext(add: Addition, x: seq<Elt>, mark: seq<bool>, n: nat, list: seq<Entry>, k: nat)
    requires k < |Order(add, list)| && TakenOut(add, x, mark, n, list, k) && ColumnsInRange(list, n)
    ensures var i := Order(add, list)[k];
      && 1 <= i <= n && x[i] == Sum(add, list, i)
      && TakenOut(add, x[i := ZERO], mark[i := false], n, list, k + 1)
  {
    OrderInRange(add, list, n);
    OrderNoRepeats(add, list);
    var order := Order(add, list);
    assert order[..k + 1] == order[..k] + [order[k]];
    assert forall l :: 0 <= l < k ==> order[l] != order[k];
  }

  lemma TakenOutEnds(add: Addition, x: seq<Elt>, mark: seq<bool>, n: nat, list: seq<Entry>)
    requires TakenOut(add, x, mark, n, list, |Order(add, list)|)
    ensures Clear(x, mark, n)
  {
    var order := Order(add, list);
    assert order[..|order|] == order;
    forall c | 1 <= c <= n ensures x[c] == ZERO {
      UnmarkedIsZero(add, list, c);
    }
  }

  lemma TakenOutStarts(add: Addition, x: seq<Elt>, mark: seq<bool>, nzloc: seq<int>, n: nat, list: seq<Entry>)
    requires Work(add, x, mark, nzloc, n, list)
    ensures TakenOut(add, x, mark, n, list, 0)
    ensures |Order(add, list)| < |nzloc|
    ensures forall i :: 1 <= i <= |Order(add, list)| ==> nzloc[i] == Order(add, list)[i - 1]
  {
  }

  // The sums kept so far stand behind the rows already written.
  lemma KeptNext(add: Addition, a: seq<Elt>, colidx: seq<int>, list: seq<Entry>, k: nat, at: nat)
    requires k < |Order(add, list)| && at >= 1
    requires Segment(a, colidx, at, Kept(add, list, Order(add, list)[..k]))
    requires at + k < |a| && at + k < |colidx|
    ensures var i := Order(add, list)[k];
      var kept, kept' := Kept(add, list, Order(add, list)[..k]), Kept(add, list, Order(add, list)[..k + 1]);
      if Sum(add, list, i) != ZERO then
        |kept'| == |kept| + 1 && Segment(a[at + |kept| := Sum(add, list, i)], colidx[at + |kept| := i], at, kept')
      else
        kept' == kept
  {
    var order := Order(add, list);
    assert order[..k + 1][..k] == order[..k];
  }

  // Writes the nonzero sums of a row behind place nza, and clears the workspace.
  method Extract(add: Addition, a: array<Elt>, colidx: array<int>, x: array<Elt>, mark: array<bool>,
                 nzloc: array<int>, n: nat, nzrow: nat, before: nat, ghost list: seq<Entry>) returns (nza: nat)
    requires ColumnsInRange(list, n) && Work(add, x[..], mark[..], nzloc[..], n, list) && nzrow == |Order(add, list)|
    requires before + nzrow < a.Length && before + nzrow < colidx.Length
    requires a != x && colidx != nzloc
    modifies a, colidx, x, mark
    ensures Clear(x[..], mark[..], n)
    ensures nza == before + |Merged(add, list)|
    ensures Segment(a[..], colidx[..], before + 1, Merged(add, list))
    ensures forall i :: 0 <= i < a.Length && !(before < i <= before + nzrow) ==> a[i] == old(a[i])
    ensures forall i :: 0 <= i < colidx.Length && !(before < i <= before + nzrow) ==> colidx[i] == old(colidx[i])
  {
    hide *;
    TakenOutStarts(add, x[..], mark[..], nzloc[..], n, list);
    ghost var order := Order(add, list);
    nza := before;
    KeptStart(add, a[..], colidx[..], list, before + 1);
    for k := 1 to nzrow + 1
      invariant TakenOut(add, x[..], mark[..], n, list, k - 1)
      invariant nza == before + |Kept(add, list, order[..k - 1])| && nza <= before + k - 1
      invariant Segment(a[..], colidx[..], before + 1, Kept(add, list, order[..k - 1]))
      invariant forall i :: 0 <= i < a.Length && !(before < i <= before + nzrow) ==> a[i] == old(a[i])
      invariant forall i :: 0 <= i < colidx.Length && !(before < i <= before + nzrow) ==> colidx[i] == old(colidx[i])
    {
      TakeOutNext(add, x[..], mark[..], n, list, k - 1);
      KeptNext(add, a[..], colidx[..], list, k - 1, before + 1);
      var i := nzloc[k];
      mark[i] := false;
      var xi := x[i];
      x[i] := ZERO;
      if !(xi == ZERO) {
        nza := nza + 1;
        a[nza] := xi;
        colidx[nza] := i;
      }
    }
    assert order[..nzrow] == order;
    TakenOutEnds(add, x[..], mark[..], n, list);
    MergedIs(add, list);
  }

  lemma MergedIs(add: Addition, list: seq<Entry>)
    ensures Kept(add, list, Order(add, list)) == Merged(add, list)
  {
  }

  lemma KeptStart(add: Addition, a: seq<Elt>, colidx: seq<int>, list: seq<Entry>, at: nat)
    requires at <= |a| && at <= |colidx|
    ensures Kept(add, list, Order(add, list)[..0]) == [] && Segment(a, colidx, at, [])
  {
  }

  // Row j of the sorted entries, still to be read.
  ghost predicate Unread(a: seq<Elt>, colidx: seq<int>, ts: seq<Triple>, j: int) {
    Segment(a, colidx, Start(ts, j), RowList(ts, j))
  }

  // The state before row j is merged: the rows before it are done, the others untouched, and the
  // row pointers before and behind it have their new and their old meaning.
  ghost predicate MergedTo(add: Addition, a: seq<Elt>, colidx: seq<int>, rowstr: seq<int>, ts: seq<Triple>,
                           nrows: nat, j: int)
    requires 1 <= j && nrows + 1 < |rowstr|
  {
    && Segment(a, colidx, 1, Rows(add, ts, j))
    && (forall i :: j <= i <= nrows ==> Unread(a, colidx, ts, i))
    && (forall i :: 1 <= i <= j && i <= nrows + 1 ==> rowstr[i] == |Rows(add, ts, i)| + 1)
    && (forall i :: j < i <= nrows + 1 ==> rowstr[i] == Start(ts, i))
  }

  // Merging row j changes the arrays only behind the rows done and before row j + 1.
  ghost predicate Elsewhere<T>(a: seq<T>, a': seq<T>, done: nat, room: nat) {
    |a'| == |a| && forall i :: 0 <= i < |a| && !(done < i <= done + room) ==> a'[i] == a[i]
  }

  // After a row is merged.
  lemma MergeNext(add: Addition, a: seq<Elt>, colidx: seq<int>, a': seq<Elt>, colidx': seq<int>, rowstr: seq<int>,
                  ts: seq<Triple>, nrows: nat, j: int)
    requires 1 <= j <= nrows && nrows + 1 < |rowstr| && MergedTo(add, a, colidx, rowstr, ts, nrows, j)
    requires Segment(a', colidx', |Rows(add, ts, j)| + 1, Merged(add, RowList(ts, j)))
    requires Elsewhere(a, a', |Rows(add, ts, j)|, |RowList(ts, j)|)
    requires Elsewhere(colidx, colidx', |Rows(add, ts, j)|, |RowList(ts, j)|)
    ensures MergedTo(add, a', colidx', rowstr[j + 1 := |Rows(add, ts, j + 1)| + 1], ts, nrows, j + 1)
  {
    hide *;
    MergeNextRows(add, a, colidx, a', colidx', rowstr, ts, nrows, j);
    forall i | j + 1 <= i <= nrows ensures Unread(a', colidx', ts, i) {
      MergeNextUnread(add, a, colidx, a', colidx', rowstr, ts, nrows, j, i);
    }
    MergeNextPointers(add, a, colidx, a', colidx', rowstr, ts, nrows, j);
  }

  lemma MergeNextPointers(add: Addition, a: seq<Elt>, colidx: seq<int>, a': seq<Elt>, colidx': seq<int>,
                          rowstr: seq<int>, ts: seq<Triple>, nrows: nat, j: int)
    requires 1 <= j <= nrows && nrows + 1 < |rowstr| && MergedTo(add, a, colidx, rowstr, ts, nrows, j)
    requires Segment(a', colidx', 1, Rows(add, ts, j + 1))
    requires forall i :: j + 1 <= i <= nrows ==> Unread(a', colidx', ts, i)
    ensures MergedTo(add, a', colidx', rowstr[j + 1 := |Rows(add, ts, j + 1)| + 1], ts, nrows, j + 1)
  {
    hide Segment, Unread, Rows, Start;
  }

  lemma MergeNextRows(add: Addition, a: seq<Elt>, colidx: seq<int>, a': seq<Elt>, colidx': seq<int>, rowstr: seq<int>,
                      ts: seq<Triple>, nrows: nat, j: int)
    requires 1 <= j <= nrows && nrows + 1 < |rowstr| && MergedTo(add, a, colidx, rowstr, ts, nrows, j)
    requires Segment(a', colidx', |Rows(add, ts, j)| + 1, Merged(add, RowList(ts, j)))
    requires Elsewhere(a, a', |Rows(add, ts, j)|, |RowList(ts, j)|)
    requires Elsewhere(colidx, colidx', |Rows(add, ts, j)|, |RowList(ts, j)|)
    ensures Segment(a', colidx', 1, Rows(add, ts, j + 1))
  {
    var rows, merged := Rows(add, ts, j), Merged(add, RowList(ts, j));
    assert Rows(add, ts, j + 1) == rows + merged;
    hide Segment, Merged, Elsewhere, Rows, RowList;
    SegmentStays(a, colidx, a', colidx', 1, rows, |rows|, |RowList(ts, j)|);
    Behind(a', colidx', rows, merged);
  }

  lemma MergeNextUnread(add: Addition, a: seq<Elt>, colidx: seq<int>, a': seq<Elt>, colidx': seq<int>,
                        rowstr: seq<int>, ts: seq<Triple>, nrows: nat, j: int, i: int)
    requires 1 <= j <= nrows && nrows + 1 < |rowstr| && MergedTo(add, a, colidx, rowstr, ts, nrows, j)
    requires Elsewhere(a, a', |Rows(add, ts, j)|, |RowList(ts, j)|)
    requires Elsewhere(colidx, colidx', |Rows(add, ts, j)|, |RowList(ts, j)|)
    requires j + 1 <= i <= nrows
    ensures Unread(a', colidx', ts, i)
  {
    assert Unread(a, colidx, ts, i);
    hide Segment, Elsewhere, Rows, RowList, Start;
    LaterRow(add, ts, j, i);
    SegmentStays(a, colidx, a', colidx', Start(ts, i), RowList(ts, i), |Rows(add, ts, j)|, |RowList(ts, j)|);
  }

  lemma LaterRow(add: Addition, ts: seq<Triple>, j: int, i: int)
    requires 1 <= j < i
    ensures |Rows(add, ts, j)| + |RowList(ts, j)| < Start(ts, i)
  {
    RowsFit(add, ts, j);
    StartMono(ts, j, i);
  }

  lemma SegmentStays(a: seq<Elt>, colidx: seq<int>, a': seq<Elt>, colidx': seq<int>, from: int, list: seq<Entry>,
                     done: nat, room: nat)
    requires Segment(a, colidx, from, list) && Elsewhere(a, a', done, room) && Elsewhere(colidx, colidx', done, room)
    requires from + |list| <= done + 1 || done + room < from
    ensures Segment(a', colidx', from, list)
  {
  }

  lemma Behind(a: seq<Elt>, colidx: seq<int>, rows: seq<Entry>, merged: seq<Entry>)
    requires Segment(a, colidx, 1, rows) && Segment(a, colidx, |rows| + 1, merged)
    ensures Segment(a, colidx, 1, rows + merged)
  {
  }

  ghost predicate AllColumnsInRange(ts: seq<Triple>, n: nat) {
    forall t :: 0 <= t < |ts| ==> 1 <= ts[t].col <= n
  }

  lemma {:induction false} RowColumns(ts: seq<Triple>, n: nat, j: int)
    requires AllColumnsInRange(ts, n)
    ensures ColumnsInRange(RowList(ts, j), n)
  {
    if ts != [] { RowColumns(ts[..|ts| - 1], n, j); }
  }

  // What the loop needs to know about row j before it merges it.
  lemma RowFacts(add: Addition, a: seq<Elt>, colidx: seq<int>, rowstr: seq<int>, ts: seq<Triple>, n: nat,
                 nrows: nat, j: int)
    requires 1 <= j <= nrows && nrows + 1 < |rowstr| && MergedTo(add, a, colidx, rowstr, ts, nrows, j)
    requires AllColumnsInRange(ts, n)
    ensures Segment(a, colidx, Start(ts, j), RowList(ts, j)) && ColumnsInRange(RowList(ts, j), n)
    ensures rowstr[j + 1] == Start(ts, j) + |RowList(ts, j)| && rowstr[1] == 1
    ensures |Rows(add, ts, j)| + |Order(add, RowList(ts, j))| < |a|
    ensures |Rows(add, ts, j)| + |Order(add, RowList(ts, j))| < |colidx|
    ensures |Rows(add, ts, j + 1)| == |Rows(add, ts, j)| + |Merged(add, RowList(ts, j))|
    ensures |Order(add, RowList(ts, j))| <= |RowList(ts, j)|
  {
    assert Unread(a, colidx, ts, j);
    RowColumns(ts, n, j);
    RowsFit(add, ts, j);
    assert rowstr[1] == |Rows(add, ts, 1)| + 1;
  }

  // Merges all rows in place, from the first to the last.
  method MergeRows(add: Addition, a: array<Elt>, colidx: array<int>, rowstr: array<int>, n: nat, nrows: nat,
                   x: array<Elt>, mark: array<bool>, nzloc: array<int>, ghost ts: seq<Triple>)
    requires nrows + 1 < rowstr.Length && n < x.Length && n < mark.Length && n < nzloc.Length
    requires a != x && colidx != nzloc && colidx != rowstr && nzloc != rowstr
    requires 1 <= a.Length && 1 <= colidx.Length && AllColumnsInRange(ts, n)
    requires forall i :: 1 <= i <= nrows ==> Unread(a[..], colidx[..], ts, i)
    requires forall i :: 1 <= i <= nrows + 1 ==> rowstr[i] == Start(ts, i)
    modifies a, colidx, rowstr, x, mark, nzloc
    ensures MergedTo(add, a[..], colidx[..], rowstr[..], ts, nrows, nrows + 1)
    ensures Clear(x[..], mark[..], n)
  {
    hide *;
    MergeStarts(add, a[..], colidx[..], rowstr[..], ts, nrows);
    var nza := 0;
    for i := 1 to n + 1
      invariant forall c :: 1 <= c < i ==> x[c] == ZERO && !mark[c]
      invariant a[..] == old(a[..]) && colidx[..] == old(colidx[..]) && rowstr[..] == old(rowstr[..])
    {
      x[i] := ZERO;
      mark[i] := false;
    }
    ClearFrom(x[..], mark[..], n);
    var jajp1 := rowstr[1];
    assert jajp1 == rowstr[..][1];
    for j := 1 to nrows + 1
      invariant jajp1 == Start(ts, j) && nza == |Rows(add, ts, j)|
      invariant Clear(x[..], mark[..], n)
      invariant MergedTo(add, a[..], colidx[..], rowstr[..], ts, nrows, j)
    {
      ghost var was, wasCol, list := a[..], colidx[..], RowList(ts, j);
      RowFacts(add, a[..], colidx[..], rowstr[..], ts, n, nrows, j);
      var nzrow := Accumulate(add, a, colidx, x, mark, nzloc, n, jajp1, rowstr[j + 1], list);
      nza := Extract(add, a, colidx, x, mark, nzloc, n, nzrow, nza, list);
      ElsewhereFrom(was, a[..], |Rows(add, ts, j)|, nzrow, |list|);
      ElsewhereFrom(wasCol, colidx[..], |Rows(add, ts, j)|, nzrow, |list|);
      MergeNext(add, was, wasCol, a[..], colidx[..], rowstr[..], ts, nrows, j);
      StartNextRow(ts, j);
      jajp1 := rowstr[j + 1];
      rowstr[j + 1] := nza + rowstr[1];
    }
  }

  lemma ClearFrom(x: seq<Elt>, mark: seq<bool>, n: nat)
    requires n < |x| && n < |mark| && forall c :: 1 <= c <= n ==> x[c] == ZERO && !mark[c]
    ensures Clear(x, mark, n)
  {
  }

  lemma ElsewhereFrom<T>(a: seq<T>, a': seq<T>, done: nat, used: nat, room: nat)
    requires |a'| == |a| && used <= room && forall i :: 0 <= i < |a| && !(done < i <= done + used) ==> a'[i] == a[i]
    ensures Elsewhere(a, a', done, room)
  {
  }

  lemma StartNextRow(ts: seq<Triple>, j: int)
    requires j >= 1
    ensures Start(ts, j + 1) == Start(ts, j) + |RowList(ts, j)|
  {
  }

  lemma MergeStarts(add: Addition, a: seq<Elt>, colidx: seq<int>, rowstr: seq<int>, ts: seq<Triple>, nrows: nat)
    requires nrows + 1 < |rowstr| && 1 <= |a| && 1 <= |colidx|
    requires forall i :: 1 <= i <= nrows ==> Unread(a, colidx, ts, i)
    requires forall i :: 1 <= i <= nrows + 1 ==> rowstr[i] == Start(ts, i)
    ensures MergedTo(add, a, colidx, rowstr, ts, nrows, 1)
    ensures rowstr[1] == Start(ts, 1) && |Rows(add, ts, 1)| == 0
  {
  }

  // Row j of the assembled matrix lies between lo and hi: no column twice, every value the nonzero
  // sum of the triples of its row and column in list order, and no nonzero sum missing.
  ghost predicate RowAssembled(add: Addition, a: seq<Elt>, colidx: seq<int>, lo: int, hi: int, ts: seq<Triple>,
                               j: int)
  {
    && 1 <= lo <= hi <= |a| && hi <= |colidx|
    && (forall k, l :: lo <= k < l < hi ==> colidx[k] != colidx[l])
    && (forall k :: lo <= k < hi ==> a[k] == SumAt(add, ts, j, colidx[k]) && a[k] != ZERO)
    && (forall c :: SumAt(add, ts, j, c) != ZERO ==> exists k :: lo <= k < hi && colidx[k] == c)
  }

  ghost predicate Assembled(add: Addition, a: seq<Elt>, colidx: seq<int>, rowstr: seq<int>, ts: seq<Triple>, nrows: nat)
    requires nrows + 1 < |rowstr|
  {
    && rowstr[1] == 1
    && forall j :: 1 <= j <= nrows ==> RowAssembled(add, a, colidx, rowstr[j], rowstr[j + 1], ts, j)
  }

  lemma SegmentAssembled(add: Addition, a: seq<Elt>, colidx: seq<int>, lo: int, hi: int, ts: seq<Triple>, j: int)
    requires Segment(a, colidx, lo, Merged(add, RowList(ts, j))) && hi == lo + |Merged(add, RowList(ts, j))| && lo >= 1
    ensures RowAssembled(add, a, colidx, lo, hi, ts, j)
  {
    var row, list := Merged(add, RowList(ts, j)), RowList(ts, j);
    MergedMeans(add, list);
    SegmentIs(a, colidx, lo, row);
    forall k | lo <= k < hi ensures a[k] == SumAt(add, ts, j, colidx[k]) && a[k] != ZERO {
      assert row[k - lo] in row;
      RowSum(add, ts, j, colidx[k]);
    }
    forall k, l | lo <= k < l < hi ensures colidx[k] != colidx[l] {
      assert row[k - lo].col != row[l - lo].col;
    }
    forall c | SumAt(add, ts, j, c) != ZERO ensures exists k :: lo <= k < hi && colidx[k] == c {
      RowSum(add, ts, j, c);
      assert Entry(c, Sum(add, list, c)) in row;
      var i :| 0 <= i < |row| && row[i] == Entry(c, Sum(add, list, c));
      assert colidx[lo + i] == c;
    }
  }

  lemma RowsContain(add: Addition, a: seq<Elt>, colidx: seq<int>, rowstr: seq<int>, ts: seq<Triple>, nrows: nat, j: int)
    requires nrows + 1 < |rowstr| && MergedTo(add, a, colidx, rowstr, ts, nrows, nrows + 1) && 1 <= j <= nrows
    ensures rowstr[j] >= 1 && rowstr[j + 1] == rowstr[j] + |Merged(add, RowList(ts, j))|
    ensures Segment(a, colidx, rowstr[j], Merged(add, RowList(ts, j)))
  {
    hide *;
    RowsPrefix(add, ts, j + 1, nrows + 1);
    RowsNext(add, ts, j);
    RowPointers(add, a, colidx, rowstr, ts, nrows, j);
    Within(a, colidx, Rows(add, ts, nrows + 1), Rows(add, ts, j), Merged(add, RowList(ts, j)));
  }

  lemma RowPointers(add: Addition, a: seq<Elt>, colidx: seq<int>, rowstr: seq<int>, ts: seq<Triple>, nrows: nat, j: int)
    requires nrows + 1 < |rowstr| && MergedTo(add, a, colidx, rowstr, ts, nrows, nrows + 1) && 1 <= j <= nrows
    ensures rowstr[j + 1] == |Rows(add, ts, j + 1)| + 1 && rowstr[j] == |Rows(add, ts, j)| + 1
    ensures Segment(a, colidx, 1, Rows(add, ts, nrows + 1))
  {
    hide Rows, Segment;
  }

  lemma RowsNext(add: Addition, ts: seq<Triple>, j: int)
    requires j >= 1
    ensures Rows(add, ts, j + 1) == Rows(add, ts, j) + Merged(add, RowList(ts, j))
  {
  }

  lemma Within(a: seq<Elt>, colidx: seq<int>, all: seq<Entry>, before: seq<Entry>, part: seq<Entry>)
    requires Segment(a, colidx, 1, all) && before + part <= all
    ensures Segment(a, colidx, |before| + 1, part)
  {
    forall i | 0 <= i < |part| ensures Entry(colidx[|before| + 1 + i], a[|before| + 1 + i]) == part[i] {
      assert (before + part)[|before| + i] == all[|before| + i];
    }
  }

  lemma {:induction false} RowsPrefix(add: Addition, ts: seq<Triple>, i: int, j: int)
    requires 1 <= i <= j
    ensures Rows(add, ts, i) <= Rows(add, ts, j)
    decreases j
  {
    if i < j { RowsPrefix(add, ts, i, j - 1); }
  }

  lemma MergedAssembled(add: Addition, a: seq<Elt>, colidx: seq<int>, rowstr: seq<int>, ts: seq<Triple>, nrows: nat)
    requires nrows + 1 < |rowstr| && MergedTo(add, a, colidx, rowstr, ts, nrows, nrows + 1)
    ensures Assembled(add, a, colidx, rowstr, ts, nrows)
  {
    hide *;
    forall j | 1 <= j <= nrows ensures RowAssembled(add, a, colidx, rowstr[j], rowstr[j + 1], ts, j) {
      RowsContain(add, a, colidx, rowstr, ts, nrows, j);
      SegmentAssembled(add, a, colidx, rowstr[j], rowstr[j + 1], ts, j);
    }
    FirstRow(add, a, colidx, rowstr, ts, nrows);
    AssembledFrom(add, a, colidx, rowstr, ts, nrows);
  }

  lemma FirstRow(add: Addition, a: seq<Elt>, colidx: seq<int>, rowstr: seq<int>, ts: seq<Triple>, nrows: nat)
    requires nrows + 1 < |rowstr| && MergedTo(add, a, colidx, rowstr, ts, nrows, nrows + 1)
    ensures rowstr[1] == 1
  {
    assert rowstr[1] == |Rows(add, ts, 1)| + 1;
  }

  lemma AssembledFrom(add: Addition, a: seq<Elt>, colidx: seq<int>, rowstr: seq<int>, ts: seq<Triple>, nrows: nat)
    requires nrows + 1 < |rowstr| && rowstr[1] == 1
    requires forall j :: 1 <= j <= nrows ==> RowAssembled(add, a, colidx, rowstr[j], rowstr[j + 1], ts, j)
    ensures Assembled(add, a, colidx, rowstr, ts, nrows)
  {
    hide RowAssembled;
  }
}
