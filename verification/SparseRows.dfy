// What assembling a sparse matrix from triples means, whatever the addition of elements is.
module SparseRows {

  import opened Elements

  datatype Entry = Entry(col: int, val: Elt)
  datatype Triple = Triple(row: int, col: int, val: Elt)
  type Addition = (Elt, Elt) -> Elt

  // The entries of row j in list order.
  function RowList(ts: seq<Triple>, j: int): (r: seq<Entry>)
    ensures |r| <= |ts|
  {
    if ts == [] then []
    else
      var t := ts[|ts| - 1];
      RowList(ts[..|ts| - 1], j) + if t.row == j then [Entry(t.col, t.val)] else []
  }

  // Where row j starts once the entries are sorted by row.
  function Start(ts: seq<Triple>, j: int): (r: nat)
    ensures r >= 1
  {
    if j <= 1 then 1 else Start(ts, j - 1) + |RowList(ts, j - 1)|
  }

  lemma {:induction false} StartMono(ts: seq<Triple>, i: int, j: int)
    requires 1 <= i <= j
    ensures Start(ts, i) <= Start(ts, j)
    ensures i < j ==> Start(ts, i) + |RowList(ts, i)| <= Start(ts, j)
    decreases j - i
  {
    if i < j - 1 { StartMono(ts, i, j - 1); }
  }

  lemma {:induction false} RowListPrefix(ts: seq<Triple>, t: nat, j: int)
    requires t <= |ts|
    ensures RowList(ts[..t], j) <= RowList(ts, j)
    decreases |ts|
  {
    if t == |ts| {
      assert ts[..t] == ts;
    } else {
      assert ts[..t] == ts[..|ts| - 1][..t];
      RowListPrefix(ts[..|ts| - 1], t, j);
    }
  }

  lemma RowListNext(ts: seq<Triple>, t: nat, j: int)
    requires t < |ts|
    ensures RowList(ts[..t + 1], j) ==
      RowList(ts[..t], j) + if ts[t].row == j then [Entry(ts[t].col, ts[t].val)] else []
    ensures ts[t].row == j ==> |RowList(ts[..t], j)| < |RowList(ts, j)|
  {
    assert ts[..t + 1][..t] == ts[..t];
    RowListPrefix(ts, t + 1, j);
  }

  // All rows together hold all triples.
  lemma {:induction false} StartTotal(ts: seq<Triple>, n: nat)
    requires forall t :: t in ts ==> 1 <= t.row <= n
    ensures Start(ts, n + 1) == 1 + |ts|
  {
    if ts == [] {
      StartEmpty(n + 1);
    } else {
      var rest, t := ts[..|ts| - 1], ts[|ts| - 1];
      StartTotal(rest, n);
      StartNext(rest, t, n + 1);
      assert ts == rest + [t];
    }
  }

  lemma {:induction false} StartEmpty(j: nat)
    ensures Start([], j) == 1
  {
    if j > 1 { StartEmpty(j - 1); }
  }

  lemma {:induction false} StartNext(ts: seq<Triple>, t: Triple, j: nat)
    requires t.row >= 1
    ensures Start(ts + [t], j) == Start(ts, j) + if t.row < j then 1 else 0
  {
    if j > 1 {
      StartNext(ts, t, j - 1);
      assert (ts + [t])[..|ts|] == ts;
    }
  }

  // The sum of the entries of column c, added up in list order from zero.
  function Sum(add: Addition, list: seq<Entry>, c: int): Elt {
    if list == [] then ZERO
    else
      var e, before := list[|list| - 1], Sum(add, list[..|list| - 1], c);
      if e.col == c then add(before, e.val) else before
  }

  // The columns in the order in which their running sums first differ from zero.
  function Order(add: Addition, list: seq<Entry>): (o: seq<int>)
    ensures |o| <= |list|
  {
    if list == [] then []
    else
      var c, before := list[|list| - 1].col, Order(add, list[..|list| - 1]);
      if c !in before && Sum(add, list, c) != ZERO then before + [c] else before
  }

  // The columns of an order whose sum is not zero, with their sums.
  function Kept(add: Addition, list: seq<Entry>, order: seq<int>): (r: seq<Entry>)
    ensures |r| <= |order|
  {
    if order == [] then []
    else
      var c, before := order[|order| - 1], Kept(add, list, order[..|order| - 1]);
      if Sum(add, list, c) != ZERO then before + [Entry(c, Sum(add, list, c))] else before
  }

  // A row of the result.
  function Merged(add: Addition, list: seq<Entry>): (r: seq<Entry>)
    ensures |r| <= |list|
  {
    Kept(add, list, Order(add, list))
  }

  ghost predicate NoRepeats(s: seq<int>) {
    forall i, j :: 0 <= i < j < |s| ==> s[i] != s[j]
  }

  ghost predicate NoColumnTwice(s: seq<Entry>) {
    forall i, j :: 0 <= i < j < |s| ==> s[i].col != s[j].col
  }

  lemma {:induction false} OrderNoRepeats(add: Addition, list: seq<Entry>)
    ensures NoRepeats(Order(add, list))
    ensures forall c :: c in Order(add, list) ==> exists e :: e in list && e.col == c
  {
    if list != [] {
      var rest, e := list[..|list| - 1], list[|list| - 1];
      OrderNoRepeats(add, rest);
      forall c | c in Order(add, list) ensures exists e :: e in list && e.col == c {
        if c in Order(add, rest) {
          var d :| d in rest && d.col == c;
          assert d in list;
        } else {
          assert e in list && e.col == c;
        }
      }
    }
  }

  // A column that was never marked has sum zero: nothing is left behind in the workspace.
  lemma {:induction false} UnmarkedIsZero(add: Addition, list: seq<Entry>, c: int)
    ensures c !in Order(add, list) ==> Sum(add, list, c) == ZERO
  {
    if list != [] { UnmarkedIsZero(add, list[..|list| - 1], c); }
  }

  lemma {:induction false} KeptHas(add: Addition, list: seq<Entry>, order: seq<int>)
    ensures forall e :: e in Kept(add, list, order) <==>
      e.col in order && e.val == Sum(add, list, e.col) && e.val != ZERO
    ensures NoRepeats(order) ==> NoColumnTwice(Kept(add, list, order))
  {
    if order != [] {
      var rest, c := order[..|order| - 1], order[|order| - 1];
      KeptHas(add, list, rest);
      assert order == rest + [c];
      var kept := Kept(add, list, rest);
      if NoRepeats(order) {
        forall i | 0 <= i < |kept| ensures kept[i].col != c {
          assert kept[i] in kept;
        }
      }
    }
  }

  // A row of the result has no column twice, and holds column c exactly when the sum of c, added in
  // list order, is not zero; then with that sum.
  lemma MergedMeans(add: Addition, list: seq<Entry>)
    ensures NoColumnTwice(Merged(add, list))
    ensures forall e :: e in Merged(add, list) <==> e.val == Sum(add, list, e.col) && e.val != ZERO
  {
    OrderNoRepeats(add, list);
    KeptHas(add, list, Order(add, list));
    forall c ensures c !in Order(add, list) ==> Sum(add, list, c) == ZERO {
      UnmarkedIsZero(add, list, c);
    }
  }

  // The rows before j of the result, one after the other.
  function Rows(add: Addition, ts: seq<Triple>, j: int): seq<Entry> {
    if j <= 1 then [] else Rows(add, ts, j - 1) + Merged(add, RowList(ts, j - 1))
  }

  // Merging never needs more room than was read.
  lemma {:induction false} RowsFit(add: Addition, ts: seq<Triple>, j: int)
    ensures |Rows(add, ts, j)| + 1 <= Start(ts, j)
  {
    if j > 1 { RowsFit(add, ts, j - 1); }
  }

  // The sum of the triples at (row, col), in list order, straight from the definition.
  function SumAt(add: Addition, ts: seq<Triple>, row: int, col: int): Elt {
    if ts == [] then ZERO
    else
      var t, before := ts[|ts| - 1], SumAt(add, ts[..|ts| - 1], row, col);
      if t.row == row && t.col == col then add(before, t.val) else before
  }

  lemma {:induction false} RowSum(add: Addition, ts: seq<Triple>, row: int, col: int)
    ensures Sum(add, RowList(ts, row), col) == SumAt(add, ts, row, col)
  {
    if ts != [] {
      var rest, t := ts[..|ts| - 1], ts[|ts| - 1];
      RowSum(add, rest, row, col);
      var list := RowList(rest, row);
      if t.row == row {
        assert (list + [Entry(t.col, t.val)])[..|list|] == list;
      } else {
        assert RowList(ts, row) == list;
      }
    }
  }
}
