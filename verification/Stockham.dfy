// The Stockham form: stage l works on 2^l interleaved columns in place of 2^l recursive calls, and
// leaves the result in natural order.
module Stockham {

  import opened Powers
  import opened Fft

  // Column k of lk interleaved columns of len elements.
  function Column<C>(s: seq<C>, lk: nat, k: nat, len: nat): (c: seq<C>)
    requires k < lk && len * lk <= |s|
    ensures |c| == len
  {
    seq(len, i requires 0 <= i < len => (InColumns(lk, k, len, i); s[i * lk + k]))
  }

  lemma InColumns(lk: nat, k: nat, len: nat, i: nat)
    requires k < lk && i < len
    ensures 0 <= i * lk + k < len * lk
  {
    assert (i + 1) * lk <= len * lk;
  }

  // Element idx of a stage that turns lk columns of 2 * li elements into 2 * lk columns of li.
  function StageAt<C>(o: Ops<C>, u: seq<C>, s: seq<C>, lk: nat, li: nat, idx: nat): C
    requires lk > 0 && |s| == 2 * (li * lk) && 2 * li <= |u| && idx < |s|
  {
    Places(lk, li, idx);
    var i, k, n1 := idx / (2 * lk), idx % (2 * lk), |s| / 2;
    if k < lk then o.plus(s[i * lk + k], s[i * lk + k + n1])
    else o.times(u[li + i], o.minus(s[i * lk + (k - lk)], s[i * lk + (k - lk) + n1]))
  }

  lemma Places(lk: nat, li: nat, idx: nat)
    requires lk > 0 && idx < 2 * (li * lk)
    ensures var i, k := idx / (2 * lk), idx % (2 * lk);
      && 0 <= i < li && 0 <= k < 2 * lk
      && (k < lk ==> 0 <= i * lk + k < li * lk) && (k >= lk ==> 0 <= i * lk + (k - lk) < li * lk)
  {
    hide *;
    var i, k := idx / (2 * lk), idx % (2 * lk);
    Halves(lk, li);
    DivMod(idx, 2 * lk);
    QuotientLess(idx, 2 * lk, li);
    if k < lk { InColumns(lk, k, li, i); } else { InColumns(lk, k - lk, li, i); }
  }

  lemma Halves(lk: nat, li: nat)
    ensures li * (2 * lk) == 2 * (li * lk)
  {
  }

  lemma QuotientLess(x: nat, d: nat, n: nat)
    requires d > 0 && x < n * d
    ensures x / d < n
  {
    DivMod(x, d);
    MulMono(x / d, n, d);
  }

  lemma MulMono(a: nat, b: nat, d: nat)
    ensures a >= b ==> a * d >= b * d
  {
  }

  function Stage<C>(o: Ops<C>, u: seq<C>, s: seq<C>, lk: nat, li: nat): (r: seq<C>)
    requires lk > 0 && |s| == 2 * (li * lk) && 2 * li <= |u|
    ensures |r| == |s|
  {
    seq(|s|, idx requires 0 <= idx < |s| => StageAt(o, u, s, lk, li, idx))
  }

  lemma ColumnAt<C>(s: seq<C>, lk: nat, k: nat, len: nat, i: nat, at: nat)
    requires k < lk && len * lk <= |s| && i < len && at == i * lk + k
    ensures at < |s| && Column(s, lk, k, len)[i] == s[at]
  {
    InColumns(lk, k, len, i);
  }

  // The stage at the place of element i of new column k, for both halves of the new columns.
  lemma StageElement<C>(o: Ops<C>, u: seq<C>, s: seq<C>, lk: nat, li: nat, i: nat, k: nat)
    requires lk > 0 && |s| == 2 * (li * lk) && 2 * li <= |u| && i < li && k < lk
    ensures var i11, i21, n1 := i * lk + k, i * (2 * lk) + k, li * lk;
      && i11 + n1 < |s| && i21 + lk < |s|
      && Stage(o, u, s, lk, li)[i21] == o.plus(s[i11], s[i11 + n1])
      && Stage(o, u, s, lk, li)[i21 + lk] == o.times(u[li + i], o.minus(s[i11], s[i11 + n1]))
  {
    InColumns(lk, k, li, i);
    InColumns(2 * lk, k + lk, li, i);
    assert li * (2 * lk) == 2 * (li * lk);
    DivModUnique(i * (2 * lk) + k, 2 * lk, i, k);
    DivModUnique(i * (2 * lk) + (k + lk), 2 * lk, i, k + lk);
  }

  lemma HalfColumn(lk: nat, li: nat, i: nat, k: nat)
    ensures (i + li) * lk + k == i * lk + k + li * lk
    ensures 2 * li * lk == 2 * (li * lk) && li * (2 * lk) == 2 * (li * lk)
  {
  }

  // Every column is split into the sums and the differences of its halves.
  lemma StageColumns<C>(o: Ops<C>, u: seq<C>, s: seq<C>, lk: nat, li: nat, k: nat)
    requires lk > 0 && |s| == 2 * (li * lk) && 2 * li <= |u| && k < lk
    ensures 2 * li * lk <= |s| && li * (2 * lk) <= |s|
    ensures Column(Stage(o, u, s, lk, li), 2 * lk, k, li) == Sums(o, Column(s, lk, k, 2 * li))
    ensures Column(Stage(o, u, s, lk, li), 2 * lk, k + lk, li) == Differences(o, u, Column(s, lk, k, 2 * li))
  {
    HalfColumn(lk, li, 0, 0);
    var c, r := Column(s, lk, k, 2 * li), Stage(o, u, s, lk, li);
    var even, odd := Column(r, 2 * lk, k, li), Column(r, 2 * lk, k + lk, li);
    forall i | 0 <= i < li
      ensures even[i] == Sums(o, c)[i] && odd[i] == Differences(o, u, c)[i]
    {
      StageColumnAt(o, u, s, lk, li, k, i);
    }
  }

  lemma StageColumnAt<C>(o: Ops<C>, u: seq<C>, s: seq<C>, lk: nat, li: nat, k: nat, i: nat)
    requires lk > 0 && |s| == 2 * (li * lk) && 2 * li <= |u| && k < lk && i < li
    ensures 2 * li * lk <= |s| && li * (2 * lk) <= |s|
    ensures Column(Stage(o, u, s, lk, li), 2 * lk, k, li)[i] == Sums(o, Column(s, lk, k, 2 * li))[i]
    ensures Column(Stage(o, u, s, lk, li), 2 * lk, k + lk, li)[i] == Differences(o, u, Column(s, lk, k, 2 * li))[i]
  {
    hide *;
    HalfColumn(lk, li, i, k);
    var c, r := Column(s, lk, k, 2 * li), Stage(o, u, s, lk, li);
    ColumnAt(r, 2 * lk, k, li, i, i * (2 * lk) + k);
    ColumnAt(r, 2 * lk, k + lk, li, i, i * (2 * lk) + k + lk);
    StageElement(o, u, s, lk, li, i, k);
    ColumnAt(s, lk, k, 2 * li, i, i * lk + k);
    ColumnAt(s, lk, k, 2 * li, i + li, i * lk + k + li * lk);
    SumsAt(o, u, c, li, i);
  }

  // Half-way: output q * lk + k of the transform is output q of the transform of column k.
  ghost predicate PartialAt<C>(o: Ops<C>, u: seq<C>, f: seq<C>, s: seq<C>, p: nat, lk: nat, len: nat, k: nat, q: nat)
    requires len == Pow2(p) <= |u| && len * lk == |s| == |f| && k < lk && q < len
  {
    InColumns(lk, k, len, q);
    f[q * lk + k] == Dif(o, u, Column(s, lk, k, len), p)[q]
  }

  ghost predicate Partial<C>(o: Ops<C>, u: seq<C>, f: seq<C>, s: seq<C>, p: nat, lk: nat, len: nat) {
    && len == Pow2(p) <= |u| && len * lk == |s| == |f|
    && forall k: nat, q: nat :: k < lk && q < len ==> PartialAt(o, u, f, s, p, lk, len, k, q)
  }

  lemma PartialStart<C>(o: Ops<C>, u: seq<C>, s: seq<C>, m: nat)
    requires |s| == Pow2(m) && |s| <= |u|
    ensures Partial(o, u, Dif(o, u, s, m), s, m, 1, |s|)
  {
    hide Dif;
    assert Column(s, 1, 0, |s|) == s;
  }

  lemma PartialEnd<C>(o: Ops<C>, u: seq<C>, f: seq<C>, s: seq<C>, lk: nat)
    requires Partial(o, u, f, s, 0, lk, 1)
    ensures s == f
  {
    forall k | 0 <= k < |s| ensures s[k] == f[k] {
      assert PartialAt(o, u, f, s, 0, lk, 1, k, 0);
    }
  }

  // A stage carries the transform one level down.
  lemma PartialNext<C>(o: Ops<C>, u: seq<C>, f: seq<C>, s: seq<C>, p: nat, lk: nat, li: nat)
    requires lk > 0 && Partial(o, u, f, s, p + 1, lk, 2 * li)
    ensures |s| == 2 * (li * lk) && 2 * li <= |u|
    ensures Partial(o, u, f, Stage(o, u, s, lk, li), p, 2 * lk, li)
  {
    hide *;
    PartialSizes(o, u, f, s, p, lk, li);
    var r := Stage(o, u, s, lk, li);
    forall k: nat, q: nat | k < 2 * lk && q < li ensures PartialAt(o, u, f, r, p, 2 * lk, li, k, q) {
      if k < lk {
        PartialEven(o, u, f, s, p, lk, li, k, q);
      } else {
        PartialOdd(o, u, f, s, p, lk, li, k - lk, q);
      }
    }
    PartialFrom(o, u, f, r, p, 2 * lk, li);
  }

  lemma PartialFrom<C>(o: Ops<C>, u: seq<C>, f: seq<C>, s: seq<C>, p: nat, lk: nat, len: nat)
    requires len == Pow2(p) <= |u| && len * lk == |s| == |f|
    requires forall k: nat, q: nat :: k < lk && q < len ==> PartialAt(o, u, f, s, p, lk, len, k, q)
    ensures Partial(o, u, f, s, p, lk, len)
  {
    hide PartialAt;
  }

  lemma PartialAtFrom<C>(o: Ops<C>, u: seq<C>, f: seq<C>, s: seq<C>, p: nat, lk: nat, len: nat, k: nat, q: nat, at: nat)
    requires len == Pow2(p) <= |u| && len * lk == |s| == |f| && k < lk && q < len
    requires at == q * lk + k && at < |f| && f[at] == Dif(o, u, Column(s, lk, k, len), p)[q]
    ensures PartialAt(o, u, f, s, p, lk, len, k, q)
  {
    hide Dif, Column;
  }

  lemma PartialSizes<C>(o: Ops<C>, u: seq<C>, f: seq<C>, s: seq<C>, p: nat, lk: nat, li: nat)
    requires Partial(o, u, f, s, p + 1, lk, 2 * li)
    ensures |s| == |f| == 2 * (li * lk) == li * (2 * lk) && 2 * li <= |u| && li == Pow2(p)
  {
    HalfColumn(lk, li, 0, 0);
  }

  lemma PartialEven<C>(o: Ops<C>, u: seq<C>, f: seq<C>, s: seq<C>, p: nat, lk: nat, li: nat, k: nat, q: nat)
    requires lk > 0 && Partial(o, u, f, s, p + 1, lk, 2 * li) && k < lk && q < li
    ensures |s| == |f| == 2 * (li * lk) == li * (2 * lk) && 2 * li <= |u| && li == Pow2(p)
    ensures PartialAt(o, u, f, Stage(o, u, s, lk, li), p, 2 * lk, li, k, q)
  {
    hide *;
    PartialSizes(o, u, f, s, p, lk, li);
    OddPlace(q, lk, k);
    Output(o, u, f, s, p + 1, lk, 2 * li, k, 2 * q, q * (2 * lk) + k);
    StageColumns(o, u, s, lk, li, k);
    Whole(p);
    DifParts(o, u, Column(s, lk, k, 2 * li), p, q);
    PartialAtFrom(o, u, f, Stage(o, u, s, lk, li), p, 2 * lk, li, k, q, q * (2 * lk) + k);
  }

  lemma PartialOdd<C>(o: Ops<C>, u: seq<C>, f: seq<C>, s: seq<C>, p: nat, lk: nat, li: nat, k: nat, q: nat)
    requires lk > 0 && Partial(o, u, f, s, p + 1, lk, 2 * li) && k < lk && q < li
    ensures |s| == |f| == 2 * (li * lk) == li * (2 * lk) && 2 * li <= |u| && li == Pow2(p)
    ensures PartialAt(o, u, f, Stage(o, u, s, lk, li), p, 2 * lk, li, k + lk, q)
  {
    hide *;
    PartialSizes(o, u, f, s, p, lk, li);
    OddPlace(q, lk, k);
    Output(o, u, f, s, p + 1, lk, 2 * li, k, 2 * q + 1, q * (2 * lk) + (k + lk));
    StageColumns(o, u, s, lk, li, k);
    Whole(p);
    DifParts(o, u, Column(s, lk, k, 2 * li), p, q);
    PartialAtFrom(o, u, f, Stage(o, u, s, lk, li), p, 2 * lk, li, k + lk, q, q * (2 * lk) + (k + lk));
  }

  lemma OddPlace(q: nat, lk: nat, k: nat)
    ensures (2 * q + 1) * lk + k == q * (2 * lk) + (k + lk) && 2 * q * lk + k == q * (2 * lk) + k
  {
  }

  lemma Whole(p: nat)
    ensures Pow2(p + 1) == 2 * Pow2(p)
  {
  }

  // Output q of column k, wherever it stands.
  lemma Output<C>(o: Ops<C>, u: seq<C>, f: seq<C>, s: seq<C>, p: nat, lk: nat, len: nat, k: nat, q: nat, at: nat)
    requires Partial(o, u, f, s, p, lk, len) && k < lk && q < len && at == q * lk + k
    ensures len == Pow2(p) <= |u| && len * lk == |s| == |f| && at < |f|
    ensures f[at] == Dif(o, u, Column(s, lk, k, len), p)[q]
  {
    InColumns(lk, k, len, q);
    assert PartialAt(o, u, f, s, p, lk, len, k, q);
  }
}
