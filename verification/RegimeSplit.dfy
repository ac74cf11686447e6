// Reading the regime off an encoding with the loops of the C kernels, at any width n.
module RegimeSplit {
  import opened Powers
  import opened Posit
  import opened PositOrder
  import opened PositValue

  // How many low bits of the left-aligned rest are surely zero after reading regime k.
  function Slack(k: int): (s: nat)
    ensures s > 0
  {
    if k < 0 then 1 - k else k + 2
  }

  // The result of the loops: k is the regime, tmp the rest, left-aligned below bit n - 1.
  ghost predicate IsSplit(n: nat, ui: nat, k: int, tmp: nat) {
    && n >= 2 && 2 - n <= k <= n - 2
    && tmp < Pow2(n - 1) && tmp % Pow2(Slack(k)) == 0
    && (k == n - 2 ==> tmp == 0)
    && Pos(ui, n - 1) == k as real + tmp as real * Exp2(1 - n)
  }

  // After k ones the encoding reads like b, one bit shorter for each; tmp is b without its
  // first bit, left-aligned.
  ghost predicate InOnes(n: nat, ui: nat, k: int, tmp: nat, b: nat) {
    && 0 <= k <= n - 2
    && Pow2(n - 2 - k) <= b < Pow2(n - 1 - k)
    && tmp == (b - Pow2(n - 2 - k)) * Pow2(k + 2) && tmp < Pow2(n)
    && Pos(ui, n - 1) == k as real + Pos(b, n - 1 - k)
  }

  // After -1 - k zeros the encoding reads like itself, one bit shorter for each.
  ghost predicate InZeros(n: nat, ui: nat, k: int, tmp: nat) {
    && 2 - n <= k <= -1
    && 0 < ui < Pow2(n - 1 + k)
    && tmp == ui * Pow2(1 - k) && tmp < Pow2(n)
    && Pos(ui, n - 1) == (k + 1) as real + Pos(ui, n + k)
  }

  // Shifting out the top bit of a left-aligned number.
  lemma ShiftOut(r: nat, p: nat, s: nat, h: nat)
    requires p > 0 && s > 0 && p * s == h
    ensures r * s >= h <==> r >= p
    ensures (r - p) * (2 * s) == 2 * (r * s) - 2 * h
  {
    if r < p {
      MulLess(r, p, s);
    } else if r > p {
      MulLess(p, r, s);
    }
    assert (r - p) * (2 * s) == 2 * (r * s) - 2 * (p * s);
  }

  lemma StartOnes(n: nat, ui: nat)
    requires n >= 2 && Pow2(n - 2) <= ui < Pow2(n - 1)
    ensures InOnes(n, ui, 0, ui * 4 % Pow2(n), ui)
  {
    hide Pos;
    Pow2Small();
    DivModUnique(ui * 4, Pow2(n), 1, ui * 4 - Pow2(n));
  }

  lemma StepOnes(n: nat, ui: nat, k: int, tmp: nat, b: nat)
    requires InOnes(n, ui, k, tmp, b) && tmp >= Pow2(n - 1)
    ensures b >= Pow2(n - 2 - k)
    ensures InOnes(n, ui, k + 1, tmp * 2 % Pow2(n), b - Pow2(n - 2 - k))
  {
    hide Pos;
    if k < n - 2 {
      var r := b - Pow2(n - 2 - k);
      Pow2Add(n - 3 - k, k + 2);
      ShiftOut(r, Pow2(n - 3 - k), Pow2(k + 2), Pow2(n - 1));
      PosByShape(b, n - 1 - k);
      DivModUnique(tmp * 2, Pow2(n), 1, tmp * 2 - Pow2(n));
    }
  }

  lemma StopAtEnd(n: nat, ui: nat, tmp: nat, b: nat)
    requires n >= 2 && InOnes(n, ui, n - 2, tmp, b)
    ensures IsSplit(n, ui, n - 2, tmp)
  {
    hide Pos, Exp2;
    assert b == 1;
    PosOneBit();
  }

  // After the last one of the regime comes its terminating zero, and then r.
  lemma OnesRest(n: nat, ui: nat, k: int, tmp: nat, b: nat) returns (r: nat, x: real)
    requires n >= 2 && k < n - 2 && InOnes(n, ui, k, tmp, b) && tmp < Pow2(n - 1)
    ensures 0 <= k && tmp == r * Pow2(k + 2)
    ensures Pos(ui, n - 1) == k as real + x && x == r as real * Exp2(0 - (n - 3 - k))
  {
    hide Pos, Exp2, Pow2;
    r := b - Pow2(n - 2 - k);
    Pow2Double(n - 3 - k);
    Pow2Add(n - 3 - k, k + 2);
    ShiftOut(r, Pow2(n - 3 - k), Pow2(k + 2), Pow2(n - 1));
    PosByShape(b, n - 1 - k);
    x := r as real * Exp2(0 - (n - 3 - k));
  }

  lemma AlignedTo(r: nat, j: nat, w: nat, tmp: nat, v: int, x: real)
    requires j <= w && tmp == r * Pow2(j) && v == 0 - (w - j) && x == r as real * Exp2(v)
    ensures tmp as real * Exp2(0 - w) == x && tmp % Pow2(j) == 0
  {
    hide *;
    AddMultiple(r, Pow2(j), 0);
    LeftAligned(r, j, w);
  }

  lemma OnesAligned(n: nat, ui: nat, k: int, tmp: nat, b: nat)
    requires n >= 2 && k < n - 2 && InOnes(n, ui, k, tmp, b) && tmp < Pow2(n - 1)
    ensures 0 <= k && tmp % Pow2(k + 2) == 0 && Pos(ui, n - 1) == k as real + tmp as real * Exp2(0 - (n - 1))
  {
    hide *;
    var r, x := OnesRest(n, ui, k, tmp, b);
    AlignedTo(r, k + 2, n - 1, tmp, 0 - (n - 3 - k), x);
  }

  lemma StopOnes(n: nat, ui: nat, k: int, tmp: nat, b: nat)
    requires n >= 2 && InOnes(n, ui, k, tmp, b) && tmp < Pow2(n - 1)
    ensures IsSplit(n, ui, k, tmp)
  {
    hide Pos, Exp2, Pow2;
    if k == n - 2 {
      StopAtEnd(n, ui, tmp, b);
    } else {
      OnesAligned(n, ui, k, tmp, b);
      assert 0 - (n - 1) == 1 - n;
    }
  }

  // A number shifted left by j out of w bits.
  lemma LeftAligned(r: nat, j: nat, w: nat)
    requires j <= w
    ensures (r * Pow2(j)) as real * Exp2(0 - w) == r as real * Exp2(0 - (w - j))
  {
    hide Pow2, Exp2;
    Exp2Add(j, 0 - w);
    Exp2OfNat(j);
    assert (r * Pow2(j)) as real == r as real * Pow2(j) as real;
    Regroup(r as real, Pow2(j) as real, Exp2(0 - w));
  }

  lemma StartZeros(n: nat, ui: nat)
    requires n >= 3 && 0 < ui < Pow2(n - 2)
    ensures InZeros(n, ui, -1, ui * 4 % Pow2(n))
  {
    hide Pos;
    Pow2Small();
    assert Pow2(n) == 2 * Pow2(n - 1) == 4 * Pow2(n - 2);
    DivModUnique(ui * 4, Pow2(n), 0, ui * 4);
  }

  lemma StepZeros(n: nat, ui: nat, k: int, tmp: nat)
    requires n >= 2 && InZeros(n, ui, k, tmp) && tmp < Pow2(n - 1)
    ensures InZeros(n, ui, k - 1, tmp * 2 % Pow2(n))
  {
    hide Pos;
    Pow2Add(n - 2 + k, 1 - k);
    ShiftOut(ui, Pow2(n - 2 + k), Pow2(1 - k), Pow2(n - 1));
    PosByShape(ui, n + k);
    DivModUnique(tmp * 2, Pow2(n), 0, tmp * 2);
  }

  // What is left of ui, shifted left by s, without its top bit p.
  lemma WithoutTop(ui: nat, p: nat, s: nat, h: nat, tmp: nat) returns (r: nat)
    requires p > 0 && s > 0 && h == p * s && tmp == ui * s && h <= tmp && ui < 2 * p
    ensures ui == p + r && tmp % h == r * s && tmp % h < h && tmp % h % s == 0
  {
    ShiftOut(ui, p, s, h);
    r := ui - p;
    assert r * s == tmp - h;
    MulLess(r, p, s);
    DivModUnique(tmp, h, 1, r * s);
    AddMultiple(r, s, 0);
  }

  lemma StopZeros(n: nat, ui: nat, k: int, tmp: nat)
    requires n >= 2 && InZeros(n, ui, k, tmp) && tmp >= Pow2(n - 1)
    ensures IsSplit(n, ui, k, tmp % Pow2(n - 1))
  {
    hide Pos, Exp2, Pow2;
    Pow2Double(n - 2 + k);
    Pow2Double(n - 1 + k);
    Pow2Add(n - 2 + k, 1 - k);
    var r := WithoutTop(ui, Pow2(n - 2 + k), Pow2(1 - k), Pow2(n - 1), tmp);
    PosByShape(ui, n + k);
    LeftAligned(r, 1 - k, n - 1);
  }

  // The ones loop as a proof: every encoding above one splits.
  lemma {:induction false} OnesSplit(n: nat, ui: nat, k: int, tmp: nat, b: nat) returns (k': int, tmp': nat)
    requires n >= 2 && InOnes(n, ui, k, tmp, b)
    ensures IsSplit(n, ui, k', tmp')
    decreases n - k
  {
    hide InOnes, IsSplit;
    InOnesRange(n, ui, k, tmp, b);
    if tmp >= Pow2(n - 1) {
      StepOnes(n, ui, k, tmp, b);
      k', tmp' := OnesSplit(n, ui, k + 1, tmp * 2 % Pow2(n), b - Pow2(n - 2 - k));
    } else {
      StopOnes(n, ui, k, tmp, b);
      k', tmp' := k, tmp;
    }
  }

  // regS is the first regime bit; the loops shift it and its repetitions out of the word.
  method SplitRegime(n: nat, ui: nat) returns (k: int, tmp: nat)
    requires n >= 3 && Positive(n, ui)
    ensures IsSplit(n, ui, k, tmp)
    ensures k >= 0 <==> ui >= Pow2(n - 2)
  {
    hide InOnes, InZeros, IsSplit;
    tmp := ui * 4 % Pow2(n);
    if ui >= Pow2(n - 2) {
      k := 0;
      ghost var b: nat := ui;
      StartOnes(n, ui);
      while tmp >= Pow2(n - 1)
        invariant InOnes(n, ui, k, tmp, b) && 0 <= k <= n - 2
        decreases n - k
      {
        StepOnes(n, ui, k, tmp, b);
        InOnesRange(n, ui, k + 1, tmp * 2 % Pow2(n), b - Pow2(n - 2 - k));
        b := b - Pow2(n - 2 - k);
        k := k + 1;
        tmp := tmp * 2 % Pow2(n);
      }
      StopOnes(n, ui, k, tmp, b);
    } else {
      k := -1;
      StartZeros(n, ui);
      while tmp < Pow2(n - 1)
        invariant InZeros(n, ui, k, tmp) && 2 - n <= k < 0
        decreases n + k
      {
        StepZeros(n, ui, k, tmp);
        InZerosRange(n, ui, k - 1, tmp * 2 % Pow2(n));
        k := k - 1;
        tmp := tmp * 2 % Pow2(n);
      }
      StopZeros(n, ui, k, tmp);
      tmp := tmp % Pow2(n - 1);
    }
  }

  lemma InOnesRange(n: nat, ui: nat, k: int, tmp: nat, b: nat)
    requires InOnes(n, ui, k, tmp, b)
    ensures 0 <= k <= n - 2
  {
  }

  lemma InZerosRange(n: nat, ui: nat, k: int, tmp: nat)
    requires InZeros(n, ui, k, tmp)
    ensures 2 - n <= k <= -1
  {
  }
}
