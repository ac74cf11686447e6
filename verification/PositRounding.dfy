// The rounding rule as a function of the bits below the cut, and the laws every rounded
// operation rests on.
module PositRounding {
  import opened Powers
  import opened Posit
  import opened PositOrder
  import opened PositValue

  // Cut the low d bits off q; the first cut bit decides, then whatever is below it (the rest of
  // q, or sticky for bits that q itself no longer holds), then the parity of what is kept.
  function RoundBits(q: nat, d: nat, sticky: bool): nat
    requires d >= 1
  {
    var u, r, half := q / Pow2(d), q % Pow2(d), Pow2(d - 1);
    if r > half || (r == half && (sticky || u % 2 == 1)) then u + 1 else u
  }

  // q is x truncated to n + d bits, sticky says whether anything was lost.
  ghost predicate Truncates(n: nat, es: nat, x: real, q: nat, sticky: bool) {
    Straddles(n, es, x, q) && (sticky <==> x != ValPos(n, es, q))
  }

  lemma CutAt(n: nat, d: nat, u: nat, q: nat, r: nat)
    requires n >= 2 && d >= 1 && 1 <= u && u + 1 < Pow2(n - 1)
    requires q == u * Pow2(d) + r && r < Pow2(d)
    ensures Positive(n, u) && Positive(n, u + 1) && Positive(n + 1, 2 * u + 1)
    ensures (2 * u + 1) * Pow2(d - 1) == u * Pow2(d) + Pow2(d - 1)
    ensures (u + 1) * Pow2(d) == u * Pow2(d) + Pow2(d)
  {
  }

  lemma TruncateThenRound(n: nat, es: nat, d: nat, x: real, q: nat, sticky: bool)
    requires n >= 2 && d >= 1 && x > 0.0
    requires Truncates(n + d, es, x, q, sticky)
    requires 1 <= q / Pow2(d) && q / Pow2(d) + 1 < Pow2(n - 1)
    ensures RoundsPos(n, es, x, RoundBits(q, d, sticky))
  {
    hide ValPos, Pow2;
    var u: nat, r: nat := q / Pow2(d), q % Pow2(d);
    DivMod(q, Pow2(d));
    CutAt(n, d, u, q, r);
    AppendZeros(n, es, u, d);
    AppendZeros(n, es, u + 1, d);
    AppendZeros(n + 1, es, 2 * u + 1, d - 1);
    var lo, mid, hi := u * Pow2(d), (2 * u + 1) * Pow2(d - 1), (u + 1) * Pow2(d);
    ValPosOrder(n + d, es, lo, q);
    ValPosOrder(n + d, es, q + 1, hi);
    ValPosOrder(n + d, es, mid, q);
    ValPosOrder(n + d, es, q + 1, mid);
    assert Straddles(n, es, x, u);
    assert RoundBits(q, d, sticky) == Nearest(n, es, x, u);
    RoundsPosAt(n, es, x, u);
  }

  lemma RoundsPosAt(n: nat, es: nat, x: real, u: nat)
    requires x > 0.0 && Straddles(n, es, x, u)
    ensures RoundsPos(n, es, x, Nearest(n, es, x, u))
  {
    hide ValPos;
    ValPosOrder(n, es, u + 1, MaxPos(n));
    ValPosOrder(n, es, 1, u);
    ValPosOrder(n + 1, es, 2 * u, 2 * u + 1);
    AppendZeros(n, es, u, 1);
  }

  // ----- The rule is a function: every positive real has exactly one rounding -----

  lemma StraddleUnique(n: nat, es: nat, x: real, u: nat, u': nat)
    requires Straddles(n, es, x, u) && Straddles(n, es, x, u')
    ensures u == u'
  {
    hide ValPos;
    ValPosOrder(n, es, u + 1, u');
    ValPosOrder(n, es, u' + 1, u);
  }

  lemma {:induction false} Locate(n: nat, es: nat, x: real, lo: nat, hi: nat) returns (u: nat)
    requires Positive(n, lo) && Positive(n, hi) && lo < hi
    requires ValPos(n, es, lo) <= x < ValPos(n, es, hi)
    ensures Straddles(n, es, x, u)
    decreases hi - lo
  {
    hide ValPos;
    if lo + 1 == hi {
      u := lo;
    } else if x < ValPos(n, es, lo + 1) {
      u := lo;
    } else {
      u := Locate(n, es, x, lo + 1, hi);
    }
  }

  lemma RoundsPosTotal(n: nat, es: nat, x: real) returns (p: nat)
    requires n >= 2 && x > 0.0
    ensures RoundsPos(n, es, x, p) && Positive(n, p)
    ensures forall p': nat :: RoundsPos(n, es, x, p') ==> p' == p
  {
    hide ValPos, Nearest;
    if x >= ValPos(n, es, MaxPos(n)) {
      p := MaxPos(n);
    } else if x <= ValPos(n, es, 1) {
      p := 1;
    } else {
      ValPosOrder(n, es, 1, MaxPos(n));
      var u := Locate(n, es, x, 1, MaxPos(n));
      p := Nearest(n, es, x, u);
      NearestIsNeighbour(n, es, x, u);
      forall u': nat | Straddles(n, es, x, u') ensures u' == u {
        StraddleUnique(n, es, x, u, u');
      }
    }
  }

  lemma NearestIsNeighbour(n: nat, es: nat, x: real, u: nat)
    requires Positive(n, u)
    ensures Nearest(n, es, x, u) == u || Nearest(n, es, x, u) == u + 1
  {
  }

  lemma RoundsUnique(n: nat, es: nat, x: real, p: nat, p': nat)
    requires n >= 2 && Rounds(n, es, x, p) && Rounds(n, es, x, p')
    ensures p == p'
  {
    hide RoundsPos;
    if x > 0.0 {
      var r := RoundsPosTotal(n, es, x);
    } else if x < 0.0 {
      var r := RoundsPosTotal(n, es, -x);
    }
  }

  // A representable value rounds to itself.
  lemma RoundsExact(n: nat, es: nat, b: nat)
    requires Positive(n, b)
    ensures RoundsPos(n, es, ValPos(n, es, b), b)
  {
    hide ValPos;
    ValPosOrder(n, es, b, MaxPos(n));
    ValPosOrder(n, es, 1, b);
    if b < MaxPos(n) {
      ValPosOrder(n, es, b, b + 1);
      RoundsPosAt(n, es, ValPos(n, es, b), b);
      AppendZeros(n, es, b, 1);
      ValPosOrder(n + 1, es, 2 * b, 2 * b + 1);
    }
  }

  lemma RoundsRepresentable(n: nat, es: nat, b: nat)
    requires n >= 2 && b < Pow2(n) && !IsNaR(n, b)
    ensures Rounds(n, es, Val(n, es, b), b)
  {
    hide ValPos, RoundsPos;
    if 0 < b < Pow2(n - 1) {
      RoundsExact(n, es, b);
    } else if b != 0 {
      RoundsExact(n, es, Pow2(n) - b);
    }
  }

  // Rounding keeps order.
  lemma RoundsMonotone(n: nat, es: nat, x: real, p: nat, y: real, q: nat)
    requires n >= 2 && 0.0 < x <= y && RoundsPos(n, es, x, p) && RoundsPos(n, es, y, q)
    ensures p <= q
  {
    hide ValPos;
    if x < ValPos(n, es, MaxPos(n)) && x > ValPos(n, es, 1) && y < ValPos(n, es, MaxPos(n)) {
      var u: nat :| Straddles(n, es, x, u) && p == Nearest(n, es, x, u);
      var v: nat :| Straddles(n, es, y, v) && q == Nearest(n, es, y, v);
      ValPosOrder(n, es, u, v + 1);
    } else if x >= ValPos(n, es, MaxPos(n)) {
    } else if y >= ValPos(n, es, MaxPos(n)) {
      var r := RoundsPosTotal(n, es, x);
    } else {
      var r := RoundsPosTotal(n, es, y);
    }
  }

  // ----- Rounding a number given by regime, exponent and a truncated fraction -----

  // x is Exp2(s) * (1 + g / 2^m) for some real g in [f, f + 1), g == f unless sticky.
  ghost predicate InCell(x: real, s: int, f: nat, m: nat, sticky: bool) {
    && Exp2(s) * (1.0 + f as real * Exp2(0 - m)) <= x < Exp2(s) * (1.0 + (f + 1) as real * Exp2(0 - m))
    && (sticky <==> x != Exp2(s) * (1.0 + f as real * Exp2(0 - m)))
  }

  // The update every kernel makes: the guard bit rounds up unless it marks a tie at an even
  // encoding.
  function RoundGuard(u: int, guard: bool, more: bool): int {
    if guard && (more || u % 2 == 1) then u + 1 else u
  }

  // Cut regime, exponent and fraction to n bits and round.
  function CutFields(n: nat, es: nat, k: int, e: nat, f: nat, m: nat, sticky: bool): int
    requires RunOf(k) + 2 <= n < RunOf(k) + 2 + es + m
  {
    var d, t := RunOf(k) + 2 + es + m - n, Tail(e, f, m);
    RoundGuard(RegimeBits(k, n - 1) + t / Pow2(d), t / Pow2(d - 1) % 2 == 1, t % Pow2(d - 1) != 0 || sticky)
  }

  // A cut remainder, as its top bit and the question whether the rest is zero.
  lemma GuardAndRest(t: nat, d: nat)
    requires d >= 1
    ensures t % Pow2(d) >= Pow2(d - 1) <==> t / Pow2(d - 1) % 2 == 1
    ensures t / Pow2(d - 1) / 2 == t / Pow2(d)
    ensures t % Pow2(d) == Pow2(d - 1) <==> t / Pow2(d - 1) % 2 == 1 && t % Pow2(d - 1) == 0
  {
    var p, q, r := Pow2(d - 1), t / Pow2(d - 1), t % Pow2(d - 1);
    DivMod(t, p);
    assert q * p == (q / 2) * (2 * p) + (q % 2) * p;
    DivModUnique(t, 2 * p, q / 2, (q % 2) * p + r);
  }

  lemma RegimeBitsScaled(k: int, w: nat, d: nat)
    requires RunOf(k) < w
    ensures RegimeBits(k, w + d) == RegimeBits(k, w) * Pow2(d)
  {
    hide Pow2;
    if k < 0 {
      Pow2Add(w - 1 - RunOf(k), d);
    } else {
      Pow2Add(w, d);
      Pow2Add(w - RunOf(k), d);
      assert (Pow2(w) - Pow2(w - RunOf(k))) * Pow2(d) == Pow2(w) * Pow2(d) - Pow2(w - RunOf(k)) * Pow2(d);
    }
  }

  lemma RegimeBitsRoom(k: int, w: nat, v: nat)
    requires RunOf(k) < w && v < Pow2(w - 1 - RunOf(k))
    ensures 1 <= RegimeBits(k, w) + v && RegimeBits(k, w) + v + 1 < Pow2(w)
  {
    if k < 0 {
      Pow2Mono(w - 1 - RunOf(k), w - 2);
    } else {
      Pow2Mono(w - RunOf(k), w - 1);
    }
  }

  lemma QuotientBelow(t: nat, a: nat, b: nat)
    requires t < Pow2(a + b)
    ensures t / Pow2(b) < Pow2(a)
  {
    Pow2Add(a, b);
    DivMod(t, Pow2(b));
    if t / Pow2(b) >= Pow2(a) {
      MulLess(Pow2(a) - 1, t / Pow2(b), Pow2(b));
    }
  }

  lemma RoundFields(n: nat, es: nat, x: real, k: int, e: nat, f: nat, m: nat, sticky: bool)
    requires RunOf(k) + 2 <= n < RunOf(k) + 2 + es + m && m >= 1
    requires e < Pow2(es) && f < Pow2(m)
    requires InCell(x, ScaleOf(es, k, e), f, m, sticky)
    ensures x > 0.0
    ensures CutFields(n, es, k, e, f, m, sticky) > 0
    ensures RoundsPos(n, es, x, CutFields(n, es, k, e, f, m, sticky))
  {
    hide *;
    var d, t := RunOf(k) + 2 + es + m - n, Tail(e, f, m);
    var q := RegimeBits(k, n + d - 1) + t;
    TailFits(e, f, es, m);
    FieldsTruncate(n + d, es, x, k, e, f, m, sticky);
    CutComposed(n, k, t, d);
    TruncateThenRound(n, es, d, x, q, sticky);
    CutFieldsIsRoundBits(n, es, k, e, f, m, sticky, q);
  }

  lemma CutComposed(n: nat, k: int, t: nat, d: nat)
    requires RunOf(k) + 2 <= n && t < Pow2(n - 2 - RunOf(k) + d)
    ensures var q := RegimeBits(k, n + d - 1) + t;
      && q / Pow2(d) == RegimeBits(k, n - 1) + t / Pow2(d)
      && q % Pow2(d) == t % Pow2(d)
      && 1 <= q / Pow2(d) && q / Pow2(d) + 1 < Pow2(n - 1)
  {
    hide *;
    QuotientBelow(t, n - 2 - RunOf(k), d);
    DivMod(t, Pow2(d));
    RegimeBitsRoom(k, n - 1, t / Pow2(d));
    RegimeBitsScaled(k, n - 1, d);
    AddMultiple(RegimeBits(k, n - 1), Pow2(d), t);
  }

  lemma CutFieldsIsRoundBits(n: nat, es: nat, k: int, e: nat, f: nat, m: nat, sticky: bool, q: nat)
    requires RunOf(k) + 2 <= n < RunOf(k) + 2 + es + m
    requires var d, t := RunOf(k) + 2 + es + m - n, Tail(e, f, m);
      q / Pow2(d) == RegimeBits(k, n - 1) + t / Pow2(d) && q % Pow2(d) == t % Pow2(d)
    ensures RoundBits(q, RunOf(k) + 2 + es + m - n, sticky) == CutFields(n, es, k, e, f, m, sticky)
    ensures CutFields(n, es, k, e, f, m, sticky) >= q / Pow2(RunOf(k) + 2 + es + m - n)
  {
    hide Pow2, Tail, RegimeBits;
    GuardAndRest(Tail(e, f, m), RunOf(k) + 2 + es + m - n);
  }

  // A composed encoding truncates every number in its cell.
  lemma FieldsTruncate(n: nat, es: nat, x: real, k: int, e: nat, f: nat, m: nat, sticky: bool)
    requires n == RunOf(k) + 2 + es + m && e < Pow2(es) && f < Pow2(m) && m >= 1
    requires InCell(x, ScaleOf(es, k, e), f, m, sticky)
    ensures Truncates(n, es, x, RegimeBits(k, n - 1) + Tail(e, f, m), sticky)
    ensures x > 0.0
  {
    hide ValPos, RegimeBits, Pow2, Exp2;
    ValOfFields(es, k, e, f, m);
    NextFields(n, es, k, e, f, m);
  }

  lemma NextFields(n: nat, es: nat, k: int, e: nat, f: nat, m: nat)
    requires n == RunOf(k) + 2 + es + m && e < Pow2(es) && f < Pow2(m) && m >= 1
    ensures Positive(n, RegimeBits(k, n - 1) + Tail(e, f, m) + 1)
    ensures ValPos(n, es, RegimeBits(k, n - 1) + Tail(e, f, m) + 1)
         == Exp2(ScaleOf(es, k, e)) * (1.0 + (f + 1) as real * Exp2(0 - m))
  {
    hide *;
    TailCarries(e, f, m);
    if f + 1 < Pow2(m) {
      ValOfFields(es, k, e, f + 1, m);
    } else {
      NextBinadeFields(n, es, k, e, f, m);
    }
  }

  // The fraction overflows into the exponent, or the exponent into the regime.
  lemma NextBinadeFields(n: nat, es: nat, k: int, e: nat, f: nat, m: nat)
    requires n == RunOf(k) + 2 + es + m && e < Pow2(es) && f + 1 == Pow2(m) && m >= 1
    ensures Positive(n, RegimeBits(k, n - 1) + Tail(e, f, m) + 1)
    ensures ValPos(n, es, RegimeBits(k, n - 1) + Tail(e, f, m) + 1)
         == Exp2(ScaleOf(es, k, e)) * (1.0 + (f + 1) as real * Exp2(0 - m))
  {
    hide *;
    TailCarries(e, f, m);
    ScaleCarries(es, k, e);
    LastCell(ScaleOf(es, k, e), f, m);
    if e + 1 < Pow2(es) {
      NextExponent(n, es, k, e, m);
    } else {
      NextRegime(n, es, k, m);
      Pow2Add(es, m);
    }
  }

  lemma ScaleCarries(es: nat, k: int, e: nat)
    ensures ScaleOf(es, k, e + 1) == ScaleOf(es, k, e) + 1
    ensures e + 1 == Pow2(es) ==> ScaleOf(es, k + 1, 0) == ScaleOf(es, k, e) + 1
  {
    hide Pow2;
  }

  lemma TailCarries(e: nat, f: nat, m: nat)
    ensures Tail(e, f + 1, m) == Tail(e, f, m) + 1
    ensures f + 1 == Pow2(m) ==> Tail(e, f, m) + 1 == (e + 1) * Pow2(m) == Tail(e + 1, 0, m)
  {
    hide Pow2;
  }

  lemma LastCell(s: int, f: nat, m: nat)
    requires f + 1 == Pow2(m)
    ensures Exp2(s) * (1.0 + (f + 1) as real * Exp2(0 - m)) == Exp2(s + 1)
  {
    hide Pow2, Exp2;
    Exp2OfNat(m);
    Exp2Step(s);
    WholeCell(Exp2(s), f + 1, Exp2(0 - m));
  }

  lemma NextExponent(n: nat, es: nat, k: int, e: nat, m: nat)
    requires n == RunOf(k) + 2 + es + m && e + 1 < Pow2(es)
    ensures Positive(n, RegimeBits(k, n - 1) + Tail(e + 1, 0, m))
    ensures ValPos(n, es, RegimeBits(k, n - 1) + Tail(e + 1, 0, m)) == Exp2(ScaleOf(es, k, e + 1))
  {
    hide ValPos, RegimeBits, Pow2, Exp2;
    assert 0 as real * Exp2(0 - m) == 0.0;
    Exp2OfNat(m);
    ValOfFields(es, k, e + 1, 0, m);
  }

  lemma WholeCell(c: real, f: nat, s: real)
    requires s * f as real == 1.0
    ensures c * (1.0 + f as real * s) == 2.0 * c
  {
    assert f as real * s == 1.0;
  }

  // After the last number of a regime comes the first of the next.
  lemma NextRegime(n: nat, es: nat, k: int, m: nat)
    requires n == RunOf(k) + 2 + es + m && m >= 1
    ensures Positive(n, RegimeBits(k, n - 1) + Pow2(es + m))
    ensures ValPos(n, es, RegimeBits(k, n - 1) + Pow2(es + m)) == Exp2(ScaleOf(es, k + 1, 0))
  {
    hide ValPos, Exp2;
    var m' := m + RunOf(k) - RunOf(k + 1);
    ValOfFields(es, k + 1, 0, 0, m');
    assert RegimeBits(k + 1, n - 1) == RegimeBits(k, n - 1) + Pow2(es + m);
  }

  // ----- Saturation -----

  lemma {:induction false} PosExtremes(w: nat)
    requires w >= 1
    ensures Pos(Pow2(w) - 1, w) == (w - 1) as real
    ensures Pos(1, w) == 0.0 - (w - 1) as real
  {
    hide Pos, Exp2;
    if w == 1 {
      PosOneBit();
    } else {
      PosExtremes(w - 1);
      PosByShape(Pow2(w) - 1, w);
      PosByShape(1, w);
      assert 0 as real * Exp2(0 - (w - 2)) == 0.0;
    }
  }

  lemma ExtremeValues(n: nat, es: nat)
    requires n >= 2
    ensures ValPos(n, es, MaxPos(n)) == Exp2(ScaleOf(es, n - 2, 0))
    ensures ValPos(n, es, 1) == Exp2(ScaleOf(es, 2 - n, 0))
  {
    hide *;
    EndsArePositive(n);
    PosExtremes(n - 1);
    RegimeValue(n, es, MaxPos(n), n - 2);
    RegimeValue(n, es, 1, 2 - n);
  }

  lemma EndsArePositive(n: nat)
    requires n >= 2
    ensures Positive(n, MaxPos(n)) && Positive(n, 1) && MaxPos(n) == Pow2(n - 1) - 1
  {
  }

  // An encoding that is all regime.
  lemma RegimeValue(n: nat, es: nat, b: nat, k: int)
    requires Positive(n, b) && Pos(b, n - 1) == k as real
    ensures ValPos(n, es, b) == Exp2(ScaleOf(es, k, 0))
  {
    hide ValPos, Pos, Exp2, Pow2, ScaleOf;
    ScaledRegime(es, k);
    ValAt(n, es, b, ScaleOf(es, k, 0), 0.0);
  }

  lemma ScaledRegime(es: nat, k: int)
    ensures ScaleOf(es, k, 0) as real == Pow2(es) as real * k as real
  {
    hide Pow2;
  }

  lemma ScaleMono(es: nat, k: int, e: nat, k': int, e': nat)
    requires (k < k' && e <= Pow2(es)) || (k == k' && e <= e')
    ensures ScaleOf(es, k, e) <= ScaleOf(es, k', e')
  {
    hide Pow2;
    if k < k' {
      MulLess(k, k', Pow2(es));
    }
  }

  lemma SaturateHigh(n: nat, es: nat, x: real, k: int, e: nat)
    requires n >= 2 && k >= n - 2 && Exp2(ScaleOf(es, k, e)) <= x
    ensures x > 0.0 && RoundsPos(n, es, x, MaxPos(n))
  {
    hide ValPos, Exp2, ScaleOf;
    ExtremeValues(n, es);
    ScaleMono(es, n - 2, 0, k, e);
    Exp2Mono(ScaleOf(es, n - 2, 0), ScaleOf(es, k, e));
  }

  lemma SaturateLow(n: nat, es: nat, x: real, k: int, e: nat)
    requires n >= 3 && k <= 1 - n && e < Pow2(es) && 0.0 < x < Exp2(ScaleOf(es, k, e + 1))
    ensures RoundsPos(n, es, x, 1)
  {
    hide ValPos, Exp2, ScaleOf;
    ExtremeValues(n, es);
    ScaleMono(es, k, e + 1, 2 - n, 0);
    Exp2Mono(ScaleOf(es, k, e + 1), ScaleOf(es, 2 - n, 0));
    ValPosOrder(n, es, 1, MaxPos(n));
  }

  // The bounds a cell sets on its numbers.
  lemma CellBounds(x: real, s: int, f: nat, m: nat, sticky: bool)
    requires f < Pow2(m) && InCell(x, s, f, m, sticky)
    ensures Exp2(s) <= x < Exp2(s + 1)
  {
    hide Pow2, Exp2;
    Exp2OfNat(m);
    Exp2Step(s);
    BoundCell(Exp2(s), f as real, (f + 1) as real, Pow2(m) as real, Exp2(0 - m), 1.0);
  }

  lemma BoundCell(c: real, f: real, f1: real, p: real, u: real, one: real)
    requires c > 0.0 && u > 0.0 && 0.0 <= f && f1 <= p && u * p == one
    ensures c <= c * (1.0 + f * u)
    ensures c * (1.0 + f1 * u) <= c * (1.0 + one)
  {
    MulSign(u, f);
    MulLe(u, f1, p);
    MulLe(c, 1.0, 1.0 + f * u);
    MulLe(c, 1.0 + f1 * u, 1.0 + one);
  }
}
