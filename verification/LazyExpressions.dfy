// What programs compute, without running them command by command: a program compiled from an
// expression gives the expression's value.
module LazyExpressions {

  import opened OperandRing
  import opened Accelerator
  import opened Hardposits
  import opened LazyPrograms

  // Constants and names; square roots, the binary operators, and FMA.
  datatype Tree =
    | Constant(value: Bits)
    | Variable(name: Name)
    | One(inst: Inst, mode: bool, a: Tree)
    | Two(inst: Inst, mode: bool, a: Tree, b: Tree)
    | Fused(mode: bool, a: Tree, b: Tree, c: Tree)

  function Eval(alu: Alu, store: map<Name, Bits>, e: Tree): Bits {
    match e
    case Constant(v) => v
    case Variable(y) => if y in store then store[y] else 0
    case One(inst, mode, a) => alu(inst, mode, Eval(alu, store, a), 0, 0)
    case Two(inst, mode, a, b) => alu(inst, mode, Eval(alu, store, a), Eval(alu, store, b), 0)
    case Fused(mode, a, b, c) => alu(Fma, mode, Eval(alu, store, a), Eval(alu, store, b), Eval(alu, store, c))
  }

  // The variables of the expression are in scope and below x.
  predicate Scoped(names: set<Name>, e: Tree, x: Name) {
    match e
    case Constant(v) => true
    case Variable(y) => y in names && y < x
    case One(inst, mode, a) => Scoped(names, a, x)
    case Two(inst, mode, a, b) => Scoped(names, a, x) && Scoped(names, b, x)
    case Fused(mode, a, b, c) => Scoped(names, a, x) && Scoped(names, b, x) && Scoped(names, c, x)
  }

  // Commands that leave the value in x, with temporaries above x. In place, the first operand is x
  // itself, as in x = x + y.
  function Compile(e: Tree, x: Name, inPlace: bool): seq<Command> {
    var t := if inPlace then x else x + 1;
    match e
    case Constant(v) => [Set(x, v)]
    case Variable(y) => [Let(x, y)]
    case One(inst, mode, a) => Compile(a, t, inPlace) + [Operate(x, inst, mode, [t])] + Drop(x, t, 1)
    case Two(inst, mode, a, b) =>
      Compile(a, t, inPlace) + Compile(b, t + 1, inPlace) + [Operate(x, inst, mode, [t, t + 1])] + Drop(x, t, 2)
    case Fused(mode, a, b, c) =>
      Compile(a, t, inPlace) + Compile(b, t + 1, inPlace) + Compile(c, t + 2, inPlace)
      + [Operate(x, Fma, mode, [t, t + 1, t + 2])] + Drop(x, t, 3)
  }

  // The temporaries t, ..., t + n - 1 go out of scope, but not x.
  function Drop(x: Name, t: Name, n: nat): seq<Command> {
    if n == 0 then []
    else Drop(x, t, n - 1) + if t + n - 1 == x then [] else [Leave(t + n - 1)]
  }

  // The run from s to s' has put v into x, has left the names below x and the output alone, and has
  // left no temporary.
  ghost predicate Puts(s: Eager, s': Eager, x: Name, v: Bits) {
    && s'.output == s.output && s'.store.Keys <= s.store.Keys + {x}
    && x in s'.store && s'.store[x] == v
    && forall y :: y < x ==> (y in s'.store <==> y in s.store) && (y in s.store ==> s'.store[y] == s.store[y])
  }

  lemma RunMore(alu: Alu, p: seq<Command>, c: Command)
    ensures EagerRun(alu, p + [c]) == EagerStep(alu, EagerRun(alu, p), c)
  {
    assert (p + [c])[..|p|] == p;
  }

  // An expression whose names are below x sees only names below x.
  lemma {:induction false} EvalBelow(alu: Alu, store: map<Name, Bits>, store': map<Name, Bits>, e: Tree, x: Name)
    requires Scoped(store.Keys, e, x)
    requires forall y :: y < x && y in store ==> y in store' && store'[y] == store[y]
    ensures Eval(alu, store', e) == Eval(alu, store, e)
    ensures forall z :: z >= x ==> Scoped(store'.Keys, e, z)
  {
    match e
    case Constant(v) =>
    case Variable(y) =>
    case One(inst, mode, a) => EvalBelow(alu, store, store', a, x);
    case Two(inst, mode, a, b) =>
      EvalBelow(alu, store, store', a, x);
      EvalBelow(alu, store, store', b, x);
    case Fused(mode, a, b, c) =>
      EvalBelow(alu, store, store', a, x);
      EvalBelow(alu, store, store', b, x);
      EvalBelow(alu, store, store', c, x);
  }

  // n operands stand in t, t + 1, ..., computed from s.
  ghost predicate Stacked(s: Eager, s': Eager, t: Name, v: seq<Bits>) {
    && s'.output == s.output
    && (forall y :: t <= y < t + |v| ==> y in s'.store && s'.store[y] == v[y - t])
    && (forall y :: y < t ==> (y in s'.store <==> y in s.store) && (y in s.store ==> s'.store[y] == s.store[y]))
    && (forall y :: y in s'.store ==> y in s.store || t <= y < t + |v|)
  }

  // One more operand.
  lemma StackMore(s: Eager, s1: Eager, s2: Eager, t: Name, v: seq<Bits>, w: Bits)
    requires Stacked(s, s1, t, v) && Puts(s1, s2, t + |v|, w)
    ensures Stacked(s, s2, t, v + [w])
  {
    forall y | t <= y < t + |v + [w]| ensures y in s2.store && s2.store[y] == (v + [w])[y - t] {
      if y < t + |v| { assert y in s1.store; }
    }
  }

  lemma StackNone(s: Eager, t: Name)
    ensures Stacked(s, s, t, [])
  {
  }

  // The operation on the operands, and the end of the temporaries.
  lemma OperateStacked(alu: Alu, p: seq<Command>, s: Eager, x: Name, t: Name, v: seq<Bits>, inst: Inst, mode: bool,
                       args: seq<Name>)
    requires Stacked(s, EagerRun(alu, p), t, v) && x <= t <= x + 1 && |args| == |v| && 1 <= |v| <= 3
    requires forall k :: 0 <= k < |args| ==> args[k] == t + k
    ensures Puts(s, EagerRun(alu, p + [Operate(x, inst, mode, args)] + Drop(x, t, |v|)), x,
                 alu(inst, mode, v[0], if |v| > 1 then v[1] else 0, if inst == Fma && |v| > 2 then v[2] else 0))
  {
    hide EagerStep, EagerRun, Stacked, Puts, Drop;
    var s1, q := EagerRun(alu, p), p + [Operate(x, inst, mode, args)];
    RunMore(alu, p, Operate(x, inst, mode, args));
    StackedArguments(s, s1, t, v, args);
    OperateGives(alu, s1, x, v, inst, mode, args);
    Dropped(alu, q, EagerRun(alu, q), x, t, |v|);
    PutsFrom(s, s1, EagerRun(alu, q), EagerRun(alu, q + Drop(x, t, |v|)), x, t, v,
             alu(inst, mode, v[0], if |v| > 1 then v[1] else 0, if inst == Fma && |v| > 2 then v[2] else 0));
  }

  lemma StackedArguments(s: Eager, s1: Eager, t: Name, v: seq<Bits>, args: seq<Name>)
    requires Stacked(s, s1, t, v) && |args| == |v| && forall k :: 0 <= k < |args| ==> args[k] == t + k
    ensures forall k :: 0 <= k < |args| ==> args[k] in s1.store && s1.store[args[k]] == v[k]
  {
  }

  lemma PutsFrom(s: Eager, s1: Eager, s2: Eager, s': Eager, x: Name, t: Name, v: seq<Bits>, r: Bits)
    requires Stacked(s, s1, t, v) && x <= t <= x + 1
    requires s2.output == s1.output && s2.store == s1.store[x := r] && s'.output == s2.output
    requires forall y :: y in s'.store <==> y in s2.store && (y == x || !(t <= y < t + |v|))
    requires forall y :: y in s'.store ==> s'.store[y] == s2.store[y]
    ensures Puts(s, s', x, r)
  {
  }

  lemma OperateGives(alu: Alu, s: Eager, x: Name, v: seq<Bits>, inst: Inst, mode: bool, args: seq<Name>)
    requires |args| == |v| && 1 <= |v| <= 3
    requires forall k :: 0 <= k < |args| ==> args[k] in s.store && s.store[args[k]] == v[k]
    ensures var s' := EagerStep(alu, s, Operate(x, inst, mode, args));
      && s'.output == s.output
      && s'.store == s.store[x := alu(inst, mode, v[0], if |v| > 1 then v[1] else 0,
                                      if inst == Fma && |v| > 2 then v[2] else 0)]
  {
  }

  lemma LeaveGives(alu: Alu, s: Eager, x: Name)
    ensures EagerStep(alu, s, Leave(x)) == s.(store := s.store - {x})
  {
  }

  lemma {:induction false} Dropped(alu: Alu, q: seq<Command>, s: Eager, x: Name, t: Name, n: nat)
    requires s == EagerRun(alu, q)
    ensures var s' := EagerRun(alu, q + Drop(x, t, n));
      && s'.output == s.output
      && (forall y :: y in s'.store <==> y in s.store && (y == x || !(t <= y < t + n)))
      && (forall y :: y in s'.store ==> s'.store[y] == s.store[y])
  {
    hide EagerStep, EagerRun;
    if n == 0 {
      assert q + Drop(x, t, 0) == q;
    } else {
      Dropped(alu, q, s, x, t, n - 1);
      var rest := q + Drop(x, t, n - 1);
      if t + n - 1 == x {
        assert q + Drop(x, t, n) == rest;
      } else {
        assert q + Drop(x, t, n) == rest + [Leave(t + n - 1)];
        RunMore(alu, rest, Leave(t + n - 1));
        LeaveGives(alu, EagerRun(alu, rest), t + n - 1);
      }
    }
  }

  // After any program the commands compiled from an expression put its value into x.
  lemma {:induction false} CompiledPuts(alu: Alu, p: seq<Command>, e: Tree, x: Name, inPlace: bool)
    requires Scoped(EagerRun(alu, p).store.Keys, e, x)
    ensures Puts(EagerRun(alu, p), EagerRun(alu, p + Compile(e, x, inPlace)), x, Eval(alu, EagerRun(alu, p).store, e))
    decreases e, 1
  {
    match e
    case Constant(v) => RunMore(alu, p, Set(x, v));
    case Variable(y) => RunMore(alu, p, Let(x, y));
    case One(inst, mode, a) => OnePuts(alu, p, e, x, inPlace);
    case Two(inst, mode, a, b) => TwoPuts(alu, p, e, x, inPlace);
    case Fused(mode, a, b, c) => FusedPuts(alu, p, e, x, inPlace);
  }

  lemma OnePuts(alu: Alu, p: seq<Command>, e: Tree, x: Name, inPlace: bool)
    requires Scoped(EagerRun(alu, p).store.Keys, e, x) && e.One?
    ensures Puts(EagerRun(alu, p), EagerRun(alu, p + Compile(e, x, inPlace)), x, Eval(alu, EagerRun(alu, p).store, e))
    decreases e, 0
  {
    hide EagerStep, EagerRun, Puts, Stacked, Drop;
    var s, t := EagerRun(alu, p), if inPlace then x else x + 1;
    StackNone(s, t);
    var p1, v1 := Pushed(alu, p, s, e.a, x, t, [], inPlace);
    OperateStacked(alu, p1, s, x, t, v1, e.inst, e.mode, [t]);
    Regroup(p, Compile(e.a, t, inPlace), [], [], [Operate(x, e.inst, e.mode, [t])], Drop(x, t, 1));
  }

  lemma TwoPuts(alu: Alu, p: seq<Command>, e: Tree, x: Name, inPlace: bool)
    requires Scoped(EagerRun(alu, p).store.Keys, e, x) && e.Two?
    ensures Puts(EagerRun(alu, p), EagerRun(alu, p + Compile(e, x, inPlace)), x, Eval(alu, EagerRun(alu, p).store, e))
    decreases e, 0
  {
    hide EagerStep, EagerRun, Puts, Stacked, Drop, Scoped, Compile, Eval;
    var s, t := EagerRun(alu, p), if inPlace then x else x + 1;
    StackNone(s, t);
    TwoParts(alu, s.store, e, x, t, inPlace);
    var p1, v1 := Pushed(alu, p, s, e.a, x, t, [], inPlace);
    var p2, v2 := Pushed(alu, p1, s, e.b, x, t, v1, inPlace);
    OperateStacked(alu, p2, s, x, t, v2, e.inst, e.mode, [t, t + 1]);
    Regroup(p, Compile(e.a, t, inPlace), Compile(e.b, t + 1, inPlace), [], [Operate(x, e.inst, e.mode, [t, t + 1])],
            Drop(x, t, 2));
  }

  lemma FusedPuts(alu: Alu, p: seq<Command>, e: Tree, x: Name, inPlace: bool)
    requires Scoped(EagerRun(alu, p).store.Keys, e, x) && e.Fused?
    ensures Puts(EagerRun(alu, p), EagerRun(alu, p + Compile(e, x, inPlace)), x, Eval(alu, EagerRun(alu, p).store, e))
    decreases e, 0
  {
    hide EagerStep, EagerRun, Puts, Stacked, Drop, Scoped, Compile, Eval;
    var s, t := EagerRun(alu, p), if inPlace then x else x + 1;
    StackNone(s, t);
    FusedParts(alu, s.store, e, x, t, inPlace);
    var p1, v1 := Pushed(alu, p, s, e.a, x, t, [], inPlace);
    var p2, v2 := Pushed(alu, p1, s, e.b, x, t, v1, inPlace);
    var p3, v3 := Pushed(alu, p2, s, e.c, x, t, v2, inPlace);
    OperateStacked(alu, p3, s, x, t, v3, Fma, e.mode, [t, t + 1, t + 2]);
    Regroup(p, Compile(e.a, t, inPlace), Compile(e.b, t + 1, inPlace), Compile(e.c, t + 2, inPlace),
            [Operate(x, Fma, e.mode, [t, t + 1, t + 2])], Drop(x, t, 3));
  }

  lemma TwoParts(alu: Alu, store: map<Name, Bits>, e: Tree, x: Name, t: Name, inPlace: bool)
    requires e.Two? && Scoped(store.Keys, e, x) && t == if inPlace then x else x + 1
    ensures Scoped(store.Keys, e.a, x) && Scoped(store.Keys, e.b, x)
    ensures Eval(alu, store, e) == alu(e.inst, e.mode, Eval(alu, store, e.a), Eval(alu, store, e.b), 0)
    ensures Compile(e, x, inPlace) == Compile(e.a, t, inPlace) + Compile(e.b, t + 1, inPlace)
                                      + [Operate(x, e.inst, e.mode, [t, t + 1])] + Drop(x, t, 2)
  {
    hide Drop;
  }

  lemma FusedParts(alu: Alu, store: map<Name, Bits>, e: Tree, x: Name, t: Name, inPlace: bool)
    requires e.Fused? && Scoped(store.Keys, e, x) && t == if inPlace then x else x + 1
    ensures Scoped(store.Keys, e.a, x) && Scoped(store.Keys, e.b, x) && Scoped(store.Keys, e.c, x)
    ensures Eval(alu, store, e)
         == alu(Fma, e.mode, Eval(alu, store, e.a), Eval(alu, store, e.b), Eval(alu, store, e.c))
    ensures Compile(e, x, inPlace)
         == Compile(e.a, t, inPlace) + Compile(e.b, t + 1, inPlace) + Compile(e.c, t + 2, inPlace)
            + [Operate(x, Fma, e.mode, [t, t + 1, t + 2])] + Drop(x, t, 3)
  {
    hide Drop;
  }

  lemma Regroup(p: seq<Command>, a: seq<Command>, b: seq<Command>, c: seq<Command>, o: seq<Command>, d: seq<Command>)
    ensures p + (a + b + c + o + d) == p + a + b + c + o + d
    ensures b == [] ==> a + b == a && p + a + b == p + a
    ensures c == [] ==> a + b + c == a + b && p + a + b + c == p + a + b
  {
  }

  // The next operand, computed from the same names as the ones before.
  lemma {:induction false} Pushed(alu: Alu, p: seq<Command>, s: Eager, e: Tree, x: Name, t: Name, v: seq<Bits>,
                                  inPlace: bool)
      returns (p': seq<Command>, v': seq<Bits>)
    requires Stacked(s, EagerRun(alu, p), t, v) && x <= t && Scoped(s.store.Keys, e, x)
    ensures p' == p + Compile(e, t + |v|, inPlace)
    ensures |v'| == |v| + 1 && v'[|v|] == Eval(alu, s.store, e) && forall k :: 0 <= k < |v| ==> v'[k] == v[k]
    ensures Stacked(s, EagerRun(alu, p'), t, v')
    decreases e, 2
  {
    hide EagerStep, EagerRun, Compile, Puts;
    var s1 := EagerRun(alu, p);
    v' := v + [Eval(alu, s.store, e)];
    EvalBelow(alu, s.store, s1.store, e, x);
    CompiledPuts(alu, p, e, t + |v|, inPlace);
    p' := p + Compile(e, t + |v|, inPlace);
    StackMore(s, s1, EagerRun(alu, p'), t, v, Eval(alu, s.store, e));
  }

  // With the lazy tracker, in every build and under every interleaving: after any program, computing
  // an expression over its names and reading the result gives the expression's value.
  method RunExpression(alu: Alu, build: Build, pace: Pace, p: seq<Command>, e: Tree, x: Name, inPlace: bool)
      returns (output: seq<Bits>)
    requires Scoped(EagerRun(alu, p).store.Keys, e, x)
    ensures output == EagerRun(alu, p).output + [Eval(alu, EagerRun(alu, p).store, e)]
  {
    hide EagerStep, EagerRun, Eval, Compile;
    ghost var q := p + Compile(e, x, inPlace);
    CompiledPuts(alu, p, e, x, inPlace);
    ReadLast(alu, q, x);
    ghost var assumed;
    output, assumed := Run(alu, build, pace, p + Compile(e, x, inPlace) + [Read(x)]);
  }

  lemma ReadLast(alu: Alu, q: seq<Command>, x: Name)
    requires x in EagerRun(alu, q).store
    ensures EagerRun(alu, q + [Read(x)]).output == EagerRun(alu, q).output + [EagerRun(alu, q).store[x]]
  {
    RunMore(alu, q, Read(x));
  }

  // An expression of its own.
  method RunClosed(alu: Alu, build: Build, pace: Pace, e: Tree) returns (output: seq<Bits>)
    requires Scoped({}, e, 0)
    ensures output == [Eval(alu, map[], e)]
  {
    assert EagerRun(alu, []) == Eager(map[], []) && EagerRun(alu, []).store.Keys == {};
    output := RunExpression(alu, build, pace, [], e, 0, false);
  }
}
