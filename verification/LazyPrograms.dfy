// Programs over named posits: run with the lazy tracker they give what eager evaluation gives.
module LazyPrograms {

  import opened OperandRing
  import opened Accelerator
  import opened AliasLists
  import opened Hardposits

  type Name = nat

  // x = value; x = y; x = inst(args); a read of x; the end of the scope of x. An operation has one
  // to three named operands (square root, the binary operators, FMA).
  datatype Command =
    | Set(x: Name, value: Bits)
    | Let(x: Name, y: Name)
    | Operate(x: Name, inst: Inst, mode: bool, args: seq<Name>)
    | Read(x: Name)
    | Leave(x: Name)

  datatype Eager = Eager(store: map<Name, Bits>, output: seq<Bits>)

  predicate Declared(names: set<Name>, args: seq<Name>) {
    1 <= |args| <= 3 && forall k :: 0 <= k < |args| ==> args[k] in names
  }

  // Operands that an operation does not have are default objects, which are zero.
  function ArgumentValue(store: map<Name, Bits>, args: seq<Name>, k: nat): Bits {
    if k < |args| && args[k] in store then store[args[k]] else 0
  }

  // Eager evaluation; a command on a name out of scope does nothing.
  function EagerStep(alu: Alu, s: Eager, c: Command): Eager {
    match c
    case Set(x, v) => s.(store := s.store[x := v])
    case Let(x, y) => if y in s.store then s.(store := s.store[x := s.store[y]]) else s
    case Operate(x, inst, mode, args) =>
      if Declared(s.store.Keys, args) then
        s.(store := s.store[x := alu(inst, mode, ArgumentValue(s.store, args, 0), ArgumentValue(s.store, args, 1),
                                     if inst == Fma then ArgumentValue(s.store, args, 2) else 0)])
      else s
    case Read(x) => if x in s.store then s.(output := s.output + [s.store[x]]) else s
    case Leave(x) => s.(store := s.store - {x})
  }

  function EagerRun(alu: Alu, program: seq<Command>): Eager {
    if program == [] then Eager(map[], [])
    else EagerStep(alu, EagerRun(alu, program[..|program| - 1]), program[|program| - 1])
  }

  // The names in scope, the number of the operation whose result a name holds, how many operations
  // have been issued, and how many are written back for certain, because the host has waited for one
  // of them. No timing enters.
  datatype Trace = Trace(names: set<Name>, origin: map<Name, nat>, issued: nat, landed: nat)

  function Origin(tr: Trace, y: Name, x: Name): map<Name, nat> {
    if y in tr.origin then tr.origin[x := tr.origin[y]] else tr.origin - {x}
  }

  // Reading a result waits for it.
  function ReadLands(tr: Trace, x: Name, landed: nat): nat {
    if x in tr.origin then Past(landed, tr.origin[x]) else landed
  }

  // So does sending it by value; only the REUSE build sends by reference, and only what is less than
  // eight operations back.
  function SentLands(build: Build, tr: Trace, x: Name, landed: nat): nat {
    if build == Reuse && x in tr.origin && tr.issued < tr.origin[x] + 8 then landed else ReadLands(tr, x, landed)
  }

  function ArgumentLands(build: Build, tr: Trace, args: seq<Name>, k: nat, landed: nat): nat {
    if k < |args| then SentLands(build, tr, args[k], landed) else landed
  }

  function ArgumentsLand(build: Build, tr: Trace, args: seq<Name>, inst: Inst): nat {
    var two := ArgumentLands(build, tr, args, 1, ArgumentLands(build, tr, args, 0, tr.landed));
    if inst == Fma then ArgumentLands(build, tr, args, 2, two) else two
  }

  // An operation recycles an entry, and in the BASELINE build waits for its own result.
  function Issued(build: Build, tr: Trace, sent: nat): Trace {
    var recycled := RecycleLands(tr.issued, sent);
    tr.(issued := tr.issued + 1, landed := if build == Baseline then Past(recycled, tr.issued) else recycled)
  }

  function Named(tr: Trace, x: Name, origin: map<Name, nat>): Trace {
    tr.(names := tr.names + {x}, origin := origin)
  }

  function TraceStep(build: Build, tr: Trace, c: Command): Trace {
    match c
    case Set(x, v) => Named(tr, x, tr.origin - {x})
    case Let(x, y) => if y in tr.names then Named(tr, x, Origin(tr, y, x)) else tr
    case Operate(x, inst, mode, args) =>
      if Declared(tr.names, args) then
        Named(Issued(build, tr, ArgumentsLand(build, tr, args, inst)), x, tr.origin[x := tr.issued])
      else tr
    case Read(x) => tr.(landed := ReadLands(tr, x, tr.landed))
    case Leave(x) => tr.(names := tr.names - {x}, origin := tr.origin - {x})
  }

  function TraceRun(build: Build, program: seq<Command>): Trace {
    if program == [] then Trace({}, map[], 0, 0)
    else TraceStep(build, TraceRun(build, program[..|program| - 1]), program[|program| - 1])
  }

  // An operation takes the entry of the eighth operation before it, if there is one. Either some name
  // still holds the result of that operation, so that the host waits for it now, or the host has
  // waited for it or for a later one before.
  ghost predicate Held(tr: Trace, sent: nat) {
    tr.issued < 8 || Names(tr, tr.issued - 8) || tr.issued - 8 < sent
  }

  // Some name holds the result of the n-th operation.
  ghost predicate Names(tr: Trace, n: nat) {
    exists x :: x in tr.origin && tr.origin[x] == n
  }

  ghost predicate Keeps(build: Build, tr: Trace, c: Command) {
    c.Operate? && Declared(tr.names, c.args) ==> Held(tr, ArgumentsLand(build, tr, c.args, c.inst))
  }

  ghost predicate Retains(build: Build, program: seq<Command>) {
    forall i :: 0 <= i < |program| ==> Keeps(build, TraceRun(build, program[..i]), program[i])
  }

  // In the BASELINE build every program retains.
  lemma BaselineRetains(program: seq<Command>)
    ensures Retains(Baseline, program)
  {
    forall i | 0 <= i < |program| ensures Keeps(Baseline, TraceRun(Baseline, program[..i]), program[i]) {
      var tr := TraceRun(Baseline, program[..i]);
      AllLanded(program[..i]);
      if program[i].Operate? { SentLater(Baseline, tr, program[i].args, program[i].inst); }
    }
  }

  lemma {:induction false} AllLanded(program: seq<Command>)
    ensures TraceRun(Baseline, program).issued <= TraceRun(Baseline, program).landed
  {
    if program != [] {
      AllLanded(program[..|program| - 1]);
    }
  }

  lemma SentLater(build: Build, tr: Trace, args: seq<Name>, inst: Inst)
    ensures tr.landed <= ArgumentsLand(build, tr, args, inst)
  {
    hide SentLands;
    ArgumentLater(build, tr, args, 0, tr.landed);
    var one := ArgumentLands(build, tr, args, 0, tr.landed);
    ArgumentLater(build, tr, args, 1, one);
    ArgumentLater(build, tr, args, 2, ArgumentLands(build, tr, args, 1, one));
  }

  lemma ArgumentLater(build: Build, tr: Trace, args: seq<Name>, k: nat, landed: nat)
    ensures landed <= ArgumentLands(build, tr, args, k, landed)
  {
  }

  // In every build a program retains that gives every result a name of its own and drops none.
  predicate Fresh(tr: Trace, c: Command) {
    match c
    case Set(x, v) => x !in tr.names
    case Let(x, y) => x !in tr.names
    case Operate(x, inst, mode, args) => x !in tr.names
    case Read(x) => true
    case Leave(x) => x !in tr.names
  }

  lemma FreshRetains(build: Build, program: seq<Command>)
    requires forall i :: 0 <= i < |program| ==> Fresh(TraceRun(build, program[..i]), program[i])
    ensures Retains(build, program)
  {
    forall i | 0 <= i < |program| ensures Keeps(build, TraceRun(build, program[..i]), program[i]) {
      forall j | 0 <= j < i ensures Fresh(TraceRun(build, program[..i][..j]), program[..i][j]) {
        assert program[..i][..j] == program[..j];
      }
      AllNamed(build, program[..i]);
      assert NamedAll(TraceRun(build, program[..i]));
    }
  }

  ghost predicate NamedAll(tr: Trace) {
    && tr.origin.Keys <= tr.names
    && forall n :: 0 <= n < tr.issued ==> Names(tr, n)
  }

  lemma {:induction false} AllNamed(build: Build, program: seq<Command>)
    requires forall i :: 0 <= i < |program| ==> Fresh(TraceRun(build, program[..i]), program[i])
    ensures NamedAll(TraceRun(build, program))
  {
    if program != [] {
      var last := |program| - 1;
      forall i | 0 <= i < last ensures Fresh(TraceRun(build, program[..last][..i]), program[..last][i]) {
        assert program[..last][..i] == program[..i];
      }
      AllNamed(build, program[..last]);
      StepNamed(build, TraceRun(build, program[..last]), program[last]);
    }
  }

  lemma StepNamed(build: Build, tr: Trace, c: Command)
    requires NamedAll(tr) && Fresh(tr, c)
    ensures NamedAll(TraceStep(build, tr, c))
  {
    var tr' := TraceStep(build, tr, c);
    forall n | 0 <= n < tr'.issued ensures Names(tr', n) {
      if n < tr.issued {
        assert Names(tr, n);
        var x :| x in tr.origin && tr.origin[x] == n;
        assert x in tr'.origin && tr'.origin[x] == n;
      } else {
        assert c.x in tr'.origin && tr'.origin[c.x] == n;
      }
    }
  }

  // The handle stands for the n-th operation.
  ghost predicate InPlace(h: Handle, n: nat) {
    h.inFpga && h.globalLocation == n && h.location == n % 8
  }

  // The handle of name x is in the accelerator exactly if x holds one of the last eight results.
  ghost predicate PlacedAs(h: Handle, tr: Trace, x: Name) {
    if x in tr.origin && tr.issued <= tr.origin[x] + 8 then InPlace(h, tr.origin[x]) else !h.inFpga
  }

  ghost predicate Known(env: map<Name, Hardposit>, o: Hardposit) {
    exists x :: x in env && env[x] == o
  }

  ghost predicate TraceOk(tr: Trace) {
    && tr.issued <= tr.landed + 8
    && forall x :: x in tr.origin ==> x in tr.names && tr.origin[x] < tr.issued
  }

  // Every name in scope has an object of its own that denotes the eager value and is where the trace
  // says; no other object but those in rest is in the accelerator.
  ghost predicate Matches(t: Tracker, env: map<Name, Hardposit>, store: map<Name, Bits>, tr: Trace,
                          rest: set<Hardposit>)
    reads t, t.meaning.Keys
  {
    && t.Valid() && env.Keys == store.Keys == tr.names
    && (forall x :: x in env ==> env[x] in t.meaning && t.meaning[env[x]] == store[x])
    && (forall x, y :: x in env && y in env && env[x] == env[y] ==> x == y)
    && t.globalCounter == tr.issued && t.landed == tr.landed && TraceOk(tr)
    && (forall x :: x in env ==> PlacedAs(env[x].View(), tr, x))
    && (forall o :: o in t.meaning && o.inFpga ==> o in rest || Known(env, o))
  }

  // Matches, on values.
  ghost predicate Fits(env: map<Name, Hardposit>, store: map<Name, Bits>, tr: Trace,
                       view: map<Hardposit, Handle>, meaning: map<Hardposit, Bits>, rest: set<Hardposit>) {
    && env.Keys == store.Keys == tr.names && TraceOk(tr) && view.Keys == meaning.Keys
    && (forall x :: x in env ==> env[x] in meaning && meaning[env[x]] == store[x])
    && (forall x, y :: x in env && y in env && env[x] == env[y] ==> x == y)
    && (forall x :: x in env ==> PlacedAs(view[env[x]], tr, x))
    && (forall o :: o in view && view[o].inFpga ==> o in rest || Known(env, o))
  }

  lemma FitsFrom(t: Tracker, env: map<Name, Hardposit>, store: map<Name, Bits>, tr: Trace, rest: set<Hardposit>)
    requires Matches(t, env, store, tr, rest)
    ensures t.Valid() && t.globalCounter == tr.issued && t.landed == tr.landed
    ensures Fits(env, store, tr, t.View(), t.meaning, rest)
  {
    hide Tracker.Valid, PlacedAs, TraceOk, Known;
  }

  lemma MatchesFrom(t: Tracker, env: map<Name, Hardposit>, store: map<Name, Bits>, tr: Trace, rest: set<Hardposit>)
    requires t.Valid() && t.globalCounter == tr.issued && t.landed == tr.landed
    requires Fits(env, store, tr, t.View(), t.meaning, rest)
    ensures Matches(t, env, store, tr, rest)
  {
    hide Tracker.Valid, PlacedAs, TraceOk, Known;
    t.Views();
  }

  lemma FitsNames(env: map<Name, Hardposit>, store: map<Name, Bits>, tr: Trace,
                  view: map<Hardposit, Handle>, meaning: map<Hardposit, Bits>, rest: set<Hardposit>)
    requires Fits(env, store, tr, view, meaning, rest)
    ensures env.Keys == tr.names && forall x :: x in env ==> env[x] in meaning
  {
    hide PlacedAs, TraceOk, Known;
  }

  lemma NamedIs(tr: Trace, x: Name, origin: map<Name, nat>)
    ensures Named(tr, x, origin).issued == tr.issued && Named(tr, x, origin).landed == tr.landed
  {
  }

  lemma FitsRebound(env: map<Name, Hardposit>, store: map<Name, Bits>, tr: Trace, view: map<Hardposit, Handle>,
                    meaning: map<Hardposit, Bits>, view': map<Hardposit, Handle>, meaning': map<Hardposit, Bits>,
                    x: Name, o: Hardposit, origin: map<Name, nat>, rest: set<Hardposit>, gone: set<Hardposit>)
    requires Fits(env, store, tr, view, meaning, rest) && x in env && o in meaning && rest <= gone
    requires forall y :: y in env ==> env[y] !in gone
    requires PlacedAs(view[o], Named(tr, x, origin), x) && TraceOk(Named(tr, x, origin))
    requires forall y :: y != x ==> (y in origin <==> y in tr.origin) && (y in origin ==> origin[y] == tr.origin[y])
    requires meaning' == meaning[env[x] := meaning[o]] - gone && view'.Keys == meaning'.Keys
    requires forall p :: p in meaning' ==> view'[p] == if p == env[x] then view[o] else view[p]
    ensures Fits(env, store[x := meaning[o]], Named(tr, x, origin), view', meaning', {})
  {
    hide TraceOk, PlacedAs, Known;
    var store', tr' := store[x := meaning[o]], Named(tr, x, origin);
    assert env[x] in meaning && meaning'.Keys == meaning.Keys - gone;
    forall y | y in env
      ensures env[y] in meaning' && meaning'[env[y]] == store'[y] && PlacedAs(view'[env[y]], tr', y)
    {
      if y != x { OtherFits(tr, x, origin, y, view[env[y]]); }
    }
    forall p | p in view' && view'[p].inFpga ensures Known(env, p) {
      if p == env[x] { KnownName(env, x); }
    }
  }

  // x = result of an expression: the temporary becomes x, or is assigned to x and destroyed.
  method Bind(t: Tracker, env: map<Name, Hardposit>, x: Name, o: Hardposit, ghost store: map<Name, Bits>,
              ghost tr: Trace, ghost origin: map<Name, nat>, ghost rest: set<Hardposit>)
      returns (env': map<Name, Hardposit>)
    requires Matches(t, env, store, tr, rest) && o in t.meaning && forall y :: y in env ==> env[y] != o
    requires rest <= {o} && PlacedAs(o.View(), Named(tr, x, origin), x) && TraceOk(Named(tr, x, origin))
    requires forall y :: y != x ==> (y in origin <==> y in tr.origin) && (y in origin ==> origin[y] == tr.origin[y])
    modifies t`meaning, t`crntPosit, t.meaning.Keys
    ensures Matches(t, env', store[x := old(t.meaning)[o]], Named(tr, x, origin), {})
    ensures t.meaning.Keys <= old(t.meaning.Keys)
  {
    hide Tracker.Valid, TraceOk;
    if x in env {
      Rebind(t, env, x, o, store, tr, origin, rest);
      env' := env;
    } else {
      env' := env[x := o];
      assert env'[x] == o;
      forall p | p in t.meaning && p.inFpga ensures Known(env', p) { KnownMore(env, x, o, p); }
    }
  }

  lemma KnownMore(env: map<Name, Hardposit>, x: Name, o: Hardposit, p: Hardposit)
    requires x !in env && (p == o || Known(env, p))
    ensures Known(env[x := o], p)
  {
    var env' := env[x := o];
    if p == o {
      assert env'[x] == p;
    } else {
      var y :| y in env && env[y] == p;
      assert env'[y] == p;
    }
  }

  lemma OtherFits(tr: Trace, x: Name, origin: map<Name, nat>, z: Name, h: Handle)
    requires forall y :: y != x ==> (y in origin <==> y in tr.origin) && (y in origin ==> origin[y] == tr.origin[y])
    requires z != x && PlacedAs(h, tr, z)
    ensures PlacedAs(h, Named(tr, x, origin), z)
  {
  }

  lemma KnownName(env: map<Name, Hardposit>, x: Name)
    requires x in env
    ensures Known(env, env[x])
  {
  }

  method Rebind(t: Tracker, env: map<Name, Hardposit>, x: Name, o: Hardposit, ghost store: map<Name, Bits>,
                ghost tr: Trace, ghost origin: map<Name, nat>, ghost rest: set<Hardposit>)
    requires Matches(t, env, store, tr, rest) && o in t.meaning && forall y :: y in env ==> env[y] != o
    requires rest <= {o} && PlacedAs(o.View(), Named(tr, x, origin), x) && TraceOk(Named(tr, x, origin))
    requires forall y :: y != x ==> (y in origin <==> y in tr.origin) && (y in origin ==> origin[y] == tr.origin[y])
    requires x in env
    modifies t`meaning, t`crntPosit, env[x]
    ensures Matches(t, env, store[x := old(t.meaning)[o]], Named(tr, x, origin), {})
    ensures t.meaning.Keys == old(t.meaning.Keys) - {o}
  {
    hide *;
    FitsFrom(t, env, store, tr, rest);
    FitsNames(env, store, tr, t.View(), t.meaning, rest);
    ghost var view, meaning := t.View(), t.meaning;
    t.Views();
    t.Assign(env[x], o);
    t.Destroy(o);
    t.Views();
    forall p | p in t.meaning ensures t.View()[p] == if p == env[x] then view[o] else view[p] {
      assert t.View()[p] == p.View();
    }
    FitsRebound(env, store, tr, view, meaning, t.View(), t.meaning, x, o, origin, rest, {o});
    NamedIs(tr, x, origin);
    MatchesFrom(t, env, store[x := meaning[o]], Named(tr, x, origin), {});
  }

  method DoSet(t: Tracker, env: map<Name, Hardposit>, x: Name, v: Bits, ghost store: map<Name, Bits>, ghost tr: Trace)
      returns (env': map<Name, Hardposit>)
    requires Matches(t, env, store, tr, {})
    modifies t`meaning, t`crntPosit, t.meaning.Keys
    ensures Matches(t, env', store[x := v], Named(tr, x, tr.origin - {x}), {})
    ensures fresh(t.meaning.Keys - old(t.meaning.Keys))
  {
    hide Tracker.Valid;
    var o := t.New(v);
    env' := Bind(t, env, x, o, store, tr, tr.origin - {x}, {});
  }

  lemma LetFits(tr: Trace, y: Name, x: Name, h: Handle)
    requires TraceOk(tr) && PlacedAs(h, tr, y)
    ensures var tr' := Named(tr, x, Origin(tr, y, x));
      && TraceOk(tr') && PlacedAs(h, tr', x)
      && forall z, p: Handle :: z != x ==> PlacedAs(p, tr', z) == PlacedAs(p, tr, z)
  {
  }

  lemma OriginIs(tr: Trace, y: Name, x: Name)
    ensures var origin := Origin(tr, y, x);
      forall z :: z != x ==> (z in origin <==> z in tr.origin) && (z in origin ==> origin[z] == tr.origin[z])
  {
  }

  lemma FitsAt(env: map<Name, Hardposit>, store: map<Name, Bits>, tr: Trace,
               view: map<Hardposit, Handle>, meaning: map<Hardposit, Bits>, rest: set<Hardposit>, y: Name)
    requires Fits(env, store, tr, view, meaning, rest) && y in env
    ensures y in store && env[y] in meaning && env[y] in view && meaning[env[y]] == store[y]
    ensures TraceOk(tr) && PlacedAs(view[env[y]], tr, y)
  {
    hide PlacedAs, TraceOk, Known;
  }

  method LetAgain(t: Tracker, env: map<Name, Hardposit>, x: Name, y: Name, ghost store: map<Name, Bits>,
                  ghost tr: Trace)
    requires Matches(t, env, store, tr, {}) && y in env && x in env
    modifies t`meaning, t`crntPosit, env[x]
    ensures Matches(t, env, store[x := store[y]], Named(tr, x, Origin(tr, y, x)), {})
    ensures t.meaning.Keys == old(t.meaning.Keys)
  {
    hide *;
    FitsFrom(t, env, store, tr, {});
    FitsNames(env, store, tr, t.View(), t.meaning, {});
    FitsAt(env, store, tr, t.View(), t.meaning, {}, y);
    ghost var view, meaning, origin := t.View(), t.meaning, Origin(tr, y, x);
    t.Views();
    LetFits(tr, y, x, view[env[y]]);
    t.Assign(env[x], env[y]);
    t.Views();
    forall p | p in t.meaning ensures t.View()[p] == if p == env[x] then view[env[y]] else view[p] {
      assert t.View()[p] == p.View();
    }
    OriginIs(tr, y, x);
    assert t.meaning == meaning[env[x] := meaning[env[y]]] - {};
    FitsRebound(env, store, tr, view, meaning, t.View(), t.meaning, x, env[y], origin, {}, {});
    NamedIs(tr, x, origin);
    MatchesFrom(t, env, store[x := store[y]], Named(tr, x, origin), {});
  }

  method LetNew(t: Tracker, env: map<Name, Hardposit>, x: Name, y: Name, ghost store: map<Name, Bits>, ghost tr: Trace)
      returns (env': map<Name, Hardposit>)
    requires Matches(t, env, store, tr, {}) && y in env && x !in env
    modifies t`meaning, t`crntPosit
    ensures Matches(t, env', store[x := store[y]], Named(tr, x, Origin(tr, y, x)), {})
    ensures fresh(t.meaning.Keys - old(t.meaning.Keys))
  {
    hide Tracker.Valid, TraceOk;
    var o := t.Copy(env[y]);
    env' := env[x := o];
    LetFits(tr, y, x, o.View());
    forall p | p in t.meaning && p.inFpga ensures Known(env', p) { KnownMore(env, x, o, p); }
  }

  method DoLet(t: Tracker, env: map<Name, Hardposit>, x: Name, y: Name, ghost store: map<Name, Bits>, ghost tr: Trace)
      returns (env': map<Name, Hardposit>)
    requires Matches(t, env, store, tr, {}) && y in env
    modifies t`meaning, t`crntPosit, t.meaning.Keys
    ensures Matches(t, env', store[x := store[y]], Named(tr, x, Origin(tr, y, x)), {})
    ensures fresh(t.meaning.Keys - old(t.meaning.Keys))
  {
    hide Tracker.Valid, TraceOk, PlacedAs, Origin, Known;
    if x in env {
      LetAgain(t, env, x, y, store, tr);
      env' := env;
    } else {
      env' := LetNew(t, env, x, y, store, tr);
    }
  }

  // What sending a handle does, as the trace has it for the k-th operand.
  ghost predicate ArgumentFits(build: Build, tr: Trace, args: seq<Name>, k: nat, h: Handle) {
    forall l: nat :: tr.landed <= l ==>
      SendLands(build == Reuse, tr.issued, h, l) == ArgumentLands(build, tr, args, k, l)
  }

  lemma NameFits(build: Build, tr: Trace, args: seq<Name>, k: nat, h: Handle)
    requires TraceOk(tr) && k < |args| && PlacedAs(h, tr, args[k])
    ensures ArgumentFits(build, tr, args, k, h)
  {
  }

  lemma NoneFits(build: Build, tr: Trace, args: seq<Name>, k: nat, h: Handle)
    requires |args| <= k && !h.inFpga
    ensures ArgumentFits(build, tr, args, k, h)
  {
  }

  lemma AllFit(build: Build, tr: Trace, args: seq<Name>, inst: Inst, a: Handle, b: Handle, c: Handle)
    requires ArgumentFits(build, tr, args, 0, a) && ArgumentFits(build, tr, args, 1, b)
    requires ArgumentFits(build, tr, args, 2, c)
    ensures OperandsLand(build == Reuse, tr.issued, a, b, c, inst == Fma, tr.landed)
         == ArgumentsLand(build, tr, args, inst)
  {
    hide SendLands, ArgumentLands;
    ArgumentLater(build, tr, args, 0, tr.landed);
    ArgumentLater(build, tr, args, 1, ArgumentLands(build, tr, args, 0, tr.landed));
  }

  // The object of an operand, or a temporary zero.
  method Argument(t: Tracker, env: map<Name, Hardposit>, args: seq<Name>, k: nat,
                  ghost store: map<Name, Bits>, ghost tr: Trace)
      returns (o: Hardposit)
    requires Matches(t, env, store, tr, {}) && Declared(env.Keys, args)
    modifies t`meaning
    ensures Matches(t, env, store, tr, {}) && o in t.meaning && t.meaning[o] == ArgumentValue(store, args, k)
    ensures k < |args| ==> o == env[args[k]] && t.meaning == old(t.meaning)
    ensures k >= |args| ==> fresh(o) && t.meaning == old(t.meaning)[o := 0]
    ensures ArgumentFits(t.build, tr, args, k, o.View())
  {
    hide Tracker.Valid, ArgumentFits, TraceOk, PlacedAs;
    if k < |args| {
      o := env[args[k]];
      NameFits(t.build, tr, args, k, o.View());
    } else {
      o := t.New(0);
      NoneFits(t.build, tr, args, k, o.View());
    }
  }

  // The end of the life of a temporary.
  method Release(t: Tracker, env: map<Name, Hardposit>, o: Hardposit, ghost store: map<Name, Bits>, ghost tr: Trace,
                 ghost rest: set<Hardposit>)
    requires Matches(t, env, store, tr, rest) && o in t.meaning && forall x :: x in env ==> env[x] != o
    modifies t`meaning, t`crntPosit
    ensures Matches(t, env, store, tr, rest) && t.meaning == old(t.meaning) - {o}
  {
    hide Tracker.Valid, TraceOk, Known, PlacedAs;
    t.Destroy(o);
  }

  method Calculate(t: Tracker, env: map<Name, Hardposit>, a: Hardposit, b: Hardposit, c: Hardposit,
                   inst: Inst, mode: bool, ghost store: map<Name, Bits>, ghost tr: Trace, ghost sent: nat)
      returns (ret: Hardposit)
    requires Matches(t, env, store, tr, {}) && a in t.meaning && b in t.meaning && c in t.meaning
    requires sent == OperandsLand(t.build == Reuse, tr.issued, a.View(), b.View(), c.View(), inst == Fma, tr.landed)
    modifies t, t.meaning.Keys
    ensures Matches(t, env, store, Issued(t.build, tr, sent), {ret}) && fresh(ret) && InPlace(ret.View(), tr.issued)
    ensures t.meaning == old(t.meaning)[ret := t.alu(inst, mode, old(t.meaning)[a], old(t.meaning)[b],
                                                     if inst == Fma then old(t.meaning)[c] else 0)]
    ensures Charged(t.pace, Held(tr, sent), old(t.assumed), t.assumed)
  {
    hide *;
    ghost var view, meaning := t.View(), t.meaning;
    HeldIsCovered(t, env, store, tr);
    FitsFrom(t, env, store, tr, {});
    t.Views();
    ret := t.Compute(a, b, c, inst, mode);
    t.Views();
    IssuedIs(t.build, tr, sent);
    HeldWaits(view, tr, sent);
    FitsIssued(t, env, store, tr, sent, ret, view, meaning);
    InPlaceFrom(ret, tr.issued);
  }

  lemma FitsIssued(t: Tracker, env: map<Name, Hardposit>, store: map<Name, Bits>, tr: Trace, sent: nat,
                   ret: Hardposit, view: map<Hardposit, Handle>, meaning: map<Hardposit, Bits>)
    requires Fits(env, store, tr, view, meaning, {}) && ret !in meaning && ret in t.meaning
    requires t.meaning == meaning[ret := t.meaning[ret]] && t.View().Keys == t.meaning.Keys
    requires Stays(view, t.View(), tr.issued) && t.Valid()
    requires t.globalCounter == Issued(t.build, tr, sent).issued && t.landed == Issued(t.build, tr, sent).landed
    ensures Matches(t, env, store, Issued(t.build, tr, sent), {ret})
  {
    hide PlacedAs, TraceOk, Known, Tracker.Valid, Tracker.View, RecycleLands, Matches;
    IssuedOk(t.build, tr, sent);
    var view' := t.View();
    forall x | x in env ensures PlacedAs(view'[env[x]], Issued(t.build, tr, sent), x) {
      IssuedFits(t.build, tr, sent, x, view[env[x]], view'[env[x]]);
    }
    MatchesFrom(t, env, store, Issued(t.build, tr, sent), {ret});
  }

  lemma IssuedIs(build: Build, tr: Trace, sent: nat)
    ensures var tr', n := Issued(build, tr, sent), tr.issued;
      && tr'.issued == n + 1
      && tr'.landed == if build == Baseline then Past(RecycleLands(n, sent), n) else RecycleLands(n, sent)
  {
  }

  lemma HeldWaits(view: map<Hardposit, Handle>, tr: Trace, sent: nat)
    requires Covered(view, tr.issued) <==> tr.issued >= 8 && Names(tr, tr.issued - 8)
    ensures Waits(view, tr.issued, sent) == Held(tr, sent)
  {
    hide Covered, Names;
  }

  lemma InPlaceFrom(o: Hardposit, n: nat)
    requires o.inFpga && o.globalLocation == n && o.location == n % 8
    ensures InPlace(o.View(), n)
  {
  }

  lemma IssuedFits(build: Build, tr: Trace, sent: nat, x: Name, h: Handle, h': Handle)
    requires TraceOk(tr) && PlacedAs(h, tr, x)
    requires h'.inFpga == (h.inFpga && h.globalLocation + 8 != tr.issued)
    requires h'.globalLocation == h.globalLocation && h'.location == h.location
    ensures PlacedAs(h', Issued(build, tr, sent), x)
  {
  }

  lemma IssuedOk(build: Build, tr: Trace, sent: nat)
    requires TraceOk(tr)
    ensures TraceOk(Issued(build, tr, sent))
  {
  }

  // Some name holds a result exactly if some object stands for it.
  lemma HeldIsCovered(t: Tracker, env: map<Name, Hardposit>, store: map<Name, Bits>, tr: Trace)
    requires Matches(t, env, store, tr, {})
    ensures Covered(t.View(), tr.issued) <==> tr.issued >= 8 && Names(tr, tr.issued - 8)
  {
    hide Tracker.Valid;
    if tr.issued >= 8 && Names(tr, tr.issued - 8) {
      var x :| x in tr.origin && tr.origin[x] == tr.issued - 8;
      assert InPlace(env[x].View(), tr.origin[x]) && env[x] in t.View();
    }
    if Covered(t.View(), tr.issued) {
      var o :| o in t.View() && t.View()[o].inFpga && t.View()[o].globalLocation == tr.issued - 8;
      assert o in t.meaning && o.inFpga && Known(env, o);
      var x :| x in env && env[x] == o;
      assert PlacedAs(env[x].View(), tr, x);
      assert x in tr.origin && tr.origin[x] == tr.issued - 8;
    }
  }

  // The operation with its third operand, a temporary if there is none.
  method WithThird(t: Tracker, env: map<Name, Hardposit>, a: Hardposit, b: Hardposit,
                   inst: Inst, mode: bool, args: seq<Name>, ghost store: map<Name, Bits>, ghost tr: Trace)
      returns (ret: Hardposit)
    requires Matches(t, env, store, tr, {}) && a in t.meaning && b in t.meaning && Declared(env.Keys, args)
    requires ArgumentFits(t.build, tr, args, 0, a.View()) && ArgumentFits(t.build, tr, args, 1, b.View())
    modifies t, t.meaning.Keys
    ensures Matches(t, env, store, Issued(t.build, tr, ArgumentsLand(t.build, tr, args, inst)), {ret})
    ensures fresh(ret) && InPlace(ret.View(), tr.issued)
    ensures t.meaning == old(t.meaning)[ret := t.alu(inst, mode, old(t.meaning)[a], old(t.meaning)[b],
                                                     if inst == Fma then ArgumentValue(store, args, 2) else 0)]
    ensures Charged(t.pace, Held(tr, ArgumentsLand(t.build, tr, args, inst)), old(t.assumed), t.assumed)
  {
    hide *;
    ghost var sent := ArgumentsLand(t.build, tr, args, inst);
    var c := Argument(t, env, args, 2, store, tr);
    AllFit(t.build, tr, args, inst, a.View(), b.View(), c.View());
    ret := Calculate(t, env, a, b, c, inst, mode, store, tr, sent);
    if |args| < 3 { Release(t, env, c, store, Issued(t.build, tr, sent), {ret}); }
  }

  // The operation with its second operand, a temporary if there is none.
  method WithSecond(t: Tracker, env: map<Name, Hardposit>, a: Hardposit,
                    inst: Inst, mode: bool, args: seq<Name>, ghost store: map<Name, Bits>, ghost tr: Trace)
      returns (ret: Hardposit)
    requires Matches(t, env, store, tr, {}) && a in t.meaning && Declared(env.Keys, args)
    requires ArgumentFits(t.build, tr, args, 0, a.View())
    modifies t, t.meaning.Keys
    ensures Matches(t, env, store, Issued(t.build, tr, ArgumentsLand(t.build, tr, args, inst)), {ret})
    ensures fresh(ret) && InPlace(ret.View(), tr.issued)
    ensures t.meaning == old(t.meaning)[ret := t.alu(inst, mode, old(t.meaning)[a], ArgumentValue(store, args, 1),
                                                     if inst == Fma then ArgumentValue(store, args, 2) else 0)]
    ensures Charged(t.pace, Held(tr, ArgumentsLand(t.build, tr, args, inst)), old(t.assumed), t.assumed)
  {
    hide *;
    ghost var sent := ArgumentsLand(t.build, tr, args, inst);
    var b := Argument(t, env, args, 1, store, tr);
    ret := WithThird(t, env, a, b, inst, mode, args, store, tr);
    if |args| < 2 { Release(t, env, b, store, Issued(t.build, tr, sent), {ret}); }
  }

  method DoOperate(t: Tracker, env: map<Name, Hardposit>, x: Name, inst: Inst, mode: bool, args: seq<Name>,
                   ghost store: map<Name, Bits>, ghost tr: Trace)
      returns (env': map<Name, Hardposit>)
    requires Matches(t, env, store, tr, {}) && Declared(env.Keys, args)
    modifies t, t.meaning.Keys
    ensures Matches(t, env', store[x := t.alu(inst, mode, ArgumentValue(store, args, 0), ArgumentValue(store, args, 1),
                                              if inst == Fma then ArgumentValue(store, args, 2) else 0)],
                    Named(Issued(t.build, tr, ArgumentsLand(t.build, tr, args, inst)), x, tr.origin[x := tr.issued]),
                    {})
    ensures fresh(t.meaning.Keys - old(t.meaning.Keys))
    ensures Charged(t.pace, Held(tr, ArgumentsLand(t.build, tr, args, inst)), old(t.assumed), t.assumed)
  {
    hide *;
    ghost var sent := ArgumentsLand(t.build, tr, args, inst);
    var a := Argument(t, env, args, 0, store, tr);
    var ret := WithSecond(t, env, a, inst, mode, args, store, tr);
    MatchesTrace(t, env, store, Issued(t.build, tr, sent), {ret});
    ResultFits(t.build, tr, sent, x, ret);
    env' := Bind(t, env, x, ret, store, Issued(t.build, tr, sent), tr.origin[x := tr.issued], {ret});
  }

  lemma MatchesTrace(t: Tracker, env: map<Name, Hardposit>, store: map<Name, Bits>, tr: Trace, rest: set<Hardposit>)
    requires Matches(t, env, store, tr, rest)
    ensures TraceOk(tr)
  {
    hide Tracker.Valid;
  }

  lemma ResultFits(build: Build, tr: Trace, sent: nat, x: Name, ret: Hardposit)
    requires TraceOk(Issued(build, tr, sent)) && InPlace(ret.View(), tr.issued)
    ensures var tr' := Named(Issued(build, tr, sent), x, tr.origin[x := tr.issued]);
      TraceOk(tr') && PlacedAs(ret.View(), tr', x)
    ensures Issued(build, tr, sent).origin == tr.origin
  {
  }

  method DoRead(t: Tracker, env: map<Name, Hardposit>, x: Name, ghost store: map<Name, Bits>, ghost tr: Trace)
      returns (v: Bits)
    requires Matches(t, env, store, tr, {}) && x in env
    modifies t`accel, t`ledger, t`landed, t.meaning.Keys
    ensures Matches(t, env, store, tr.(landed := ReadLands(tr, x, tr.landed)), {})
    ensures v == store[x] && t.meaning == old(t.meaning)
  {
    hide Tracker.Consistent, PlacedAs, TraceOk;
    ghost var view := t.View();
    ReadFits(tr, x, env[x].View());
    v := t.GetVal(env[x]);
    forall o | o in t.meaning ensures t.View()[o] == o.View() && view[o].inFpga == o.inFpga {
    }
    ghost var landed := ReadLands(tr, x, tr.landed);
    forall y | y in env ensures PlacedAs(env[y].View(), tr.(landed := landed), y) {
      assert t.View()[env[y]] == env[y].View();
      LandedFits(tr, y, landed, view[env[y]], env[y].View());
    }
  }

  lemma LandedFits(tr: Trace, x: Name, landed: nat, h: Handle, h': Handle)
    requires PlacedAs(h, tr, x)
    requires h'.inFpga == h.inFpga && h'.globalLocation == h.globalLocation && h'.location == h.location
    ensures PlacedAs(h', tr.(landed := landed), x)
  {
  }

  lemma ReadFits(tr: Trace, x: Name, h: Handle)
    requires TraceOk(tr) && PlacedAs(h, tr, x)
    ensures Fetched(h, tr.landed) == ReadLands(tr, x, tr.landed)
    ensures TraceOk(tr.(landed := ReadLands(tr, x, tr.landed)))
  {
  }

  lemma LeaveFits(tr: Trace, x: Name)
    requires TraceOk(tr)
    ensures var tr' := tr.(names := tr.names - {x}, origin := tr.origin - {x});
      TraceOk(tr') && forall z, p: Handle :: z != x ==> PlacedAs(p, tr', z) == PlacedAs(p, tr, z)
    ensures x !in tr.names ==> tr.origin - {x} == tr.origin
  {
  }

  method DoLeave(t: Tracker, env: map<Name, Hardposit>, x: Name, ghost store: map<Name, Bits>, ghost tr: Trace)
      returns (env': map<Name, Hardposit>)
    requires Matches(t, env, store, tr, {})
    modifies t`meaning, t`crntPosit
    ensures Matches(t, env', store - {x}, tr.(names := tr.names - {x}, origin := tr.origin - {x}), {})
    ensures t.meaning.Keys <= old(t.meaning.Keys)
  {
    hide Tracker.Valid, PlacedAs, TraceOk;
    LeaveFits(tr, x);
    if x in env {
      t.Destroy(env[x]);
      env' := env - {x};
      forall p | p in t.meaning && p.inFpga ensures Known(env', p) { KnownLess(env, x, p); }
    } else {
      env' := env;
      assert store - {x} == store && tr.origin - {x} == tr.origin && tr.names - {x} == tr.names;
    }
  }

  lemma KnownLess(env: map<Name, Hardposit>, x: Name, p: Hardposit)
    requires x in env && p != env[x] && Known(env, p)
    ensures Known(env - {x}, p)
  {
    var y :| y in env && env[y] == p;
    assert (env - {x})[y] == p;
  }

  // The hardware moves on between two commands.
  method Pause(t: Tracker, env: map<Name, Hardposit>, ghost store: map<Name, Bits>, ghost tr: Trace)
    requires Matches(t, env, store, tr, {})
    modifies t`accel, t`ledger
    ensures Matches(t, env, store, tr, {})
  {
    hide Tracker.Valid, TraceOk, Known, PlacedAs;
    t.ValidParts();
    t.Elapse();
  }

  // A command done by its own method; a command on a name out of scope does nothing.
  method DoAssignment(t: Tracker, env: map<Name, Hardposit>, c: Command, ghost s: Eager, ghost tr: Trace)
      returns (env': map<Name, Hardposit>)
    requires Matches(t, env, s.store, tr, {}) && (c.Set? || c.Let?)
    modifies t`meaning, t`crntPosit, t.meaning.Keys
    ensures Matches(t, env', EagerStep(t.alu, s, c).store, TraceStep(t.build, tr, c), {})
    ensures EagerStep(t.alu, s, c).output == s.output && fresh(t.meaning.Keys - old(t.meaning.Keys))
  {
    assert env.Keys == s.store.Keys == tr.names;
    hide Matches, Origin;
    env' := env;
    match c {
      case Set(x, v) => env' := DoSet(t, env, x, v, s.store, tr);
      case Let(x, y) => if y in env { env' := DoLet(t, env, x, y, s.store, tr); }
    }
  }

  lemma MatchesNames(t: Tracker, env: map<Name, Hardposit>, store: map<Name, Bits>, tr: Trace, rest: set<Hardposit>)
    requires Matches(t, env, store, tr, rest)
    ensures env.Keys == store.Keys == tr.names
  {
    hide Tracker.Valid;
  }

  lemma OperateSteps(alu: Alu, build: Build, s: Eager, tr: Trace, c: Command, pace: Pace, assumed: nat)
    requires c.Operate? && s.store.Keys == tr.names
    ensures EagerStep(alu, s, c).output == s.output
    ensures Declared(tr.names, c.args) ==>
      && EagerStep(alu, s, c).store
         == s.store[c.x := alu(c.inst, c.mode, ArgumentValue(s.store, c.args, 0), ArgumentValue(s.store, c.args, 1),
                               if c.inst == Fma then ArgumentValue(s.store, c.args, 2) else 0)]
      && TraceStep(build, tr, c)
         == Named(Issued(build, tr, ArgumentsLand(build, tr, c.args, c.inst)), c.x, tr.origin[c.x := tr.issued])
      && (Keeps(build, tr, c) <==> Held(tr, ArgumentsLand(build, tr, c.args, c.inst)))
    ensures !Declared(tr.names, c.args) ==>
      && EagerStep(alu, s, c).store == s.store && TraceStep(build, tr, c) == tr
      && Charged(pace, Keeps(build, tr, c), assumed, assumed)
  {
    hide ArgumentValue, ArgumentsLand, Issued, Held, Named;
  }

  method DoOperation(t: Tracker, env: map<Name, Hardposit>, c: Command, ghost s: Eager, ghost tr: Trace)
      returns (env': map<Name, Hardposit>)
    requires Matches(t, env, s.store, tr, {}) && c.Operate?
    modifies t, t.meaning.Keys
    ensures Matches(t, env', EagerStep(t.alu, s, c).store, TraceStep(t.build, tr, c), {})
    ensures EagerStep(t.alu, s, c).output == s.output && fresh(t.meaning.Keys - old(t.meaning.Keys))
    ensures Charged(t.pace, Keeps(t.build, tr, c), old(t.assumed), t.assumed)
  {
    hide *;
    MatchesNames(t, env, s.store, tr, {});
    OperateSteps(t.alu, t.build, s, tr, c, t.pace, t.assumed);
    env' := env;
    if Declared(env.Keys, c.args) { env' := DoOperate(t, env, c.x, c.inst, c.mode, c.args, s.store, tr); }
  }

  method DoLookup(t: Tracker, env: map<Name, Hardposit>, c: Command, ghost s: Eager, ghost tr: Trace)
      returns (output: seq<Bits>)
    requires Matches(t, env, s.store, tr, {}) && c.Read?
    modifies t`accel, t`ledger, t`landed, t.meaning.Keys
    ensures Matches(t, env, EagerStep(t.alu, s, c).store, TraceStep(t.build, tr, c), {})
    ensures EagerStep(t.alu, s, c).output == s.output + output && t.meaning == old(t.meaning)
  {
    assert env.Keys == s.store.Keys == tr.names;
    MatchesTrace(t, env, s.store, tr, {});
    hide Matches;
    output := [];
    if c.x in env {
      var v := DoRead(t, env, c.x, s.store, tr);
      output := [v];
    }
  }

  lemma LeaveSteps(alu: Alu, build: Build, s: Eager, tr: Trace, x: Name)
    ensures EagerStep(alu, s, Leave(x)) == s.(store := s.store - {x})
    ensures TraceStep(build, tr, Leave(x)) == tr.(names := tr.names - {x}, origin := tr.origin - {x})
  {
  }

  lemma KeepsOthers(build: Build, pace: Pace, tr: Trace, c: Command, assumed: nat)
    requires !c.Operate?
    ensures Charged(pace, Keeps(build, tr, c), assumed, assumed)
  {
  }

  method Do(t: Tracker, env: map<Name, Hardposit>, c: Command, ghost s: Eager, ghost tr: Trace)
      returns (env': map<Name, Hardposit>, output: seq<Bits>)
    requires Matches(t, env, s.store, tr, {})
    modifies t, t.meaning.Keys
    ensures Matches(t, env', EagerStep(t.alu, s, c).store, TraceStep(t.build, tr, c), {})
    ensures EagerStep(t.alu, s, c).output == s.output + output
    ensures fresh(t.meaning.Keys - old(t.meaning.Keys))
    ensures Charged(t.pace, Keeps(t.build, tr, c), old(t.assumed), t.assumed)
  {
    hide *;
    env', output := env, [];
    Pause(t, env, s.store, tr);
    if !c.Operate? { KeepsOthers(t.build, t.pace, tr, c, t.assumed); }
    match c {
      case Set(x, v) => env' := DoAssignment(t, env, c, s, tr);
      case Let(x, y) => env' := DoAssignment(t, env, c, s, tr);
      case Operate(x, inst, mode, args) => env' := DoOperation(t, env, c, s, tr);
      case Read(x) => output := DoLookup(t, env, c, s, tr);
      case Leave(x) =>
        LeaveSteps(t.alu, t.build, s, tr, x);
        env' := DoLeave(t, env, x, s.store, tr);
    }
  }

  lemma RunStarts(alu: Alu, program: seq<Command>, t: Tracker, env: map<Name, Hardposit>)
    requires t.Valid() && t.meaning == map[] && t.globalCounter == 0 && t.landed == 0 && env == map[]
    ensures EagerRun(alu, program[..0]) == Eager(map[], [])
    ensures TraceRun(t.build, program[..0]) == Trace({}, map[], 0, 0)
    ensures Matches(t, env, map[], Trace({}, map[], 0, 0), {})
  {
    hide Tracker.Valid;
  }

  lemma RunSteps(alu: Alu, build: Build, program: seq<Command>, i: nat)
    requires i < |program|
    ensures EagerRun(alu, program[..i + 1]) == EagerStep(alu, EagerRun(alu, program[..i]), program[i])
    ensures TraceRun(build, program[..i + 1]) == TraceStep(build, TraceRun(build, program[..i]), program[i])
  {
    assert program[..i + 1][..i] == program[..i];
  }

  // The first i commands need no assumption.
  ghost predicate RetainsTo(build: Build, program: seq<Command>, i: nat)
    requires i <= |program|
  {
    forall j :: 0 <= j < i ==> Keeps(build, TraceRun(build, program[..j]), program[j])
  }

  lemma RetainsNext(build: Build, pace: Pace, program: seq<Command>, i: nat, before: nat, after: nat)
    requires i < |program|
    requires Charged(pace, Keeps(build, TraceRun(build, program[..i]), program[i]), before, after)
    requires RetainsTo(build, program, i) ==> before == 0
    requires pace == OnDemand && before == 0 ==> RetainsTo(build, program, i)
    ensures RetainsTo(build, program, i + 1) ==> after == 0
    ensures pace == OnDemand && after == 0 ==> RetainsTo(build, program, i + 1)
  {
    hide Keeps, TraceRun;
    if RetainsTo(build, program, i + 1) {
      assert RetainsTo(build, program, i);
      assert Keeps(build, TraceRun(build, program[..i]), program[i]);
    }
  }

  lemma RetainsAll(build: Build, program: seq<Command>)
    ensures RetainsTo(build, program, 0)
    ensures RetainsTo(build, program, |program|) <==> Retains(build, program)
  {
  }

  // Main result: whatever the build and however host and accelerator interleave, a program reads
  // exactly the values of eager evaluation. So the three builds agree. Programs that retain need no
  // assumption on when writes land; all others need it when the hardware is slow.
  method Run(alu: Alu, build: Build, pace: Pace, program: seq<Command>)
      returns (output: seq<Bits>, ghost assumed: nat)
    ensures output == EagerRun(alu, program).output
    ensures Retains(build, program) ==> assumed == 0
    ensures pace == OnDemand ==> (assumed == 0 <==> Retains(build, program))
    ensures build == Baseline ==> assumed == 0
  {
    hide *;
    var t := new Tracker(alu, build, pace);
    var env: map<Name, Hardposit> := map[];
    output := [];
    ghost var s, tr := Eager(map[], []), Trace({}, map[], 0, 0);
    RunStarts(alu, program, t, env);
    RetainsAll(build, program);
    for i := 0 to |program|
      invariant fresh(t) && fresh(t.meaning.Keys) && t.alu == alu && t.build == build && t.pace == pace
      invariant s == EagerRun(alu, program[..i]) && output == s.output && tr == TraceRun(build, program[..i])
      invariant Matches(t, env, s.store, tr, {})
      invariant RetainsTo(build, program, i) ==> t.assumed == 0
      invariant pace == OnDemand && t.assumed == 0 ==> RetainsTo(build, program, i)
    {
      var out;
      ghost var before := t.assumed;
      RunSteps(alu, build, program, i);
      env, out := Do(t, env, program[i], s, tr);
      RetainsNext(build, pace, program, i, before, t.assumed);
      s, tr := EagerStep(alu, s, program[i]), TraceStep(build, tr, program[i]);
      output := output + out;
    }
    assert program[..|program|] == program;
    if build == Baseline { BaselineRetains(program); }
    assumed := t.assumed;
  }
}
