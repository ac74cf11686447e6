// The accelerator as an asynchronous partner of the host: eight entries that fetch operands from
// the operand ring, forward results to one another, execute in any order and write back in order.
module Accelerator {

  import opened OperandRing

  datatype Inst = Noop | AddSub | Cmp | Fma | Mul | SqrtDiv | Lt | Eq | Gt

  // What an instruction computes from its three operands.
  type Alu = (Inst, bool, Bits, Bits, Bits) -> Bits

  datatype Entry = Entry(valid: bool, completed: bool, written: bool, inst: Inst, mode: bool,
                         ops: seq<Operand>, result: Bits)

  // The slot of an entry in host memory; the flags are set by the write that delivers the result.
  datatype Result = Result(result: Bits, flags: bool)

  // ring and results are the two buffers shared with the host; wb is the write-back counter.
  datatype Accel = Accel(entries: seq<Entry>, ring: seq<Cell>, results: seq<Result>, wb: nat)

  datatype Step = FetchOperand(i: nat, k: nat) | ForwardOperand(i: nat, k: nat) | Execute(i: nat) | WriteBack

  // Either the hardware may move on at any time, or only while the host waits for it.
  datatype Pace = Anytime | OnDemand

  predicate Shape(a: Accel) {
    && |a.entries| == NUM_FPGA_ENTRIES && |a.ring| == TOTAL_ENTRIES && |a.results| == NUM_FPGA_ENTRIES
    && a.wb < NUM_FPGA_ENTRIES
    && forall i :: 0 <= i < |a.entries| ==> |a.entries[i].ops| == NUM_OPERAND
  }

  predicate CanFetch(a: Accel, i: nat, k: nat)
    requires Shape(a)
  {
    && i < NUM_FPGA_ENTRIES && k < NUM_OPERAND
    && var e := a.entries[i];
    && e.valid && e.ops[k].Fetch? && e.ops[k].cell < TOTAL_ENTRIES
    && a.ring[e.ops[k].cell].validWithId == e.ops[k].id + 2
  }

  predicate CanForward(a: Accel, i: nat, k: nat)
    requires Shape(a)
  {
    && i < NUM_FPGA_ENTRIES && k < NUM_OPERAND
    && var e := a.entries[i];
    && e.valid && e.ops[k].Ref? && e.ops[k].entry < NUM_FPGA_ENTRIES
    && a.entries[e.ops[k].entry].completed
  }

  predicate CanExecute(a: Accel, i: nat)
    requires Shape(a)
  {
    && i < NUM_FPGA_ENTRIES
    && var e := a.entries[i];
    && e.valid && !e.completed && e.ops[0].Ready? && e.ops[1].Ready? && e.ops[2].Ready?
  }

  predicate CanWriteBack(a: Accel)
    requires Shape(a)
  {
    var e := a.entries[a.wb];
    e.valid && e.completed && !e.written
  }

  predicate Enabled(a: Accel, s: Step)
    requires Shape(a)
  {
    match s
    case FetchOperand(i, k) => CanFetch(a, i, k)
    case ForwardOperand(i, k) => CanForward(a, i, k)
    case Execute(i) => CanExecute(a, i)
    case WriteBack => CanWriteBack(a)
  }

  function WithOperand(a: Accel, i: nat, k: nat, v: Bits): Accel
    requires i < |a.entries| && k < |a.entries[i].ops|
  {
    var e := a.entries[i];
    a.(entries := a.entries[i := e.(ops := e.ops[k := Ready(v)])])
  }

  function Executed(alu: Alu, a: Accel, i: nat): Accel
    requires i < |a.entries| && |a.entries[i].ops| == 3
    requires forall k :: 0 <= k < 3 ==> a.entries[i].ops[k].Ready?
  {
    var e := a.entries[i];
    var r := alu(e.inst, e.mode, e.ops[0].val, e.ops[1].val, e.ops[2].val);
    a.(entries := a.entries[i := e.(completed := true, result := r)])
  }

  function WrittenBack(a: Accel): Accel
    requires a.wb < |a.entries| && a.wb < |a.results|
  {
    var e := a.entries[a.wb];
    a.(entries := a.entries[a.wb := e.(written := true)],
       results := a.results[a.wb := Result(e.result, true)],
       wb := (a.wb + 1) % NUM_FPGA_ENTRIES)
  }

  // One step of the hardware.
  function Apply(alu: Alu, a: Accel, s: Step): Accel
    requires Shape(a) && Enabled(a, s)
  {
    match s
    case FetchOperand(i, k) => WithOperand(a, i, k, a.ring[a.entries[i].ops[k].cell].val)
    case ForwardOperand(i, k) => WithOperand(a, i, k, a.entries[a.entries[i].ops[k].entry].result)
    case Execute(i) => Executed(alu, a, i)
    case WriteBack => WrittenBack(a)
  }

  // ----- what the host knows about the instructions it has issued -----

  // Where an operand comes from: a constant, the req-th operand put in the ring, or an earlier job.
  datatype Arg = Const(val: Bits) | Sent(req: nat) | From(job: nat)

  // first is the number of ring operands sent before the job was prepared; due is the result that
  // evaluating the jobs one after the other gives.
  datatype Job = Job(inst: Inst, mode: bool, args: seq<Arg>, first: nat, due: Bits)

  // spare counts the ring operands sent for the job still being prepared.
  datatype Ledger = Ledger(jobs: seq<Job>, sent: seq<Bits>, spare: nat, retired: nat)

  function ArgVal(h: Ledger, arg: Arg): Bits {
    match arg
    case Const(v) => v
    case Sent(q) => if q < |h.sent| then h.sent[q] else 0
    case From(m) => if m < |h.jobs| then h.jobs[m].due else 0
  }

  ghost predicate ArgOk(h: Ledger, n: nat, first: nat, arg: Arg) {
    match arg
    case Const(v) => true
    case Sent(q) => first <= q < |h.sent|
    case From(m) => m < n < m + 8
  }

  function Due(alu: Alu, h: Ledger, inst: Inst, mode: bool, args: seq<Arg>): Bits
    requires |args| == 3
  {
    alu(inst, mode, ArgVal(h, args[0]), ArgVal(h, args[1]), ArgVal(h, args[2]))
  }

  ghost predicate JobOk(alu: Alu, h: Ledger, n: nat)
    requires n < |h.jobs|
  {
    var j := h.jobs[n];
    && |j.args| == 3
    && (forall k :: 0 <= k < 3 ==> ArgOk(h, n, j.first, j.args[k]))
    && j.due == Due(alu, h, j.inst, j.mode, j.args)
  }

  // Three operands a job at most, so an unfinished job is never 32 requests behind.
  ghost predicate Recent(h: Ledger, n: nat)
    requires n < |h.jobs|
  {
    |h.sent| <= h.jobs[n].first + 3 * (|h.jobs| - n) + h.spare
  }

  ghost predicate LedgerOk(alu: Alu, h: Ledger) {
    && h.retired <= |h.jobs| <= h.retired + 8
    && h.spare <= 3 && h.spare <= |h.sent|
    && (forall n :: 0 <= n < |h.jobs| ==> JobOk(alu, h, n))
    && (forall n :: 0 <= n < |h.jobs| ==> Recent(h, n))
  }

  // ----- the invariant -----

  ghost predicate InWindow(h: Ledger, n: nat) {
    n < |h.jobs| <= n + 8
  }

  ghost predicate OperandOk(h: Ledger, arg: Arg, op: Operand) {
    || op == Ready(ArgVal(h, arg))
    || (arg.Sent? && op == Operand.Fetch(arg.req % 32, arg.req / 32 % 2))
    || (arg.From? && InWindow(h, arg.job) && op == Ref(arg.job % 8))
  }

  ghost predicate EntryOk(h: Ledger, n: nat, e: Entry)
    requires n < |h.jobs|
  {
    var j := h.jobs[n];
    && e.valid && e.inst == j.inst && e.mode == j.mode
    && (e.written <==> n < h.retired)
    && (e.written ==> e.completed)
    && (e.completed ==> e.result == j.due)
    && |j.args| == 3 && |e.ops| == 3
    && (!e.completed ==> forall k :: 0 <= k < 3 ==> OperandOk(h, j.args[k], e.ops[k]))
    && (e.completed ==> forall k :: 0 <= k < 3 ==> e.ops[k].Ready?)
  }

  ghost predicate SlotOk(h: Ledger, n: nat, r: Result)
    requires n < |h.jobs|
  {
    && (r.flags <==> n < h.retired)
    && (r.flags ==> r.result == h.jobs[n].due)
  }

  ghost predicate EntriesOk(a: Accel, h: Ledger)
    requires Shape(a)
  {
    && (forall n: nat :: InWindow(h, n) ==> EntryOk(h, n, a.entries[n % 8]))
    && (forall n: nat :: InWindow(h, n) ==> SlotOk(h, n, a.results[n % 8]))
    && (forall i :: |h.jobs| <= i < 8 ==> !a.entries[i].valid)
  }

  ghost predicate RingOk(a: Accel, h: Ledger)
    requires Shape(a)
  {
    forall q: nat :: q < |h.sent| <= q + 32 ==> a.ring[q % 32] == Cell(h.sent[q], q / 32 % 2 + 2)
  }

  ghost predicate Inv(alu: Alu, a: Accel, h: Ledger) {
    && Shape(a) && LedgerOk(alu, h) && EntriesOk(a, h) && RingOk(a, h)
    && a.wb == h.retired % 8
  }

  // The job that an entry in use holds.
  function JobAt(issued: nat, i: nat): (n: nat)
    requires i < 8 && i < issued
    ensures n < issued <= n + 8 && n % 8 == i
  {
    var d := (issued - 1 - i) % 8;
    assert issued - 1 - d - i == 8 * ((issued - 1 - i) / 8);
    issued - 1 - d
  }

  lemma SameEntry(n: nat, m: nat, issued: nat)
    requires n < issued <= n + 8 && m < issued <= m + 8 && n % 8 == m % 8
    ensures n == m
  {
  }

  // A step changes at most how far the write-back has come.
  function Ledgered(h: Ledger, s: Step): (h': Ledger)
    ensures h' == h.(retired := h'.retired) && h.retired <= h'.retired
  {
    if s.WriteBack? then h.(retired := h.retired + 1) else h
  }

  // A pending ring operand can be fetched at once, and what is fetched is what the job needs: the
  // cell has not been reused since the host wrote it.
  lemma FetchIsDue(alu: Alu, a: Accel, h: Ledger, n: nat, k: nat)
    requires Inv(alu, a, h) && InWindow(h, n) && k < 3
    requires !a.entries[n % 8].completed && a.entries[n % 8].ops[k].Fetch?
    ensures CanFetch(a, n % 8, k)
    ensures a.ring[a.entries[n % 8].ops[k].cell].val == ArgVal(h, h.jobs[n].args[k])
  {
    var e := a.entries[n % 8];
    assert EntryOk(h, n, e) && JobOk(alu, h, n) && Recent(h, n);
    var arg := h.jobs[n].args[k];
    assert OperandOk(h, arg, e.ops[k]) && ArgOk(h, n, h.jobs[n].first, arg);
    assert arg.req < |h.sent| <= arg.req + 32;
  }

  // A pending reference names an entry that still holds the producing job.
  lemma ForwardIsDue(alu: Alu, a: Accel, h: Ledger, n: nat, k: nat)
    requires Inv(alu, a, h) && InWindow(h, n) && k < 3
    requires !a.entries[n % 8].completed && a.entries[n % 8].ops[k].Ref?
    ensures var m := a.entries[n % 8].ops[k].entry;
      m < 8 && (a.entries[m].completed ==> a.entries[m].result == ArgVal(h, h.jobs[n].args[k]))
    ensures h.jobs[n].args[k].From? && h.jobs[n].args[k].job < n && InWindow(h, h.jobs[n].args[k].job)
    ensures a.entries[n % 8].ops[k].entry == h.jobs[n].args[k].job % 8
  {
    var e := a.entries[n % 8];
    assert EntryOk(h, n, e) && JobOk(alu, h, n);
    var arg := h.jobs[n].args[k];
    assert OperandOk(h, arg, e.ops[k]) && ArgOk(h, n, h.jobs[n].first, arg);
    assert EntryOk(h, arg.job, a.entries[arg.job % 8]);
  }

  lemma EntryChanged(alu: Alu, a: Accel, h: Ledger, n: nat, e: Entry)
    requires Inv(alu, a, h) && InWindow(h, n) && EntryOk(h, n, e)
    ensures Inv(alu, a.(entries := a.entries[n % 8 := e]), h)
  {
    assert |e.ops| == 3;
    hide EntryOk, SlotOk, LedgerOk;
    var a' := a.(entries := a.entries[n % 8 := e]);
    forall m: nat | InWindow(h, m) ensures EntryOk(h, m, a'.entries[m % 8]) {
      if m % 8 == n % 8 { SameEntry(n, m, |h.jobs|); }
    }
  }

  // An operand that becomes available changes one entry, to what its job allows.
  lemma FetchedEntry(alu: Alu, a: Accel, h: Ledger, i: nat, k: nat) returns (n: nat, e: Entry)
    requires Inv(alu, a, h) && CanFetch(a, i, k)
    ensures InWindow(h, n) && n % 8 == i && EntryOk(h, n, e)
    ensures Apply(alu, a, FetchOperand(i, k)) == a.(entries := a.entries[i := e])
  {
    n := JobAt(|h.jobs|, i);
    assert InWindow(h, n) && EntryOk(h, n, a.entries[i]);
    FetchIsDue(alu, a, h, n, k);
    OperandArrives(h, n, a.entries[i], k);
    e := a.entries[i].(ops := a.entries[i].ops[k := Ready(ArgVal(h, h.jobs[n].args[k]))]);
  }

  lemma FetchKeeps(alu: Alu, a: Accel, h: Ledger, i: nat, k: nat)
    requires Inv(alu, a, h) && CanFetch(a, i, k)
    ensures Inv(alu, Apply(alu, a, FetchOperand(i, k)), h)
  {
    hide *;
    var n, e := FetchedEntry(alu, a, h, i, k);
    EntryChanged(alu, a, h, n, e);
  }

  lemma ForwardedToEntry(alu: Alu, a: Accel, h: Ledger, i: nat, k: nat) returns (n: nat, e: Entry)
    requires Inv(alu, a, h) && CanForward(a, i, k)
    ensures InWindow(h, n) && n % 8 == i && EntryOk(h, n, e)
    ensures Apply(alu, a, ForwardOperand(i, k)) == a.(entries := a.entries[i := e])
  {
    n := JobAt(|h.jobs|, i);
    assert InWindow(h, n) && EntryOk(h, n, a.entries[i]);
    ForwardIsDue(alu, a, h, n, k);
    OperandArrives(h, n, a.entries[i], k);
    e := a.entries[i].(ops := a.entries[i].ops[k := Ready(ArgVal(h, h.jobs[n].args[k]))]);
  }

  lemma ForwardKeeps(alu: Alu, a: Accel, h: Ledger, i: nat, k: nat)
    requires Inv(alu, a, h) && CanForward(a, i, k)
    ensures Inv(alu, Apply(alu, a, ForwardOperand(i, k)), h)
  {
    hide *;
    var n, e := ForwardedToEntry(alu, a, h, i, k);
    EntryChanged(alu, a, h, n, e);
  }

  lemma OperandArrives(h: Ledger, n: nat, e: Entry, k: nat)
    requires n < |h.jobs| && EntryOk(h, n, e) && k < 3
    ensures EntryOk(h, n, e.(ops := e.ops[k := Ready(ArgVal(h, h.jobs[n].args[k]))]))
  {
  }

  lemma ExecutedEntry(alu: Alu, a: Accel, h: Ledger, i: nat) returns (n: nat, e: Entry)
    requires Inv(alu, a, h) && CanExecute(a, i)
    ensures InWindow(h, n) && n % 8 == i && EntryOk(h, n, e)
    ensures Apply(alu, a, Execute(i)) == a.(entries := a.entries[i := e])
  {
    n := JobAt(|h.jobs|, i);
    assert InWindow(h, n) && EntryOk(h, n, a.entries[i]) && JobOk(alu, h, n);
    ExecutesDue(alu, h, n, a.entries[i]);
    e := a.entries[i].(completed := true, result := h.jobs[n].due);
  }

  lemma ExecuteKeeps(alu: Alu, a: Accel, h: Ledger, i: nat)
    requires Inv(alu, a, h) && CanExecute(a, i)
    ensures Inv(alu, Apply(alu, a, Execute(i)), h)
  {
    hide *;
    var n, e := ExecutedEntry(alu, a, h, i);
    EntryChanged(alu, a, h, n, e);
  }

  // With all operands in place an entry computes what its job is due.
  lemma ExecutesDue(alu: Alu, h: Ledger, n: nat, e: Entry)
    requires n < |h.jobs| && EntryOk(h, n, e) && JobOk(alu, h, n) && !e.completed
    requires e.ops[0].Ready? && e.ops[1].Ready? && e.ops[2].Ready?
    ensures alu(e.inst, e.mode, e.ops[0].val, e.ops[1].val, e.ops[2].val) == h.jobs[n].due
    ensures EntryOk(h, n, e.(completed := true, result := h.jobs[n].due))
  {
    var j := h.jobs[n];
    assert OperandOk(h, j.args[0], e.ops[0]) && OperandOk(h, j.args[1], e.ops[1]) && OperandOk(h, j.args[2], e.ops[2]);
    assert forall k :: 0 <= k < 3 ==> e.ops[k].Ready?;
  }

  // Write-back is in order: the entry at the write-back counter holds the oldest unretired job.
  lemma WriteBackIsOldest(alu: Alu, a: Accel, h: Ledger)
    requires Inv(alu, a, h) && CanWriteBack(a)
    ensures h.retired < |h.jobs| && InWindow(h, h.retired)
  {
    var n := JobAt(|h.jobs|, a.wb);
    assert InWindow(h, n) && EntryOk(h, n, a.entries[a.wb]);
    assert h.retired <= n < h.retired + 8 && n % 8 == h.retired % 8;
  }

  lemma WriteBackKeeps(alu: Alu, a: Accel, h: Ledger)
    requires Inv(alu, a, h) && CanWriteBack(a)
    ensures Inv(alu, Apply(alu, a, WriteBack), h.(retired := h.retired + 1))
  {
    WriteBackIsOldest(alu, a, h);
    var h' := h.(retired := h.retired + 1);
    var a' := Apply(alu, a, WriteBack);
    assert Shape(a');
    JobsStay(alu, h);
    assert RingOk(a', h');
    assert forall i :: |h.jobs| <= i < 8 ==> !a'.entries[i].valid;
    hide EntryOk, SlotOk, LedgerOk, RingOk, Apply;
    forall n: nat | InWindow(h', n)
      ensures EntryOk(h', n, a'.entries[n % 8]) && SlotOk(h', n, a'.results[n % 8])
    {
      WriteBackAt(alu, a, h, n);
    }
  }

  lemma WriteBackAt(alu: Alu, a: Accel, h: Ledger, n: nat)
    requires Inv(alu, a, h) && CanWriteBack(a) && InWindow(h, n)
    ensures EntryOk(h.(retired := h.retired + 1), n, WrittenBack(a).entries[n % 8])
    ensures SlotOk(h.(retired := h.retired + 1), n, WrittenBack(a).results[n % 8])
  {
    WriteBackIsOldest(alu, a, h);
    var r := h.retired;
    assert EntryOk(h, n, a.entries[n % 8]) && SlotOk(h, n, a.results[n % 8]);
    RetiringOthers(h, n, a.entries[n % 8]);
    if n % 8 == r % 8 { SameEntry(n, r, |h.jobs|); }
  }

  lemma RetiringOthers(h: Ledger, n: nat, e: Entry)
    requires n < |h.jobs| && EntryOk(h, n, e)
    ensures n != h.retired ==> EntryOk(h.(retired := h.retired + 1), n, e)
    ensures n == h.retired && e.completed ==> EntryOk(h.(retired := h.retired + 1), n, e.(written := true))
  {
    var h' := h.(retired := h.retired + 1);
    forall k | 0 <= k < 3 && OperandOk(h, h.jobs[n].args[k], e.ops[k])
      ensures OperandOk(h', h.jobs[n].args[k], e.ops[k])
    {
    }
  }

  lemma JobsStay(alu: Alu, h: Ledger)
    requires LedgerOk(alu, h) && h.retired < |h.jobs|
    ensures LedgerOk(alu, h.(retired := h.retired + 1))
  {
    var h' := h.(retired := h.retired + 1);
    forall n | 0 <= n < |h.jobs| ensures JobOk(alu, h', n) && Recent(h', n) {
      assert JobOk(alu, h, n) && Recent(h, n);
    }
  }

  // Every step of the hardware keeps the invariant, whatever the scheduling.
  lemma StepKeeps(alu: Alu, a: Accel, h: Ledger, s: Step)
    requires Inv(alu, a, h) && Enabled(a, s)
    ensures Inv(alu, Apply(alu, a, s), Ledgered(h, s))
  {
    match s
    case FetchOperand(i, k) => FetchKeeps(alu, a, h, i, k);
    case ForwardOperand(i, k) => ForwardKeeps(alu, a, h, i, k);
    case Execute(i) => ExecuteKeeps(alu, a, h, i);
    case WriteBack => WriteBackKeeps(alu, a, h);
  }

  // ----- progress -----

  // As long as a job is unfinished some step is possible: nothing deadlocks.
  lemma Progress(alu: Alu, a: Accel, h: Ledger) returns (s: Step)
    requires Inv(alu, a, h) && h.retired < |h.jobs|
    ensures Enabled(a, s)
  {
    var n := h.retired;
    var i := n % 8;
    var e := a.entries[i];
    assert InWindow(h, n) && EntryOk(h, n, e);
    if e.completed { return WriteBack; }
    if k: nat :| k < 3 && e.ops[k].Fetch? {
      FetchIsDue(alu, a, h, n, k);
      return FetchOperand(i, k);
    }
    if k: nat :| k < 3 && e.ops[k].Ref? {
      ForwardIsDue(alu, a, h, n, k);
      var m := h.jobs[n].args[k].job;
      assert EntryOk(h, m, a.entries[m % 8]);
      return ForwardOperand(i, k);
    }
    return Execute(i);
  }

  // The steps an entry can still take.
  function Left(e: Entry): nat {
    if !e.valid then 0
    else if e.written then 0
    else if e.completed then 1
    else 2 + Waiting(e.ops)
  }

  function Waiting(ops: seq<Operand>): nat {
    if ops == [] then 0 else (if ops[0].Ready? then 0 else 1) + Waiting(ops[1..])
  }

  function Work(entries: seq<Entry>): nat {
    if entries == [] then 0 else Left(entries[0]) + Work(entries[1..])
  }

  lemma {:induction false} WaitingLess(ops: seq<Operand>, k: nat, v: Bits)
    requires k < |ops| && !ops[k].Ready?
    ensures Waiting(ops[k := Ready(v)]) < Waiting(ops)
  {
    var ops' := ops[k := Ready(v)];
    if k == 0 {
      assert ops'[1..] == ops[1..];
    } else {
      assert ops'[1..] == ops[1..][k - 1 := Ready(v)];
      WaitingLess(ops[1..], k - 1, v);
    }
  }

  lemma {:induction false} WorkLess(entries: seq<Entry>, i: nat, e: Entry)
    requires i < |entries| && Left(e) < Left(entries[i])
    ensures Work(entries[i := e]) < Work(entries)
  {
    var entries' := entries[i := e];
    if i == 0 {
      assert entries'[1..] == entries[1..];
    } else {
      assert entries'[1..] == entries[1..][i - 1 := e];
      WorkLess(entries[1..], i - 1, e);
    }
  }

  // Every step uses up work, so an unfinished job finishes whatever the scheduling.
  lemma StepWorks(alu: Alu, a: Accel, h: Ledger, s: Step)
    requires Inv(alu, a, h) && Enabled(a, s)
    ensures Work(Apply(alu, a, s).entries) < Work(a.entries)
  {
    var a' := Apply(alu, a, s);
    match s {
      case FetchOperand(i, k) => OperandWorks(alu, a, h, i, k, a'.entries[i].ops[k].val);
      case ForwardOperand(i, k) => OperandWorks(alu, a, h, i, k, a'.entries[i].ops[k].val);
      case Execute(i) => ExecuteWorks(alu, a, h, i);
      case WriteBack => WorkLess(a.entries, a.wb, a'.entries[a.wb]);
    }
  }

  lemma OperandWorks(alu: Alu, a: Accel, h: Ledger, i: nat, k: nat, v: Bits)
    requires Inv(alu, a, h) && i < 8 && k < 3 && a.entries[i].valid && !a.entries[i].ops[k].Ready?
    ensures Work(WithOperand(a, i, k, v).entries) < Work(a.entries)
  {
    var n := JobAt(|h.jobs|, i);
    var e := a.entries[i];
    assert InWindow(h, n) && EntryOk(h, n, e);
    WaitingLess(e.ops, k, v);
    WorkLess(a.entries, i, e.(ops := e.ops[k := Ready(v)]));
  }

  lemma ExecuteWorks(alu: Alu, a: Accel, h: Ledger, i: nat)
    requires Inv(alu, a, h) && CanExecute(a, i)
    ensures Work(Apply(alu, a, Execute(i)).entries) < Work(a.entries)
  {
    var n := JobAt(|h.jobs|, i);
    assert InWindow(h, n) && EntryOk(h, n, a.entries[i]);
    WorkLess(a.entries, i, Apply(alu, a, Execute(i)).entries[i]);
  }

  // ----- what the host does -----

  // The host puts an operand in the ring cell its request pointer selects.
  function Put(a: Accel, pointer: nat, v: Bits): Accel
    requires CalcByteOffset(pointer) / 8 < |a.ring|
  {
    a.(ring := a.ring[CalcByteOffset(pointer) / 8 := Cell(v, CalcId(pointer) + 2)])
  }

  function Sending(h: Ledger, v: Bits): Ledger {
    h.(sent := h.sent + [v], spare := h.spare + 1)
  }

  lemma PutRing(a: Accel, h: Ledger, v: Bits)
    requires Shape(a) && RingOk(a, h)
    ensures CalcByteOffset(|h.sent| % 256) / 8 < |a.ring|
    ensures Shape(Put(a, |h.sent| % 256, v)) && RingOk(Put(a, |h.sent| % 256, v), Sending(h, v))
    ensures Put(a, |h.sent| % 256, v) == a.(ring := Put(a, |h.sent| % 256, v).ring)
  {
    hide CalcByteOffset, CalcId;
    var r := |h.sent|;
    AddressDecodes(r);
    IdOfRequest(r);
    assert Put(a, r % 256, v).ring == a.ring[r % 32 := Cell(v, r / 32 % 2 + 2)];
  }

  lemma IdOfRequest(r: nat)
    ensures CalcId(r % 256) == r / 32 % 2
  {
    PointerWrap(r);
  }

  // Putting an operand overwrites no cell that an unfinished job still has to fetch from.
  lemma PutKeeps(alu: Alu, a: Accel, h: Ledger, v: Bits)
    requires Inv(alu, a, h) && h.spare < 3
    ensures CalcByteOffset(|h.sent| % 256) / 8 < |a.ring|
    ensures Inv(alu, Put(a, |h.sent| % 256, v), Sending(h, v))
  {
    hide Put, CalcByteOffset, LedgerOk, RingOk, EntryOk, SlotOk;
    var h' := Sending(h, v);
    PutRing(a, h, v);
    var a' := Put(a, |h.sent| % 256, v);
    SendingJobs(alu, h, v);
    forall n: nat | InWindow(h', n)
      ensures EntryOk(h', n, a'.entries[n % 8]) && SlotOk(h', n, a'.results[n % 8])
    {
      assert InWindow(h, n) && EntryOk(h, n, a.entries[n % 8]) && SlotOk(h, n, a.results[n % 8]);
      SendingEntry(alu, h, v, n, a.entries[n % 8]);
      SendingSlot(h, v, n, a.results[n % 8]);
    }
  }

  lemma SendingSlot(h: Ledger, v: Bits, n: nat, r: Result)
    requires n < |h.jobs| && SlotOk(h, n, r)
    ensures SlotOk(Sending(h, v), n, r)
  {
  }

  lemma SendingJobs(alu: Alu, h: Ledger, v: Bits)
    requires LedgerOk(alu, h) && h.spare < 3
    ensures LedgerOk(alu, Sending(h, v))
  {
    var h' := Sending(h, v);
    forall n | 0 <= n < |h.jobs| ensures JobOk(alu, h', n) && Recent(h', n) {
      assert JobOk(alu, h, n) && Recent(h, n);
      var j := h.jobs[n];
      assert forall k :: 0 <= k < 3 ==>
        ArgOk(h, n, j.first, j.args[k]) && ArgVal(h', j.args[k]) == ArgVal(h, j.args[k]);
    }
  }

  lemma SendingEntry(alu: Alu, h: Ledger, v: Bits, n: nat, e: Entry)
    requires LedgerOk(alu, h) && InWindow(h, n) && EntryOk(h, n, e)
    ensures EntryOk(Sending(h, v), n, e)
  {
    var h', j := Sending(h, v), h.jobs[n];
    assert JobOk(alu, h, n);
    forall k | 0 <= k < 3 && OperandOk(h, j.args[k], e.ops[k])
      ensures OperandOk(h', j.args[k], e.ops[k])
    {
      assert ArgOk(h, n, j.first, j.args[k]);
    }
  }

  function ClearFlags(a: Accel, r: nat): (a': Accel)
    requires r < |a.results|
    ensures a'.entries == a.entries && a'.ring == a.ring
  {
    a.(results := a.results[r := a.results[r].(flags := false)])
  }

  function ForwardedOperand(entries: seq<Entry>, op: Operand): Operand {
    if op.Ref? && op.entry < |entries| && entries[op.entry].completed then Ready(entries[op.entry].result) else op
  }

  function ForwardedEntry(entries: seq<Entry>, e: Entry): Entry {
    e.(ops := seq(|e.ops|, k requires 0 <= k < |e.ops| => ForwardedOperand(entries, e.ops[k])))
  }

  // On every clock edge all results that are complete are forwarded.
  function ForwardAll(entries: seq<Entry>): seq<Entry> {
    seq(|entries|, i requires 0 <= i < |entries| => ForwardedEntry(entries, entries[i]))
  }

  // The accelerator takes a request for entry r.
  function Accept(a: Accel, r: nat, inst: Inst, mode: bool, addrs: seq<nat>): Accel
    requires r < |a.entries| && |addrs| == 3
  {
    var ops := [Decode(addrs[0]), Decode(addrs[1]), Decode(addrs[2])];
    a.(entries := ForwardAll(a.entries)[r := Entry(true, false, false, inst, mode, ops, 0)])
  }

  function Issuing(alu: Alu, h: Ledger, inst: Inst, mode: bool, args: seq<Arg>): Ledger
    requires |args| == 3 && h.spare <= |h.sent|
  {
    h.(jobs := h.jobs + [Job(inst, mode, args, |h.sent| - h.spare, Due(alu, h, inst, mode, args))], spare := 0)
  }

  // An address the host may send for an operand that comes from arg.
  ghost predicate AddressOk(h: Ledger, arg: Arg, addr: nat) {
    match arg
    case Const(v) => Decode(addr) == Ready(v)
    case Sent(q) => |h.sent| - h.spare <= q < |h.sent| && Decode(addr) == Operand.Fetch(q % 32, q / 32 % 2)
    case From(m) => m < |h.jobs| < m + 8 && Decode(addr) == Ref(m % 8)
  }

  ghost predicate RequestOk(h: Ledger, args: seq<Arg>, addrs: seq<nat>) {
    && |args| == 3 && |addrs| == 3
    && AddressOk(h, args[0], addrs[0]) && AddressOk(h, args[1], addrs[1]) && AddressOk(h, args[2], addrs[2])
  }

  lemma IssuingJobs(alu: Alu, h: Ledger, inst: Inst, mode: bool, args: seq<Arg>, addrs: seq<nat>)
    requires LedgerOk(alu, h) && RequestOk(h, args, addrs) && |h.jobs| < h.retired + 8
    ensures LedgerOk(alu, Issuing(alu, h, inst, mode, args))
  {
    var h' := Issuing(alu, h, inst, mode, args);
    forall n | 0 <= n < |h'.jobs| ensures JobOk(alu, h', n) && Recent(h', n) {
      if n < |h.jobs| {
        assert JobOk(alu, h, n) && Recent(h, n);
        var j := h.jobs[n];
        assert forall k :: 0 <= k < 3 ==>
          ArgOk(h, n, j.first, j.args[k]) && ArgVal(h', j.args[k]) == ArgVal(h, j.args[k]);
      } else {
        assert forall k :: 0 <= k < 3 ==> AddressOk(h, args[k], addrs[k]) && ArgVal(h', args[k]) == ArgVal(h, args[k]);
      }
    }
  }

  // The entries of earlier jobs once everything complete has been forwarded: no reference to the
  // entry about to be reused is left.
  lemma IssuingEntry(alu: Alu, a: Accel, h: Ledger, inst: Inst, mode: bool, args: seq<Arg>, n: nat)
    requires Inv(alu, a, h) && |args| == 3 && |h.jobs| < h.retired + 8
    requires InWindow(h, n)
    ensures EntryOk(Issuing(alu, h, inst, mode, args), n, ForwardedEntry(a.entries, a.entries[n % 8]))
  {
    var h' := Issuing(alu, h, inst, mode, args);
    var e := a.entries[n % 8];
    var e' := ForwardedEntry(a.entries, e);
    assert EntryOk(h, n, e);
    forall k | 0 <= k < 3 && !e.completed
      ensures OperandOk(h', h.jobs[n].args[k], e'.ops[k])
    {
      IssuingOperand(alu, a, h, inst, mode, args, n, k);
    }
  }

  lemma IssuingOperand(alu: Alu, a: Accel, h: Ledger, inst: Inst, mode: bool, args: seq<Arg>, n: nat, k: nat)
    requires Inv(alu, a, h) && |args| == 3 && |h.jobs| < h.retired + 8
    requires InWindow(h, n) && k < 3 && !a.entries[n % 8].completed && |a.entries[n % 8].ops| == 3
    requires |h.jobs[n].args| == 3
    ensures OperandOk(Issuing(alu, h, inst, mode, args), h.jobs[n].args[k],
                      ForwardedOperand(a.entries, a.entries[n % 8].ops[k]))
  {
    var op, arg := a.entries[n % 8].ops[k], h.jobs[n].args[k];
    assert EntryOk(h, n, a.entries[n % 8]) && JobOk(alu, h, n);
    assert OperandOk(h, arg, op) && ArgOk(h, n, h.jobs[n].first, arg);
    var h' := Issuing(alu, h, inst, mode, args);
    assert ArgVal(h', arg) == ArgVal(h, arg);
    if op.Ref? {
      ForwardIsDue(alu, a, h, n, k);
      assert EntryOk(h, arg.job, a.entries[arg.job % 8]);
    }
  }

  // Issuing a job whose entry is free keeps the invariant.
  lemma AcceptKeeps(alu: Alu, a: Accel, h: Ledger, inst: Inst, mode: bool, args: seq<Arg>, addrs: seq<nat>)
    requires Inv(alu, a, h) && RequestOk(h, args, addrs) && |h.jobs| < h.retired + 8
    ensures var r := |h.jobs| % 8;
      Inv(alu, Accept(ClearFlags(a, r), r, inst, mode, addrs), Issuing(alu, h, inst, mode, args))
  {
    hide JobOk, Recent, RingOk, EntryOk, SlotOk, ForwardAll;
    var r := |h.jobs| % 8;
    var h' := Issuing(alu, h, inst, mode, args);
    var a' := Accept(ClearFlags(a, r), r, inst, mode, addrs);
    IssuingJobs(alu, h, inst, mode, args, addrs);
    AcceptShape(a, r, inst, mode, addrs);
    AcceptRing(a, h, a', h');
    AcceptUnused(a, |h.jobs|, inst, mode, addrs);
    forall n: nat | InWindow(h', n)
      ensures EntryOk(h', n, a'.entries[n % 8]) && SlotOk(h', n, a'.results[n % 8])
    {
      AcceptedAt(alu, a, h, inst, mode, args, addrs, n);
    }
  }

  lemma RequestSize(h: Ledger, args: seq<Arg>, addrs: seq<nat>)
    requires RequestOk(h, args, addrs)
    ensures |args| == 3 && |addrs| == 3
  {
  }

  lemma AcceptUnused(a: Accel, issued: nat, inst: Inst, mode: bool, addrs: seq<nat>)
    requires Shape(a) && |addrs| == 3 && forall i :: issued <= i < 8 ==> !a.entries[i].valid
    ensures var r := issued % 8; var a' := Accept(ClearFlags(a, r), r, inst, mode, addrs);
      |a'.entries| == 8 && forall i :: issued + 1 <= i < 8 ==> !a'.entries[i].valid
  {
  }

  lemma AcceptRing(a: Accel, h: Ledger, a': Accel, h': Ledger)
    requires Shape(a) && Shape(a') && RingOk(a, h) && a'.ring == a.ring && h'.sent == h.sent
    ensures RingOk(a', h')
  {
  }

  lemma AcceptShape(a: Accel, r: nat, inst: Inst, mode: bool, addrs: seq<nat>)
    requires Shape(a) && r < 8 && |addrs| == 3
    ensures Shape(Accept(ClearFlags(a, r), r, inst, mode, addrs))
  {
  }

  lemma AcceptedAt(alu: Alu, a: Accel, h: Ledger, inst: Inst, mode: bool, args: seq<Arg>, addrs: seq<nat>, n: nat)
    requires Inv(alu, a, h) && RequestOk(h, args, addrs) && |h.jobs| < h.retired + 8
    requires n <= |h.jobs| < n + 8
    ensures var r := |h.jobs| % 8;
      var h' := Issuing(alu, h, inst, mode, args);
      var a' := Accept(ClearFlags(a, r), r, inst, mode, addrs);
      && |a'.entries| == 8 && |a'.results| == 8
      && EntryOk(h', n, a'.entries[n % 8]) && SlotOk(h', n, a'.results[n % 8])
  {
    var r := |h.jobs| % 8;
    if n < |h.jobs| {
      assert InWindow(h, n);
      assert SlotOk(h, n, a.results[n % 8]);
      IssuingEntry(alu, a, h, inst, mode, args, n);
    } else {
      forall k | 0 <= k < 3
        ensures OperandOk(Issuing(alu, h, inst, mode, args), args[k], Decode(addrs[k]))
      {
        assert AddressOk(h, args[k], addrs[k]);
      }
    }
  }

  // The hardware runs on its own: any number of steps in any order.
  method Drift(alu: Alu, pace: Pace, start: Accel, ghost before: Ledger) returns (a: Accel, ghost h: Ledger)
    requires Inv(alu, start, before)
    ensures Inv(alu, a, h) && h == before.(retired := h.retired) && before.retired <= h.retired
    ensures pace == OnDemand ==> h == before
  {
    a, h := start, before;
    if pace == OnDemand { return; }
    hide *;
    while *
      invariant Inv(alu, a, h) && h == before.(retired := h.retired) && before.retired <= h.retired
      decreases Work(a.entries)
    {
      InvShape(alu, a, h);
      var s: Step := *;
      if !Enabled(a, s) { break; }
      StepKeeps(alu, a, h, s);
      StepWorks(alu, a, h, s);
      a, h := Apply(alu, a, s), Ledgered(h, s);
    }
  }

  // A hardware step neither looks at the flags of the slot about to be reused nor writes that slot.
  lemma ClearedStep(alu: Alu, a: Accel, h: Ledger, r: nat, s: Step)
    requires Inv(alu, a, h) && r == |h.jobs| % 8 && |h.jobs| < h.retired + 8
    ensures |a.results| == 8 && Shape(ClearFlags(a, r)) && Enabled(ClearFlags(a, r), s) == Enabled(a, s)
    ensures Enabled(a, s) ==> |Apply(alu, a, s).results| == 8
    ensures Enabled(a, s) ==> Apply(alu, ClearFlags(a, r), s) == ClearFlags(Apply(alu, a, s), r)
  {
    if s.WriteBack? && Enabled(a, s) {
      WriteBackIsOldest(alu, a, h);
      assert a.wb != r;
      var e := a.entries[a.wb];
      var cleared := a.results[r].(flags := false);
      assert a.results[a.wb := Result(e.result, true)][r := cleared]
        == a.results[r := cleared][a.wb := Result(e.result, true)];
    }
  }

  // The same for the hardware between the clearing of the flags of slot r and the request: what it
  // does there it could have done before.
  method DriftCleared(alu: Alu, pace: Pace, start: Accel, r: nat, ghost whole: Accel, ghost before: Ledger)
      returns (a: Accel, ghost b: Accel, ghost h: Ledger)
    requires Inv(alu, whole, before) && r == |before.jobs| % 8 && |before.jobs| < before.retired + 8
    requires |whole.results| == 8 && start == ClearFlags(whole, r)
    ensures |b.results| == 8 && a == ClearFlags(b, r)
    ensures Inv(alu, b, h) && h == before.(retired := h.retired) && before.retired <= h.retired
    ensures pace == OnDemand ==> h == before
  {
    a, b, h := start, whole, before;
    if pace == OnDemand { return; }
    hide *;
    while *
      invariant |b.results| == 8 && a == ClearFlags(b, r)
      invariant Inv(alu, b, h) && h == before.(retired := h.retired) && before.retired <= h.retired
      decreases Work(b.entries)
    {
      var s: Step := *;
      ClearedStep(alu, b, h, r, s);
      InvShape(alu, b, h);
      if !Enabled(a, s) { break; }
      StepKeeps(alu, b, h, s);
      StepWorks(alu, b, h, s);
      a, b, h := Apply(alu, a, s), Apply(alu, b, s), Ledgered(h, s);
    }
  }

  // How many jobs are known to be written back once the n-th one is.
  function Past(landed: nat, n: nat): nat {
    if landed <= n then n + 1 else landed
  }

  // Spinning until the flags of slot r are set ends, whatever the hardware does in between, with
  // the result that the last job of that entry is due.
  method Await(alu: Alu, start: Accel, r: nat, ghost before: Ledger) returns (a: Accel, ghost h: Ledger)
    requires Inv(alu, start, before) && r < 8 && r < |before.jobs|
    ensures Inv(alu, a, h) && h == before.(retired := h.retired) && before.retired <= h.retired
    ensures JobAt(|h.jobs|, r) < h.retired && r < |a.results|
    ensures a.results[r] == Result(h.jobs[JobAt(|h.jobs|, r)].due, true)
    ensures h.retired == Past(before.retired, JobAt(|h.jobs|, r))
  {
    a, h := start, before;
    InvShape(alu, a, h);
    ghost var n := JobAt(|h.jobs|, r);
    PastStart(before.retired, n);
    hide *;
    while !a.results[r].flags
      invariant Inv(alu, a, h) && h == before.(retired := h.retired) && before.retired <= h.retired
      invariant r < |a.results| && h.retired <= Past(before.retired, n)
      decreases Work(a.entries)
    {
      SlotFilled(alu, a, h, r);
      InvShape(alu, a, h);
      ghost var possible := Progress(alu, a, h);
      var s: Step :| Enabled(a, s);
      StepKeeps(alu, a, h, s);
      StepWorks(alu, a, h, s);
      PastNext(before.retired, h, n, s);
      a, h := Apply(alu, a, s), Ledgered(h, s);
      InvShape(alu, a, h);
    }
    SlotFilled(alu, a, h, r);
    PastReached(before.retired, h.retired, n);
  }

  lemma PastStart(landed: nat, n: nat)
    ensures landed <= Past(landed, n)
  {
  }

  lemma PastNext(before: nat, h: Ledger, n: nat, s: Step)
    requires h.retired <= n
    ensures Ledgered(h, s).retired <= Past(before, n)
  {
  }

  lemma PastReached(before: nat, retired: nat, n: nat)
    requires before <= retired <= Past(before, n) && n < retired
    ensures retired == Past(before, n)
  {
  }

  // What happens if the host does not wait. The entry of the next instruction still holds a job that
  // has not been written back. The host clears the flags and posts the request. The hardware cannot
  // take it, and nobody looks at its ready signal, so the request is lost. The write of the old job
  // then sets the flags, and the host reads its result.
  method StaleRead(alu: Alu, start: Accel, r: nat, ghost before: Ledger) returns (v: Bits)
    requires Inv(alu, start, before) && |before.jobs| == before.retired + 8 && r == |before.jobs| % 8
    ensures v == before.jobs[|before.jobs| - 8].due
  {
    hide *;
    SlotFilled(alu, start, before, r);
    SameEntry(JobAt(|before.jobs|, r), |before.jobs| - 8, |before.jobs|);
    var a := ClearFlags(start, r);
    FlagsAreClear(start, r);
    ghost var h;
    a, h := Await(alu, a, r, before);
    v := a.results[r].result;
  }

  lemma FlagsAreClear(a: Accel, r: nat)
    requires r < |a.results| && !a.results[r].flags
    ensures ClearFlags(a, r) == a
  {
    assert a.results[r := a.results[r].(flags := false)] == a.results;
  }

  // Operands in the ring for the instruction being prepared.
  method PutOne(alu: Alu, start: Accel, v: Bits, ghost before: Ledger, pointer: nat)
      returns (a: Accel, ghost h: Ledger)
    requires Inv(alu, start, before) && before.spare < 3
    requires pointer == |before.sent| % 256
    ensures Inv(alu, a, h) && h == before.(sent := before.sent + [v], spare := before.spare + 1)
  {
    hide Inv, Put, CalcByteOffset;
    PutKeeps(alu, start, before, v);
    a, h := Put(start, pointer, v), Sending(before, v);
  }

  method PutTwo(alu: Alu, start: Accel, v: Bits, ghost before: Ledger, pointer: nat)
      returns (a: Accel, ghost h: Ledger)
    requires Inv(alu, start, before) && before.spare == 0
    requires pointer == |before.sent| && pointer < 254
    ensures Inv(alu, a, h) && h == before.(sent := before.sent + [v] + [v], spare := 2)
  {
    hide *;
    a, h := PutOne(alu, start, v, before, pointer);
    a, h := PutOne(alu, a, v, h, pointer + 1);
  }

  // The request for the two operands sent last.
  lemma TwoSent(alu: Alu, h: Ledger, q: nat, v: Bits)
    requires h.spare == 2 && |h.sent| == q + 2 < 256 && h.sent[q] == v && h.sent[q + 1] == v
    ensures RequestOk(h, [Sent(q), Sent(q + 1), Const(0)], [CellAddress(q), CellAddress(q + 1), 0])
    ensures Due(alu, h, AddSub, false, [Sent(q), Sent(q + 1), Const(0)]) == alu(AddSub, false, v, v, 0)
  {
    hide CellAddress, AddressOk;
    SentAddress(h, q);
    SentAddress(h, q + 1);
    NoOperand(h);
  }

  lemma SentAddress(h: Ledger, q: nat)
    requires |h.sent| - h.spare <= q < |h.sent| < 256
    ensures AddressOk(h, Sent(q), CellAddress(q))
  {
    hide CellAddress, Decode;
    AddressDecodes(q);
  }

  lemma NoOperand(h: Ledger)
    ensures AddressOk(h, Const(0), 0)
  {
  }

  // v + v as the n-th instruction, with both operands by value.
  method AddTwice(alu: Alu, start: Accel, n: nat, v: Bits, ghost before: Ledger)
      returns (a: Accel, ghost h: Ledger)
    requires Inv(alu, start, before) && before.spare == 0 && before.retired == 0
    requires n == |before.jobs| && n < 8 && |before.sent| == 2 * n
    ensures Inv(alu, a, h) && h.spare == 0 && h.retired == 0 && |h.jobs| == n + 1 && |h.sent| == 2 * (n + 1)
    ensures h.jobs[..n] == before.jobs && h.jobs[n].due == alu(AddSub, false, v, v, 0)
  {
    hide Inv, Put, Decode, CellAddress, Accept, ClearFlags, RequestOk, Due;
    a, h := PutTwo(alu, start, v, before, 2 * n);
    TwoSent(alu, h, 2 * n, v);
    ghost var args := [Sent(2 * n), Sent(2 * n + 1), Const(0)];
    var addrs := [CellAddress(2 * n), CellAddress(2 * n + 1), 0];
    InvShape(alu, a, h);
    AcceptKeeps(alu, a, h, AddSub, false, args, addrs);
    a, h := Accept(ClearFlags(a, n), n, AddSub, false, addrs), Issuing(alu, h, AddSub, false, args);
  }

  // Such a run: nine instructions whose results nobody else holds, and a slow accelerator. The ninth
  // is 2 + 2, and the host reads 1 + 1 for it, whatever addition is.
  method StaleRun(alu: Alu) returns (read: Bits, ghost due: Bits)
    ensures read == alu(AddSub, false, 1, 1, 0) && due == alu(AddSub, false, 2, 2, 0)
  {
    hide Inv, Idle, RequestOk, Due;
    var a := Idle();
    ghost var h := Ledger([], [], 0, 0);
    IdleInv(alu);
    for n := 0 to 8
      invariant Inv(alu, a, h) && h.spare == 0 && h.retired == 0 && |h.jobs| == n && |h.sent| == 2 * n
      invariant n > 0 ==> h.jobs[0].due == alu(AddSub, false, 1, 1, 0)
    {
      ghost var jobs := h.jobs;
      a, h := AddTwice(alu, a, n, 1, h);
      assert n > 0 ==> h.jobs[..n][0] == jobs[0];
    }
    a, h := PutTwo(alu, a, 2, h, 16);
    TwoSent(alu, h, 16, 2);
    due := Due(alu, h, AddSub, false, [Sent(16), Sent(17), Const(0)]);
    read := StaleRead(alu, a, 0, h);
  }

  lemma InvShape(alu: Alu, a: Accel, h: Ledger)
    requires Inv(alu, a, h)
    ensures Shape(a) && |a.results| == 8
  {
  }

  lemma SlotFilled(alu: Alu, a: Accel, h: Ledger, r: nat)
    requires Inv(alu, a, h) && r < 8 && r < |h.jobs|
    ensures |a.results| == 8 && JobAt(|h.jobs|, r) < |h.jobs|
    ensures a.results[r].flags <==> JobAt(|h.jobs|, r) < h.retired
    ensures a.results[r].flags ==> a.results[r] == Result(h.jobs[JobAt(|h.jobs|, r)].due, true)
    ensures !a.results[r].flags ==> h.retired < |h.jobs|
  {
    var n := JobAt(|h.jobs|, r);
    assert InWindow(h, n) && SlotOk(h, n, a.results[n % 8]);
  }

  function Idle(): Accel {
    var e := Entry(false, false, false, Noop, false, [Ready(0), Ready(0), Ready(0)], 0);
    Accel(seq(8, i => e), seq(32, i => Cell(0, 0)), seq(8, i => Result(0, false)), 0)
  }

  lemma IdleInv(alu: Alu)
    ensures Inv(alu, Idle(), Ledger([], [], 0, 0))
  {
  }
}
