// The lazy tracker: arithmetic is issued to the accelerator and returns a handle whose value is
// fetched when it is needed. Every run gives what eager evaluation gives.
module Hardposits {

  import DoubleToP32
  import opened P32Fields
  import opened OperandRing
  import opened Accelerator
  import opened AliasLists

  // The three ways the library is built.
  datatype Build = Reuse | NoReuse | Baseline

  class Hardposit {
    var val: Bits
    var valid: bool
    var inFpga: bool
    var location: nat
    var globalLocation: nat

    constructor (inVal: Bits)
      ensures View() == Handle(inVal, true, false, 0, 0)
    {
      val, valid, inFpga, location, globalLocation := inVal, true, false, 0, 0;
    }

    ghost function View(): Handle
      reads this
    {
      Handle(val, valid, inFpga, location, globalLocation)
    }
  }

  class Tracker {
    const alu: Alu
    const build: Build
    const pace: Pace

    var globalCounter: nat
    var reqQPointer: nat
    // The alias list of every entry and whether the entry has a result slot yet.
    var crntPosit: seq<seq<Hardposit>>
    var hasPtr: seq<bool>
    var accel: Accel

    // The jobs issued so far, and the value every live object denotes.
    ghost var ledger: Ledger
    ghost var meaning: map<Hardposit, Bits>
    // How often a write was assumed to land that the program does not wait for.
    ghost var assumed: nat
    // How many jobs are written back for certain, because the host has waited for one of them.
    ghost var landed: nat

    ghost function View(): map<Hardposit, Handle>
      reads this`meaning, meaning.Keys
    {
      map o | o in meaning :: o.View()
    }

    // An entry has a result slot once it has been used.
    static ghost predicate PtrsSet(hasPtr: seq<bool>, issued: nat) {
      |hasPtr| == 8 && forall l :: 0 <= l < 8 ==> (hasPtr[l] <==> l < issued)
    }

    ghost predicate Counted()
      reads this`globalCounter, this`reqQPointer, this`hasPtr, this`ledger
    {
      && globalCounter == |ledger.jobs| && reqQPointer == |ledger.sent| % 256
      && PtrsSet(hasPtr, |ledger.jobs|)
    }

    // With hardware that moves on only while the host waits, nothing else is written back.
    ghost predicate Timed()
      reads this`landed, this`ledger
    {
      landed <= ledger.retired && (pace == OnDemand ==> landed == ledger.retired)
    }

    // What holds at every point, also between the operands of one instruction.
    ghost predicate Consistent()
      reads this, meaning.Keys
    {
      Counted() && Timed() && Inv(alu, accel, ledger) && Faithful(ledger, View(), meaning, crntPosit)
    }

    ghost predicate Valid()
      reads this, meaning.Keys
    {
      Consistent() && ledger.spare == 0
    }

    lemma Parts()
      requires Consistent()
      ensures Counted() && Timed() && Inv(alu, accel, ledger) && Faithful(ledger, View(), meaning, crntPosit)
    {
    }

    lemma Whole()
      requires Counted() && Timed() && Inv(alu, accel, ledger) && Faithful(ledger, View(), meaning, crntPosit)
      ensures Consistent()
    {
    }

    lemma CountedFrom()
      requires globalCounter == |ledger.jobs| && reqQPointer == |ledger.sent| % 256 && PtrsSet(hasPtr, |ledger.jobs|)
      ensures Counted()
    {
    }

    lemma TimedFrom()
      requires landed <= ledger.retired && (pace == OnDemand ==> landed == ledger.retired)
      ensures Timed()
    {
    }

    lemma TimedFacts()
      requires Timed()
      ensures landed <= ledger.retired && (pace == OnDemand ==> landed == ledger.retired)
    {
    }

    // The n-th job has been written back.
    lemma TimedPast(n: nat)
      requires Timed() && n < ledger.retired
      ensures landed <= Past(landed, n) <= ledger.retired && (pace == OnDemand ==> Past(landed, n) == landed)
    {
    }

    // The host has waited for the n-th job.
    static lemma Waited(pace: Pace, landed: nat, before: nat, mid: nat, after: nat, n: nat)
      requires landed <= before && mid == Past(before, n) && mid <= after
      requires pace == OnDemand ==> landed == before && mid == after
      ensures Past(landed, n) <= after && (pace == OnDemand ==> Past(landed, n) == after)
    {
    }

    lemma ValidParts()
      requires Valid()
      ensures Consistent() && ledger.spare == 0
    {
    }

    lemma ValidFrom()
      requires Consistent() && ledger.spare == 0
      ensures Valid()
    {
    }

    lemma CountFacts()
      requires Consistent()
      ensures globalCounter == |ledger.jobs| && |hasPtr| == 8 && |crntPosit| == 8
      ensures PtrsSet(hasPtr, |ledger.jobs|) && reqQPointer == |ledger.sent| % 256
      ensures View().Keys == meaning.Keys && |accel.entries| == 8 && |accel.results| == 8
    {
    }

    // A view grows by the object that is added.
    lemma ViewWith(view: map<Hardposit, Handle>, o: Hardposit)
      requires meaning.Keys == view.Keys + {o}
      requires forall p :: p in view && p != o ==> p.View() == view[p]
      ensures View() == view[o := o.View()]
    {
    }

    lemma Views()
      ensures View().Keys == meaning.Keys && forall p :: p in View() ==> p.View() == View()[p]
    {
    }

    lemma ViewWithout(view: map<Hardposit, Handle>, o: Hardposit)
      requires meaning.Keys == view.Keys - {o}
      requires forall p :: p in view && p != o ==> p.View() == view[p]
      ensures View() == view - {o}
    {
    }

    constructor (alu: Alu, build: Build, pace: Pace)
      ensures Valid() && meaning == map[] && this.alu == alu && this.build == build && this.pace == pace
      ensures globalCounter == 0 && assumed == 0 && landed == 0
    {
      this.alu, this.build, this.pace := alu, build, pace;
      globalCounter, reqQPointer := 0, 0;
      crntPosit, hasPtr := seq(8, i => []), seq(8, i => false);
      accel, ledger, meaning := Idle(), Ledger([], [], 0, 0), map[];
      assumed, landed := 0, 0;
      new;
      IdleInv(alu);
    }

    // A value of the list of an entry, delivered to all its aliases.
    method Deliver(pos: nat, v: Bits, keep: bool)
      requires pos < |crntPosit| && forall o :: o in crntPosit[pos] ==> o in meaning
      modifies crntPosit[pos]
      ensures View() == ResolveAll(old(View()), crntPosit[pos], v, keep)
    {
      var list := crntPosit[pos];
      for i := 0 to |list|
        invariant forall o :: o in meaning && o in list[..i] ==> o.View() == Resolved(old(o.View()), v, keep)
        invariant forall o :: o in meaning && o !in list[..i] ==> o.View() == old(o.View())
      {
        list[i].inFpga := keep;
        list[i].val := v;
        list[i].valid := true;
      }
    }
  
    // The list of an entry denotes the result of the last job of that entry.
    lemma ListFacts(pos: nat)
      requires Consistent() && pos < 8
      ensures |crntPosit| == 8 && |hasPtr| == 8 && forall o :: o in crntPosit[pos] ==> o in meaning
      ensures crntPosit[pos] != [] ==> pos < |ledger.jobs| && hasPtr[pos]
      ensures crntPosit[pos] != [] && crntPosit[pos][0].valid ==> Finished(ledger, pos, crntPosit[pos][0].val)
    {
      forall o | o in crntPosit[pos]
        ensures o in meaning && pos < |ledger.jobs|
        ensures o.valid ==> Finished(ledger, pos, o.val)
      {
        ListMeans<Hardposit>(ledger, View(), meaning, crntPosit, pos, o);
      }
      if crntPosit[pos] != [] { assert crntPosit[pos][0] in crntPosit[pos]; }
    }

    // The program spins on the flags of the slot; the hardware may go on before the result is read.
    method Spin(pos: nat) returns (v: Bits)
      requires Inv(alu, accel, ledger) && pos < 8 && pos < |ledger.jobs| && Timed()
      modifies this`accel, this`ledger, this`landed
      ensures Inv(alu, accel, ledger) && Later(old(ledger), ledger) && Finished(ledger, pos, v) && Timed()
      ensures landed == Past(old(landed), JobAt(|ledger.jobs|, pos))
    {
      ghost var n, before := JobAt(|ledger.jobs|, pos), ledger.retired;
      accel, ledger := Await(alu, accel, pos, ledger);
      ghost var mid := ledger.retired;
      accel, ledger := Drift(alu, pace, accel, ledger);
      SlotFilled(alu, accel, ledger, pos);
      v := accel.results[pos].result;
      Waited(pace, landed, before, mid, ledger.retired, n);
      landed := Past(landed, n);
    }

    // Resolves all aliases of entry pos, waiting for the accelerator if they have no value yet.
    method GetValAtSlot(pos: nat, keep: bool) returns (ghost v: Bits)
      requires Consistent() && pos < 8
      modifies this`accel, this`ledger, this`landed, crntPosit[pos]
      ensures Inv(alu, accel, ledger) && Later(old(ledger), ledger) && Timed()
      ensures |crntPosit| == 8 && View() == ResolveAll(old(View()), crntPosit[pos], v, keep)
      ensures crntPosit[pos] != [] ==> Finished(ledger, pos, v)
      ensures crntPosit[pos] != [] ==> pos < |ledger.jobs| && landed == Past(old(landed), JobAt(|ledger.jobs|, pos))
      ensures crntPosit[pos] == [] ==> ledger == old(ledger) && landed == old(landed)
    {
      hide *;
      ListFacts(pos);
      v := 0;
      Parts();
      LaterFrom(ledger, ledger);
      if crntPosit[pos] != [] {
        if crntPosit[pos][0].valid {
          var value := crntPosit[pos][0].val;
          v := value;
          FinishedMeans(ledger, pos, v);
          TimedFacts();
          TimedPast(JobAt(|ledger.jobs|, pos));
          landed := Past(landed, JobAt(|ledger.jobs|, pos));
          TimedFrom();
          Deliver(pos, value, keep);
        } else if hasPtr[pos] {
          ghost var h := ledger;
          var value := Spin(pos);
          v := value;
          LaterSame(h, ledger);
          Deliver(pos, value, keep);
        }
      } else {
        NothingListed(View(), v, keep);
      }
    }

    lemma NothingListed<T>(view: map<T, Handle>, v: Bits, keep: bool)
      ensures ResolveAll(view, [], v, keep) == view
    {
    }

    // An object without a value is listed at its entry, which still holds its job.
    lemma UnresolvedFacts(o: Hardposit)
      requires Consistent() && o in meaning
      ensures o.valid ==> o.val == meaning[o] && (o.inFpga ==> o.globalLocation < ledger.retired)
      ensures !o.valid ==> o.inFpga && o.location < 8 && |crntPosit| == 8 && o in crntPosit[o.location]
      ensures !o.valid ==> o.location < |ledger.jobs| && o.globalLocation == JobAt(|ledger.jobs|, o.location)
    {
      assert HandleOk(ledger, View()[o], meaning[o]);
      if !o.valid {
        assert View()[o].inFpga && o in crntPosit[o.location];
        ListMeans<Hardposit>(ledger, View(), meaning, crntPosit, o.location, o);
      }
    }

    // The value an object denotes.
    method GetVal(o: Hardposit) returns (v: Bits)
      requires Consistent() && o in meaning
      modifies this`accel, this`ledger, this`landed, meaning.Keys
      ensures Consistent() && Later(old(ledger), ledger)
      ensures v == meaning[o] && (old(Valid()) ==> Valid())
      ensures Placed(old(View()), View(), false, 0) && View().Keys == old(View()).Keys
      ensures landed == Fetched(old(View())[o], old(landed))
    {
      hide *;
      Parts();
      CountFacts();
      UnresolvedFacts(o);
      Views();
      ghost var view, h, was, idle := View(), ledger, landed, Valid();
      if idle { ValidParts(); }
      if !o.valid {
        ghost var l := o.location;
        ListFacts(l);
        FetchedIs(view[o], o, was);
        ghost var w := GetValAtSlot(o.location, o.inFpga);
        LaterSame(h, ledger);
        LaterKeeps<Hardposit>(h, ledger, view, meaning, crntPosit);
        ResolveKeeps<Hardposit>(ledger, view, meaning, crntPosit, l, w);
        FaithfulTracked<Hardposit>(h, view, meaning, crntPosit);
        ResolvePlaced<Hardposit>(view, crntPosit, l, w, true);
        PlacedAny<Hardposit>(view, View(), l, 0);
        CountedFrom();
        Whole();
        Views();
        ResolvedNow(view, o, w);
        UnresolvedFacts(o);
      } else {
        FetchedIs(view[o], o, was);
        TimedFacts();
        if o.inFpga {
          TimedPast(o.globalLocation);
          landed := Past(landed, o.globalLocation);
        }
        TimedFrom();
        PlacedSame<Hardposit>(view, false, 0);
        LaterFrom(h, ledger);
        Whole();
      }
      ValidStays(h);
      return o.val;
    }

    lemma FetchedIs(h: Handle, o: Hardposit, landed: nat)
      requires h == o.View()
      ensures Fetched(h, landed) == if o.inFpga then Past(landed, o.globalLocation) else landed
      ensures h.inFpga == o.inFpga && h.location == o.location && h.globalLocation == o.globalLocation
    {
    }

    lemma ResolvedNow(view: map<Hardposit, Handle>, o: Hardposit, v: Bits)
      requires |crntPosit| == 8 && o in view && view[o].location < 8 && o in crntPosit[view[o].location]
      requires View() == ResolveAll(view, crntPosit[view[o].location], v, true)
      ensures o.valid
    {
      assert View()[o] == o.View();
    }

    lemma ValidStays(h: Ledger)
      requires Consistent() && Later(h, ledger)
      ensures h.spare == 0 ==> Valid()
    {
    }

    method New(inVal: Bits) returns (o: Hardposit)
      requires Valid()
      modifies this`meaning
      ensures Valid() && fresh(o) && meaning == old(meaning)[o := inVal] && !o.inFpga
    {
      o := new Hardposit(inVal);
      ghost var view := View();
      assert o !in view;
      NewKeeps<Hardposit>(ledger, view, meaning, crntPosit, o, inVal);
      meaning := meaning[o := inVal];
      assert View() == view[o := Handle(inVal, true, false, 0, 0)];
    }

    // The constructors from numbers: an integer or a float is a double before it is converted.
    method NewFromDouble(d: DoubleToP32.Double) returns (o: Hardposit)
      requires Valid()
      modifies this`meaning
      ensures Valid() && fresh(o) && meaning.Keys == old(meaning).Keys + {o} && Bits32(meaning[o])
      ensures if d.Finite? then Rounds32(d.x, meaning[o]) else meaning[o] == NAR
      ensures forall p :: p in old(meaning) ==> meaning[p] == old(meaning)[p]
    {
      hide *;
      var value := DoubleToP32.FromDouble(d);
      o := New(value);
    }

    // The fields of src written over those of dst, and dst listed beside src.
    method CopyFields(dst: Hardposit, src: Hardposit)
      requires |crntPosit| == 8 && (src.inFpga ==> src.location < 8)
      modifies dst, this`crntPosit
      ensures dst.View() == old(src.View())
      ensures crntPosit == Attached(old(crntPosit), dst, old(src.View()))
    {
      dst.val := src.val;
      dst.valid := src.valid;
      dst.inFpga := src.inFpga;
      dst.location := src.location;
      dst.globalLocation := src.globalLocation;
      if dst.inFpga {
        crntPosit := crntPosit[dst.location := crntPosit[dst.location] + [dst]];
      }
    }

    method Unlist(o: Hardposit)
      requires |crntPosit| == 8 && o in meaning && (o.inFpga ==> o.location < 8)
      modifies this`crntPosit
      ensures |crntPosit| == 8 && crntPosit == Detached(View(), old(crntPosit), o)
    {
      if o.inFpga {
        crntPosit := crntPosit[o.location := Remove(crntPosit[o.location], o)];
      }
    }

    lemma ObjectFacts(o: Hardposit)
      requires Consistent() && o in meaning
      ensures |crntPosit| == 8 && (o.inFpga ==> o.location < 8)
    {
      assert HandleOk(ledger, View()[o], meaning[o]);
    }

    // The copy constructor.
    method Copy(obj: Hardposit) returns (o: Hardposit)
      requires Valid() && obj in meaning
      modifies this`meaning, this`crntPosit
      ensures Valid() && fresh(o) && meaning == old(meaning)[o := old(meaning)[obj]]
      ensures o.View() == old(obj.View())
    {
      hide *;
      ValidParts();
      ObjectFacts(obj);
      Parts();
      Views();
      ghost var view := View();
      o := new Hardposit(0);
      CopyKeeps<Hardposit>(ledger, view, meaning, crntPosit, o, obj);
      DetachNew<Hardposit>(view, crntPosit, o);
      CopyFields(o, obj);
      meaning := meaning[o := meaning[obj]];
      ViewWith(view, o);
      Whole();
      ValidFrom();
    }

    // operator =, also when both sides are the same object.
    method Assign(dst: Hardposit, obj: Hardposit)
      requires Valid() && dst in meaning && obj in meaning
      modifies this`meaning, this`crntPosit, dst
      ensures Valid() && meaning == old(meaning)[dst := old(meaning)[obj]]
      ensures dst.View() == old(obj.View())
    {
      hide *;
      ValidParts();
      ObjectFacts(dst);
      ObjectFacts(obj);
      Parts();
      Views();
      ghost var view := View();
      CopyKeeps<Hardposit>(ledger, view, meaning, crntPosit, dst, obj);
      Unlist(dst);
      CopyFields(dst, obj);
      meaning := meaning[dst := meaning[obj]];
      ViewWith(view, dst);
      Whole();
      ValidFrom();
    }

    method Destroy(o: Hardposit)
      requires Valid() && o in meaning
      modifies this`meaning, this`crntPosit
      ensures Valid() && meaning == old(meaning) - {o}
    {
      hide *;
      ValidParts();
      ObjectFacts(o);
      Parts();
      Views();
      ghost var view := View();
      DestroyKeeps<Hardposit>(ledger, view, meaning, crntPosit, o);
      Unlist(o);
      meaning := meaning - {o};
      ViewWithout(view, o);
      Whole();
      ValidFrom();
    }

    // An object in the accelerator, other than in the entry about to be reused, can be referred to:
    // the entry still holds the job that computes it.
    lemma ReferenceOk(o: Hardposit, location: nat)
      requires Consistent() && o in meaning
      requires o.inFpga && globalCounter % 8 % 8 != o.location % 8 && location == o.location
      ensures AddressOk(ledger, From(o.globalLocation), EntryAddress(location))
      ensures ArgVal(ledger, From(o.globalLocation)) == meaning[o]
    {
      hide HandleOk, AddressOk, ArgVal, Inv, EntryAddress;
      ReferenceFits(ledger, View()[o], meaning[o]);
    }

    // The environment moves on.
    method Elapse()
      requires Consistent()
      modifies this`accel, this`ledger
      ensures Consistent() && Later(old(ledger), ledger)
      ensures old(ledger).spare == 0 ==> Valid()
      ensures pace == OnDemand ==> ledger == old(ledger)
    {
      hide *;
      Parts();
      CountFacts();
      ghost var view, h0 := View(), ledger;
      TimedFacts();
      accel, ledger := Drift(alu, pace, accel, ledger);
      TimedFrom();
      LaterFrom(h0, ledger);
      LaterKeeps<Hardposit>(h0, ledger, view, meaning, crntPosit);
      CountedFrom();
      Whole();
      LaterSame(h0, ledger);
      if ledger.spare == 0 { ValidFrom(); }
    }

    // The value of an operand goes to the ring cell the request pointer selects.
    method PutOperand(o: Hardposit) returns (addr: nat, ghost arg: Arg)
      requires Consistent() && o in meaning && ledger.spare < 3
      modifies this`accel, this`ledger, this`landed, this`reqQPointer, meaning.Keys
      ensures Consistent() && Sends(old(ledger), ledger, meaning[o], arg, addr)
      ensures Placed(old(View()), View(), false, 0) && View().Keys == old(View()).Keys
      ensures landed == Fetched(old(View())[o], old(landed))
    {
      hide *;
      CountFacts();
      addr := CellAddress(reqQPointer);
      var v := GetVal(o);
      ghost var h1 := ledger;
      Elapse();
      ghost var view, h := View(), ledger;
      arg := Sent(|h.sent|);
      Parts();
      TimedFacts();
      CountFacts();
      LaterOn(old(ledger), h1, h);
      LaterSame(old(ledger), h);
      PutKeeps(alu, accel, h, v);
      SendingFaithful<Hardposit>(h, v, view, meaning, crntPosit);
      PutSends(old(ledger), h, v);
      accel := Put(accel, reqQPointer, v);
      reqQPointer := (reqQPointer + 1) % 256;
      ledger := Sending(h, v);
      SentOne(h, v);
      TimedFrom();
      CountedFrom();
      Whole();
    }

    static lemma SentOne(h: Ledger, v: Bits)
      ensures Sending(h, v).jobs == h.jobs && Sending(h, v).sent == h.sent + [v]
      ensures Sending(h, v).retired == h.retired
    {
    }

    // An operand goes by reference if it can, and by value otherwise.
    method SendOperand(o: Hardposit, resultQPointer: nat) returns (addr: nat, ghost arg: Arg)
      requires Consistent() && o in meaning && ledger.spare < 3 && resultQPointer == globalCounter % 8
      modifies this`accel, this`ledger, this`landed, this`reqQPointer, meaning.Keys
      ensures Consistent() && Sends(old(ledger), ledger, meaning[o], arg, addr)
      ensures Placed(old(View()), View(), false, 0) && View().Keys == old(View()).Keys
      ensures landed == SendLands(build == Reuse, globalCounter, old(View())[o], old(landed))
    {
      hide *;
      Views();
      SendLandsIs(o, landed);
      if build == Reuse && o.inFpga && resultQPointer % 8 != o.location % 8 {
        ReferenceOk(o, o.location);
        addr, arg := EntryAddress(o.location), From(o.globalLocation);
        SendsBy(ledger, meaning[o], arg, addr);
        PlacedSame<Hardposit>(View(), false, 0);
      } else {
        addr, arg := PutOperand(o);
      }
    }

    lemma SendLandsIs(o: Hardposit, landed: nat)
      ensures SendLands(build == Reuse, globalCounter, o.View(), landed)
        == if build == Reuse && o.inFpga && globalCounter % 8 % 8 != o.location % 8 then landed
           else Fetched(o.View(), landed)
    {
    }

    // Not part of the program, which does not wait here: an entry is reused whose alias list is empty.
    // If the write of its previous result has not landed, it is taken to land now, and counted.
    method EarlierWriteLands(pos: nat)
      requires Consistent() && pos < 8
      modifies this`accel, this`ledger, this`landed, this`assumed
      ensures Consistent() && Later(old(ledger), ledger)
      ensures pos < |ledger.jobs| ==> JobAt(|ledger.jobs|, pos) < ledger.retired
      ensures landed == if pos < |ledger.jobs| then Past(old(landed), JobAt(|ledger.jobs|, pos)) else old(landed)
      ensures assumed == old(assumed)
        + if pos < |ledger.jobs| && old(ledger).retired <= JobAt(|ledger.jobs|, pos) then 1 else 0
    {
      hide *;
      Parts();
      CountFacts();
      LaterFrom(ledger, ledger);
      if pos < globalCounter {
        SlotFilled(alu, accel, ledger, pos);
        ghost var view, h0 := View(), ledger;
        if !accel.results[pos].flags {
          var awaited := Spin(pos);
          assumed := assumed + 1;
          FinishedMeans(ledger, pos, awaited);
        } else {
          TimedFacts();
          TimedPast(JobAt(|ledger.jobs|, pos));
          landed := Past(landed, JobAt(|ledger.jobs|, pos));
          TimedFrom();
        }
        LaterKeeps<Hardposit>(h0, ledger, view, meaning, crntPosit);
        LaterSame(h0, ledger);
        CountedFrom();
        Whole();
      }
    }

    // The aliases of entry pos get their value and leave the accelerator. If there are any, the
    // program has waited for the write of that value. If there are none, seen is how many jobs have
    // been written back when the flags of the entry are cleared.
    method Recycle(pos: nat) returns (ghost seen: nat)
      requires Consistent() && pos < 8
      modifies this`accel, this`ledger, this`landed, this`crntPosit, this`assumed, meaning.Keys
      ensures Consistent() && Later(old(ledger), ledger)
      ensures Free(ledger, View(), crntPosit, pos)
      ensures Placed(old(View()), View(), true, pos) && View().Keys == old(View()).Keys
      ensures landed
        == if pos < |old(ledger).jobs| then Past(old(landed), JobAt(|old(ledger).jobs|, pos)) else old(landed)
      ensures |old(crntPosit)| == 8 && old(ledger).retired <= seen
      ensures pace == OnDemand && old(crntPosit)[pos] == [] ==> seen == old(landed)
      ensures assumed == old(assumed) + if old(crntPosit)[pos] == [] && pos < |old(ledger).jobs|
                                           && seen <= JobAt(|old(ledger).jobs|, pos) then 1 else 0
    {
      hide *;
      Parts();
      CountFacts();
      ListFacts(pos);
      TimedFacts();
      ghost var view, h0 := View(), ledger;
      var empty := crntPosit[pos] == [];
      FaithfulTracked<Hardposit>(ledger, view, meaning, crntPosit);
      ghost var v := GetValAtSlot(pos, false);
      ResolvePlaced<Hardposit>(view, crntPosit, pos, v, false);
      LaterKeeps<Hardposit>(h0, ledger, view, meaning, crntPosit);
      RecycleKeeps<Hardposit>(ledger, view, meaning, crntPosit, pos, v);
      crntPosit := crntPosit[pos := []];
      LaterSame(h0, ledger);
      CountedFrom();
      Whole();
      CountFacts();
      seen := ledger.retired;
      if empty {
        seen := Settle(pos);
        LaterOn(h0, h0, ledger);
      } else {
        FinishedMeans(ledger, pos, v);
      }
      LaterSame(h0, ledger);
      FreeFrom<Hardposit>(ledger, View(), crntPosit, pos);
    }

    // The hardware moves on until the flags are cleared.
    method Settle(pos: nat) returns (ghost seen: nat)
      requires Consistent() && pos < 8
      modifies this`accel, this`ledger, this`landed, this`assumed
      ensures Consistent() && Later(old(ledger), ledger) && old(ledger).retired <= seen
      ensures pos < |ledger.jobs| ==> JobAt(|ledger.jobs|, pos) < ledger.retired
      ensures landed == if pos < |ledger.jobs| then Past(old(landed), JobAt(|ledger.jobs|, pos)) else old(landed)
      ensures pace == OnDemand ==> seen == old(landed)
      ensures assumed == old(assumed) + if pos < |ledger.jobs| && seen <= JobAt(|ledger.jobs|, pos) then 1 else 0
    {
      hide *;
      Parts();
      TimedFacts();
      ghost var h0 := ledger;
      Elapse();
      ghost var h1 := ledger;
      seen := ledger.retired;
      EarlierWriteLands(pos);
      LaterOn(h0, h1, ledger);
      LaterSame(h0, h1);
    }

    // The unresolved handle of the job about to be issued.
    method NewResult(resultQPointer: nat) returns (ret: Hardposit)
      ensures fresh(ret) && ret.View() == Handle(0, false, true, resultQPointer, globalCounter)
      ensures ret.inFpga && ret.globalLocation == globalCounter && ret.location == resultQPointer
    {
      ret := new Hardposit(0);
      ret.valid := false;
      ret.location := resultQPointer;
      ret.inFpga := true;
      ret.globalLocation := globalCounter;
    }

    // The flags of a free slot are cleared, and the hardware goes on.
    method ClearSlot(r: nat) returns (ghost whole: Accel)
      requires Inv(alu, accel, ledger) && r == |ledger.jobs| % 8 && |ledger.jobs| < ledger.retired + 8
      modifies this`accel, this`ledger
      ensures Inv(alu, whole, ledger) && Later(old(ledger), ledger)
      ensures |whole.results| == 8 && |whole.entries| == 8 && accel == ClearFlags(whole, r)
      ensures pace == OnDemand ==> ledger == old(ledger)
    {
      hide *;
      InvShape(alu, accel, ledger);
      ghost var h0, h := ledger, ledger;
      whole := accel;
      accel := ClearFlags(accel, r);
      accel, whole, h := DriftCleared(alu, pace, accel, r, whole, h0);
      InvShape(alu, whole, h);
      LaterFrom(h0, h);
      ledger := h;
    }

    // What the host has prepared is good for the job also after the hardware has moved on.
    lemma StillReady(h: Ledger, r: nat, inst: Inst, mode: bool, args: seq<Arg>, ops: seq<nat>)
      requires Later(h, ledger)
      requires Faithful(h, View(), meaning, crntPosit) && Free(h, View(), crntPosit, r) && RequestOk(h, args, ops)
      ensures Faithful(ledger, View(), meaning, crntPosit) && Free(ledger, View(), crntPosit, r)
      ensures RequestOk(ledger, args, ops) && Due(alu, ledger, inst, mode, args) == Due(alu, h, inst, mode, args)
      ensures ledger.jobs == h.jobs && ledger.sent == h.sent && ledger.spare == h.spare && h.retired <= ledger.retired
    {
      hide *;
      LaterSame(h, ledger);
      RequestSize(h, args, ops);
      LaterFree<Hardposit>(h, ledger, View(), crntPosit, r);
      LaterRequest(alu, h, ledger, inst, mode, args, ops);
      LaterKeeps<Hardposit>(h, ledger, View(), meaning, crntPosit);
    }

    // The handle goes into the list of the free slot, and the request to the accelerator.
    method Register(r: nat, inst: Inst, mode: bool, ops: seq<nat>, ghost args: seq<Arg>, ret: Hardposit,
                    ghost whole: Accel)
      requires Inv(alu, whole, ledger) && Faithful(ledger, View(), meaning, crntPosit)
      requires Free(ledger, View(), crntPosit, r) && RequestOk(ledger, args, ops) && r == |ledger.jobs| % 8
      requires ret !in meaning && ret.View() == Handle(0, false, true, r, |ledger.jobs|)
      requires |whole.results| == 8 && |whole.entries| == 8 && |crntPosit| == 8 && |args| == 3 && |ops| == 3
      requires accel == ClearFlags(whole, r) && ledger.spare <= |ledger.sent|
      modifies this`accel, this`ledger, this`crntPosit, this`meaning
      ensures Inv(alu, accel, ledger) && Faithful(ledger, View(), meaning, crntPosit)
      ensures ledger == Issuing(alu, old(ledger), inst, mode, args)
      ensures meaning == old(meaning)[ret := Due(alu, old(ledger), inst, mode, args)]
      ensures View() == old(View())[ret := Handle(0, false, true, r, |old(ledger).jobs|)]
    {
      hide *;
      Views();
      ghost var view, h := View(), ledger;
      TakeKeeps<Hardposit>(alu, whole, h, view, meaning, crntPosit, inst, mode, args, ops, ret,
                           Handle(0, false, true, r, |h.jobs|));
      crntPosit := crntPosit[r := [ret]];
      accel := Accept(accel, r, inst, mode, ops);
      ledger := Issuing(alu, h, inst, mode, args);
      meaning := meaning[ret := Due(alu, h, inst, mode, args)];
      ViewWith(view, ret);
    }

    // The job goes to the accelerator and its handle into the list of its entry.
    method Issue(resultQPointer: nat, inst: Inst, mode: bool, ops: seq<nat>, ghost args: seq<Arg>)
        returns (ret: Hardposit)
      requires Consistent() && resultQPointer == globalCounter % 8
      requires Free(ledger, View(), crntPosit, resultQPointer) && RequestOk(ledger, args, ops)
      modifies this`accel, this`ledger, this`crntPosit, this`globalCounter, this`hasPtr, this`meaning
      ensures Valid() && fresh(ret) && |args| == 3
      ensures meaning == old(meaning)[ret := Due(alu, old(ledger), inst, mode, args)]
      ensures globalCounter == old(globalCounter) + 1
      ensures View() == old(View())[ret := Handle(0, false, true, resultQPointer, old(globalCounter))]
      ensures ret.inFpga && ret.globalLocation == old(globalCounter) && ret.location == resultQPointer
    {
      hide *;
      Parts();
      ghost var h0 := ledger;
      Elapse();
      Parts();
      CountFacts();
      Views();
      StillReady(h0, resultQPointer, inst, mode, args, ops);
      TimedFacts();
      ghost var h1 := ledger;
      RequestSize(h1, args, ops);
      hasPtr := hasPtr[resultQPointer := false];
      ret := NewResult(resultQPointer);
      hasPtr := hasPtr[resultQPointer := true];
      FreeRoom<Hardposit>(alu, accel, h1, View(), crntPosit);
      globalCounter := globalCounter + 1;
      ghost var whole := ClearSlot(resultQPointer);
      StillReady(h1, resultQPointer, inst, mode, args, ops);
      ghost var h := ledger;
      Register(resultQPointer, inst, mode, ops, args, ret, whole);
      CountIssued(alu, h, inst, mode, args, old(hasPtr), resultQPointer);
      TimedFrom();
      CountedFrom();
      Whole();
      ValidFrom();
    }

    static lemma CountIssued(alu: Alu, h: Ledger, inst: Inst, mode: bool, args: seq<Arg>, hasPtr: seq<bool>, r: nat)
      requires |args| == 3 && h.spare <= |h.sent| && PtrsSet(hasPtr, |h.jobs|) && r == |h.jobs| % 8
      ensures var h' := Issuing(alu, h, inst, mode, args);
        |h'.jobs| == |h.jobs| + 1 && h'.spare == 0 && h'.sent == h.sent && h'.retired == h.retired
      ensures PtrsSet(hasPtr[r := false][r := true], |h.jobs| + 1)
    {
    }
  
    // The third operand exists for FMA only; otherwise its address is 0.
    method SendThird(o: Hardposit, inst: Inst, resultQPointer: nat) returns (addr: nat, ghost arg: Arg)
      requires Consistent() && o in meaning && ledger.spare < 3 && resultQPointer == globalCounter % 8
      modifies this`accel, this`ledger, this`landed, this`reqQPointer, meaning.Keys
      ensures Consistent()
      ensures Sends(old(ledger), ledger, if inst == Fma then meaning[o] else 0, arg, addr)
      ensures Placed(old(View()), View(), false, 0) && View().Keys == old(View()).Keys
      ensures landed == if inst == Fma then SendLands(build == Reuse, globalCounter, old(View())[o], old(landed))
                        else old(landed)
    {
      if inst == Fma {
        addr, arg := SendOperand(o, resultQPointer);
      } else {
        addr, arg := 0, Const(0);
        assert Sends(ledger, ledger, 0, arg, addr);
        PlacedSame<Hardposit>(View(), false, 0);
      }
    }

    // The list of the next entry is empty exactly if no object stands for its job.
    lemma CoveredHere(view0: map<Hardposit, Handle>)
      requires Consistent() && Placed(view0, View(), false, 0) && View().Keys == view0.Keys
      ensures |crntPosit| == 8 && |ledger.jobs| == globalCounter
      ensures crntPosit[globalCounter % 8] != [] <==> Covered(view0, globalCounter)
    {
      hide *;
      CountFacts();
      Parts();
      PlacedCovers<Hardposit>(view0, View(), 0, globalCounter);
      CoveredListed<Hardposit>(ledger, View(), meaning, crntPosit);
    }

    lemma StaysPlaced(view: map<Hardposit, Handle>, o: Hardposit)
      requires Placed(view, View(), false, 0) && o in view && view[o].inFpga
      ensures o.inFpga && o.globalLocation == view[o].globalLocation && o.location == view[o].location
    {
      assert View()[o] == o.View();
    }

    // The operands of one instruction, one after the other.
    method SendAll(self: Hardposit, obj1: Hardposit, obj2: Hardposit, inst: Inst, mode: bool, resultQPointer: nat)
        returns (ops: seq<nat>, ghost args: seq<Arg>)
      requires Valid() && self in meaning && obj1 in meaning && obj2 in meaning
      requires resultQPointer == globalCounter % 8
      modifies this`accel, this`ledger, this`landed, this`reqQPointer, meaning.Keys
      ensures Consistent() && RequestOk(ledger, args, ops) && |args| == 3 && old(ledger).retired <= ledger.retired
      ensures Due(alu, ledger, inst, mode, args) == alu(inst, mode, meaning[self], meaning[obj1],
                                                        if inst == Fma then meaning[obj2] else 0)
      ensures Placed(old(View()), View(), false, 0) && View().Keys == old(View()).Keys
      ensures landed == OperandsLand(build == Reuse, globalCounter, old(View())[self], old(View())[obj1],
                                     old(View())[obj2], inst == Fma, old(landed))
    {
      hide *;
      ValidParts();
      Views();
      ghost var h0, view0, landed0 := ledger, View(), landed;
      ghost var arg0, arg1, arg2;
      var ops0, ops1, ops2;
      ops0, arg0 := SendOperand(self, resultQPointer);
      ghost var h1, view1, landed1 := ledger, View(), landed;
      SendsSpare(h0, h1, meaning[self], arg0, ops0);
      ops1, arg1 := SendOperand(obj1, resultQPointer);
      ghost var h2, view2, landed2 := ledger, View(), landed;
      SendsSpare(h1, h2, meaning[obj1], arg1, ops1);
      ops2, arg2 := SendThird(obj2, inst, resultQPointer);
      ops, args := [ops0, ops1, ops2], [arg0, arg1, arg2];
      ghost var v := [meaning[self], meaning[obj1], if inst == Fma then meaning[obj2] else 0];
      SendsLater(h0, h1, meaning[self], arg0, ops0);
      SendsLater(h1, h2, meaning[obj1], arg1, ops1);
      SendsLater(h2, ledger, v[2], arg2, ops2);
      LaterFrom(ledger, ledger);
      ThreeSent(alu, h0, h1, h2, ledger, ledger, inst, mode, v, args, ops);
      PlacedOn<Hardposit>(view0, view1, view2, false, false, 0);
      PlacedOn<Hardposit>(view0, view2, View(), false, false, 0);
      AllLand(view0, view1, view2, self, obj1, obj2, inst == Fma, landed0, landed1, landed2, landed);
    }

    lemma AllLand(v0: map<Hardposit, Handle>, v1: map<Hardposit, Handle>, v2: map<Hardposit, Handle>,
                  a: Hardposit, b: Hardposit, c: Hardposit, fma: bool, l0: nat, l1: nat, l2: nat, l3: nat)
      requires Placed(v0, v1, false, 0) && Placed(v0, v2, false, 0) && a in v0 && b in v0 && c in v0
      requires b in v1 && c in v2
      requires l1 == SendLands(build == Reuse, globalCounter, v0[a], l0)
      requires l2 == SendLands(build == Reuse, globalCounter, v1[b], l1)
      requires l3 == if fma then SendLands(build == Reuse, globalCounter, v2[c], l2) else l2
      ensures l3 == OperandsLand(build == Reuse, globalCounter, v0[a], v0[b], v0[c], fma, l0)
    {
      hide SendLands, Placed;
      SamePlace<Hardposit>(v0, v1, 0, b, build == Reuse, globalCounter, l1);
      SamePlace<Hardposit>(v0, v2, 0, c, build == Reuse, globalCounter, l2);
    }

    // Issuing adds the result.
    lemma PlacedThrough(v0: map<Hardposit, Handle>, v2: map<Hardposit, Handle>, r: nat, ret: Hardposit, h: Handle)
      requires Placed(v0, v2, true, r) && ret !in v2
      ensures Placed(v0, v2[ret := h], true, r)
    {
      hide *;
      WithPlaced<Hardposit>(v2, ret, h, r);
      PlacedOn<Hardposit>(v0, v2, v2[ret := h], true, false, r);
    }

    // After waiting for the last job everything is written back.
    lemma AllBack(before: nat, n: nat)
      requires Timed() && landed == Past(before, n) && |ledger.jobs| == n + 1
      ensures |ledger.jobs| <= ledger.retired
    {
    }

    // An operation issues a job and returns at once, except in the baseline build. The new object
    // denotes what the operation gives on the values the operands denote, and no other value changes.
    // The baseline build waits for the job it has just issued.
    method FetchNow(ret: Hardposit)
      requires Valid() && ret in meaning && ret.inFpga && ret.globalLocation + 1 == globalCounter
      modifies this`accel, this`ledger, this`landed, meaning.Keys
      ensures Valid() && Placed(old(View()), View(), false, 0)
      ensures ret.inFpga && ret.globalLocation == old(ret.globalLocation) && ret.location == old(ret.location)
      ensures landed == Past(old(landed), globalCounter - 1) && |ledger.jobs| <= ledger.retired
    {
      hide *;
      ValidParts();
      Views();
      ghost var view, before := View(), landed;
      FetchedIs(view[ret], ret, before);
      var fetched := GetVal(ret);
      StaysPlaced(view, ret);
      ValidParts();
      Parts();
      CountFacts();
      AllBack(before, globalCounter - 1);
    }

    // The operands are sent and the entry of the next job recycled. It is counted as assumed that the
    // write of the eighth job before has landed, unless the program waits for it, has waited for a
    // job since, or it has landed by itself.
    method Prepare(self: Hardposit, obj1: Hardposit, obj2: Hardposit, inst: Inst, mode: bool, resultQPointer: nat)
        returns (ops: seq<nat>, ghost args: seq<Arg>)
      requires Valid() && self in meaning && obj1 in meaning && obj2 in meaning
      requires resultQPointer == globalCounter % 8
      modifies this`accel, this`ledger, this`landed, this`reqQPointer, this`crntPosit, this`assumed, meaning.Keys
      ensures Consistent() && RequestOk(ledger, args, ops) && |args| == 3
      ensures Free(ledger, View(), crntPosit, resultQPointer)
      ensures Due(alu, ledger, inst, mode, args) == alu(inst, mode, meaning[self], meaning[obj1],
                                                        if inst == Fma then meaning[obj2] else 0)
      ensures Placed(old(View()), View(), true, resultQPointer) && View().Keys == old(View()).Keys
      ensures var sent := OperandsLand(build == Reuse, globalCounter, old(View())[self], old(View())[obj1],
                                       old(View())[obj2], inst == Fma, old(landed));
        && landed == RecycleLands(globalCounter, sent)
        && Charged(pace, Waits(old(View()), globalCounter, sent), old(assumed), assumed)
      ensures globalCounter < old(ledger).retired + 8 ==> assumed == old(assumed)
    {
      hide *;
      ghost var n, view0, assumed0 := globalCounter, View(), assumed;
      Views();
      ops, args := SendAll(self, obj1, obj2, inst, mode, resultQPointer);
      ghost var h, view1, sent := ledger, View(), landed;
      CoveredHere(view0);
      Parts();
      TimedFacts();
      ghost var lists := crntPosit;
      ghost var seen := Recycle(resultQPointer);
      RecycledAt(pace, view0, lists, h, n, sent, landed, assumed0, assumed, seen);
      LaterRequest(alu, h, ledger, inst, mode, args, ops);
      PlacedAny<Hardposit>(view0, view1, 0, resultQPointer);
      PlacedOn<Hardposit>(view0, view1, View(), false, true, resultQPointer);
    }

    // An operation issues a job and returns at once.
    method Launch(self: Hardposit, obj1: Hardposit, obj2: Hardposit, inst: Inst, mode: bool) returns (ret: Hardposit)
      requires Valid() && self in meaning && obj1 in meaning && obj2 in meaning
      modifies this`accel, this`ledger, this`landed, this`reqQPointer, this`globalCounter, this`hasPtr
      modifies this`crntPosit, this`meaning, this`assumed, meaning.Keys
      ensures Valid() && fresh(ret)
      ensures meaning == old(meaning)[ret := alu(inst, mode, old(meaning)[self], old(meaning)[obj1],
                                                 if inst == Fma then old(meaning)[obj2] else 0)]
      ensures globalCounter == old(globalCounter) + 1 && ret.inFpga && ret.globalLocation == old(globalCounter)
      ensures ret.location == old(globalCounter) % 8
      ensures Stays(old(View()), View(), old(globalCounter))
      ensures var n := old(globalCounter);
        var sent := OperandsLand(build == Reuse, n, old(View())[self], old(View())[obj1], old(View())[obj2],
                                 inst == Fma, old(landed));
        && landed == RecycleLands(n, sent)
        && Charged(pace, Waits(old(View()), n, sent), old(assumed), assumed)
      ensures old(globalCounter) < old(ledger).retired + 8 ==> assumed == old(assumed)
    {
      hide *;
      var resultQPointer := globalCounter % 8;
      ghost var view0, h0, m0, lists0 := View(), ledger, meaning, crntPosit;
      ValidParts();
      CountFacts();
      Parts();
      var ops, args := Prepare(self, obj1, obj2, inst, mode, resultQPointer);
      ghost var view2 := View();
      Views();
      ret := Issue(resultQPointer, inst, mode, ops, args);
      PlacedThrough(view0, view2, resultQPointer, ret, View()[ret]);
      PlacedStays<Hardposit>(h0, view0, m0, lists0, View());
    }

    // The baseline build waits for the result. The new object denotes what the operation gives on the
    // values the operands denote, and no other value changes.
    method Compute(self: Hardposit, obj1: Hardposit, obj2: Hardposit, inst: Inst, mode: bool) returns (ret: Hardposit)
      requires Valid() && self in meaning && obj1 in meaning && obj2 in meaning
      modifies this`accel, this`ledger, this`landed, this`reqQPointer, this`globalCounter, this`hasPtr
      modifies this`crntPosit, this`meaning, this`assumed, meaning.Keys
      ensures Valid() && fresh(ret)
      ensures meaning == old(meaning)[ret := alu(inst, mode, old(meaning)[self], old(meaning)[obj1],
                                                 if inst == Fma then old(meaning)[obj2] else 0)]
      ensures globalCounter == old(globalCounter) + 1 && ret.inFpga && ret.globalLocation == old(globalCounter)
      ensures ret.location == old(globalCounter) % 8
      ensures Stays(old(View()), View(), old(globalCounter))
      ensures var n := old(globalCounter);
        var sent := OperandsLand(build == Reuse, n, old(View())[self], old(View())[obj1], old(View())[obj2],
                                 inst == Fma, old(landed));
        && landed == (if build == Baseline then Past(RecycleLands(n, sent), n) else RecycleLands(n, sent))
        && Charged(pace, Waits(old(View()), n, sent), old(assumed), assumed)
      ensures old(globalCounter) < old(ledger).retired + 8 ==> assumed == old(assumed)
      ensures build == Baseline ==> |ledger.jobs| <= ledger.retired
    {
      hide *;
      ghost var n, view0 := globalCounter, View();
      ret := Launch(self, obj1, obj2, inst, mode);
      ghost var view3 := View();
      if build == Baseline {
        FetchNow(ret);
        StaysOn<Hardposit>(view0, view3, View(), n);
      }
    }
  }
}
