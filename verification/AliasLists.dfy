// The alias lists of the tracker, on values: which handles denote the result of which entry.
// T stands for the identity of a host object.
module AliasLists {

  import opened OperandRing
  import opened Accelerator

  // The fields of a host object.
  datatype Handle = Handle(val: Bits, valid: bool, inFpga: bool, location: nat, globalLocation: nat)

  // A handle denotes meaning: at once if it is valid, otherwise through its entry.
  ghost predicate HandleOk(h: Ledger, o: Handle, meaning: Bits) {
    && (o.valid ==> o.val == meaning)
    && (!o.inFpga ==> o.valid)
    && (o.inFpga ==>
         && o.globalLocation < |h.jobs| <= o.globalLocation + 8
         && o.location == o.globalLocation % 8
         && h.jobs[o.globalLocation].due == meaning
         && (o.valid ==> o.globalLocation < h.retired))
  }

  ghost predicate Distinct<T>(s: seq<T>) {
    forall i, j :: 0 <= i < j < |s| ==> s[i] != s[j]
  }

  ghost predicate ListOk<T>(view: map<T, Handle>, list: seq<T>, l: nat) {
    && Distinct(list)
    && (forall o :: o in list ==> o in view && view[o].inFpga && view[o].location == l)
    && (forall o, p :: o in list && p in list ==> view[o].valid == view[p].valid)
  }

  // Every handle in the accelerator is exactly once in the list of its entry and in no other, the
  // other handles are in none, and the members of a list are valid together.
  ghost predicate Tracked<T>(view: map<T, Handle>, lists: seq<seq<T>>) {
    && |lists| == 8
    && (forall l :: 0 <= l < 8 ==> ListOk(view, lists[l], l))
    && (forall o :: o in view && view[o].inFpga ==> view[o].location < 8 && o in lists[view[o].location])
  }

  ghost predicate Meant<T>(h: Ledger, view: map<T, Handle>, meaning: map<T, Bits>) {
    && view.Keys == meaning.Keys
    && forall o :: o in view ==> HandleOk(h, view[o], meaning[o])
  }

  ghost predicate Faithful<T>(h: Ledger, view: map<T, Handle>, meaning: map<T, Bits>, lists: seq<seq<T>>) {
    Tracked(view, lists) && Meant(h, view, meaning)
  }

  // ----- the changes the host makes -----

  function Remove<T(==)>(list: seq<T>, o: T): (r: seq<T>)
    ensures forall p :: p in r ==> p in list && p != o
    ensures forall p :: p in list && p != o ==> p in r
  {
    if list == [] then []
    else if list[0] == o then Remove(list[1..], o)
    else [list[0]] + Remove(list[1..], o)
  }

  lemma {:induction false} RemoveDistinct<T>(list: seq<T>, o: T)
    requires Distinct(list)
    ensures Distinct(Remove(list, o))
  {
    if list != [] {
      var rest := Remove(list[1..], o);
      RemoveDistinct(list[1..], o);
      forall j | 0 <= j < |rest| ensures rest[j] != list[0] {
        assert rest[j] in list[1..];
      }
    }
  }

  function Detached<T(==)>(view: map<T, Handle>, lists: seq<seq<T>>, o: T): seq<seq<T>>
    requires |lists| == 8
  {
    if o in view && view[o].inFpga && view[o].location < 8 then
      lists[view[o].location := Remove(lists[view[o].location], o)]
    else
      lists
  }

  function Attached<T>(lists: seq<seq<T>>, o: T, v: Handle): seq<seq<T>>
    requires |lists| == 8
  {
    if v.inFpga && v.location < 8 then lists[v.location := lists[v.location] + [o]] else lists
  }

  // Without o, the other handles are tracked as before.
  lemma DetachKeeps<T>(view: map<T, Handle>, lists: seq<seq<T>>, o: T)
    requires Tracked(view, lists)
    ensures Tracked(view - {o}, Detached(view, lists, o))
  {
    var lists' := Detached(view, lists, o);
    forall l | 0 <= l < 8 ensures ListOk(view - {o}, lists'[l], l) {
      assert ListOk(view, lists[l], l);
      RemoveDistinct(lists[l], o);
    }
  }

  lemma AttachKeeps<T>(view: map<T, Handle>, lists: seq<seq<T>>, o: T, v: Handle)
    requires Tracked(view, lists) && o !in view
    requires v.inFpga ==> v.location < 8 && forall p :: p in lists[v.location] ==> view[p].valid == v.valid
    ensures Tracked(view[o := v], Attached(lists, o, v))
  {
    var view', lists' := view[o := v], Attached(lists, o, v);
    forall l | 0 <= l < 8 ensures ListOk(view', lists'[l], l) {
      assert ListOk(view, lists[l], l);
    }
  }

  // Copying s over d, or into a new d, takes the place of s beside it.
  lemma CopyKeeps<T>(h: Ledger, view: map<T, Handle>, meaning: map<T, Bits>, lists: seq<seq<T>>, d: T, s: T)
    requires Faithful(h, view, meaning, lists) && s in view
    ensures Faithful(h, view[d := view[s]], meaning[d := meaning[s]],
                     Attached(Detached(view, lists, d), d, view[s]))
  {
    DetachKeeps(view, lists, d);
    var rest, lists', v := view - {d}, Detached(view, lists, d), view[s];
    assert HandleOk(h, v, meaning[s]);
    if v.inFpga {
      assert ListOk(view, lists[v.location], v.location);
      forall p | p in lists'[v.location] ensures rest[p].valid == v.valid {
        assert p in lists[v.location] && s in lists[v.location];
      }
    }
    AttachKeeps(rest, lists', d, v);
    assert rest[d := v] == view[d := v];
    assert Meant(h, view[d := v], meaning[d := meaning[s]]);
  }

  lemma NewKeeps<T>(h: Ledger, view: map<T, Handle>, meaning: map<T, Bits>, lists: seq<seq<T>>, o: T, v: Bits)
    requires Faithful(h, view, meaning, lists) && o !in view
    ensures Faithful(h, view[o := Handle(v, true, false, 0, 0)], meaning[o := v], lists)
  {
    AttachKeeps(view, lists, o, Handle(v, true, false, 0, 0));
  }

  lemma DestroyKeeps<T>(h: Ledger, view: map<T, Handle>, meaning: map<T, Bits>, lists: seq<seq<T>>, o: T)
    requires Faithful(h, view, meaning, lists)
    ensures Faithful(h, view - {o}, meaning - {o}, Detached(view, lists, o))
  {
    DetachKeeps(view, lists, o);
  }

  function Resolved(o: Handle, v: Bits, keep: bool): Handle {
    o.(val := v, valid := true, inFpga := keep)
  }

  function ResolveAll<T(==)>(view: map<T, Handle>, list: seq<T>, v: Bits, keep: bool): map<T, Handle> {
    map o | o in view :: if o in list then Resolved(view[o], v, keep) else view[o]
  }

  // v is the result of the last job of entry l, and that job has been written back.
  ghost predicate Finished(h: Ledger, l: nat, v: Bits)
    requires l < 8
  {
    l < |h.jobs| && v == h.jobs[JobAt(|h.jobs|, l)].due && JobAt(|h.jobs|, l) < h.retired
  }

  ghost predicate Later(h: Ledger, h': Ledger) {
    h' == h.(retired := h'.retired) && h.retired <= h'.retired
  }

  // All handles in the list of an entry denote the result of the entry's last job.
  lemma ListMeans<T>(h: Ledger, view: map<T, Handle>, meaning: map<T, Bits>, lists: seq<seq<T>>, l: nat, o: T)
    requires Faithful(h, view, meaning, lists) && l < 8 && o in lists[l]
    ensures o in view && view[o].inFpga && view[o].location == l
    ensures l < |h.jobs| && view[o].globalLocation == JobAt(|h.jobs|, l)
    ensures h.jobs[JobAt(|h.jobs|, l)].due == meaning[o]
    ensures view[o].valid ==> view[o].val == meaning[o] && JobAt(|h.jobs|, l) < h.retired
  {
    assert ListOk(view, lists[l], l);
    assert HandleOk(h, view[o], meaning[o]);
    SameEntry(view[o].globalLocation, JobAt(|h.jobs|, l), |h.jobs|);
  }

  lemma LaterKeeps<T>(h: Ledger, h': Ledger, view: map<T, Handle>, meaning: map<T, Bits>, lists: seq<seq<T>>)
    requires Faithful(h, view, meaning, lists) && Later(h, h')
    ensures Faithful(h', view, meaning, lists)
  {
    forall o | o in view ensures HandleOk(h', view[o], meaning[o]) {
      assert HandleOk(h, view[o], meaning[o]);
    }
  }

  // Delivering a result to the aliases that stay in the list.
  lemma ResolveKeeps<T>(h: Ledger, view: map<T, Handle>, meaning: map<T, Bits>, lists: seq<seq<T>>, l: nat, v: Bits)
    requires Faithful(h, view, meaning, lists) && l < 8
    requires lists[l] != [] ==> Finished(h, l, v)
    ensures Faithful(h, ResolveAll(view, lists[l], v, true), meaning, lists)
  {
    var view' := ResolveAll(view, lists[l], v, true);
    forall m | 0 <= m < 8 ensures ListOk(view', lists[m], m) {
      assert ListOk(view, lists[m], m) && ListOk(view, lists[l], l);
    }
    forall o | o in view' ensures HandleOk(h, view'[o], meaning[o]) {
      assert HandleOk(h, view[o], meaning[o]);
      if o in lists[l] { ListMeans(h, view, meaning, lists, l, o); }
    }
  }

  // Recycling an entry: its aliases keep the value and leave, the list is emptied.
  lemma RecycleKeeps<T>(h: Ledger, view: map<T, Handle>, meaning: map<T, Bits>, lists: seq<seq<T>>, l: nat, v: Bits)
    requires Faithful(h, view, meaning, lists) && l < 8
    requires lists[l] != [] ==> Finished(h, l, v)
    ensures Faithful(h, ResolveAll(view, lists[l], v, false), meaning, lists[l := []])
    ensures var view' := ResolveAll(view, lists[l], v, false);
      forall o :: o in view' && view'[o].inFpga ==> view'[o].location != l
  {
    var view', lists' := ResolveAll(view, lists[l], v, false), lists[l := []];
    forall m | 0 <= m < 8 ensures ListOk(view', lists'[m], m) {
      assert ListOk(view, lists[m], m) && ListOk(view, lists[l], l);
    }
    forall o | o in view' ensures HandleOk(h, view'[o], meaning[o]) {
      assert HandleOk(h, view[o], meaning[o]);
      if o in lists[l] { ListMeans(h, view, meaning, lists, l, o); }
    }
  }

  // The handles that are in the accelerator stay there, for the same job; except the handles of entry
  // l if left. The others stay outside.
  ghost predicate Placed<T>(view: map<T, Handle>, view': map<T, Handle>, left: bool, l: nat) {
    && view.Keys <= view'.Keys
    && forall o :: o in view ==>
         && view'[o].globalLocation == view[o].globalLocation && view'[o].location == view[o].location
         && view'[o].inFpga == (view[o].inFpga && !(left && view[o].location == l))
  }

  // Some handle still stands for the job that the next instruction overwrites. So the alias list of
  // the entry is not empty, and the host waits for that job.
  ghost predicate Covered<T>(view: map<T, Handle>, issued: nat) {
    issued >= 8 && exists o :: o in view && view[o].inFpga && view[o].globalLocation == issued - 8
  }

  lemma PlacedSame<T>(view: map<T, Handle>, left: bool, l: nat)
    requires !left
    ensures Placed(view, view, left, l)
  {
  }

  lemma PlacedOn<T>(v0: map<T, Handle>, v1: map<T, Handle>, v2: map<T, Handle>, left1: bool, left2: bool, l: nat)
    requires Placed(v0, v1, left1, l) && Placed(v1, v2, left2, l)
    ensures Placed(v0, v2, left1 || left2, l)
  {
  }

  lemma PlacedAny<T>(view: map<T, Handle>, view': map<T, Handle>, l: nat, l': nat)
    requires Placed(view, view', false, l)
    ensures Placed(view, view', false, l')
  {
  }

  lemma PlacedCovers<T>(view: map<T, Handle>, view': map<T, Handle>, l: nat, issued: nat)
    requires Placed(view, view', false, l) && view'.Keys == view.Keys
    ensures Covered(view', issued) <==> Covered(view, issued)
  {
    if Covered(view, issued) {
      var o :| o in view && view[o].inFpga && view[o].globalLocation == issued - 8;
      assert o in view' && view'[o].inFpga;
    }
    if Covered(view', issued) {
      var o :| o in view' && view'[o].inFpga && view'[o].globalLocation == issued - 8;
      assert o in view && view[o].inFpga;
    }
  }

  lemma WithPlaced<T>(view: map<T, Handle>, o: T, ret: Handle, l: nat)
    requires o !in view
    ensures Placed(view, view[o := ret], false, l)
  {
  }

  lemma ResolvePlaced<T>(view: map<T, Handle>, lists: seq<seq<T>>, l: nat, v: Bits, keep: bool)
    requires Tracked(view, lists) && l < 8
    ensures Placed(view, ResolveAll(view, lists[l], v, keep), !keep, l)
  {
    assert ListOk(view, lists[l], l);
  }

  // The handles of the eighth job before leave the accelerator, the others stay where they are.
  ghost predicate Stays<T>(view: map<T, Handle>, view': map<T, Handle>, issued: nat) {
    forall o :: o in view ==>
      && o in view' && view'[o].globalLocation == view[o].globalLocation && view'[o].location == view[o].location
      && view'[o].inFpga == (view[o].inFpga && view[o].globalLocation + 8 != issued)
  }

  lemma PlacedStays<T>(h: Ledger, view: map<T, Handle>, meaning: map<T, Bits>, lists: seq<seq<T>>,
                       view': map<T, Handle>)
    requires Faithful(h, view, meaning, lists) && Placed(view, view', true, |h.jobs| % 8)
    ensures Stays(view, view', |h.jobs|)
  {
    forall o | o in view && view[o].inFpga
      ensures view[o].location == |h.jobs| % 8 <==> view[o].globalLocation + 8 == |h.jobs|
    {
      HandlePlace(h, view[o], meaning[o]) by { assert HandleOk(h, view[o], meaning[o]); }
    }
  }

  lemma StaysOn<T>(view: map<T, Handle>, view': map<T, Handle>, view'': map<T, Handle>, issued: nat)
    requires Stays(view, view', issued) && Placed(view', view'', false, 0)
    ensures Stays(view, view'', issued)
  {
  }

  lemma FaithfulTracked<T>(h: Ledger, view: map<T, Handle>, meaning: map<T, Bits>, lists: seq<seq<T>>)
    requires Faithful(h, view, meaning, lists)
    ensures Tracked(view, lists)
  {
  }

  lemma HandlePlace(h: Ledger, o: Handle, meaning: Bits)
    requires HandleOk(h, o, meaning) && o.inFpga
    ensures o.location < 8 && (o.location == |h.jobs| % 8 <==> o.globalLocation + 8 == |h.jobs|)
  {
  }

  // A handle of another entry than the next is a reference to its job.
  lemma ReferenceFits(h: Ledger, o: Handle, meaning: Bits)
    requires HandleOk(h, o, meaning) && o.inFpga && |h.jobs| % 8 % 8 != o.location % 8
    ensures AddressOk(h, From(o.globalLocation), EntryAddress(o.location))
    ensures ArgVal(h, From(o.globalLocation)) == meaning
  {
    hide Decode, EntryAddress;
    EntryAddressDecodes(o.location);
  }

  // The list of the entry that the next job takes is empty unless a handle stands for its last job.
  lemma CoveredListed<T>(h: Ledger, view: map<T, Handle>, meaning: map<T, Bits>, lists: seq<seq<T>>)
    requires Faithful(h, view, meaning, lists)
    ensures |lists| == 8 && (lists[|h.jobs| % 8] != [] <==> Covered(view, |h.jobs|))
  {
    var l := |h.jobs| % 8;
    if Covered(view, |h.jobs|) {
      hide ListOk, HandleOk;
      var o :| o in view && view[o].inFpga && view[o].globalLocation == |h.jobs| - 8;
      HandlePlace(h, view[o], meaning[o]);
      assert o in lists[view[o].location];
    }
    if lists[l] != [] {
      var o := lists[l][0];
      hide HandleOk;
      InList(h, view, meaning, lists, l, o);
      HandlePlace(h, view[o], meaning[o]);
    }
  }

  lemma InList<T>(h: Ledger, view: map<T, Handle>, meaning: map<T, Bits>, lists: seq<seq<T>>, l: nat, o: T)
    requires Faithful(h, view, meaning, lists) && l < 8 && o in lists[l]
    ensures o in view && view[o].inFpga && view[o].location == l && HandleOk(h, view[o], meaning[o])
  {
    assert ListOk(view, lists[l], l);
  }

  // ----- how far the host knows the jobs to be written back -----

  // After the host has read a handle.
  function Fetched(o: Handle, landed: nat): nat {
    if o.inFpga then Past(landed, o.globalLocation) else landed
  }

  // After the host has sent a handle as an operand: by reference, or by value.
  function SendLands(reuse: bool, issued: nat, o: Handle, landed: nat): nat {
    if reuse && o.inFpga && issued % 8 != o.location % 8 then landed else Fetched(o, landed)
  }

  // After all operands of an instruction.
  function OperandsLand(reuse: bool, issued: nat, a: Handle, b: Handle, c: Handle, fma: bool, landed: nat): nat {
    var two := SendLands(reuse, issued, b, SendLands(reuse, issued, a, landed));
    if fma then SendLands(reuse, issued, c, two) else two
  }

  // After the entry of the next job has been recycled.
  function RecycleLands(issued: nat, landed: nat): nat {
    if issued >= 8 then Past(landed, issued - 8) else landed
  }

  // No write is missing when the next job is issued: there is none, it is covered, or it has landed.
  ghost predicate Waits<T>(view: map<T, Handle>, issued: nat, landed: nat) {
    issued < 8 || Covered(view, issued) || issued - 8 < landed
  }

  // How often it was assumed that a write has landed, before and after an instruction: at most once
  // more, not if the host waits, and certainly if it does not and the hardware does nothing by itself.
  ghost predicate Charged(pace: Pace, waits: bool, before: nat, after: nat) {
    && before <= after && (waits ==> after == before)
    && (pace == OnDemand && !waits ==> after == before + 1)
  }

  // Recycling the entry of the next job.
  lemma RecycledAt<T>(pace: Pace, view: map<T, Handle>, lists: seq<seq<T>>, h: Ledger, issued: nat,
                      sent: nat, landed: nat, assumed: nat, assumed': nat, seen: nat)
    requires |lists| == 8 && |h.jobs| == issued && sent <= h.retired <= seen
    requires lists[issued % 8] != [] <==> Covered(view, issued)
    requires pace == OnDemand && lists[issued % 8] == [] ==> seen == sent
    requires var r := issued % 8;
      && landed == (if r < issued then Past(sent, JobAt(issued, r)) else sent)
      && assumed' == assumed + if lists[r] == [] && r < issued && seen <= JobAt(issued, r) then 1 else 0
    ensures landed == RecycleLands(issued, sent)
    ensures Charged(pace, Waits(view, issued, sent), assumed, assumed')
    ensures issued < h.retired + 8 ==> assumed' == assumed
  {
    hide Covered;
    if issued >= 8 { SameEntry(JobAt(issued, issued % 8), issued - 8, issued); }
  }

  lemma SendsLater(h0: Ledger, h: Ledger, v: Bits, arg: Arg, addr: nat)
    requires Sends(h0, h, v, arg, addr)
    ensures h0.retired <= h.retired
  {
  }

  // Sending looks only at the place of a handle.
  lemma SamePlace<T>(view: map<T, Handle>, view': map<T, Handle>, l: nat, o: T, reuse: bool, issued: nat, landed: nat)
    requires Placed(view, view', false, l) && o in view
    ensures o in view' && SendLands(reuse, issued, view'[o], landed) == SendLands(reuse, issued, view[o], landed)
  {
  }

  // The handle of a new job enters the list of the recycled entry.
  lemma IssueKeeps<T>(alu: Alu, h: Ledger, view: map<T, Handle>, meaning: map<T, Bits>, lists: seq<seq<T>>,
                            inst: Inst, mode: bool, args: seq<Arg>, o: T, ret: Handle)
    requires Faithful(h, view, meaning, lists) && o !in view && |args| == 3 && h.spare <= |h.sent|
    requires lists[|h.jobs| % 8] == []
    requires forall p :: p in view && view[p].inFpga ==> view[p].location != |h.jobs| % 8
    requires ret == Handle(ret.val, false, true, |h.jobs| % 8, |h.jobs|)
    ensures Faithful(Issuing(alu, h, inst, mode, args), view[o := ret],
                     meaning[o := Due(alu, h, inst, mode, args)], lists[|h.jobs| % 8 := [o]])
  {
    var l := |h.jobs| % 8;
    AttachKeeps(view, lists, o, ret);
    assert lists[l] + [o] == [o];
    IssueMeans(alu, h, view, meaning, inst, mode, args, o, ret);
  }

  lemma IssueMeans<T>(alu: Alu, h: Ledger, view: map<T, Handle>, meaning: map<T, Bits>,
                      inst: Inst, mode: bool, args: seq<Arg>, o: T, ret: Handle)
    requires Meant(h, view, meaning) && |args| == 3 && h.spare <= |h.sent|
    requires forall p :: p in view && view[p].inFpga ==> view[p].location != |h.jobs| % 8
    requires ret == Handle(ret.val, false, true, |h.jobs| % 8, |h.jobs|)
    ensures Meant(Issuing(alu, h, inst, mode, args), view[o := ret], meaning[o := Due(alu, h, inst, mode, args)])
  {
    var h' := Issuing(alu, h, inst, mode, args);
    forall p | p in view ensures HandleOk(h', view[p], meaning[p]) {
      assert HandleOk(h, view[p], meaning[p]);
    }
  }

  lemma SendingFaithful<T>(h: Ledger, v: Bits, view: map<T, Handle>, meaning: map<T, Bits>, lists: seq<seq<T>>)
    requires Faithful(h, view, meaning, lists)
    ensures Faithful(Sending(h, v), view, meaning, lists)
  {
    forall o | o in view ensures HandleOk(Sending(h, v), view[o], meaning[o]) {
      assert HandleOk(h, view[o], meaning[o]);
    }
  }

  // One operand of value v is ready to be sent as addr: nothing has been issued in between.
  ghost predicate Sends(h0: Ledger, h: Ledger, v: Bits, arg: Arg, addr: nat) {
    && Continues(h0, h) && h.spare <= h0.spare + 1
    && AddressOk(h, arg, addr) && ArgVal(h, arg) == v
  }

  ghost predicate Continues(h0: Ledger, h: Ledger) {
    && h.jobs == h0.jobs && h0.retired <= h.retired
    && h0.sent <= h.sent && h0.spare <= h.spare
    && |h.sent| - h.spare == |h0.sent| - h0.spare
  }

  // Sending further operands does not disturb the earlier ones.
  lemma SendsStays(h0: Ledger, h: Ledger, h': Ledger, v: Bits, arg: Arg, addr: nat)
    requires Sends(h0, h, v, arg, addr) && Continues(h, h')
    ensures AddressOk(h', arg, addr) && ArgVal(h', arg) == v
  {
  }

  lemma PutSends(h0: Ledger, h: Ledger, v: Bits)
    requires Later(h0, h)
    ensures Sends(h0, Sending(h, v), v, Sent(|h.sent|), CellAddress(|h0.sent| % 256))
  {
    AddressDecodes(|h.sent|);
  }

  // Entry l is free: the job it held is finished and no handle depends on it any more.
  ghost predicate Free<T>(h: Ledger, view: map<T, Handle>, lists: seq<seq<T>>, l: nat) {
    && |lists| == 8 && l < 8 && lists[l] == []
    && (forall o :: o in view && view[o].inFpga ==> view[o].location != l)
    && (l < |h.jobs| ==> JobAt(|h.jobs|, l) < h.retired)
  }

  // Taking a free entry for the next job.
  lemma TakeKeeps<T>(alu: Alu, a: Accel, h: Ledger, view: map<T, Handle>, meaning: map<T, Bits>, lists: seq<seq<T>>,
                     inst: Inst, mode: bool, args: seq<Arg>, addrs: seq<nat>, o: T, ret: Handle)
    requires Inv(alu, a, h) && Faithful(h, view, meaning, lists) && Free(h, view, lists, |h.jobs| % 8)
    requires RequestOk(h, args, addrs) && o !in view
    requires ret == Handle(ret.val, false, true, |h.jobs| % 8, |h.jobs|)
    ensures var l := |h.jobs| % 8;
      && l < |a.results| && l < |a.entries| && h.spare <= |h.sent|
      && Inv(alu, Accept(ClearFlags(a, l), l, inst, mode, addrs), Issuing(alu, h, inst, mode, args))
      && Faithful(Issuing(alu, h, inst, mode, args), view[o := ret], meaning[o := Due(alu, h, inst, mode, args)],
                  lists[l := [o]])
  {
    hide *;
    FreeRoom(alu, a, h, view, lists);
    RequestSize(h, args, addrs);
    AcceptKeeps(alu, a, h, inst, mode, args, addrs);
    IssueKeeps(alu, h, view, meaning, lists, inst, mode, args, o, ret);
  }

  lemma FreeRoom<T>(alu: Alu, a: Accel, h: Ledger, view: map<T, Handle>, lists: seq<seq<T>>)
    requires Inv(alu, a, h) && Free(h, view, lists, |h.jobs| % 8)
    ensures |h.jobs| < h.retired + 8 && h.spare <= |h.sent| && |a.results| == 8 && |a.entries| == 8
    ensures lists[|h.jobs| % 8] == [] && forall p :: p in view && view[p].inFpga ==> view[p].location != |h.jobs| % 8
  {
    if |h.jobs| >= 8 { SameEntry(JobAt(|h.jobs|, |h.jobs| % 8), |h.jobs| - 8, |h.jobs|); }
  }

  lemma LaterSame(h: Ledger, h': Ledger)
    requires Later(h, h')
    ensures h'.jobs == h.jobs && h'.sent == h.sent && h'.spare == h.spare && h.retired <= h'.retired
  {
  }

  lemma LaterOn(h0: Ledger, h1: Ledger, h2: Ledger)
    requires Later(h0, h1) && Later(h1, h2)
    ensures Later(h0, h2)
  {
  }

  lemma LaterFrom(h: Ledger, h': Ledger)
    requires h' == h.(retired := h'.retired) && h.retired <= h'.retired
    ensures Later(h, h')
  {
  }

  lemma FreeFrom<T>(h: Ledger, view: map<T, Handle>, lists: seq<seq<T>>, l: nat)
    requires |lists| == 8 && l < 8 && lists[l] == []
    requires forall o :: o in view && view[o].inFpga ==> view[o].location != l
    requires l < |h.jobs| ==> JobAt(|h.jobs|, l) < h.retired
    ensures Free(h, view, lists, l)
  {
  }

  // What the host has prepared stays good while the hardware runs.
  lemma LaterFree<T>(h: Ledger, h': Ledger, view: map<T, Handle>, lists: seq<seq<T>>, l: nat)
    requires Free(h, view, lists, l) && Later(h, h')
    ensures Free(h', view, lists, l)
  {
  }

  lemma LaterRequest(alu: Alu, h: Ledger, h': Ledger, inst: Inst, mode: bool, args: seq<Arg>, addrs: seq<nat>)
    requires RequestOk(h, args, addrs) && Later(h, h')
    ensures RequestOk(h', args, addrs) && Due(alu, h', inst, mode, args) == Due(alu, h, inst, mode, args)
  {
    hide AddressOk, ArgVal, Later;
    LaterArg(h, h', args[0], addrs[0]);
    LaterArg(h, h', args[1], addrs[1]);
    LaterArg(h, h', args[2], addrs[2]);
  }

  lemma LaterArg(h: Ledger, h': Ledger, arg: Arg, addr: nat)
    requires AddressOk(h, arg, addr) && Later(h, h')
    ensures AddressOk(h', arg, addr) && ArgVal(h', arg) == ArgVal(h, arg)
  {
    hide Decode;
  }

  lemma FinishedMeans(h: Ledger, l: nat, v: Bits)
    requires l < 8 && Finished(h, l, v)
    ensures l < |h.jobs| && JobAt(|h.jobs|, l) < h.retired
  {
  }

  lemma SendsBy(h: Ledger, v: Bits, arg: Arg, addr: nat)
    requires AddressOk(h, arg, addr) && ArgVal(h, arg) == v
    ensures Sends(h, h, v, arg, addr)
  {
  }

  lemma SendsSpare(h0: Ledger, h: Ledger, v: Bits, arg: Arg, addr: nat)
    requires Sends(h0, h, v, arg, addr)
    ensures h.spare <= h0.spare + 1
  {
  }

  lemma DetachNew<T>(view: map<T, Handle>, lists: seq<seq<T>>, o: T)
    requires |lists| == 8 && o !in view
    ensures Detached(view, lists, o) == lists
  {
  }

  lemma ContinuesOn(h0: Ledger, h1: Ledger, h2: Ledger)
    requires Continues(h0, h1) && Continues(h1, h2)
    ensures Continues(h0, h2)
  {
  }

  lemma LaterContinues(h0: Ledger, h1: Ledger)
    requires Later(h0, h1)
    ensures Continues(h0, h1) && h1.spare == h0.spare
  {
  }

  // Three operands sent one after the other make a request for their instruction.
  lemma ThreeSent(alu: Alu, h0: Ledger, h1: Ledger, h2: Ledger, h3: Ledger, h: Ledger, inst: Inst, mode: bool,
                  v: seq<Bits>, args: seq<Arg>, addrs: seq<nat>)
    requires |v| == 3 && |args| == 3 && |addrs| == 3
    requires Sends(h0, h1, v[0], args[0], addrs[0]) && Sends(h1, h2, v[1], args[1], addrs[1])
    requires Sends(h2, h3, v[2], args[2], addrs[2]) && Later(h3, h)
    ensures RequestOk(h, args, addrs) && Due(alu, h, inst, mode, args) == alu(inst, mode, v[0], v[1], v[2])
  {
    hide AddressOk, ArgVal, Continues, Later;
    LaterContinues(h3, h);
    ContinuesOn(h2, h3, h);
    ContinuesOn(h1, h2, h);
    SendsStays(h0, h1, h, v[0], args[0], addrs[0]) by { ContinuesOn(h1, h2, h); }
    SendsStays(h1, h2, h, v[1], args[1], addrs[1]);
    SendsStays(h2, h3, h, v[2], args[2], addrs[2]);
  }
}
