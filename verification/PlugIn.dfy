/** driver/JackBridge/Plug-In/SA_PlugIn.cpp: creating devices, including creations that fail half way,
    and removing them all through dispatched teardown blocks. */
module PlugIn {
  import opened Arithmetic
  import opened ObjectRegistry
  import opened ObjectMap
  import opened Teardown
  import opened SharedRegion

  /** How far one creation gets: the constructor throws, activation throws (before any stream ID is
      mapped), or all goes well. */
  datatype Outcome = NoObject | NotActivated | Activated

  /** `latest` is the local variable theNewDevice, which outlives the loop iteration that set it; its
      object is 0 until a device is made. */
  datatype Creation = Creation(reg: Registry, next: nat, listed: seq<nat>, dispatched: seq<nat>, latest: Device)

  const NO_DEVICE := Device(0, 0, [])

  function Unlisted(ids: seq<nat>, id: nat): seq<nat> {
    if ids == [] then [] else if ids[0] == id then ids[1..] else [ids[0]] + Unlisted(ids[1..], id)
  }

  function MapAll(r: Registry, ids: seq<nat>, o: nat): Registry {
    if ids == [] then r else Apply(MapAll(r, ids[..|ids| - 1], o), Map(ids[|ids| - 1], o))
  }

  function StreamIds(first: nat): (ids: seq<nat>) {
    seq(NUM_INPUT_STREAMS + NUM_OUTPUT_STREAMS, k requires 0 <= k => (first + k) % TWO32)
  }

  function Released(c: Creation): Creation {
    var op := Release(c.latest.obj);
    c.(reg := Apply(c.reg, op), listed := if c.latest.obj == 0 then c.listed else Unlisted(c.listed, c.latest.id),
       dispatched := c.dispatched + if Destroys(c.reg, op) then [c.latest.obj] else [])
  }

  /** A device is made, mapped under its own ID and listed; o is the pointer the allocation returns. */
  function Made(c: Creation, o: nat): Creation {
    var d := Device(o, c.next, StreamIds(c.next + 1));
    Creation(Apply(c.reg, Map(d.id, o)), (c.next + 1 + |d.streams|) % TWO32, c.listed + [d.id], c.dispatched, d)
  }

  /** One iteration of _CreateDevices. */
  function Create(c: Creation, outcome: Outcome, o: nat): Creation {
    match outcome
    case NoObject => Released(c.(next := (c.next + 1) % TWO32))
    case NotActivated => Released(Made(c, o))
    case Activated => var made := Made(c, o); made.(reg := MapAll(made.reg, made.latest.streams, o))
  }

  function CreateAll(c: Creation, outcomes: seq<Outcome>, objs: seq<nat>): Creation
    requires |outcomes| == |objs|
  {
    if outcomes == [] then c
    else
      var last := |outcomes| - 1;
      Create(CreateAll(c, outcomes[..last], objs[..last]), outcomes[last], objs[last])
  }

  class SA_PlugIn {
    const objectMap: SA_ObjectMap
    var deviceInfoList: seq<nat>
    var queue: seq<nat>      // the device IDs captured by the dispatched teardown blocks
    var theNewDevice: Device

    ghost predicate Valid()
      reads this, objectMap
    {
      objectMap.Valid()
    }

    ghost function State(): Creation
      reads this, objectMap
    {
      Creation(objectMap.registry, objectMap.nextObjectID, deviceInfoList, objectMap.dispatched, theNewDevice)
    }

    constructor (theMap: SA_ObjectMap)
      requires theMap.Valid()
      ensures Valid() && objectMap == theMap && deviceInfoList == [] && queue == [] && theNewDevice == NO_DEVICE
    {
      objectMap, deviceInfoList, queue, theNewDevice := theMap, [], [], NO_DEVICE;
    }

    method AddDevice(inDevice: Device)
      modifies this`deviceInfoList
      ensures deviceInfoList == old(deviceInfoList) + if inDevice.obj != 0 then [inDevice.id] else []
    {
      if inDevice.obj != 0 {
        deviceInfoList := deviceInfoList + [inDevice.id];
      }
    }

    method RemoveDevice(inDevice: Device)
      modifies this`deviceInfoList
      ensures deviceInfoList == if inDevice.obj == 0 then old(deviceInfoList)
                                else Unlisted(old(deviceInfoList), inDevice.id)
    {
      if inDevice.obj != 0 {
        var wasFound, i := false, 0;
        while !wasFound && i < |deviceInfoList|
          invariant 0 <= i && (!wasFound ==> i <= |deviceInfoList|)
          invariant !wasFound ==> deviceInfoList == old(deviceInfoList) && inDevice.id !in deviceInfoList[..i]
          invariant wasFound ==> deviceInfoList == Unlisted(old(deviceInfoList), inDevice.id)
          decreases !wasFound, |deviceInfoList| - i
        {
          if inDevice.id == deviceInfoList[i] {
            wasFound := true;
            UnlistedAt(deviceInfoList, inDevice.id, i);
            deviceInfoList := deviceInfoList[..i] + deviceInfoList[i + 1..];
          } else {
            i := i + 1;
          }
        }
        if !wasFound {
          UnlistedAbsent(deviceInfoList, inDevice.id);
        }
      }
    }

    /** The device constructor: it takes its stream IDs from the map's counter. */
    method NewDevice(id: nat, o: nat) returns (d: Device)
      requires Valid() && objectMap.nextObjectID == (id + 1) % TWO32
      modifies objectMap`nextObjectID
      ensures Valid() && d == Device(o, id, StreamIds(id + 1))
      ensures objectMap.nextObjectID == (id + 1 + |d.streams|) % TWO32
    {
      var ids: seq<nat> := [];
      for k := 0 to NUM_INPUT_STREAMS + NUM_OUTPUT_STREAMS
        invariant objectMap.Valid() && |ids| == k && objectMap.nextObjectID == (id + 1 + k) % TWO32
        invariant forall i | 0 <= i < k :: ids[i] == (id + 1 + i) % TWO32
      {
        var streamId := objectMap.GetNextObjectID();
        ids := ids + [streamId];
        Successor(id + 1 + k);
      }
      assert ids == StreamIds(id + 1);
      d := Device(o, id, ids);
    }

    /** The mapping part of the device's Activate. */
    method MapStreams(d: Device)
      requires Valid()
      modifies objectMap`objectInfoList, objectMap`registry
      ensures Valid() && objectMap.registry == MapAll(old(objectMap.registry), d.streams, d.obj)
    {
      for k := 0 to |d.streams|
        invariant objectMap.Valid() && objectMap.registry == MapAll(old(objectMap.registry), d.streams[..k], d.obj)
      {
        var _ := objectMap.MapObject(d.streams[k], d.obj);
        assert d.streams[..k + 1][..k] == d.streams[..k];
      }
      assert d.streams[..|d.streams|] == d.streams;
    }

    /** The handler of a failed creation: it works on whatever device the variable holds. */
    method ReleaseNewDevice()
      requires Valid()
      modifies this`deviceInfoList, objectMap
      ensures Valid() && State() == Released(old(State()))
    {
      RemoveDevice(theNewDevice);
      var _ := objectMap.ReleaseObject(theNewDevice.obj);
    }

    method MakeDevice(id: nat, o: nat)
      requires Valid() && o != 0 && objectMap.nextObjectID == (id + 1) % TWO32
      modifies this`deviceInfoList, this`theNewDevice, objectMap
      ensures Valid() && State() == Made(old(State()).(next := id), o)
    {
      theNewDevice := NewDevice(id, o);
      var _ := objectMap.MapObject(id, o);
      AddDevice(theNewDevice);
    }

    /** The body of the loop of _CreateDevices. */
    method CreateDevice(outcome: Outcome, o: nat)
      requires Valid() && o != 0
      modifies this`deviceInfoList, this`theNewDevice, objectMap
      ensures Valid() && State() == Create(old(State()), outcome, o)
    {
      var id := objectMap.GetNextObjectID();
      if outcome.NoObject? {
        ReleaseNewDevice();
      } else {
        MakeDevice(id, o);
        if outcome.Activated? {
          MapStreams(theNewDevice);
        } else {
          ReleaseNewDevice();
        }
      }
    }

    method CreateDevices(outcomes: seq<Outcome>, objs: seq<nat>)
      requires Valid() && |outcomes| == |objs| && 0 !in objs
      modifies this`deviceInfoList, this`theNewDevice, objectMap
      ensures Valid() && State() == CreateAll(old(State()).(latest := NO_DEVICE), outcomes, objs)
    {
      theNewDevice := NO_DEVICE;
      for i := 0 to |outcomes|
        invariant Valid()
        invariant State() == CreateAll(old(State()).(latest := NO_DEVICE), outcomes[..i], objs[..i])
      {
        CreateDevice(outcomes[i], objs[i]);
        assert outcomes[..i + 1][..i] == outcomes[..i] && objs[..i + 1][..i] == objs[..i];
      }
      assert outcomes[..|outcomes|] == outcomes && objs[..|outcomes|] == objs;
    }

    /** One block is queued per list entry, in order; the entries stay, with ID 0. */
    method RemoveAllDevices()
      modifies this`deviceInfoList, this`queue
      ensures queue == old(queue) + old(deviceInfoList)
      ensures deviceInfoList == seq(|old(deviceInfoList)|, _ => 0)
    {
      var i := 0;
      while i < |deviceInfoList|
        invariant i <= |deviceInfoList| == |old(deviceInfoList)|
        invariant queue == old(queue) + old(deviceInfoList)[..i]
        invariant forall k | 0 <= k < i :: deviceInfoList[k] == 0
        invariant deviceInfoList[i..] == old(deviceInfoList)[i..]
      {
        var theDeadDeviceObjectID := deviceInfoList[i];
        deviceInfoList := deviceInfoList[i := 0];
        queue := queue + [theDeadDeviceObjectID];
        i := i + 1;
      }
    }

    /** One dispatched teardown block, run without interruption. `memory` is what the pointers point to;
        an exception, if any, leaves Deactivate after that many stream IDs. */
    method TeardownBlock(id: nat, memory: map<nat, Device>, throwsAfter: nat)
      requires Valid()
      requires forall o | o in objectMap.registry.counts :: o in memory && memory[o].obj == o
      modifies objectMap
      ensures Valid() && objectMap.nextObjectID == old(objectMap.nextObjectID)
      ensures Copied(old(objectMap.registry), id) == 0 ==>
                objectMap.registry == old(objectMap.registry) && objectMap.dispatched == old(objectMap.dispatched)
      ensures Copied(old(objectMap.registry), id) != 0 ==>
                var d := memory[old(objectMap.registry).byId[id]].(id := id);
                && Ran(State(), Waiting(old(State())), d, WholeBlock(|d.streams|, throwsAfter))
                && BlockAfter(Waiting(old(State())), d, WholeBlock(|d.streams|, throwsAfter)) == Finished
    {
      ghost var s, r := Waiting(State()), objectMap.registry;
      RepresentsIsValid(objectMap.objectInfoList, r);
      CopiedIsLive(r, id);
      var theDeadDevice := objectMap.CopyObjectByObjectID(id);
      if theDeadDevice != 0 {
        var d := memory[theDeadDevice].(id := id);
        BlockHolds(s, d);
        FinishBlock(d, throwsAfter, s);
      }
    }

    method FinishBlock(d: Device, throwsAfter: nat, ghost s: State)
      requires Valid() && Ran(State(), s, d, Uninterrupted(1)) && BlockAfter(s, d, Uninterrupted(1)) == Deactivating(0)
      modifies objectMap`objectInfoList, objectMap`registry, objectMap`dispatched
      ensures Valid() && Ran(State(), s, d, WholeBlock(|d.streams|, throwsAfter))
      ensures BlockAfter(s, d, WholeBlock(|d.streams|, throwsAfter)) == Finished
    {
      if throwsAfter <= |d.streams| {
        DeactivateDevice(d, throwsAfter, s);
        ghost var acts := Uninterrupted(throwsAfter + 1);
        RunOneMore(s, d, acts, BlockThrows);
        DropReference(d, s, acts + [BlockThrows]);
        assert acts + [BlockThrows] + [BlockStep] == WholeBlock(|d.streams|, throwsAfter);
      } else {
        DeactivateDevice(d, |d.streams|, s);
        DropReference(d, s, Uninterrupted(|d.streams| + 1));
        UninterruptedMore(|d.streams| + 1);
        DropReference(d, s, Uninterrupted(|d.streams| + 2));
        UninterruptedMore(|d.streams| + 2);
      }
    }

    /** The first n stream IDs, unmapped one after the other. */
    method DeactivateDevice(d: Device, n: nat, ghost s: State)
      requires n <= |d.streams|
      requires Valid() && Ran(State(), s, d, Uninterrupted(1)) && BlockAfter(s, d, Uninterrupted(1)) == Deactivating(0)
      modifies objectMap`objectInfoList, objectMap`registry, objectMap`dispatched
      ensures Valid() && Ran(State(), s, d, Uninterrupted(n + 1))
      ensures BlockAfter(s, d, Uninterrupted(n + 1)) == Deactivating(n)
    {
      for k := 0 to n
        invariant Valid() && Ran(State(), s, d, Uninterrupted(k + 1))
        invariant BlockAfter(s, d, Uninterrupted(k + 1)) == Deactivating(k)
      {
        RunOneMore(s, d, Uninterrupted(k + 1), BlockStep);
        UninterruptedMore(k + 1);
        objectMap.UnmapObject(d.streams[k], d.obj);
      }
    }

    method DropReference(d: Device, ghost s: State, ghost acts: seq<Action>)
      requires Valid() && Ran(State(), s, d, acts)
      requires BlockAfter(s, d, acts) == Dropped || BlockAfter(s, d, acts) == Deactivating(|d.streams|)
      modifies objectMap`objectInfoList, objectMap`registry, objectMap`dispatched
      ensures Valid() && Ran(State(), s, d, acts + [BlockStep])
      ensures BlockAfter(s, d, acts + [BlockStep]) == if BlockAfter(s, d, acts) == Dropped then Finished else Dropped
    {
      RunOneMore(s, d, acts, BlockStep);
      DropIsRelease(Teardown.Run(s, acts, d), d);
      var _ := objectMap.ReleaseObject(d.obj);
    }
  }

  function Waiting(c: Creation): State {
    State(c.reg, c.dispatched, 0, true, Queued)
  }

  function Uninterrupted(n: nat): seq<Action> {
    seq(n, _ => BlockStep)
  }

  /** All of a block's steps, for a device with that many streams. */
  function WholeBlock(streams: nat, throwsAfter: nat): seq<Action> {
    if throwsAfter <= streams then Uninterrupted(throwsAfter + 1) + [BlockThrows, BlockStep]
    else Uninterrupted(streams + 3)
  }

  /** The object map is where the teardown's steps lead from `s`. */
  ghost predicate Ran(c: Creation, s: State, d: Device, acts: seq<Action>) {
    c.reg == Teardown.Run(s, acts, d).reg && c.dispatched == Teardown.Run(s, acts, d).dispatched
  }

  function BlockAfter(s: State, d: Device, acts: seq<Action>): Block {
    Teardown.Run(s, acts, d).block
  }

  lemma CopiedIsLive(r: Registry, id: nat)
    requires Valid(r)
    ensures Copied(r, id) == 0 ==> Apply(r, Copy(id)) == r
    ensures Copied(r, id) != 0 ==> id in r.byId && r.byId[id] == Copied(r, id) && Copied(r, id) in r.counts
  {
  }

  lemma DropIsRelease(t: State, d: Device)
    requires t.block == Dropped || t.block == Deactivating(|d.streams|)
    ensures var u := StepBlock(t, d);
            && u.block == (if t.block == Dropped then Finished else Dropped)
            && u.reg == Apply(t.reg, Release(d.obj))
            && u.dispatched == t.dispatched + if Destroys(t.reg, Release(d.obj)) then [d.obj] else []
  {
  }

  lemma CopyDestroysNothing(r: Registry, id: nat)
    ensures !Destroys(r, Copy(id))
  {
  }

  lemma BlockHolds(s: State, d: Device)
    requires s.block == Queued && d.obj != 0 && Copied(s.reg, d.id) == d.obj
    ensures BlockAfter(s, d, Uninterrupted(1)) == Deactivating(0)
    ensures Teardown.Run(s, Uninterrupted(1), d).reg == Apply(s.reg, Copy(d.id))
    ensures Teardown.Run(s, Uninterrupted(1), d).dispatched == s.dispatched
  {
    RunOneMore(s, d, Uninterrupted(0), BlockStep);
    UninterruptedMore(0);
    assert Teardown.Run(s, Uninterrupted(1), d) == StepBlock(s, d);
    CopyDestroysNothing(s.reg, d.id);
  }

  lemma UninterruptedMore(n: nat)
    ensures Uninterrupted(n) + [BlockStep] == Uninterrupted(n + 1)
  {
  }

  lemma RunOneMore(s: State, d: Device, acts: seq<Action>, a: Action)
    ensures Teardown.Run(s, acts + [a], d) == Teardown.Step(Teardown.Run(s, acts, d), a, d)
  {
    assert (acts + [a])[..|acts|] == acts;
  }

  lemma {:induction false} UnlistedAt(ids: seq<nat>, id: nat, i: nat)
    requires i < |ids| && ids[i] == id && id !in ids[..i]
    ensures Unlisted(ids, id) == ids[..i] + ids[i + 1..]
  {
    if 0 < i {
      assert ids[0] in ids[..i];
      assert ids[1..][..i - 1] == ids[..i][1..];
      UnlistedAt(ids[1..], id, i - 1);
    }
  }

  lemma {:induction false} UnlistedAbsent(ids: seq<nat>, id: nat)
    requires id !in ids
    ensures Unlisted(ids, id) == ids
  {
    if ids != [] {
      UnlistedAbsent(ids[1..], id);
    }
  }

  lemma Successor(x: nat)
    ensures (x % TWO32 + 1) % TWO32 == (x + 1) % TWO32
  {
  }

  // What a creation does, as long as the ID counter has not wrapped around.

  predicate Distinct(ids: seq<nat>) {
    forall i, j | 0 <= i < j < |ids| :: ids[i] != ids[j]
  }

  /** IDs are handed out in increasing order, and every listed ID leads to a live device of its own. */
  ghost predicate Tidy(c: Creation) {
    && Valid(c.reg) && 0 < c.next
    && (forall id | id in c.reg.byId :: id < c.next)
    && (forall id | id in c.listed :: id in c.reg.byId)
    && Distinct(c.listed)
    && (forall id, other | id in c.listed && other in c.listed && id != other :: c.reg.byId[id] != c.reg.byId[other])
  }

  lemma MadeEffect(c: Creation, o: nat)
    requires Tidy(c) && c.next + 3 < TWO32 && o != 0 && o !in c.reg.counts
    ensures Made(c, o).reg == Registry(c.reg.byId[c.next := o], c.reg.counts[o := 1])
    ensures Made(c, o).latest == Device(o, c.next, [c.next + 1, c.next + 2, c.next + 3])
  {
    assert StreamIds(c.next + 1) == [c.next + 1, c.next + 2, c.next + 3];
  }

  /** A device whose activation fails leaves nothing behind but its pending destruction. */
  lemma NotActivatedEffect(c: Creation, o: nat)
    requires Tidy(c) && c.next + 3 < TWO32 && o != 0 && o !in c.reg.counts
    ensures var t := Create(c, NotActivated, o);
            t.reg == c.reg && t.listed == c.listed && t.dispatched == c.dispatched + [o]
  {
    var m := Made(c, o);
    MadeEffect(c, o);
    UnlistedAt(m.listed, c.next, |c.listed|);
    ReleaseEffect(m.reg, o);
    assert forall id | id in c.reg.byId :: c.reg.byId[id] in c.reg.counts;
    assert IdsOf(m.reg, o) == {c.next};
    assert Without(m.reg, o) == c.reg;
  }

  lemma {:induction false} MapAllEffect(r: Registry, ids: seq<nat>, o: nat)
    requires o != 0 && o in r.counts && 0 !in ids
    requires forall i, j | 0 <= i < j < |ids| :: ids[i] != ids[j]
    requires forall id | id in ids :: id !in r.byId
    ensures MapAll(r, ids, o).counts == r.counts
    ensures forall id: nat, x: nat :: Leads(MapAll(r, ids, o), id, x) <==> Leads(r, id, x) || (x == o && id in ids)
  {
    if ids != [] {
      var last := |ids| - 1;
      var m, t := MapAll(r, ids[..last], o), MapAll(r, ids, o);
      MapAllEffect(r, ids[..last], o);
      assert ids == ids[..last] + [ids[last]];
      assert ids[last] !in m.byId by {
        if ids[last] in m.byId {
          assert Leads(m, ids[last], m.byId[ids[last]]);
        }
      }
      assert t == Apply(m, Map(ids[last], o));
      forall id: nat, x: nat ensures Leads(t, id, x) <==> Leads(r, id, x) || (x == o && id in ids) {
        assert Leads(m, id, x) <==> Leads(r, id, x) || (x == o && id in ids[..last]);
        assert id in ids <==> id in ids[..last] || id == ids[last];
      }
    }
  }

  lemma ActivatedEffect(c: Creation, o: nat)
    requires Tidy(c) && c.next + 3 < TWO32 && o != 0 && o !in c.reg.counts
    ensures var t := Create(c, Activated, o);
            && t.reg.counts == c.reg.counts[o := 1] && t.listed == c.listed + [c.next]
            && t.dispatched == c.dispatched && t.latest.obj == o && t.latest.id == c.next
            && forall id: nat, x: nat ::
                 Leads(t.reg, id, x) <==> Leads(c.reg, id, x) || (x == o && c.next <= id <= c.next + 3)
  {
    MadeEffect(c, o);
    var m := Made(c, o);
    MapAllEffect(m.reg, m.latest.streams, o);
  }

  /** A creation that fails before there is an object works on the device of the creation before it,
      because the variable still holds that one: it changes nothing exactly when that device is neither
      live nor listed any more. */
  lemma NoObjectEffect(c: Creation, o: nat)
    requires Valid(c.reg)
    ensures var t := Create(c, NoObject, o);
            (t.reg == c.reg && t.listed == c.listed && t.dispatched == c.dispatched)
            <==> c.latest.obj !in c.reg.counts && (c.latest.obj == 0 || c.latest.id !in c.listed)
  {
    ReleaseEffect(c.reg, c.latest.obj);
    if c.latest.id in c.listed {
      UnlistedShrinks(c.listed, c.latest.id);
    } else {
      UnlistedAbsent(c.listed, c.latest.id);
    }
  }

  lemma {:induction false} UnlistedShrinks(ids: seq<nat>, id: nat)
    requires id in ids
    ensures |Unlisted(ids, id)| == |ids| - 1
  {
    if ids[0] != id {
      UnlistedShrinks(ids[1..], id);
    }
  }

  // Whole runs of creations.

  /** The latest device is live exactly when its creation succeeded and nothing released it since; then
      it has its one reference, its own ID leads to it and is listed. */
  ghost predicate LatestIs(c: Creation, live: bool) {
    && (c.latest.obj in c.reg.counts <==> live)
    && (live ==> c.reg.counts[c.latest.obj] == 1 && Leads(c.reg, c.latest.id, c.latest.obj) && c.latest.id in c.listed)
    && (!live && c.latest.obj != 0 ==> c.latest.id !in c.listed)
    && c.latest.id < c.next
  }

  lemma ActivatedKeeps(c: Creation, o: nat)
    requires Tidy(c) && c.next + 4 < TWO32 && o != 0 && o !in c.reg.counts
    ensures Tidy(Create(c, Activated, o)) && LatestIs(Create(c, Activated, o), true)
    ensures Create(c, Activated, o).next == c.next + 4
  {
    var t := Create(c, Activated, o);
    ActivatedEffect(c, o);
    MadeAndMappedIsValid(c, o);
    assert t.next == c.next + 4;
    forall id | id in t.reg.byId ensures id < t.next {
      assert Leads(t.reg, id, t.reg.byId[id]);
    }
    forall id | id in c.listed ensures Leads(t.reg, id, c.reg.byId[id]) && c.reg.byId[id] != o && id != c.next {
      assert Leads(c.reg, id, c.reg.byId[id]) && c.reg.byId[id] in c.reg.counts;
    }
    assert Leads(t.reg, c.next, o);
  }

  lemma {:induction false} MapAllKeepsValid(r: Registry, ids: seq<nat>, o: nat)
    requires Valid(r)
    ensures Valid(MapAll(r, ids, o))
  {
    if ids != [] {
      MapAllKeepsValid(r, ids[..|ids| - 1], o);
      ApplyKeepsValid(MapAll(r, ids[..|ids| - 1], o), Map(ids[|ids| - 1], o));
    }
  }

  lemma MadeAndMappedIsValid(c: Creation, o: nat)
    requires Valid(c.reg)
    ensures Valid(Create(c, Activated, o).reg)
  {
    var m := Made(c, o);
    ApplyKeepsValid(c.reg, Map(c.next, o));
    MapAllKeepsValid(m.reg, m.latest.streams, o);
  }

  lemma NotActivatedKeeps(c: Creation, o: nat)
    requires Tidy(c) && c.next + 4 < TWO32 && o != 0 && o !in c.reg.counts
    ensures Tidy(Create(c, NotActivated, o)) && LatestIs(Create(c, NotActivated, o), false)
  {
    NotActivatedEffect(c, o);
    MadeEffect(c, o);
  }

  lemma NoObjectKeeps(c: Creation, o: nat, live: bool)
    requires Tidy(c) && LatestIs(c, live) && c.next + 4 < TWO32
    ensures var t := Create(c, NoObject, o);
            && Tidy(t) && LatestIs(t, false) && t.next == c.next + 1
            && t.reg.counts == (if live then c.reg.counts - {c.latest.obj} else c.reg.counts)
  {
    var t := Create(c, NoObject, o);
    ReleaseEffect(c.reg, c.latest.obj);
    ApplyKeepsValid(c.reg, Release(c.latest.obj));
    UnlistedIs(c.listed, c.latest.id);
    if !live && c.latest.obj != 0 {
      UnlistedAbsent(c.listed, c.latest.id);
    } else if live {
      forall x | x in t.listed ensures x in t.reg.byId && t.reg.byId[x] == c.reg.byId[x] {
        assert c.reg.byId[x] != c.reg.byId[c.latest.id];
      }
    }
  }

  lemma {:induction false} UnlistedIs(ids: seq<nat>, id: nat)
    requires Distinct(ids)
    ensures var u := Unlisted(ids, id);
            && id !in u && (forall x | x != id :: x in u <==> x in ids) && Distinct(u)
  {
    if ids != [] {
      UnlistedIs(ids[1..], id);
      var u := Unlisted(ids, id);
      assert forall x :: x in ids <==> x == ids[0] || x in ids[1..];
      if ids[0] != id {
        assert forall x :: x in u <==> x == ids[0] || x in Unlisted(ids[1..], id);
        assert ids[0] !in ids[1..] && u[1..] == Unlisted(ids[1..], id);
      }
    }
  }

  /** Device k is there at the end: its creation succeeded, and the next one, if any, got an object. */
  predicate Survives(outcomes: seq<Outcome>, k: nat)
    requires k < |outcomes|
  {
    outcomes[k].Activated? && (k + 1 < |outcomes| ==> !outcomes[k + 1].NoObject?)
  }

  ghost predicate Kept(outcomes: seq<Outcome>, objs: seq<nat>, o: nat)
    requires |outcomes| == |objs|
  {
    exists k: nat | k < |objs| :: SurvivesAt(outcomes, objs, o, k)
  }

  predicate SurvivesAt(outcomes: seq<Outcome>, objs: seq<nat>, o: nat, k: nat)
    requires |outcomes| == |objs| && k < |objs|
  {
    objs[k] == o && Survives(outcomes, k)
  }

  /** Live in `t` are the surviving devices, each at an address of its own, and what was live in `c`. */
  ghost predicate KeptExactly(c: Creation, t: Creation, outcomes: seq<Outcome>, objs: seq<nat>)
    requires |outcomes| == |objs|
  {
    && (forall o: nat :: o in t.reg.counts <==> o in c.reg.counts || Kept(outcomes, objs, o))
    && (forall o | o in c.reg.counts :: o in t.reg.counts && t.reg.counts[o] == c.reg.counts[o])
    && (forall j, k | 0 <= j < k < |objs| && Survives(outcomes, j) && Survives(outcomes, k) :: objs[j] != objs[k])
    && (forall k | 0 <= k < |objs| && Survives(outcomes, k) :: objs[k] !in c.reg.counts)
  }

  /** The allocator never returns the address of a live object; it may reuse those of destroyed ones. */
  predicate Allocated(c: Creation, outcomes: seq<Outcome>, objs: seq<nat>)
    requires |outcomes| == |objs|
  {
    outcomes == []
    || (var last := |outcomes| - 1;
        && Allocated(c, outcomes[..last], objs[..last]) && objs[last] != 0
        && objs[last] !in CreateAll(c, outcomes[..last], objs[..last]).reg.counts)
  }

  /** One more creation: which devices survive changes for the last one only. */
  lemma SurvivesStep(outcomes: seq<Outcome>, outcome: Outcome, k: nat)
    requires k <= |outcomes|
    ensures Survives(outcomes + [outcome], k)
            <==> if k == |outcomes| then outcome.Activated?
                 else Survives(outcomes, k) && !(k + 1 == |outcomes| && outcome.NoObject?)
  {
  }

  lemma OneMoreKept(c: Creation, t: Creation, outcomes: seq<Outcome>, objs: seq<nat>,
                    outcome: Outcome, o: nat, u: Creation)
    requires |outcomes| == |objs| && o !in t.reg.counts
    requires KeptExactly(c, t, outcomes, objs)
    requires outcome.Activated? ==> u.reg.counts == t.reg.counts[o := 1]
    requires outcome.NotActivated? ==> u.reg.counts == t.reg.counts
    requires outcome.NoObject? ==>
               u.reg.counts == if outcomes != [] && outcomes[|outcomes| - 1].Activated?
                               then t.reg.counts - {objs[|objs| - 1]} else t.reg.counts
    ensures KeptExactly(c, u, outcomes + [outcome], objs + [o])
  {
    var longer, more, n := outcomes + [outcome], objs + [o], |objs|;
    forall k: nat | k <= n
      ensures Survives(longer, k) <==> if k == n then outcome.Activated?
                                       else Survives(outcomes, k) && !(k + 1 == n && outcome.NoObject?)
    {
      SurvivesStep(outcomes, outcome, k);
    }
    assert forall k: nat | k < n && Survives(outcomes, k) :: SurvivesAt(outcomes, objs, objs[k], k);
    forall x: nat ensures x in u.reg.counts <==> x in c.reg.counts || Kept(longer, more, x) {
      if Kept(longer, more, x) {
        var k: nat :| k <= n && SurvivesAt(longer, more, x, k);
        assert k < n ==> SurvivesAt(outcomes, objs, x, k);
      }
      if x in u.reg.counts && x !in c.reg.counts {
        if outcome.Activated? && x == o {
          assert SurvivesAt(longer, more, x, n);
        } else {
          var k: nat :| k < n && SurvivesAt(outcomes, objs, x, k);
          assert SurvivesAt(longer, more, x, k);
        }
      }
    }
  }

  lemma CreateKeeps(c: Creation, outcome: Outcome, o: nat, live: bool)
    requires Tidy(c) && LatestIs(c, live) && c.next + 4 < TWO32 && o != 0 && o !in c.reg.counts
    ensures var t := Create(c, outcome, o);
            && Tidy(t) && t.next <= c.next + 4 && LatestIs(t, outcome.Activated?)
            && (outcome.Activated? ==> t.latest.obj == o && t.reg.counts == c.reg.counts[o := 1])
            && (outcome.NotActivated? ==> t.reg.counts == c.reg.counts)
            && (outcome.NoObject? ==>
                  t.reg.counts == if live then c.reg.counts - {c.latest.obj} else c.reg.counts)
  {
    match outcome
    case Activated =>
      ActivatedKeeps(c, o);
      ActivatedEffect(c, o);
    case NotActivated =>
      NotActivatedKeeps(c, o);
      NotActivatedEffect(c, o);
    case NoObject =>
      NoObjectKeeps(c, o, live);
  }

  lemma OneMoreCreation(c: Creation, t: Creation, outcomes: seq<Outcome>, objs: seq<nat>, outcome: Outcome, o: nat)
    requires |outcomes| == |objs| && o != 0 && o !in t.reg.counts && t.next + 4 < TWO32
    requires Tidy(t) && KeptExactly(c, t, outcomes, objs)
    requires LatestIs(t, outcomes != [] && outcomes[|outcomes| - 1].Activated?)
    requires outcomes != [] && outcomes[|outcomes| - 1].Activated? ==> t.latest.obj == objs[|objs| - 1]
    ensures var u := Create(t, outcome, o);
            && Tidy(u) && u.next <= t.next + 4 && KeptExactly(c, u, outcomes + [outcome], objs + [o])
            && LatestIs(u, outcome.Activated?) && (outcome.Activated? ==> u.latest.obj == o)
  {
    CreateKeeps(t, outcome, o, outcomes != [] && outcomes[|outcomes| - 1].Activated?);
    OneMoreKept(c, t, outcomes, objs, outcome, o, Create(t, outcome, o));
  }

  /** Over every sequence of creations, failing in any way: exactly the surviving devices are live
      afterwards, nothing that was live before is touched, and the device list is consistent. */
  lemma {:induction false} CreationsKeepExactly(c: Creation, outcomes: seq<Outcome>, objs: seq<nat>)
    requires Tidy(c) && c.latest == NO_DEVICE && |outcomes| == |objs| && c.next + 4 * |outcomes| < TWO32
    requires Allocated(c, outcomes, objs)
    ensures var t, last := CreateAll(c, outcomes, objs), |outcomes| - 1;
            && Tidy(t) && t.next <= c.next + 4 * |outcomes| && KeptExactly(c, t, outcomes, objs)
            && LatestIs(t, last >= 0 && outcomes[last].Activated?)
            && (last >= 0 && outcomes[last].Activated? ==> t.latest.obj == objs[last])
  {
    if outcomes == [] {
      assert KeptExactly(c, c, [], []);
    } else {
      var last := |outcomes| - 1;
      assert outcomes[..last] + [outcomes[last]] == outcomes && objs[..last] + [objs[last]] == objs;
      CreationsKeepExactly(c, outcomes[..last], objs[..last]);
      OneMoreCreation(c, CreateAll(c, outcomes[..last], objs[..last]), outcomes[..last], objs[..last],
                      outcomes[last], objs[last]);
    }
  }

  // A teardown block that nothing interrupts.

  lemma {:induction false} BlockDeactivates(s: State, d: Device, n: nat)
    requires d.obj != 0 && s.block == Queued && s.owned && Copied(s.reg, d.id) == d.obj && n <= |d.streams|
    ensures var t := Teardown.Run(s, Uninterrupted(n + 1), d);
            t.block == Deactivating(n) && t.clients == s.clients && t.owned
  {
    RunOneMore(s, d, Uninterrupted(n), BlockStep);
    UninterruptedMore(n);
    if 0 < n {
      BlockDeactivates(s, d, n - 1);
    }
  }

  /** Run to its end with no client around, the block takes the device out of the map and dispatches
      its destruction once; with clients, it leaves exactly their references. */
  lemma UninterruptedTeardown(s: State, d: Device)
    requires Mapped(s, d) && s.clients + 1 < MAX_COUNT
    ensures var t := Teardown.Run(s, Uninterrupted(|d.streams| + 3), d);
            && t.block == Finished
            && (s.clients == 0 ==> d.obj !in t.reg.counts && IdsOf(t.reg, d.obj) == {})
            && (s.clients > 0 ==> d.obj in t.reg.counts && t.reg.counts[d.obj] == s.clients)
            && multiset(t.dispatched)[d.obj] == multiset(s.dispatched)[d.obj] + (if s.clients == 0 then 1 else 0)
  {
    assert d.id in IdsOf(s.reg, d.obj);
    BlockDeactivates(s, d, |d.streams|);
    RunOneMore(s, d, Uninterrupted(|d.streams| + 1), BlockStep);
    UninterruptedMore(|d.streams| + 1);
    RunOneMore(s, d, Uninterrupted(|d.streams| + 2), BlockStep);
    UninterruptedMore(|d.streams| + 2);
    DestroyedExactlyOnce(s, Uninterrupted(|d.streams| + 3), d);
  }
}