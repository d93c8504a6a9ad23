/** Tearing a device down while clients still use it. The plug-in dispatches a block that copies the
    device out of the object map, deactivates it (which unmaps its stream IDs but not its own ID) and
    drops two references: the one the map was created with and the block's own. Clients copy, retain
    and release at any moment, also between two steps of the block. */
module Teardown {
  import opened ObjectRegistry

  /** `id` is the device's own object ID, `streams` the IDs of its streams. */
  datatype Device = Device(obj: nat, id: nat, streams: seq<nat>)

  /** Deactivating(k) has unmapped k stream IDs; Dropped has only the block's own reference left. */
  datatype Block = Queued | Deactivating(unmapped: nat) | Dropped | Finished

  /** `clients` counts the references clients hold; `owned` is the reference of the first mapping. */
  datatype State = State(reg: Registry, dispatched: seq<nat>, clients: nat, owned: bool, block: Block) {
    function References(): nat {
      clients + (if owned then 1 else 0) + if block.Deactivating? || block.Dropped? then 1 else 0
    }
  }

  datatype Action =
    | ClientCopy(id: nat)
    | ClientRetain
    | ClientRelease
    | BlockStep
    | BlockThrows      // an exception out of Deactivate; the block catches it and only unwinds
    | Other(op: Op)    // anything about other objects

  function Perform(s: State, op: Op): State {
    s.(reg := Apply(s.reg, op),
       dispatched := if Destroys(s.reg, op) then s.dispatched + [Target(s.reg, op)] else s.dispatched)
  }

  function StepBlock(s: State, d: Device): State {
    match s.block
    case Queued =>
      if Copied(s.reg, d.id) == d.obj then Perform(s, Copy(d.id)).(block := Deactivating(0))
      else s.(block := Finished)
    case Deactivating(k) =>
      if k < |d.streams| then Perform(s, Unmap(d.streams[k], d.obj)).(block := Deactivating(k + 1))
      else Perform(s, Release(d.obj)).(owned := false, block := Dropped)
    case Dropped => Perform(s, Release(d.obj)).(block := Finished)
    case Finished => s
  }

  function Step(s: State, a: Action, d: Device): State {
    match a
    case ClientCopy(id) =>
      Perform(s, Copy(id)).(clients := s.clients + if Copied(s.reg, id) == d.obj then 1 else 0)
    case ClientRetain =>
      if 0 < s.clients && d.obj in s.reg.counts && s.reg.counts[d.obj] < MAX_COUNT
      then Perform(s, Retain(d.obj)).(clients := s.clients + 1) else s
    case ClientRelease =>
      if 0 < s.clients then Perform(s, Release(d.obj)).(clients := s.clients - 1) else s
    case BlockStep => StepBlock(s, d)
    case BlockThrows => if s.block.Deactivating? then s.(block := Dropped) else s
    case Other(op) => if Target(s.reg, op) == d.obj then s else Perform(s, op)
  }

  function Run(s: State, acts: seq<Action>, d: Device): State {
    if acts == [] then s else Step(Run(s, acts[..|acts| - 1], d), acts[|acts| - 1], d)
  }

  /** Every reference is accounted for, the device's own ID leads to it while there is one, and it has
      been dispatched for destruction once (on top of `before` earlier lives) exactly when there is none. */
  ghost predicate Accounted(s: State, d: Device, before: nat) {
    && Valid(s.reg) && d.obj != 0
    && (0 < s.References() <==> d.obj in s.reg.counts)
    && (0 < s.References() ==>
          s.reg.counts[d.obj] == s.References() && Leads(s.reg, d.id, d.obj))
    && multiset(s.dispatched)[d.obj] == before + (if s.References() == 0 then 1 else 0)
    && (s.block.Queued? || s.block.Deactivating? ==> s.owned)
  }

  predicate Leads(r: Registry, id: nat, o: nat) {
    id in r.byId && r.byId[id] == o
  }

  /** The stream IDs the block has passed no longer lead to the device. */
  ghost predicate IdsShrink(s: State, d: Device) {
    forall id | Leads(s.reg, id, d.obj) ::
      id == d.id || id in if s.block.Deactivating? && s.block.unmapped <= |d.streams|
                          then d.streams[s.block.unmapped..] else d.streams
  }

  ghost predicate Inv(s: State, d: Device, before: nat) {
    Accounted(s, d, before) && IdsShrink(s, d) && d.id !in d.streams
    && (s.block.Deactivating? ==> s.block.unmapped <= |d.streams|)
  }

  /** The device as the plug-in leaves it: mapped under its own ID and its stream IDs. */
  ghost predicate Mapped(s: State, d: Device) {
    && Valid(s.reg) && d.obj in s.reg.counts && s.reg.counts[d.obj] == 1 + s.clients
    && IdsOf(s.reg, d.obj) == {d.id} + (set i | i in d.streams) && d.id !in d.streams
    && s.owned && s.block == Queued
  }

  // What one operation of the object map does to the device.

  /** `t` says of object o what `s` says, but for a count raised by `more`. */
  ghost predicate Recounted(s: State, t: State, o: nat, more: int) {
    && Valid(t.reg) && o in s.reg.counts && o in t.reg.counts && t.reg.counts[o] == s.reg.counts[o] + more
    && (forall id :: Leads(t.reg, id, o) <==> Leads(s.reg, id, o))
    && multiset(t.dispatched)[o] == multiset(s.dispatched)[o]
  }

  ghost predicate Gone(s: State, o: nat) {
    Valid(s.reg) && o !in s.reg.counts && forall id :: !Leads(s.reg, id, o)
  }

  lemma OthersKeep(s: State, op: Op, o: nat)
    requires Valid(s.reg) && o != 0 && Target(s.reg, op) != o
    ensures o in s.reg.counts ==> Recounted(s, Perform(s, op), o, 0)
    ensures o !in s.reg.counts ==> Gone(Perform(s, op), o)
    ensures multiset(Perform(s, op).dispatched)[o] == multiset(s.dispatched)[o]
  {
    ApplyKeepsValid(s.reg, op);
    OthersKeepIds(s.reg, op, o);
    DestroysExactly(s.reg, op);
  }

  lemma OthersKeepIds(r: Registry, op: Op, o: nat)
    requires Valid(r) && Target(r, op) != o
    ensures forall id :: Leads(Apply(r, op), id, o) <==> Leads(r, id, o)
    ensures o in Apply(r, op).counts <==> o in r.counts
    ensures o in r.counts ==> Apply(r, op).counts[o] == r.counts[o]
  {
  }

  lemma CopyAdds(s: State, id: nat, o: nat)
    requires Valid(s.reg) && o != 0 && Copied(s.reg, id) == o
    ensures Recounted(s, Perform(s, Copy(id)), o, 1)
  {
    ApplyKeepsValid(s.reg, Copy(id));
  }

  /** A copy that returns nothing changes nothing. */
  lemma CopyFails(s: State, id: nat)
    requires Valid(s.reg) && Copied(s.reg, id) == 0
    ensures Perform(s, Copy(id)) == s
  {
  }

  lemma RetainAdds(s: State, o: nat)
    requires Valid(s.reg) && o in s.reg.counts && s.reg.counts[o] < MAX_COUNT
    ensures Recounted(s, Perform(s, Retain(o)), o, 1)
  {
    ApplyKeepsValid(s.reg, Retain(o));
  }

  lemma ReleaseDrops(s: State, o: nat)
    requires Valid(s.reg) && o in s.reg.counts
    ensures s.reg.counts[o] > 1 ==> Recounted(s, Perform(s, Release(o)), o, -1)
    ensures s.reg.counts[o] == 1 ==>
              Gone(Perform(s, Release(o)), o) && Perform(s, Release(o)).dispatched == s.dispatched + [o]
  {
    ApplyKeepsValid(s.reg, Release(o));
    ReleaseEffect(s.reg, o);
  }

  /** Unmapping one of several IDs: the object stays, and only that ID no longer leads to it. */
  lemma UnmapKeeps(s: State, id: nat, own: nat, o: nat)
    requires Valid(s.reg) && o in s.reg.counts && Leads(s.reg, own, o) && id != own
    ensures var t := Perform(s, Unmap(id, o));
            && Valid(t.reg) && t.reg.counts == s.reg.counts && t.dispatched == s.dispatched
            && forall x :: Leads(t.reg, x, o) <==> Leads(s.reg, x, o) && x != id
  {
    ApplyKeepsValid(s.reg, Unmap(id, o));
    assert own in IdsOf(s.reg, o);
    UnmapEffect(s.reg, id, o);
  }

  // Each step, by the operation it makes.

  lemma ClientStepKeepsInv(s: State, a: Action, d: Device, before: nat)
    requires Inv(s, d, before) && (a.ClientCopy? || a.ClientRetain? || a.ClientRelease? || a.Other?)
    ensures Inv(Step(s, a, d), d, before)
  {
    match a
    case ClientCopy(id) =>
      if Copied(s.reg, id) == d.obj {
        CopyAdds(s, id, d.obj);
      } else if Target(s.reg, Copy(id)) == d.obj {
        CopyFails(s, id);
      } else {
        OthersKeep(s, Copy(id), d.obj);
      }
    case ClientRetain =>
      if d.obj in s.reg.counts && s.reg.counts[d.obj] < MAX_COUNT {
        RetainAdds(s, d.obj);
      }
    case ClientRelease =>
      if 0 < s.clients {
        ReleaseDrops(s, d.obj);
      }
    case Other(op) =>
      if Target(s.reg, op) != d.obj {
        OthersKeep(s, op, d.obj);
      }
    case _ =>
  }

  lemma UnmapStepKeepsInv(s: State, d: Device, before: nat)
    requires Inv(s, d, before) && s.block.Deactivating? && s.block.unmapped < |d.streams|
    ensures Inv(Step(s, BlockStep, d), d, before)
  {
    UnmapKeeps(s, d.streams[s.block.unmapped], d.id, d.obj);
  }

  lemma BlockStepKeepsInv(s: State, a: Action, d: Device, before: nat)
    requires Inv(s, d, before) && (a.BlockStep? || a.BlockThrows?)
    ensures Inv(Step(s, a, d), d, before)
  {
    if a.BlockStep? {
      match s.block
      case Queued =>
        if Copied(s.reg, d.id) == d.obj {
          CopyAdds(s, d.id, d.obj);
        }
      case Deactivating(k) =>
        if k < |d.streams| {
          UnmapStepKeepsInv(s, d, before);
        } else {
          ReleaseDrops(s, d.obj);
        }
      case Dropped => ReleaseDrops(s, d.obj);
      case Finished =>
    }
  }

  lemma StepKeepsInv(s: State, a: Action, d: Device, before: nat)
    requires Inv(s, d, before)
    ensures Inv(Step(s, a, d), d, before)
  {
    if a.BlockStep? || a.BlockThrows? {
      BlockStepKeepsInv(s, a, d, before);
    } else {
      ClientStepKeepsInv(s, a, d, before);
    }
  }

  /** With any number of client references outstanding, and any interleaving of copies, retains and
      releases with the block: the device is in the map exactly while a reference to it is left, with
      their number as its count, and has been dispatched for destruction once exactly when none is. */
  lemma {:induction false} DestroyedExactlyOnce(s: State, acts: seq<Action>, d: Device)
    requires Mapped(s, d)
    ensures var t := Run(s, acts, d);
            && (d.obj in t.reg.counts <==> 0 < t.References())
            && (0 < t.References() ==> t.reg.counts[d.obj] == t.References())
            && multiset(t.dispatched)[d.obj]
               == multiset(s.dispatched)[d.obj] + (if 0 < t.References() then 0 else 1)
    ensures Inv(Run(s, acts, d), d, multiset(s.dispatched)[d.obj])
  {
    if acts == [] {
      assert d.id in IdsOf(s.reg, d.obj);
      assert forall id | Leads(s.reg, id, d.obj) :: id in IdsOf(s.reg, d.obj);
    } else {
      DestroyedExactlyOnce(s, acts[..|acts| - 1], d);
      StepKeepsInv(Run(s, acts[..|acts| - 1], d), acts[|acts| - 1], d, multiset(s.dispatched)[d.obj]);
    }
  }

  predicate DropsReference(s: State, a: Action, d: Device) {
    || (a.ClientRelease? && 0 < s.clients)
    || (a.BlockStep? && (s.block.Dropped? || (s.block.Deactivating? && s.block.unmapped == |d.streams|)))
  }

  /** The step that dispatches the destruction is the release of the last reference, whoever makes it. */
  lemma DispatchIsLastRelease(s: State, a: Action, d: Device, before: nat)
    requires Inv(s, d, before)
    ensures multiset(Step(s, a, d).dispatched)[d.obj] != multiset(s.dispatched)[d.obj]
            <==> s.References() == 1 && DropsReference(s, a, d)
  {
    StepKeepsInv(s, a, d, before);
  }

  // The destruction does come.

  /** The block gives up the reference of the first mapping only if its copy finds the device, which it
      does below the maximal count, and Deactivate does not throw. */
  predicate GivesUp(s: State, a: Action, d: Device) {
    || (a.BlockStep? && s.block.Queued? && Copied(s.reg, d.id) != d.obj)
    || (a.BlockThrows? && s.block.Deactivating?)
  }

  predicate GaveUp(s: State, acts: seq<Action>, d: Device) {
    acts != []
    && (GaveUp(s, acts[..|acts| - 1], d) || GivesUp(Run(s, acts[..|acts| - 1], d), acts[|acts| - 1], d))
  }

  /** Steps the block still has to make. */
  function StepsLeft(s: State, d: Device): nat {
    match s.block
    case Queued => |d.streams| + 3
    case Deactivating(k) => if k <= |d.streams| then |d.streams| - k + 2 else 2
    case Dropped => 1
    case Finished => 0
  }

  function BlockSteps(acts: seq<Action>): nat {
    if acts == [] then 0 else BlockSteps(acts[..|acts| - 1]) + if acts[|acts| - 1].BlockStep? then 1 else 0
  }

  /** Where one step takes the block and the first mapping's reference; nothing else moves them. */
  lemma BlockMoves(s: State, a: Action, d: Device)
    requires s.block.Deactivating? ==> s.block.unmapped <= |d.streams|
    ensures var t := Step(s, a, d);
            && (!a.BlockStep? && !a.BlockThrows? ==> t.block == s.block && t.owned == s.owned)
            && (a.BlockThrows? ==> t.owned == s.owned && t.block == if s.block.Deactivating? then Dropped else s.block)
            && (a.BlockStep? ==>
                  match s.block
                  case Queued =>
                    t.owned == s.owned && t.block == if GivesUp(s, a, d) then Finished else Deactivating(0)
                  case Deactivating(k) =>
                    if k < |d.streams| then t.block == Deactivating(k + 1) && t.owned == s.owned
                    else t.block == Dropped && !t.owned
                  case Dropped => t.block == Finished && t.owned == s.owned
                  case Finished => t.block == Finished && t.owned == s.owned)
  {
  }

  /** What the block has come to after a run. */
  predicate Progress(t: State, gaveUp: bool, steps: nat, d: Device) {
    && (t.block.Deactivating? ==> t.block.unmapped <= |d.streams|)
    && (t.block == Finished || StepsLeft(t, d) + steps <= |d.streams| + 3)
    && (if t.block.Queued? || t.block.Deactivating? then t.owned && !gaveUp else t.owned <==> gaveUp)
  }

  lemma StepProgress(t: State, a: Action, gaveUp: bool, steps: nat, d: Device)
    requires Progress(t, gaveUp, steps, d)
    ensures Progress(Step(t, a, d), gaveUp || GivesUp(t, a, d), steps + (if a.BlockStep? then 1 else 0), d)
  {
    BlockMoves(t, a, d);
  }

  lemma {:induction false} BlockProgresses(s: State, acts: seq<Action>, d: Device)
    requires Mapped(s, d)
    ensures Progress(Run(s, acts, d), GaveUp(s, acts, d), BlockSteps(acts), d)
  {
    if acts != [] {
      BlockProgresses(s, acts[..|acts| - 1], d);
      StepProgress(Run(s, acts[..|acts| - 1], d), acts[|acts| - 1], GaveUp(s, acts[..|acts| - 1], d),
                   BlockSteps(acts[..|acts| - 1]), d);
    }
  }

  /** Whatever the interleaving, once the block has made its steps and the clients hold nothing, the
      device has been dispatched for destruction and is gone, unless the block gave up; and if it did,
      the device is still there and never was dispatched. */
  lemma DestructionComes(s: State, acts: seq<Action>, d: Device)
    requires Mapped(s, d)
    requires |d.streams| + 3 <= BlockSteps(acts) && Run(s, acts, d).clients == 0
    ensures var t := Run(s, acts, d);
            && t.block == Finished
            && (d.obj !in t.reg.counts <==> !GaveUp(s, acts, d))
            && multiset(t.dispatched)[d.obj]
               == multiset(s.dispatched)[d.obj] + (if GaveUp(s, acts, d) then 0 else 1)
  {
    BlockProgresses(s, acts, d);
    DestroyedExactlyOnce(s, acts, d);
  }

  /** Why Deactivate leaves the device's own ID mapped: by then it is the only one left, so unmapping it
      too would dispatch the destruction with at least two references outstanding. */
  lemma OwnIdIsTheLast(s: State, d: Device, before: nat)
    requires Inv(s, d, before) && s.block == Deactivating(|d.streams|)
    ensures IdsOf(s.reg, d.obj) == {d.id}
    ensures Destroys(s.reg, Unmap(d.id, d.obj)) && 2 <= s.References()
  {
    assert d.streams[|d.streams|..] == [];
    assert forall id | id in IdsOf(s.reg, d.obj) :: Leads(s.reg, id, d.obj);
    assert IdsOf(s.reg, d.obj) == {d.id};
    assert d.id != 0;
  }
}
