/** What SA_ObjectMap means: a partial map from object IDs to objects, and a reference count for each
    live object. An object leaves with its last ID or with its last reference, and is then handed to
    the dispatch queue for destruction. */
module ObjectRegistry {
  import opened Arithmetic

  const MAX_COUNT: nat := TWO64 - 1

  /** `byId` holds the mapped IDs, `counts` the live objects. IDs and objects are nonzero. */
  datatype Registry = Registry(byId: map<nat, nat>, counts: map<nat, nat>)

  ghost predicate Valid(r: Registry) {
    && (forall id | id in r.byId :: id != 0 && r.byId[id] in r.counts)
    && (forall o | o in r.counts :: o != 0 && 0 < r.counts[o] <= MAX_COUNT && o in r.byId.Values)
  }

  function IdsOf(r: Registry, o: nat): set<nat> {
    set id | id in r.byId && r.byId[id] == o
  }

  function Without(r: Registry, o: nat): Registry {
    Registry(r.byId - IdsOf(r, o), r.counts - {o})
  }

  datatype Op =
    | Map(id: nat, obj: nat)
    | Unmap(id: nat, obj: nat)
    | Copy(id: nat)
    | Retain(obj: nat)
    | Release(obj: nat)

  /** The object an operation takes a reference to, or drops one of; 0 if none. */
  function Target(r: Registry, op: Op): nat {
    match op
    case Map(_, o) => o
    case Unmap(_, o) => o
    case Copy(id) => if id in r.byId then r.byId[id] else 0
    case Retain(o) => o
    case Release(o) => o
  }

  function Apply(r: Registry, op: Op): Registry {
    match op
    case Map(id, o) =>
      if id == 0 || o == 0 || id in r.byId then r
      else Registry(r.byId[id := o], if o in r.counts then r.counts else r.counts[o := 1])
    case Unmap(id, o) =>
      if id == 0 || o == 0 || id !in r.byId || r.byId[id] != o then r
      else if IdsOf(r, o) == {id} then Without(r, o)
      else r.(byId := r.byId - {id})
    case Copy(id) =>
      if id in r.byId && r.byId[id] in r.counts && r.counts[r.byId[id]] < MAX_COUNT
      then r.(counts := r.counts[r.byId[id] := r.counts[r.byId[id]] + 1]) else r
    case Retain(o) =>
      if o in r.counts && r.counts[o] < MAX_COUNT then r.(counts := r.counts[o := r.counts[o] + 1]) else r
    case Release(o) =>
      if o !in r.counts || r.counts[o] == 0 then r
      else if r.counts[o] == 1 then Without(r, o)
      else r.(counts := r.counts[o := r.counts[o] - 1])
  }

  /** What CopyObjectByObjectID returns. */
  function Copied(r: Registry, id: nat): nat {
    if id in r.byId && r.byId[id] in r.counts && r.counts[r.byId[id]] < MAX_COUNT then r.byId[id] else 0
  }

  /** The operation ends its target's life. */
  predicate Destroys(r: Registry, op: Op) {
    Target(r, op) in r.counts && Target(r, op) !in Apply(r, op).counts
  }

  predicate DropsLastId(r: Registry, op: Op) {
    op.Unmap? && op.id in r.byId && r.byId[op.id] == op.obj && IdsOf(r, op.obj) == {op.id}
  }

  predicate DropsLastReference(r: Registry, op: Op) {
    op.Release? && op.obj in r.counts && r.counts[op.obj] == 1
  }

  lemma ApplyKeepsValid(r: Registry, op: Op)
    requires Valid(r)
    ensures Valid(Apply(r, op))
  {
    var s := Apply(r, op);
    forall o | o in s.counts ensures o in s.byId.Values {
      if o in r.counts {
        var id :| id in r.byId && r.byId[id] == o;
        assert id in IdsOf(r, o);
        if op.Unmap? && id == op.id && id !in s.byId && IdsOf(r, o) != {id} {
          var other :| other in IdsOf(r, o) && other != id;
          assert s.byId[other] == o;
        } else {
          assert s.byId[id] == o;
        }
      } else {
        assert s.byId[op.id] == o;
      }
    }
  }

  /** Destruction happens exactly when the last ID is unmapped or the last reference released; nothing
      else leaves the registry, and no ID of what left is kept. */
  lemma DestroysExactly(r: Registry, op: Op)
    requires Valid(r)
    ensures Destroys(r, op) <==> DropsLastId(r, op) || DropsLastReference(r, op)
    ensures forall o | o in r.counts && o !in Apply(r, op).counts :: o == Target(r, op) && IdsOf(Apply(r, op), o) == {}
  {
  }

  lemma ReleaseEffect(r: Registry, o: nat)
    ensures o !in r.counts ==> Apply(r, Release(o)) == r && !Destroys(r, Release(o))
    ensures o in r.counts && r.counts[o] == 1 ==> Apply(r, Release(o)) == Without(r, o) && Destroys(r, Release(o))
    ensures o in r.counts && r.counts[o] > 1 ==>
              Apply(r, Release(o)) == r.(counts := r.counts[o := r.counts[o] - 1]) && !Destroys(r, Release(o))
  {
  }

  lemma UnmapEffect(r: Registry, id: nat, o: nat)
    requires o in r.counts || id !in r.byId || r.byId[id] != o
    ensures id == 0 || o == 0 || id !in r.byId || r.byId[id] != o ==>
              Apply(r, Unmap(id, o)) == r && !Destroys(r, Unmap(id, o))
    ensures id != 0 && o != 0 && id in r.byId && r.byId[id] == o && IdsOf(r, o) == {id} ==>
              Apply(r, Unmap(id, o)) == Without(r, o) && Destroys(r, Unmap(id, o))
    ensures id != 0 && o != 0 && id in r.byId && r.byId[id] == o && IdsOf(r, o) != {id} ==>
              Apply(r, Unmap(id, o)) == r.(byId := r.byId - {id}) && !Destroys(r, Unmap(id, o))
  {
  }

  // Runs, with the destruction queue and a tally of what happened to each object since it was mapped.

  datatype Tally = Tally(retains: nat, copies: nat, releases: nat)

  datatype World = World(reg: Registry, dispatched: seq<nat>, tallies: map<nat, Tally>, born: seq<nat>)

  /** The tally records an operation only if it took effect. */
  function Tallied(w: World, op: Op): map<nat, Tally> {
    var o, after := Target(w.reg, op), Apply(w.reg, op);
    if o !in w.reg.counts then (if o in after.counts then w.tallies[o := Tally(0, 0, 0)] else w.tallies)
    else if o !in w.tallies || op.Map? || op.Unmap? || after == w.reg then w.tallies
    else
      var t := w.tallies[o];
      w.tallies[o := if op.Copy? then t.(copies := t.copies + 1)
                     else if op.Retain? then t.(retains := t.retains + 1)
                     else t.(releases := t.releases + 1)]
  }

  function Step(w: World, op: Op): World {
    var o, after := Target(w.reg, op), Apply(w.reg, op);
    World(after,
          if Destroys(w.reg, op) then w.dispatched + [o] else w.dispatched,
          Tallied(w, op),
          if o !in w.reg.counts && o in after.counts then w.born + [o] else w.born)
  }

  function Run(w: World, ops: seq<Op>): World {
    if ops == [] then w else Step(Run(w, ops[..|ops| - 1]), ops[|ops| - 1])
  }

  predicate Fresh(w: World) {
    w == World(Registry(map[], map[]), [], map[], [])
  }

  /** A live object's count is what the tally says. */
  ghost predicate CountsInv(w: World) {
    forall o | o in w.reg.counts ::
      o in w.tallies
      && w.reg.counts[o] == 1 + w.tallies[o].retains + w.tallies[o].copies - w.tallies[o].releases
  }

  ghost predicate Balanced(w: World, o: nat) {
    multiset(w.born)[o] == multiset(w.dispatched)[o] + if o in w.reg.counts then 1 else 0
  }

  /** Lives begun are lives ended plus, for a live object, the current one. */
  ghost predicate LivesInv(w: World) {
    forall o: nat :: Balanced(w, o)
  }

  ghost predicate Inv(w: World) {
    Valid(w.reg) && CountsInv(w) && LivesInv(w)
  }

  lemma StepKeepsInv(w: World, op: Op)
    requires Inv(w)
    ensures Inv(Step(w, op))
  {
    ApplyKeepsValid(w.reg, op);
    StepKeepsCounts(w, op);
    StepKeepsLives(w, op);
  }

  lemma StepKeepsCounts(w: World, op: Op)
    requires Valid(w.reg) && CountsInv(w)
    ensures CountsInv(Step(w, op))
  {
    DestroysExactly(w.reg, op);
  }

  lemma StepKeepsLives(w: World, op: Op)
    requires Valid(w.reg) && LivesInv(w)
    ensures LivesInv(Step(w, op))
  {
    DestroysExactly(w.reg, op);
    forall o: nat ensures Balanced(Step(w, op), o) {
      assert Balanced(w, o);
      StepBalances(w, op, o);
    }
  }

  lemma StepBalances(w: World, op: Op, o: nat)
    requires Valid(w.reg) && Balanced(w, o)
    ensures Balanced(Step(w, op), o)
  {
    DestroysExactly(w.reg, op);
  }

  /** Over every sequence of operations: IDs and live objects stay consistent, a live object's count is
      1 + retains + copies - releases since it was mapped, and every object is queued for destruction
      exactly as often as a life of it has ended. */
  lemma {:induction false} CountsAndDestructions(w: World, ops: seq<Op>)
    requires Fresh(w)
    ensures var t := Run(w, ops);
            && Inv(t) && Valid(t.reg)
            && (forall o | o in t.reg.counts ::
                  o in t.tallies
                  && t.reg.counts[o] == 1 + t.tallies[o].retains + t.tallies[o].copies - t.tallies[o].releases)
            && (forall o: nat :: Balanced(t, o))
  {
    if ops != [] {
      CountsAndDestructions(w, ops[..|ops| - 1]);
      StepKeepsInv(Run(w, ops[..|ops| - 1]), ops[|ops| - 1]);
    }
  }

  /** An object that is not live stays unreachable, through any operations that do not map it again:
      no ID leads to it, copying never returns it, and it is not queued again. */
  lemma {:induction false} DeadStaysDead(w: World, o: nat, ops: seq<Op>, id: nat)
    requires Valid(w.reg) && o != 0 && o !in w.reg.counts
    requires forall i | 0 <= i < |ops| :: !(ops[i].Map? && ops[i].obj == o)
    ensures var t := Run(w, ops);
            && Valid(t.reg) && o !in t.reg.counts && IdsOf(t.reg, o) == {}
            && Copied(t.reg, id) != o
            && multiset(t.dispatched)[o] == multiset(w.dispatched)[o]
  {
    if ops != [] {
      DeadStaysDead(w, o, ops[..|ops| - 1], id);
      ApplyKeepsValid(Run(w, ops[..|ops| - 1]).reg, ops[|ops| - 1]);
      DestroysExactly(Run(w, ops[..|ops| - 1]).reg, ops[|ops| - 1]);
    }
  }
}
