/** driver/JackBridge/Plug-In/SA_Object.cpp: the object map as the code keeps it, a list of entries
    searched linearly, refining the registry. Pointers are nonzero numbers. */
module ObjectMap {
  import opened Arithmetic
  import R = ObjectRegistry

  datatype ObjectInfo = ObjectInfo(obj: nat, referenceCount: nat, objectIDs: seq<nat>)

  ghost predicate HasID(list: seq<ObjectInfo>, id: nat) {
    exists i | 0 <= i < |list| :: id in list[i].objectIDs
  }

  ghost predicate HasObject(list: seq<ObjectInfo>, o: nat) {
    exists i | 0 <= i < |list| :: list[i].obj == o
  }

  function Erased<T>(s: seq<T>, i: nat): (r: seq<T>)
    requires i < |s|
    ensures |r| == |s| - 1
    ensures forall k | 0 <= k < |r| :: r[k] == if k < i then s[k] else s[k + 1]
  {
    s[..i] + s[i + 1..]
  }

  predicate EntryOk(info: ObjectInfo) {
    && info.obj != 0 && 0 < info.referenceCount <= R.MAX_COUNT
    && info.objectIDs != [] && 0 !in info.objectIDs
    && forall a, b | 0 <= a < b < |info.objectIDs| :: info.objectIDs[a] != info.objectIDs[b]
  }

  /** Every entry is well-formed and no object has two. */
  ghost predicate ValidList(list: seq<ObjectInfo>) {
    && (forall i | 0 <= i < |list| :: EntryOk(list[i]))
    && (forall i, j | 0 <= i < j < |list| :: list[i].obj != list[j].obj)
  }

  ghost predicate EntryAgrees(info: ObjectInfo, r: R.Registry) {
    && info.obj in r.counts && r.counts[info.obj] == info.referenceCount
    && forall id | id in info.objectIDs :: id in r.byId && r.byId[id] == info.obj
  }

  /** The list holds exactly the IDs, objects and counts of the registry. */
  ghost predicate Represents(list: seq<ObjectInfo>, r: R.Registry) {
    && ValidList(list)
    && (forall i | 0 <= i < |list| :: EntryAgrees(list[i], r))
    && (forall id | id in r.byId :: HasID(list, id))
    && (forall o | o in r.counts :: HasObject(list, o))
  }

  lemma OthersDiffer(list: seq<ObjectInfo>, i: nat, j: nat)
    requires ValidList(list) && i < |list| && j < |list| && i != j
    ensures list[i].obj != list[j].obj
  {
    assert if i < j then list[i].obj != list[j].obj else list[j].obj != list[i].obj;
  }

  lemma SameEntry(list: seq<ObjectInfo>, i: nat, j: nat)
    requires ValidList(list) && i < |list| && j < |list|
    ensures list[i].obj == list[j].obj ==> i == j
  {
    if i != j {
      OthersDiffer(list, i, j);
    }
  }

  /** The entry holding an ID is the entry of the object the registry maps it to. */
  lemma EntryOfID(list: seq<ObjectInfo>, r: R.Registry, id: nat, i: nat)
    requires Represents(list, r) && i < |list| && id in r.byId && r.byId[id] == list[i].obj
    ensures id in list[i].objectIDs
  {
    assert HasID(list, id);
    var k :| 0 <= k < |list| && id in list[k].objectIDs;
    assert EntryAgrees(list[k], r);
    SameEntry(list, k, i);
  }

  /** The IDs of an object are those of its entry. */
  lemma EntryIDs(list: seq<ObjectInfo>, r: R.Registry, i: nat)
    requires Represents(list, r) && i < |list|
    ensures R.IdsOf(r, list[i].obj) == set id | id in list[i].objectIDs
  {
    assert EntryAgrees(list[i], r);
    forall id | id in R.IdsOf(r, list[i].obj) ensures id in list[i].objectIDs {
      EntryOfID(list, r, id, i);
    }
  }

  lemma RepresentsIsValid(list: seq<ObjectInfo>, r: R.Registry)
    requires Represents(list, r)
    ensures R.Valid(r)
  {
    forall id | id in r.byId ensures id != 0 && r.byId[id] in r.counts {
      assert HasID(list, id);
      var i :| 0 <= i < |list| && id in list[i].objectIDs;
      assert EntryOk(list[i]) && EntryAgrees(list[i], r);
    }
    forall o | o in r.counts ensures o != 0 && 0 < r.counts[o] <= R.MAX_COUNT && o in r.byId.Values {
      assert HasObject(list, o);
      var i :| 0 <= i < |list| && list[i].obj == o;
      assert EntryOk(list[i]) && EntryAgrees(list[i], r);
      assert list[i].objectIDs[0] in r.byId;
    }
  }

  // The three ways the list changes.

  /** `s` is `r` with the entry of one object rewritten as `now`. */
  ghost predicate Rewrites(r: R.Registry, s: R.Registry, now: ObjectInfo) {
    && s.counts == r.counts[now.obj := now.referenceCount]
    && (forall id | id in now.objectIDs :: id in s.byId && s.byId[id] == now.obj)
    && (forall id | id in r.byId && r.byId[id] != now.obj :: id in s.byId && s.byId[id] == r.byId[id])
    && (forall id | id in s.byId :: id in now.objectIDs || (id in r.byId && r.byId[id] != now.obj))
  }

  lemma RewriteRefines(list: seq<ObjectInfo>, r: R.Registry, i: nat, now: ObjectInfo, s: R.Registry)
    requires Represents(list, r) && i < |list| && now.obj == list[i].obj && EntryOk(now) && Rewrites(r, s, now)
    ensures Represents(list[i := now], s)
  {
    var next := list[i := now];
    forall k | 0 <= k < |next| ensures EntryAgrees(next[k], s) {
      if k != i {
        assert EntryAgrees(list[k], r);
        OthersDiffer(list, k, i);
      }
    }
    forall id | id in s.byId ensures HasID(next, id) {
      if id in now.objectIDs {
        assert id in next[i].objectIDs;
      } else {
        assert HasID(list, id);
        var k :| 0 <= k < |list| && id in list[k].objectIDs;
        assert EntryAgrees(list[k], r);
        assert id in next[k].objectIDs;
      }
    }
    forall o | o in s.counts ensures HasObject(next, o) {
      if o == now.obj {
        assert next[i].obj == o;
      } else {
        assert HasObject(list, o);
        var k :| 0 <= k < |list| && list[k].obj == o;
        assert next[k].obj == o;
      }
    }
  }

  lemma PushRefines(list: seq<ObjectInfo>, r: R.Registry, id: nat, o: nat)
    requires Represents(list, r) && id != 0 && o != 0 && !HasID(list, id) && !HasObject(list, o)
    ensures Represents(list + [ObjectInfo(o, 1, [id])], R.Registry(r.byId[id := o], r.counts[o := 1]))
  {
    var next, s := list + [ObjectInfo(o, 1, [id])], R.Registry(r.byId[id := o], r.counts[o := 1]);
    forall k | 0 <= k < |next| ensures EntryOk(next[k]) && EntryAgrees(next[k], s) {
      if k < |list| {
        assert EntryOk(list[k]) && EntryAgrees(list[k], r);
      }
    }
    forall x | x in s.byId ensures HasID(next, x) {
      if x == id {
        assert x in next[|list|].objectIDs;
      } else {
        assert HasID(list, x);
        var k :| 0 <= k < |list| && x in list[k].objectIDs;
        assert x in next[k].objectIDs;
      }
    }
    forall q | q in s.counts ensures HasObject(next, q) {
      if q == o {
        assert next[|list|].obj == q;
      } else {
        assert HasObject(list, q);
        var k :| 0 <= k < |list| && list[k].obj == q;
        assert next[k].obj == q;
      }
    }
  }

  lemma KeptEntry(list: seq<ObjectInfo>, r: R.Registry, i: nat, k: nat)
    requires Represents(list, r) && i < |list| && k < |list| && k != i
    ensures EntryOk(list[k]) && EntryAgrees(list[k], R.Without(r, list[i].obj))
    ensures list[k] in Erased(list, i)
  {
    assert EntryAgrees(list[k], r);
    OthersDiffer(list, k, i);
    assert Erased(list, i)[if k < i then k else k - 1] == list[k];
  }

  lemma ErasedFinds(list: seq<ObjectInfo>, r: R.Registry, i: nat)
    requires Represents(list, r) && i < |list|
    ensures forall x | x in R.Without(r, list[i].obj).byId :: HasID(Erased(list, i), x)
    ensures forall q | q in R.Without(r, list[i].obj).counts :: HasObject(Erased(list, i), q)
  {
    var next, s := Erased(list, i), R.Without(r, list[i].obj);
    forall x | x in s.byId ensures HasID(next, x) {
      assert HasID(list, x);
      var k :| 0 <= k < |list| && x in list[k].objectIDs;
      assert EntryAgrees(list[k], r);
      assert k != i;
      KeptEntry(list, r, i, k);
    }
    forall q | q in s.counts ensures HasObject(next, q) {
      assert HasObject(list, q);
      var k :| 0 <= k < |list| && list[k].obj == q;
      assert k != i;
      KeptEntry(list, r, i, k);
    }
  }

  lemma ErasedAgrees(list: seq<ObjectInfo>, r: R.Registry, i: nat)
    requires Represents(list, r) && i < |list|
    ensures ValidList(Erased(list, i))
    ensures forall k | 0 <= k < |Erased(list, i)| :: EntryAgrees(Erased(list, i)[k], R.Without(r, list[i].obj))
  {
    var next, s := Erased(list, i), R.Without(r, list[i].obj);
    forall k | 0 <= k < |next| ensures EntryOk(next[k]) && EntryAgrees(next[k], s) {
      KeptEntry(list, r, i, if k < i then k else k + 1);
    }
    forall k, m | 0 <= k < m < |next| ensures next[k].obj != next[m].obj {
      OthersDiffer(list, if k < i then k else k + 1, if m < i then m else m + 1);
    }
  }

  lemma EraseRefines(list: seq<ObjectInfo>, r: R.Registry, i: nat)
    requires Represents(list, r) && i < |list|
    ensures Represents(Erased(list, i), R.Without(r, list[i].obj))
  {
    ErasedFinds(list, r, i);
    ErasedAgrees(list, r, i);
  }

  /** Erasing one ID of a list without repetitions removes exactly that ID. */
  lemma ErasedIDs(ids: seq<nat>, a: nat)
    requires a < |ids| && forall p, q | 0 <= p < q < |ids| :: ids[p] != ids[q]
    ensures forall x :: x in Erased(ids, a) <==> x in ids && x != ids[a]
    ensures forall p, q | 0 <= p < q < |Erased(ids, a)| :: Erased(ids, a)[p] != Erased(ids, a)[q]
  {
    forall x | x in ids && x != ids[a] ensures x in Erased(ids, a) {
      var p :| 0 <= p < |ids| && ids[p] == x;
      assert Erased(ids, a)[if p < a then p else p - 1] == x;
    }
  }

  // Each operation, on the entry it finds.

  lemma RecountRefines(list: seq<ObjectInfo>, r: R.Registry, i: nat, count: nat)
    requires Represents(list, r) && i < |list| && 0 < count <= R.MAX_COUNT
    ensures Represents(list[i := list[i].(referenceCount := count)], r.(counts := r.counts[list[i].obj := count]))
  {
    assert EntryOk(list[i]) && EntryAgrees(list[i], r);
    forall id | id in r.byId && r.byId[id] == list[i].obj ensures id in list[i].objectIDs {
      EntryOfID(list, r, id, i);
    }
    RewriteRefines(list, r, i, list[i].(referenceCount := count), r.(counts := r.counts[list[i].obj := count]));
  }

  lemma AddIDRefines(list: seq<ObjectInfo>, r: R.Registry, i: nat, id: nat)
    requires Represents(list, r) && i < |list| && id != 0 && !HasID(list, id)
    ensures Represents(list[i := list[i].(objectIDs := list[i].objectIDs + [id])],
                       r.(byId := r.byId[id := list[i].obj]))
  {
    var now := list[i].(objectIDs := list[i].objectIDs + [id]);
    var s := r.(byId := r.byId[id := list[i].obj]);
    assert EntryOk(list[i]) && EntryAgrees(list[i], r) && id !in list[i].objectIDs;
    forall x | x in r.byId && r.byId[x] == now.obj ensures x in now.objectIDs {
      EntryOfID(list, r, x, i);
    }
    assert s.counts == r.counts[now.obj := now.referenceCount];
    RewriteRefines(list, r, i, now, s);
  }

  lemma UnmapLastRefines(list: seq<ObjectInfo>, r: R.Registry, i: nat)
    requires Represents(list, r) && i < |list| && |list[i].objectIDs| == 1
    ensures var op := R.Unmap(list[i].objectIDs[0], list[i].obj);
            Represents(Erased(list, i), R.Apply(r, op)) && R.Destroys(r, op)
  {
    assert EntryOk(list[i]) && EntryAgrees(list[i], r) && list[i].objectIDs[0] in list[i].objectIDs;
    EntryIDs(list, r, i);
    assert R.IdsOf(r, list[i].obj) == {list[i].objectIDs[0]};
    EraseRefines(list, r, i);
  }

  lemma UnmapOneRefines(list: seq<ObjectInfo>, r: R.Registry, i: nat, a: nat)
    requires Represents(list, r) && i < |list| && a < |list[i].objectIDs| && 1 < |list[i].objectIDs|
    ensures var id, rest := list[i].objectIDs[a], Erased(list[i].objectIDs, a);
            Represents(list[i := list[i].(objectIDs := rest)], r.(byId := r.byId - {id}))
  {
    var id, rest := list[i].objectIDs[a], Erased(list[i].objectIDs, a);
    var now, s := list[i].(objectIDs := rest), r.(byId := r.byId - {id});
    assert EntryOk(list[i]) && EntryAgrees(list[i], r);
    ErasedIDs(list[i].objectIDs, a);
    assert s.counts == r.counts[now.obj := now.referenceCount];
    forall x | x in s.byId ensures x in rest || (x in r.byId && r.byId[x] != now.obj) {
      if r.byId[x] == now.obj {
        EntryOfID(list, r, x, i);
      }
    }
    RewriteRefines(list, r, i, now, s);
  }

  lemma UnmapOneEffect(list: seq<ObjectInfo>, r: R.Registry, i: nat, a: nat)
    requires Represents(list, r) && i < |list| && a < |list[i].objectIDs| && 1 < |list[i].objectIDs|
    ensures var op := R.Unmap(list[i].objectIDs[a], list[i].obj);
            R.Apply(r, op) == r.(byId := r.byId - {op.id}) && !R.Destroys(r, op)
  {
    var info := list[i];
    assert EntryOk(info) && EntryAgrees(info, r) && info.objectIDs[a] in info.objectIDs;
    var other := if a == 0 then 1 else 0;
    assert info.objectIDs[other] in info.objectIDs && info.objectIDs[other] != info.objectIDs[a];
    assert info.objectIDs[other] in R.IdsOf(r, info.obj);
  }

  /** Unmapping the a-th ID of entry i: the entry goes with its last ID. */
  lemma UnmapRefines(list: seq<ObjectInfo>, r: R.Registry, i: nat, a: nat)
    requires Represents(list, r) && i < |list| && a < |list[i].objectIDs|
    ensures var op := R.Unmap(list[i].objectIDs[a], list[i].obj);
            var rest := Erased(list[i].objectIDs, a);
            && Represents(if rest == [] then Erased(list, i) else list[i := list[i].(objectIDs := rest)],
                          R.Apply(r, op))
            && (R.Destroys(r, op) <==> rest == [])
  {
    if |list[i].objectIDs| == 1 {
      UnmapLastRefines(list, r, i);
    } else {
      UnmapOneRefines(list, r, i, a);
      UnmapOneEffect(list, r, i, a);
    }
  }

  /** Asking to unmap an ID that is not mapped to the object changes nothing. */
  lemma UnmapMisses(list: seq<ObjectInfo>, r: R.Registry, id: nat, o: nat)
    requires Represents(list, r)
    requires id == 0 || o == 0 || !HasID(list, id)
             || exists i | 0 <= i < |list| :: id in list[i].objectIDs && list[i].obj != o
    ensures R.Apply(r, R.Unmap(id, o)) == r && !R.Destroys(r, R.Unmap(id, o))
  {
    AgreeOnID(list, r, id);
    RepresentsIsValid(list, r);
    if id != 0 && o != 0 && HasID(list, id) {
      var i :| 0 <= i < |list| && id in list[i].objectIDs && list[i].obj != o;
      assert EntryAgrees(list[i], r);
    }
  }

  lemma CopyRefines(list: seq<ObjectInfo>, r: R.Registry, i: nat, id: nat)
    requires Represents(list, r) && i < |list| && id in list[i].objectIDs && list[i].referenceCount != R.MAX_COUNT
    ensures R.Copied(r, id) == list[i].obj
    ensures Represents(list[i := list[i].(referenceCount := list[i].referenceCount + 1)], R.Apply(r, R.Copy(id)))
  {
    assert EntryOk(list[i]) && EntryAgrees(list[i], r);
    RecountRefines(list, r, i, list[i].referenceCount + 1);
  }

  /** Nothing is copied under an unknown ID or at the maximal count. */
  lemma CopyMisses(list: seq<ObjectInfo>, r: R.Registry, id: nat)
    requires Represents(list, r)
    requires !HasID(list, id)
             || exists i | 0 <= i < |list| :: id in list[i].objectIDs && list[i].referenceCount == R.MAX_COUNT
    ensures R.Apply(r, R.Copy(id)) == r && R.Copied(r, id) == 0
  {
    AgreeOnID(list, r, id);
    if HasID(list, id) {
      var i :| 0 <= i < |list| && id in list[i].objectIDs && list[i].referenceCount == R.MAX_COUNT;
      assert EntryAgrees(list[i], r);
    }
  }

  /** Releasing the object of entry i: the entry goes with its last reference. */
  lemma ReleaseRefines(list: seq<ObjectInfo>, r: R.Registry, i: nat)
    requires Represents(list, r) && i < |list|
    ensures var op, count := R.Release(list[i].obj), list[i].referenceCount;
            && 0 < count && list[i].obj in r.counts && r.counts[list[i].obj] == count
            && (count == 1 ==> list[i].obj !in R.Apply(r, op).counts)
            && (count != 1 ==> list[i].obj in R.Apply(r, op).counts && R.Apply(r, op).counts[list[i].obj] == count - 1)
            && Represents(if count == 1 then Erased(list, i) else list[i := list[i].(referenceCount := count - 1)],
                          R.Apply(r, op))
            && (R.Destroys(r, op) <==> count == 1)
  {
    assert EntryOk(list[i]) && EntryAgrees(list[i], r);
    R.ReleaseEffect(r, list[i].obj);
    if list[i].referenceCount == 1 {
      EraseRefines(list, r, i);
    } else {
      RecountRefines(list, r, i, list[i].referenceCount - 1);
    }
  }

  // std::find, by ID, by pointer and in an ID list; the length when absent.

  method FindByID(list: seq<ObjectInfo>, id: nat) returns (i: nat)
    ensures i <= |list| && (i < |list| ==> id in list[i].objectIDs)
    ensures i == |list| <==> !HasID(list, id)
  {
    i := 0;
    while i < |list|
      invariant i <= |list| && forall k | 0 <= k < i :: id !in list[k].objectIDs
    {
      if id in list[i].objectIDs {
        return;
      }
      i := i + 1;
    }
  }

  method FindByObject(list: seq<ObjectInfo>, o: nat) returns (i: nat)
    ensures i <= |list| && (i < |list| ==> list[i].obj == o)
    ensures i == |list| <==> !HasObject(list, o)
  {
    i := 0;
    while i < |list|
      invariant i <= |list| && forall k | 0 <= k < i :: list[k].obj != o
    {
      if list[i].obj == o {
        return;
      }
      i := i + 1;
    }
  }

  method IndexOf(ids: seq<nat>, id: nat) returns (a: nat)
    ensures a <= |ids| && (a < |ids| ==> ids[a] == id)
    ensures a == |ids| <==> id !in ids
  {
    a := 0;
    while a < |ids|
      invariant a <= |ids| && id !in ids[..a]
    {
      if ids[a] == id {
        return;
      }
      a := a + 1;
    }
  }

  class SA_ObjectMap {
    var nextObjectID: nat
    var objectInfoList: seq<ObjectInfo>
    var dispatched: seq<nat>  // objects handed to the dispatch queue for destruction
    ghost var registry: R.Registry

    ghost predicate Valid()
      reads this
    {
      Represents(objectInfoList, registry) && nextObjectID < TWO32
    }

    constructor ()
      ensures Valid() && registry == R.Registry(map[], map[]) && dispatched == [] && nextObjectID == 32
    {
      nextObjectID, objectInfoList, dispatched := 32, [], [];
      registry := R.Registry(map[], map[]);
    }

    method GetNextObjectID() returns (answer: nat)
      requires Valid()
      modifies this`nextObjectID
      ensures Valid() && answer == old(nextObjectID) && nextObjectID == (old(nextObjectID) + 1) % TWO32
    {
      answer := nextObjectID;
      nextObjectID := (nextObjectID + 1) % TWO32;
    }

    method MapObject(id: nat, o: nat) returns (answer: bool)
      requires Valid()
      modifies this`objectInfoList, this`registry
      ensures Valid() && registry == R.Apply(old(registry), R.Map(id, o))
      ensures answer <==> id != 0 && o != 0 && id !in old(registry).byId
    {
      answer := false;
      ghost var next := R.Apply(registry, R.Map(id, o));
      if id != 0 && o != 0 {
        var k := FindByID(objectInfoList, id);
        AgreeOnID(objectInfoList, registry, id);
        if k == |objectInfoList| {
          answer := true;
          var i := FindByObject(objectInfoList, o);
          AgreeOnObject(objectInfoList, registry, o);
          if i != |objectInfoList| {
            AddIDRefines(objectInfoList, registry, i, id);
            var info := objectInfoList[i];
            objectInfoList := objectInfoList[i := info.(objectIDs := info.objectIDs + [id])];
          } else {
            PushRefines(objectInfoList, registry, id, o);
            objectInfoList := objectInfoList + [ObjectInfo(o, 1, [id])];
          }
        }
      }
      registry := next;
    }

    method UnmapObject(id: nat, o: nat)
      requires Valid()
      modifies this`objectInfoList, this`dispatched, this`registry
      ensures Valid() && registry == R.Apply(old(registry), R.Unmap(id, o))
      ensures dispatched == old(dispatched) + if R.Destroys(old(registry), R.Unmap(id, o)) then [o] else []
    {
      ghost var next := R.Apply(registry, R.Unmap(id, o));
      var list := objectInfoList;
      var i := FindByID(list, id);
      if id != 0 && o != 0 && i != |list| && list[i].obj == o {
        var gone;
        objectInfoList, gone := RemoveID(list, i, id, registry);
        if gone {
          dispatched := dispatched + [o];
        }
      } else {
        UnmapMisses(list, registry, id, o);
      }
      registry := next;
    }

    method CopyObjectByObjectID(id: nat) returns (answer: nat)
      requires Valid()
      modifies this`objectInfoList, this`registry
      ensures Valid() && registry == R.Apply(old(registry), R.Copy(id))
      ensures answer == R.Copied(old(registry), id)
    {
      ghost var next := R.Apply(registry, R.Copy(id));
      var list := objectInfoList;
      var i := FindByID(list, id);
      if i == |list| || list[i].referenceCount == R.MAX_COUNT {
        CopyMisses(list, registry, id);
        answer := 0;
      } else {
        CopyRefines(list, registry, i, id);
        objectInfoList := list[i := list[i].(referenceCount := list[i].referenceCount + 1)];
        answer := list[i].obj;
      }
      registry := next;
    }

    method RetainObject(o: nat) returns (answer: nat)
      requires Valid()
      modifies this`objectInfoList, this`registry
      ensures Valid() && registry == R.Apply(old(registry), R.Retain(o))
      ensures answer == if o in registry.counts then registry.counts[o] else 0
    {
      answer := 0;
      ghost var next := R.Apply(registry, R.Retain(o));
      AgreeOnObject(objectInfoList, registry, o);
      var i := FindByObject(objectInfoList, o);
      if i != |objectInfoList| {
        var info := objectInfoList[i];
        assert EntryAgrees(info, registry) && EntryOk(info);
        answer := info.referenceCount;
        if info.referenceCount < R.MAX_COUNT {
          answer := info.referenceCount + 1;
          RecountRefines(objectInfoList, registry, i, answer);
          objectInfoList := objectInfoList[i := info.(referenceCount := answer)];
        }
      }
      registry := next;
    }

    /** After the last release the code reads its answer through an erased iterator; here that answer
        is arbitrary. */
    method ReleaseObject(o: nat) returns (answer: nat)
      requires Valid()
      modifies this`objectInfoList, this`dispatched, this`registry
      ensures Valid() && registry == R.Apply(old(registry), R.Release(o))
      ensures dispatched == old(dispatched) + if R.Destroys(old(registry), R.Release(o)) then [o] else []
      ensures o !in old(registry).counts ==> answer == 0
      ensures o in registry.counts ==> answer == registry.counts[o]
    {
      ghost var next := R.Apply(registry, R.Release(o));
      var list := objectInfoList;
      var i := FindByObject(list, o);
      if i == |list| {
        ReleaseMisses(list, registry, o);
        answer := 0;
      } else {
        objectInfoList, answer := CountDown(list, i, registry);
        if answer == 0 {
          dispatched := dispatched + [o];
          answer := *;
        }
      }
      registry := next;
    }
  }

  /** The entry's count goes down by one, and the entry goes when it reaches 0. */
  method CountDown(list: seq<ObjectInfo>, i: nat, ghost r: R.Registry) returns (next: seq<ObjectInfo>, count: nat)
    requires Represents(list, r) && i < |list|
    ensures Represents(next, R.Apply(r, R.Release(list[i].obj)))
    ensures list[i].obj in r.counts && r.counts[list[i].obj] == count + 1
    ensures count == 0 <==> R.Destroys(r, R.Release(list[i].obj))
    ensures list[i].obj in R.Apply(r, R.Release(list[i].obj)).counts ==>
              count != 0 && R.Apply(r, R.Release(list[i].obj)).counts[list[i].obj] == count
  {
    ReleaseRefines(list, r, i);
    count := list[i].referenceCount - 1;
    next := if count == 0 then Erased(list, i) else list[i := list[i].(referenceCount := count)];
  }

  /** The ID goes from the entry's list, and the entry goes with its last one. */
  method RemoveID(list: seq<ObjectInfo>, i: nat, id: nat, ghost r: R.Registry)
    returns (next: seq<ObjectInfo>, gone: bool)
    requires Represents(list, r) && i < |list| && id in list[i].objectIDs
    ensures Represents(next, R.Apply(r, R.Unmap(id, list[i].obj)))
    ensures gone <==> R.Destroys(r, R.Unmap(id, list[i].obj))
  {
    var a := IndexOf(list[i].objectIDs, id);
    var ids := Erased(list[i].objectIDs, a);
    UnmapRefines(list, r, i, a);
    gone := ids == [];
    next := if gone then Erased(list, i) else list[i := list[i].(objectIDs := ids)];
  }

  lemma ReleaseMisses(list: seq<ObjectInfo>, r: R.Registry, o: nat)
    requires Represents(list, r) && !HasObject(list, o)
    ensures o !in r.counts && R.Apply(r, R.Release(o)) == r && !R.Destroys(r, R.Release(o))
  {
    AgreeOnObject(list, r, o);
  }

  lemma AgreeOnID(list: seq<ObjectInfo>, r: R.Registry, id: nat)
    requires Represents(list, r)
    ensures HasID(list, id) <==> id in r.byId
    ensures HasID(list, 0) == false
  {
    forall i | 0 <= i < |list| ensures 0 !in list[i].objectIDs && EntryAgrees(list[i], r) {
      assert EntryOk(list[i]);
    }
  }

  lemma AgreeOnObject(list: seq<ObjectInfo>, r: R.Registry, o: nat)
    requires Represents(list, r)
    ensures HasObject(list, o) <==> o in r.counts
  {
    forall i | 0 <= i < |list| ensures EntryAgrees(list[i], r) {
    }
  }
}
