/** driver/JackBridge/Plug-In/SA_Object.h: SA_ObjectReleaser, which holds one reference to an object of
    the map. Object 0 is NULL. */
module Releaser {
  import opened ObjectRegistry
  import opened ObjectMap

  /** References to an object; none if it is not live. */
  function Count(r: Registry, o: nat): nat {
    if o in r.counts then r.counts[o] else 0
  }

  class SA_ObjectReleaser {
    const theMap: SA_ObjectMap
    var mObject: nat

    /** Takes over a reference the caller has. */
    constructor Adopt(m: SA_ObjectMap, inObject: nat)
      ensures theMap == m && mObject == inObject
    {
      theMap, mObject := m, inObject;
    }

    constructor CopyOf(other: SA_ObjectReleaser)
      requires other.theMap.Valid()
      modifies other.theMap
      ensures theMap == other.theMap && mObject == other.mObject && theMap.Valid()
      ensures theMap.registry == Apply(old(other.theMap.registry), Retain(mObject))
      ensures theMap.dispatched == old(other.theMap.dispatched)
    {
      theMap, mObject := other.theMap, other.mObject;
      new;
      var _ := theMap.RetainObject(mObject);
    }

    method Destroy()
      requires theMap.Valid()
      modifies theMap
      ensures theMap.Valid() && theMap.registry == Apply(old(theMap.registry), Release(mObject))
      ensures theMap.dispatched
              == old(theMap.dispatched) + if Destroys(old(theMap.registry), Release(mObject)) then [mObject] else []
    {
      var _ := theMap.ReleaseObject(mObject);
    }

    method Assign(other: SA_ObjectReleaser)
      requires theMap.Valid() && other.theMap == theMap
      modifies this`mObject, theMap
      ensures theMap.Valid() && mObject == old(other.mObject) && other.mObject == old(other.mObject)
      ensures theMap.registry == Assigned(old(theMap.registry), old(mObject), old(other.mObject))
      ensures theMap.dispatched
              == old(theMap.dispatched)
                 + if old(mObject) != old(other.mObject) && Destroys(old(theMap.registry), Release(old(mObject)))
                   then [old(mObject)] else []
    {
      if mObject != other.mObject {
        var _ := theMap.ReleaseObject(mObject);
      }
      mObject := other.mObject;
      var _ := theMap.RetainObject(mObject);
    }
  }

  function Assigned(r: Registry, mine: nat, theirs: nat): Registry {
    Apply(if mine != theirs then Apply(r, Release(mine)) else r, Retain(theirs))
  }

  /** A holder's reference is to a live object, or it holds NULL. */
  predicate Holds(r: Registry, o: nat) {
    o == 0 || 0 < Count(r, o) < MAX_COUNT
  }

  /** The count of o is up by one if it is `gained` and down by one if it is `lost`. */
  predicate Moved(before: Registry, after: Registry, o: nat, lost: nat, gained: nat) {
    Count(after, o) == Count(before, o)
      + (if o == gained && o != 0 then 1 else 0) - (if o == lost && o != 0 then 1 else 0)
  }

  /** Assignment moves one reference from the old object to the new one. For a holder assigned another
      holder of the same object it does not: the retain has no release to match it. */
  lemma AssignmentMovesOneReference(r: Registry, mine: nat, theirs: nat)
    requires Valid(r) && Holds(r, mine) && Holds(r, theirs)
    ensures (forall o: nat :: Moved(r, Assigned(r, mine, theirs), o, mine, theirs)) <==> mine != theirs || mine == 0
    ensures mine == theirs != 0 ==> Count(Assigned(r, mine, theirs), mine) == Count(r, mine) + 1
  {
    assert 0 !in r.counts;
    if mine == theirs {
      assert mine != 0 ==> !Moved(r, Assigned(r, mine, theirs), mine, mine, theirs);
      assert mine == 0 ==> Assigned(r, mine, theirs) == r;
    } else {
      DifferentObjects(r, mine, theirs);
    }
  }

  lemma DifferentObjects(r: Registry, mine: nat, theirs: nat)
    requires Valid(r) && Holds(r, mine) && Holds(r, theirs) && mine != theirs
    ensures forall o: nat :: Moved(r, Assigned(r, mine, theirs), o, mine, theirs)
  {
    ReleaseEffect(r, mine);
    assert 0 !in r.counts;
  }

  /** Copying a holder and destroying the copy changes nothing. */
  lemma CopyThenDestroy(r: Registry, o: nat)
    requires Valid(r) && Holds(r, o)
    ensures Apply(Apply(r, Retain(o)), Release(o)) == r
    ensures !Destroys(Apply(r, Retain(o)), Release(o))
  {
    assert 0 !in r.counts;
    if o != 0 {
      ReleaseEffect(Apply(r, Retain(o)), o);
      assert r.counts[o := r.counts[o]] == r.counts;
    }
  }
}
