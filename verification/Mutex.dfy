/** driver/PublicUtility/CAMutex.h and .cpp as objects: the recursive mutex that does not count, its
    scope classes, and any nesting of scopes run on it. The calling thread is a parameter. */
module Mutex {

  class CAMutex {
    var mOwner: nat      // 0 when no thread has the mutex through this class
    var mMutex: nat      // the thread holding the pthread mutex, 0 when it is free

    /** Between operations the two agree. */
    ghost predicate Valid()
      reads this
    {
      mOwner == mMutex
    }

    constructor ()
      ensures Valid() && mOwner == 0
    {
      mOwner, mMutex := 0, 0;
    }

    predicate IsFree()
      reads this
    {
      mOwner == 0
    }

    predicate IsOwnedByCurrentThread(self: nat)
      reads this
    {
      mOwner == self
    }

    /** Returns once the pthread mutex was free, or at once for the owner. */
    method Lock(self: nat) returns (theAnswer: bool)
      requires Valid() && self != 0 && (mOwner == 0 || mOwner == self)
      modifies this
      ensures Valid() && mOwner == self && (theAnswer <==> old(mOwner) != self)
    {
      theAnswer := false;
      if self != mOwner {
        mMutex := self;
        mOwner := self;
        theAnswer := true;
      }
    }

    method Unlock(self: nat)
      requires Valid() && self != 0
      modifies this
      ensures Valid() && mOwner == if old(mOwner) == self then 0 else old(mOwner)
    {
      if self == mOwner {
        mOwner := 0;
        mMutex := 0;
      }
    }

    method Try(self: nat) returns (theAnswer: bool, outWasLocked: bool)
      requires Valid() && self != 0
      modifies this
      ensures Valid() && mOwner == (if old(mOwner) == 0 then self else old(mOwner))
      ensures theAnswer <==> old(mOwner) == 0 || old(mOwner) == self
      ensures outWasLocked <==> old(mOwner) == 0
    {
      theAnswer, outWasLocked := false, false;
      if self != mOwner {
        if mMutex == 0 {
          mMutex := self;
          mOwner := self;
          theAnswer, outWasLocked := true, true;
        }
      } else {
        theAnswer := true;
      }
    }
  }

  class Locker {
    const mMutex: CAMutex
    var mNeedsRelease: bool

    constructor (theMutex: CAMutex, self: nat)
      requires theMutex.Valid() && self != 0 && (theMutex.mOwner == 0 || theMutex.mOwner == self)
      modifies theMutex
      ensures mMutex == theMutex && theMutex.Valid() && theMutex.mOwner == self
      ensures mNeedsRelease <==> old(theMutex.mOwner) != self
    {
      mMutex := theMutex;
      mNeedsRelease := false;
      new;
      mNeedsRelease := mMutex.Lock(self);
    }

    method Destroy(self: nat)
      requires mMutex.Valid() && self != 0
      modifies mMutex
      ensures mMutex.Valid()
      ensures mMutex.mOwner == if mNeedsRelease && old(mMutex.mOwner) == self then 0 else old(mMutex.mOwner)
    {
      if mNeedsRelease {
        mMutex.Unlock(self);
      }
    }
  }

  class Tryer {
    const mMutex: CAMutex
    var mNeedsRelease: bool
    var mHasLock: bool

    constructor (theMutex: CAMutex, self: nat)
      requires theMutex.Valid() && self != 0
      modifies theMutex
      ensures mMutex == theMutex && theMutex.Valid()
      ensures theMutex.mOwner == if old(theMutex.mOwner) == 0 then self else old(theMutex.mOwner)
      ensures mNeedsRelease <==> old(theMutex.mOwner) == 0
      ensures mHasLock <==> theMutex.mOwner == self
    {
      mMutex := theMutex;
      mNeedsRelease, mHasLock := false, false;
      new;
      mHasLock, mNeedsRelease := mMutex.Try(self);
    }

    method Destroy(self: nat)
      requires mMutex.Valid() && self != 0
      modifies mMutex
      ensures mMutex.Valid()
      ensures mMutex.mOwner == if mNeedsRelease && old(mMutex.mOwner) == self then 0 else old(mMutex.mOwner)
    {
      if mNeedsRelease {
        mMutex.Unlock(self);
      }
    }
  }

  /** The constructor only asserts that the caller owns the mutex; release builds go on without it. */
  class Unlocker {
    const mMutex: CAMutex
    var mNeedsLock: bool

    constructor (theMutex: CAMutex, self: nat)
      requires theMutex.Valid() && self != 0
      modifies theMutex
      ensures mMutex == theMutex && theMutex.Valid() && mNeedsLock
      ensures theMutex.mOwner == if old(theMutex.mOwner) == self then 0 else old(theMutex.mOwner)
    {
      mMutex := theMutex;
      mNeedsLock := false;
      new;
      mMutex.Unlock(self);
      mNeedsLock := true;
    }

    method Destroy(self: nat) returns (locked: bool)
      requires mMutex.Valid() && self != 0 && (mMutex.mOwner == 0 || mMutex.mOwner == self)
      modifies mMutex
      ensures mMutex.Valid()
      ensures mMutex.mOwner == if mNeedsLock then self else old(mMutex.mOwner)
      ensures locked <==> mNeedsLock && old(mMutex.mOwner) != self
    {
      locked := false;
      if mNeedsLock {
        locked := mMutex.Lock(self);
      }
    }
  }

  /** What one thread executes: scopes with their bodies, one after the other. `free` says whether the
      mutex is free when a Tryer asks for it. */
  datatype Code =
    | Done
    | LockerScope(body: Code, next: Code)
    | TryerScope(free: bool, body: Code, next: Code)
    | UnlockerScope(body: Code, next: Code)

  /** Ownership at the end, and the real pthread locks and unlocks on the way. */
  datatype Outcome = Outcome(owned: bool, locks: nat, unlocks: nat) {
    /** The body is run after a real lock, if the constructor made one, and then unlocked. */
    function InsideLock(really: bool): Outcome {
      if really then Outcome(false, locks + 1, unlocks + if owned then 1 else 0) else this
    }

    /** The body is run after a real unlock, if the constructor made one, and then locked. */
    function InsideUnlock(really: bool): Outcome {
      Outcome(true, locks + (if owned then 0 else 1), unlocks + if really then 1 else 0)
    }

    function Then(o: Outcome): Outcome {
      Outcome(o.owned, locks + o.locks, unlocks + o.unlocks)
    }
  }

  /** One scope, from its constructor to its destructor. */
  function ExecScope(c: Code, owned: bool): Outcome
    requires !c.Done?
    decreases c, 0
  {
    match c
    case LockerScope(body, _) => Exec(body, true).InsideLock(!owned)
    case TryerScope(free, body, _) => Exec(body, owned || free).InsideLock(!owned && free)
    case UnlockerScope(body, _) => Exec(body, false).InsideUnlock(owned)
  }

  function Exec(c: Code, owned: bool): Outcome
    decreases c, 1
  {
    if c.Done? then Outcome(owned, 0, 0)
    else
      var scope := ExecScope(c, owned);
      scope.Then(Exec(c.next, scope.owned))
  }

  /** Every scope that is executed leaves the ownership it found. */
  predicate EveryScopeRestores(c: Code, owned: bool) {
    match c
    case Done => true
    case LockerScope(body, next) =>
      ExecScope(c, owned).owned == owned && EveryScopeRestores(body, true) && EveryScopeRestores(next, owned)
    case TryerScope(free, body, next) =>
      && ExecScope(c, owned).owned == owned && EveryScopeRestores(body, owned || free)
      && EveryScopeRestores(next, owned)
    case UnlockerScope(body, next) =>
      ExecScope(c, owned).owned == owned && EveryScopeRestores(body, false) && EveryScopeRestores(next, owned)
  }

  /** What the Unlocker asserts, read off the program text: each one stands where the thread owns. */
  predicate UnlockersWhereOwned(c: Code, owned: bool) {
    match c
    case Done => true
    case LockerScope(body, next) => UnlockersWhereOwned(body, true) && UnlockersWhereOwned(next, owned)
    case TryerScope(free, body, next) => UnlockersWhereOwned(body, owned || free) && UnlockersWhereOwned(next, owned)
    case UnlockerScope(body, next) => owned && UnlockersWhereOwned(body, false) && UnlockersWhereOwned(next, owned)
  }

  /** Scopes restore ownership in every nesting exactly when each Unlocker is used while owned. */
  lemma {:induction false} ScopesRestoreOwnership(c: Code, owned: bool)
    ensures EveryScopeRestores(c, owned) <==> UnlockersWhereOwned(c, owned)
    ensures UnlockersWhereOwned(c, owned) ==> Exec(c, owned).owned == owned
  {
    match c
    case Done =>
    case LockerScope(body, next) =>
      ScopesRestoreOwnership(body, true);
      ScopesRestoreOwnership(next, owned);
    case TryerScope(free, body, next) =>
      ScopesRestoreOwnership(body, owned || free);
      ScopesRestoreOwnership(next, owned);
    case UnlockerScope(body, next) =>
      ScopesRestoreOwnership(body, false);
      ScopesRestoreOwnership(next, owned);
  }

  /** In every nesting, rightly used or not, real locks minus real unlocks is what ownership changed by. */
  lemma {:induction false} LocksBalance(c: Code, owned: bool)
    ensures var o := Exec(c, owned);
            o.locks - o.unlocks == (if o.owned then 1 else 0) - (if owned then 1 else 0)
    ensures UnlockersWhereOwned(c, owned) ==> Exec(c, owned).locks == Exec(c, owned).unlocks
  {
    ScopesRestoreOwnership(c, owned);
    match c
    case Done =>
    case LockerScope(body, next) =>
      LocksBalance(body, true);
      LocksBalance(next, ExecScope(c, owned).owned);
    case TryerScope(free, body, next) =>
      LocksBalance(body, owned || free);
      LocksBalance(next, ExecScope(c, owned).owned);
    case UnlockerScope(body, next) =>
      LocksBalance(body, false);
      LocksBalance(next, ExecScope(c, owned).owned);
  }

  /** The program run on the objects. A Tryer that finds the mutex busy finds it with `other`. */
  method RunScopes(m: CAMutex, self: nat, other: nat, c: Code, ghost owned: bool) returns (locks: nat, unlocks: nat)
    requires m.Valid() && self != 0 && other != 0 && self != other && m.mOwner == if owned then self else 0
    modifies m
    ensures m.Valid()
    ensures var o := Exec(c, owned);
            m.mOwner == (if o.owned then self else 0) && locks == o.locks && unlocks == o.unlocks
    decreases c, 1
  {
    if c.Done? {
      return 0, 0;
    }
    var l, u;
    match c {
      case LockerScope(_, _) => l, u := RunLocker(m, self, other, c, owned);
      case TryerScope(_, _, _) => l, u := RunTryer(m, self, other, c, owned);
      case UnlockerScope(_, _) => l, u := RunUnlocker(m, self, other, c, owned);
    }
    locks, unlocks := RunScopes(m, self, other, c.next, ExecScope(c, owned).owned);
    locks, unlocks := l + locks, u + unlocks;
  }

  method RunLocker(m: CAMutex, self: nat, other: nat, c: Code, ghost owned: bool) returns (locks: nat, unlocks: nat)
    requires m.Valid() && self != 0 && other != 0 && self != other && m.mOwner == if owned then self else 0
    requires c.LockerScope?
    modifies m
    ensures m.Valid()
    ensures var o := ExecScope(c, owned);
            m.mOwner == (if o.owned then self else 0) && locks == o.locks && unlocks == o.unlocks
    decreases c, 0
  {
    var locker := new Locker(m, self);
    locks, unlocks := RunScopes(m, self, other, c.body, true);
    var wasOwner := m.IsOwnedByCurrentThread(self);
    locker.Destroy(self);
    if locker.mNeedsRelease {
      locks := locks + 1;
      if wasOwner {
        unlocks := unlocks + 1;
      }
    }
  }

  method RunTryer(m: CAMutex, self: nat, other: nat, c: Code, ghost owned: bool) returns (locks: nat, unlocks: nat)
    requires m.Valid() && self != 0 && other != 0 && self != other && m.mOwner == if owned then self else 0
    requires c.TryerScope?
    modifies m
    ensures m.Valid()
    ensures var o := ExecScope(c, owned);
            m.mOwner == (if o.owned then self else 0) && locks == o.locks && unlocks == o.unlocks
    decreases c, 0
  {
    var busy := !c.free && m.IsFree();
    if busy {
      var _ := m.Lock(other);
    }
    var tryer := new Tryer(m, self);
    if busy {
      m.Unlock(other);
    }
    locks, unlocks := RunScopes(m, self, other, c.body, owned || c.free);
    var wasOwner := m.IsOwnedByCurrentThread(self);
    tryer.Destroy(self);
    if tryer.mNeedsRelease {
      locks := locks + 1;
      if wasOwner {
        unlocks := unlocks + 1;
      }
    }
  }

  method RunUnlocker(m: CAMutex, self: nat, other: nat, c: Code, ghost owned: bool) returns (locks: nat, unlocks: nat)
    requires m.Valid() && self != 0 && other != 0 && self != other && m.mOwner == if owned then self else 0
    requires c.UnlockerScope?
    modifies m
    ensures m.Valid()
    ensures var o := ExecScope(c, owned);
            m.mOwner == (if o.owned then self else 0) && locks == o.locks && unlocks == o.unlocks
    decreases c, 0
  {
    var wasOwner := m.IsOwnedByCurrentThread(self);
    var unlocker := new Unlocker(m, self);
    locks, unlocks := RunScopes(m, self, other, c.body, false);
    if wasOwner {
      unlocks := unlocks + 1;
    }
    var locked := unlocker.Destroy(self);
    if locked {
      locks := locks + 1;
    }
  }
}
