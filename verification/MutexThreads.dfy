/** driver/PublicUtility/CAMutex.cpp under every interleaving: the read of the owner, the pthread call
    and the write of the owner are separate steps. Thread IDs are nonzero; 0 means nobody. */
module MutexThreads {
  /** Where a thread is inside Lock, Try or Unlock. */
  datatype Pc =
    | Idle
    | AtLock      // saw another owner, about to call pthread_mutex_lock
    | AtTry       // saw another owner, about to call pthread_mutex_trylock
    | Locked      // has the pthread mutex, about to write mOwner
    | AtClear     // saw itself as owner, about to zero mOwner
    | AtUnlock    // zeroed mOwner, about to call pthread_mutex_unlock

  /** `inside` are the threads that took the mutex through this class and have not begun to give it up. */
  datatype State = State(owner: nat, holder: nat, pcs: map<nat, Pc>, inside: set<nat>) {
    function At(t: nat): Pc {
      if t in pcs then pcs[t] else Idle
    }

    function Move(t: nat, pc: Pc): State {
      this.(pcs := pcs[t := pc])
    }
  }

  datatype Action =
    | BeginLock(t: nat)
    | BeginTry(t: nat)
    | BeginUnlock(t: nat)
    | PthreadLock(t: nat)
    | PthreadTry(t: nat)
    | WriteOwner(t: nat)
    | ClearOwner(t: nat)
    | PthreadUnlock(t: nat)

  function Step(s: State, a: Action): State {
    var t := a.t;
    if t == 0 then s
    else
      match a
      case BeginLock(_) => if s.At(t).Idle? && s.owner != t then s.Move(t, AtLock) else s
      case BeginTry(_) => if s.At(t).Idle? && s.owner != t then s.Move(t, AtTry) else s
      case BeginUnlock(_) => if s.At(t).Idle? && s.owner == t then s.Move(t, AtClear) else s
      case PthreadLock(_) =>
        if s.At(t).AtLock? && s.holder == 0 then s.Move(t, Locked).(holder := t) else s
      case PthreadTry(_) =>
        if !s.At(t).AtTry? then s
        else if s.holder == 0 then s.Move(t, Locked).(holder := t)
        else s.Move(t, Idle)
      case WriteOwner(_) =>
        if s.At(t).Locked? then s.Move(t, Idle).(owner := t, inside := s.inside + {t}) else s
      case ClearOwner(_) =>
        if s.At(t).AtClear? then s.Move(t, AtUnlock).(owner := 0, inside := s.inside - {t}) else s
      case PthreadUnlock(_) =>
        if s.At(t).AtUnlock? then s.Move(t, Idle).(holder := 0) else s
  }

  function Run(s: State, acts: seq<Action>): State {
    if acts == [] then s else Step(Run(s, acts[..|acts| - 1]), acts[|acts| - 1])
  }

  const START := State(0, 0, map[], {})

  /** Where a thread may be, given the owner and the holder. */
  predicate Placed(s: State, t: nat) {
    match s.At(t)
    case Idle => s.holder == t ==> t == 0 || s.owner == t
    case AtLock => s.owner != t && s.holder != t
    case AtTry => s.owner != t && s.holder != t
    case Locked => s.owner == 0 && s.holder == t
    case AtClear => s.owner == t
    case AtUnlock => s.owner == 0 && s.holder == t
  }

  ghost predicate Inv(s: State) {
    && 0 !in s.pcs
    && (s.owner != 0 ==> s.holder == s.owner)
    && s.inside == (if s.owner == 0 then {} else {s.owner})
    && forall t: nat :: Placed(s, t)
  }

  lemma StepKeepsInv(s: State, a: Action)
    requires Inv(s)
    ensures Inv(Step(s, a))
  {
    var u := Step(s, a);
    assert Placed(s, a.t) && Placed(s, s.holder);
    forall t: nat ensures Placed(u, t) {
      assert Placed(s, t);
    }
  }

  /** In every interleaving: at most one thread is inside; a thread reads itself as the owner exactly
      when it is inside, and then it holds the pthread mutex; no thread ever waits for itself. */
  lemma {:induction false} MutualExclusion(acts: seq<Action>, t: nat, other: nat)
    ensures var s := Run(START, acts);
            && Inv(s)
            && (t in s.inside && other in s.inside ==> t == other)
            && (t != 0 ==> (s.owner == t <==> t in s.inside))
            && (t in s.inside ==> s.holder == t)
            && (s.At(t).AtLock? || s.At(t).AtTry? ==> s.holder != t)
  {
    if acts != [] {
      MutualExclusion(acts[..|acts| - 1], t, other);
      StepKeepsInv(Run(START, acts[..|acts| - 1]), acts[|acts| - 1]);
    }
    assert Placed(Run(START, acts), t);
  }

  /** The thread is between its pthread call and its write of the owner. */
  predicate InGap(s: State, t: nat) {
    s.At(t).Locked? || s.At(t).AtUnlock?
  }

  /** IsFree looks at the owner only. It is right about the pthread mutex exactly when no thread is
      between its pthread call and its write of the owner. */
  lemma IsFreeIsRightOutsideTheGaps(s: State)
    requires Inv(s) && s.owner == 0
    ensures s.holder == 0 <==> forall t: nat :: !InGap(s, t)
  {
    assert forall t: nat :: InGap(s, t) ==> Placed(s, t);
    assert Placed(s, s.holder);
    assert s.holder != 0 ==> InGap(s, s.holder);
  }

  /** Two steps into its Lock, a thread holds the pthread mutex while the owner field still says free. */
  lemma FreeOwnerHeldMutex(t: nat)
    requires t != 0
    ensures var s := Run(START, [BeginLock(t), PthreadLock(t)]);
            s.owner == 0 && s.holder == t && t !in s.inside
  {
    var acts := [BeginLock(t), PthreadLock(t)];
    assert acts[..1] == [BeginLock(t)] && acts[..1][..0] == [];
    assert Run(START, acts[..1]) == Step(START, BeginLock(t));
  }

  /** Lock, with nobody in the way, run without interruption. */
  lemma UninterruptedLock(s: State, t: nat)
    requires Inv(s) && t != 0 && s.At(t).Idle? && (s.holder == 0 || s.owner == t)
    ensures var u := Step(Step(Step(s, BeginLock(t)), PthreadLock(t)), WriteOwner(t));
            u.owner == t && u.holder == t && u.At(t).Idle? && forall x | x != t :: u.At(x) == s.At(x)
  {
    assert Placed(s, t);
  }

  lemma UninterruptedUnlock(s: State, t: nat)
    requires Inv(s) && t != 0 && s.At(t).Idle?
    ensures var u := Step(Step(Step(s, BeginUnlock(t)), ClearOwner(t)), PthreadUnlock(t));
            && (s.owner == t ==> u.owner == 0 && u.holder == 0)
            && (s.owner != t ==> u == s)
            && u.At(t).Idle? && forall x | x != t :: u.At(x) == s.At(x)
  {
    assert Placed(s, t);
  }
}
