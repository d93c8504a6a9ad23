/** StartIO / StopIO / Deactivate of driver/JackBridge/Plug-In/SA_Device.cpp against the daemon's
    shutdown store, store by store: the state lock orders the driver's own operations, but the daemon
    may write the shared status at any moment. */
module Lifecycle {
  import opened Arithmetic
  import opened Registers

  /** What the holder of the state lock has left to do. */
  datatype Lock = Free | StartPublish | StartCount | StopPublish | StopCount

  /** `driverStatus` is the driver's own field, `shared` the word in shared memory. */
  datatype State = State(startCount: UInt64, driverStatus: UInt64, shared: UInt64, lock: Lock)

  datatype Action =
    | Start     // StartIO takes the lock
    | Stop      // StopIO takes the lock
    | Close     // Deactivate: _HW_Close under the lock
    | Proceed   // the lock holder performs its next store
    | Shutdown  // the daemon's on_shutdown store

  datatype Outcome = Done | NotRunning | CountMaxed

  function Step(s: State, a: Action): State {
    match a
    case Start =>
      if s.lock != Free || s.startCount == TWO64 - 1 then s
      else if s.startCount > 0 then s.(startCount := s.startCount + 1)
      else if s.driverStatus == STATUS_INIT then s
      else s.(driverStatus := STATUS_STARTED, lock := StartPublish)
    case Stop =>
      if s.lock != Free || s.startCount == 0 then s
      else if s.startCount > 1 then s.(startCount := s.startCount - 1)
      else s.(driverStatus := STATUS_ACTIVE, lock := StopPublish)
    case Close => if s.lock == Free then s.(driverStatus := STATUS_INIT) else s
    case Proceed =>
      (match s.lock
       case Free => s
       case StartPublish => s.(shared := STATUS_STARTED, lock := StartCount)
       case StartCount => s.(startCount := 1, lock := Free)
       case StopPublish => s.(shared := STATUS_ACTIVE, lock := StopCount)
       case StopCount => s.(startCount := 0, lock := Free))
    case Shutdown => s.(shared := STATUS_INIT)
  }

  function Run(s: State, acts: seq<Action>): State {
    if acts == [] then s else Step(Run(s, acts[..|acts| - 1]), acts[|acts| - 1])
  }

  /** After `_HW_Open`: active, nobody started. */
  predicate Opened(s: State) {
    s == State(0, STATUS_ACTIVE, STATUS_ACTIVE, Free)
  }

  /** Whether the daemon shut down after the driver last published STARTED. */
  predicate ShutdownSincePublish(s: State, acts: seq<Action>) {
    if acts == [] then false
    else
      var last := |acts| - 1;
      if acts[last].Shutdown? then true
      else if acts[last].Proceed? && Run(s, acts[..last]).lock == StartPublish then false
      else ShutdownSincePublish(s, acts[..last])
  }

  ghost predicate Inv(s: State, silenced: bool) {
    match s.lock
    case Free => s.shared == STATUS_STARTED <==> s.startCount > 0 && !silenced
    case StartPublish => s.startCount == 0 && s.shared != STATUS_STARTED
    case StartCount => s.startCount == 0 && (s.shared == STATUS_STARTED <==> !silenced)
    case StopPublish => s.startCount == 1 && (s.shared == STATUS_STARTED <==> !silenced)
    case StopCount => s.startCount == 1 && s.shared != STATUS_STARTED
  }

  lemma {:induction false} RunKeepsInv(s: State, acts: seq<Action>)
    requires Opened(s)
    ensures Inv(Run(s, acts), ShutdownSincePublish(s, acts))
  {
    if acts != [] {
      RunKeepsInv(s, acts[..|acts| - 1]);
    }
  }

  /** In every state with the state lock free, the shared status is STARTED exactly when some client
      has IO running and the daemon has not shut down since the driver published it. */
  lemma StartedExactly(s: State, acts: seq<Action>)
    requires Opened(s) && Run(s, acts).lock == Free
    ensures Run(s, acts).shared == STATUS_STARTED
            <==> Run(s, acts).startCount > 0 && !ShutdownSincePublish(s, acts)
  {
    RunKeepsInv(s, acts);
  }

  /** A daemon shutdown under running clients is not repaired by further starts and stops: STARTED is
      not seen again until the start count has been back to 0. */
  lemma {:induction false} ShutdownSticks(s: State, acts: seq<Action>)
    requires s.lock == Free && s.startCount > 0
    requires forall k | 0 <= k <= |acts| :: Run(Step(s, Shutdown), acts[..k]).startCount > 0
    ensures Run(Step(s, Shutdown), acts).shared != STATUS_STARTED
    ensures Run(Step(s, Shutdown), acts).lock in {Free, StopPublish, StopCount}
  {
    if acts == [] {
    } else {
      var front := acts[..|acts| - 1];
      assert acts[..|acts|] == acts;
      forall k | 0 <= k <= |front| ensures Run(Step(s, Shutdown), front[..k]).startCount > 0 {
        assert front[..k] == acts[..k];
      }
      ShutdownSticks(s, front);
      assert front == acts[..|front|];
    }
  }

  // The operations as wholes, when the daemon does not interfere.

  function StartIO(s: State): (State, Outcome)
    requires s.lock == Free
  {
    if s.startCount == TWO64 - 1 then (s, CountMaxed)
    else if s.startCount > 0 then (s.(startCount := s.startCount + 1), Done)
    else if s.driverStatus == STATUS_INIT then (s, NotRunning)
    else (State(1, STATUS_STARTED, STATUS_STARTED, Free), Done)
  }

  function StopIO(s: State): State
    requires s.lock == Free
  {
    if s.startCount == 1 then State(0, STATUS_ACTIVE, STATUS_ACTIVE, Free)
    else if s.startCount > 1 then s.(startCount := s.startCount - 1)
    else s
  }

  lemma OperationsAreSteps(s: State)
    requires s.lock == Free
    ensures StartIO(s).0 == Run(s, [Start, Proceed, Proceed])
    ensures StopIO(s) == Run(s, [Stop, Proceed, Proceed])
  {
    ThreeSteps(s, Start, Proceed, Proceed);
    ThreeSteps(s, Stop, Proceed, Proceed);
  }

  lemma ThreeSteps(s: State, a: Action, b: Action, c: Action)
    ensures Run(s, [a, b, c]) == Step(Step(Step(s, a), b), c)
  {
    assert [a, b, c][..2] == [a, b] && [a, b][..1] == [a] && [a][..0] == [];
    assert Run(s, [a]) == Step(s, a);
    assert Run(s, [a, b]) == Step(Step(s, a), b);
  }

  /** A successful start that is later undone by a stop restores the status of the idle device, and
      nested starts and stops cancel. */
  lemma StopUndoesStart(s: State)
    requires s.lock == Free && StartIO(s).1 == Done
    ensures StopIO(StartIO(s).0) == if s.startCount == 0 then State(0, STATUS_ACTIVE, STATUS_ACTIVE, Free) else s
  {
  }
}
