/** The clock registers of the bridge, whole callback by whole callback, are those of the access-by-access
    protocol of the zero-timestamp pair, so what is proved there holds of them. */
module ZeroTimeStampRefinement {
  import opened Arithmetic
  import opened Registers
  import opened Bridge
  import Clock
  import Z = ZeroTimeStamp

  predicate OwnAgrees(driver: Z.DriverAt, own: OwnStamp) {
    match own
    case NoStore => driver == Z.Outside
    case BothDue(number, host) => driver == Z.OwnNumber(number, host)
    case HostDue(host) => driver == Z.OwnHost(host)
  }

  /** The protocol's registers and cursor are those of the control state, and the daemon is between calls. */
  predicate ClockAgrees(z: Z.State, c: Control) {
    && (z.sync <==> c.shm.syncMode == 1) && z.number.value == c.shm.numberTimeStamps
    && z.host.value == c.shm.zeroHostTime && z.frame == c.daemon.frameNumber
    && z.active == c.daemon.isActive && z.daemon == Z.Idle && (!z.active ==> z.frame == 0)
  }

  /** Both processes are between two calls, but for a stamp of the driver's own that may be under way. */
  predicate Agrees(z: Z.State, s: System) {
    ClockAgrees(z, s.ctl) && OwnAgrees(z.driver, s.own)
  }

  /** The accesses of a callback that finds the driver started. */
  function CallbackSteps(c: Control, n: nat, r: nat, t0: UInt64, t1: UInt64): seq<Z.Action>
    requires 0 < r
  {
    var next := Z.DaemonNext(t1, n);
    [Z.Callback(Restarting(c), t0)]
    + (if !c.daemon.isActive then [next, next, next] else if Restarting(c) then [next] else [])
    + [next] + (if CopyCursor(c.daemon) % r == 0 then [next] else [])
  }

  function Steps(s: System, a: Action, n: nat, r: nat): seq<Z.Action>
    requires 0 < r
  {
    if !WellFormed(s, a, n) then []
    else
      match a
      case Cycle(_, t0, t1) =>
        if s.ctl.shm.driverStatus == STATUS_STARTED then CallbackSteps(s.ctl, n, r, t0, t1) else []
      case ClearSync => [Z.Reload]
      case Decide(number, host) =>
        if s.own.NoStore? && s.ctl.shm.syncMode != 1 then [Z.Call(number, host)] else []
      case StoreNumber => if s.own.BothDue? then [Z.DriverNext] else []
      case StoreHost => if s.own.HostDue? then [Z.DriverNext] else []
      case _ => []
  }

  lemma {:induction false} RunConcat(z: Z.State, a: seq<Z.Action>, b: seq<Z.Action>, r: nat)
    requires 0 < r
    ensures Z.Run(z, a + b, r) == Z.Run(Z.Run(z, a, r), b, r)
  {
    if b == [] {
      assert a + b == a;
    } else {
      assert (a + b)[..|a + b| - 1] == a + b[..|b| - 1];
      RunConcat(z, a, b[..|b| - 1], r);
    }
  }

  lemma RunOne(z: Z.State, a: Z.Action, r: nat)
    requires 0 < r
    ensures Z.Run(z, [a], r) == Z.Step(z, a, r)
  {
    assert [a][..0] == [];
  }

  lemma RunThree(z: Z.State, a: Z.Action, r: nat)
    requires 0 < r
    ensures Z.Run(z, [a, a, a], r) == Z.Step(Z.Step(Z.Step(z, a, r), a, r), a, r)
  {
    assert [a, a, a] == [a] + [a] + [a];
    RunConcat(z, [a] + [a], [a], r);
    RunConcat(z, [a], [a], r);
    RunOne(z, a, r);
    RunOne(Z.Run(z, [a], r), a, r);
    RunOne(Z.Run(z, [a] + [a], r), a, r);
  }

  /** Where a callback is when it is about to test for a ring boundary. */
  function AtBoundary(z: Z.State, c: Control, n: nat, r: nat, t0: UInt64, t1: UInt64): Z.State
    requires 0 < r
  {
    var called, next := Z.Step(z, Z.Callback(Restarting(c), t0), r), Z.DaemonNext(t1, n);
    if !c.daemon.isActive then Z.Step(Z.Step(Z.Step(called, next, r), next, r), next, r)
    else if Restarting(c) then Z.Step(called, next, r)
    else called
  }

  /** About to test for a ring boundary, the protocol has what the daemon's registers hold there; the host
      time is overwritten on a boundary, whatever it is. */
  predicate BoundaryAgrees(b: Z.State, e: Control, r: nat)
    requires 0 < r
  {
    && b.daemon == Z.Boundary && b.active && e.daemon.isActive && b.frame == e.daemon.frameNumber
    && (b.sync <==> e.shm.syncMode == 1) && b.number.value == e.shm.numberTimeStamps
    && (b.frame % r != 0 ==> b.host.value == e.shm.zeroHostTime)
  }

  lemma ReachesBoundary(z: Z.State, c: Control, n: nat, r: nat, t0: UInt64, t1: UInt64)
    requires 0 < r && ClockAgrees(z, c) && c.shm.driverStatus == STATUS_STARTED
    ensures var b := AtBoundary(z, c, n, r, t0, t1);
            && BoundaryAgrees(b, Activated(Observed(Heartbeat(c), r, t0)), r)
            && b.frame == z.frame && b.driver == z.driver
  {
    DivModUnique(0, r, 0, 0);
  }

  lemma LeavesBoundary(b: Z.State, e: Control, n: nat, r: nat, t1: UInt64)
    requires 0 < r && BoundaryAgrees(b, e, r) && Wrap64(e.daemon.frameNumber + n) == e.daemon.frameNumber + n
    ensures var next := Z.DaemonNext(t1, n);
            var once := Z.Step(b, next, r);
            var t := if b.frame % r == 0 then Z.Step(once, next, r) else once;
            ClockAgrees(t, Advanced(StampedAtBoundary(e, r, t1), n)) && t.driver == b.driver
  {
  }

  lemma CallbackRun(z: Z.State, c: Control, n: nat, r: nat, t0: UInt64, t1: UInt64)
    requires 0 < r
    ensures var b, next := AtBoundary(z, c, n, r, t0, t1), Z.DaemonNext(t1, n);
            Z.Run(z, CallbackSteps(c, n, r, t0, t1), r)
            == if CopyCursor(c.daemon) % r == 0 then Z.Step(Z.Step(b, next, r), next, r) else Z.Step(b, next, r)
  {
    var first, next := Z.Callback(Restarting(c), t0), Z.DaemonNext(t1, n);
    var middle := if !c.daemon.isActive then [next, next, next] else if Restarting(c) then [next] else [];
    var end := if CopyCursor(c.daemon) % r == 0 then [next] else [];
    var called := Z.Step(z, first, r);
    var b := Z.Run(called, middle, r);
    RunOne(z, first, r);
    RunThree(called, next, r);
    RunOne(called, next, r);
    assert b == AtBoundary(z, c, n, r, t0, t1);
    RunConcat(z, [first] + middle + [next], end, r);
    RunConcat(z, [first] + middle, [next], r);
    RunConcat(z, [first], middle, r);
    RunOne(b, next, r);
    RunOne(Z.Step(b, next, r), next, r);
  }

  lemma CallbackRefines(z: Z.State, c: Control, n: nat, r: nat, t0: UInt64, t1: UInt64)
    requires 0 < r && ClockAgrees(z, c) && c.shm.driverStatus == STATUS_STARTED
    requires Wrap64(c.daemon.frameNumber + n) == c.daemon.frameNumber + n
    ensures var t := Z.Run(z, CallbackSteps(c, n, r, t0, t1), r);
            ClockAgrees(t, Callback(c, n, r, t0, t1)) && t.driver == z.driver
  {
    CallbackRun(z, c, n, r, t0, t1);
    ReachesBoundary(z, c, n, r, t0, t1);
    LeavesBoundary(AtBoundary(z, c, n, r, t0, t1), Activated(Observed(Heartbeat(c), r, t0)), n, r, t1);
  }

  lemma CycleRefines(z: Z.State, s: System, a: Action, n: nat, r: nat)
    requires n <= r && Geometry(n, r) && CursorInv(s, n, r) && Agrees(z, s)
    requires a.Cycle? && WellFormed(s, a, n) && s.ctl.shm.driverStatus == STATUS_STARTED
    requires Total(Step(s, a, n, r), n) < TWO64
    ensures Agrees(Z.Run(z, Steps(s, a, n, r), r), Step(s, a, n, r))
  {
    FrameFits(s, a, n, r);
    CallbackRefines(z, s.ctl, n, r, a.anchorTime, a.stampTime);
  }

  lemma FrameFits(s: System, a: Action, n: nat, r: nat)
    requires n <= r && Geometry(n, r) && CursorInv(s, n, r)
    requires a.Cycle? && WellFormed(s, a, n) && s.ctl.shm.driverStatus == STATUS_STARTED
    requires Total(Step(s, a, n, r), n) < TWO64
    ensures s.ctl.daemon.frameNumber == Total(s, n) && s.ctl.daemon.frameNumber + n < TWO64
    ensures Wrap64(s.ctl.daemon.frameNumber + n) == s.ctl.daemon.frameNumber + n
  {
    TotalAdvances(s.started, n);
    DivModUnique(Total(s, n), TWO64, 0, Total(s, n));
    DivModUnique(Total(s, n) + n, TWO64, 0, Total(s, n) + n);
  }

  lemma OtherRefines(z: Z.State, s: System, a: Action, n: nat, r: nat)
    requires 0 < n <= r && Shaped(s, n, r) && Agrees(z, s)
    requires !(a.Cycle? && WellFormed(s, a, n) && s.ctl.shm.driverStatus == STATUS_STARTED)
    ensures Agrees(Z.Run(z, Steps(s, a, n, r), r), Step(s, a, n, r))
  {
    if Steps(s, a, n, r) != [] {
      RunOne(z, Steps(s, a, n, r)[0], r);
    }
  }

  function RunSteps(s: System, acts: seq<Action>, n: nat, r: nat): seq<Z.Action>
    requires 0 < n <= r && Shaped(s, n, r)
  {
    if acts == [] then []
    else
      var last := |acts| - 1;
      RunSteps(s, acts[..last], n, r) + Steps(Run(s, acts[..last], n, r), acts[last], n, r)
  }

  /** Every run of the bridge, while the cursor fits 64 bits, is a run of the protocol. */
  lemma {:induction false} RunRefines(z: Z.State, s: System, acts: seq<Action>, n: nat, r: nat)
    requires n <= r && Geometry(n, r) && CursorInv(s, n, r) && Agrees(z, s)
    requires Total(Run(s, acts, n, r), n) < TWO64
    ensures CursorInv(Run(s, acts, n, r), n, r)
    ensures Agrees(Z.Run(z, RunSteps(s, acts, n, r), r), Run(s, acts, n, r))
  {
    if acts != [] {
      var last := |acts| - 1;
      var t := Run(s, acts[..last], n, r);
      Clock.StepNeverForgets(t, acts[last], n, r);
      MulMonotone(n, t.started, Step(t, acts[last], n, r).started);
      RunRefines(z, s, acts[..last], n, r);
      StepKeepsCursor(t, acts[last], n, r);
      var before := Z.Run(z, RunSteps(s, acts[..last], n, r), r);
      RunConcat(z, RunSteps(s, acts[..last], n, r), Steps(t, acts[last], n, r), r);
      if acts[last].Cycle? && WellFormed(t, acts[last], n) && t.ctl.shm.driverStatus == STATUS_STARTED {
        CycleRefines(before, t, acts[last], n, r);
      } else {
        OtherRefines(before, t, acts[last], n, r);
      }
    }
  }

  /** A call nobody interrupts in sync mode returns what is in the two registers, as the whole method does. */
  lemma UninterruptedRead(z: Z.State, s: System, number: UInt64, host: UInt64, r: nat)
    requires 0 < r && Agrees(z, s) && s.ctl.shm.syncMode == 1 && s.own == NoStore
    ensures var t := Z.Run(z, [Z.Call(number, host), Z.DriverNext, Z.DriverNext], r);
            && Agrees(t, s) && |t.results| == |z.results| + 1 && z.results <= t.results
            && t.results[|z.results|].number.value == s.ctl.shm.numberTimeStamps
            && t.results[|z.results|].host.value == s.ctl.shm.zeroHostTime
  {
    var call, next := Z.Call(number, host), Z.DriverNext;
    assert [call, next, next] == [call] + [next] + [next];
    RunConcat(z, [call] + [next], [next], r);
    RunConcat(z, [call], [next], r);
    RunOne(z, call, r);
    RunOne(Z.Run(z, [call], r), next, r);
    RunOne(Z.Run(z, [call] + [next], r), next, r);
  }
}
