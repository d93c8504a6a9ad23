/** The mutable daemon and driver objects simulate the bridge: any sequence of calls on them is a run of
    the bridge, so what runs guarantee is what the in-place code delivers. */
module Simulation {
  import opened Arithmetic
  import opened Ring
  import opened Registers
  import opened RingProjector
  import opened SharedRegion
  import opened Bridge
  import opened DaemonProcess
  import opened DriverDevice
  import Clock
  import Lifecycle
  import Watchdog

  /** The rings and registers a bridge state describes are those of the region the daemon uses. Between
      calls the driver has no stamp of its own under way. */
  ghost predicate Represents(s: System, d: JackBridge)
    reads d, d.shm, d.shm.Buffers()
  {
    && d.shm.Valid() && s.ctl == d.State() && s.own == NoStore
    && s.down == d.shm.Down(NUM_INPUT_STREAMS) && s.up == d.shm.Up(NUM_OUTPUT_STREAMS)
  }

  ghost predicate Attached(d: JackBridge, dev: SA_Device)
    reads dev, dev.shm
  {
    dev.Valid() && dev.shm == d.shm && 0 < dev.ringBufferFrameSize
  }

  /** Only registers changed, and so do they in the bridge. */
  lemma RegistersFollow(s: System, t: System, d: JackBridge)
    requires d.shm.Valid() && t == s.(ctl := d.State(), seedOrigin := t.seedOrigin, anchors := t.anchors)
    requires s.own == NoStore
    requires s.down == d.shm.Down(NUM_INPUT_STREAMS) && s.up == d.shm.Up(NUM_OUTPUT_STREAMS)
    ensures Represents(t, d)
  {
  }

  /** A callback of the daemon object is one `Cycle` step, and the state reached before it already
      guarantees that both unwrapped copies stay inside the rings. */
  method DaemonCycle(d: JackBridge, n: nat, ins: seq<array<Sample>>, outs: seq<array<Sample>>,
                     anchorTime: UInt64, stampTime: UInt64, ghost s: System)
    returns (ghost act: Action)
    requires Represents(s, d) && n <= d.shm.ringFrames
    requires Geometry(n, d.shm.ringFrames) && CursorInv(s, n, d.shm.ringFrames)
    requires d.Ports(ins, 2 * NUM_INPUT_STREAMS, n) && d.Ports(outs, 2 * NUM_OUTPUT_STREAMS, n)
    requires forall i, k | 0 <= i < |ins| && 0 <= k < |outs| :: ins[i] != outs[k]
    requires d.shm.driverStatus != STATUS_STARTED ==> d.Clearable(outs)
    modifies d, d.shm, d.shm.Buffers(), set a | a in outs
    ensures act == Cycle(old(d.Blocks(ins, NUM_INPUT_STREAMS, n)), anchorTime, stampTime)
    ensures var t := Step(s, act, n, d.shm.ringFrames);
            && Represents(t, d) && CursorInv(t, n, d.shm.ringFrames)
            && (old(d.shm.driverStatus) == STATUS_STARTED ==>
                  forall j | 0 <= j < NUM_OUTPUT_STREAMS ::
                    t.played[j] == s.played[j] + d.Blocks(outs, NUM_OUTPUT_STREAMS, n)[j])
    ensures old(d.shm.driverStatus) != STATUS_STARTED ==>
              d.Clearable(outs)
              && forall i | 0 <= i < |outs| :: outs[i][..2 * d.shm.ringFrames] == Silent(2 * d.shm.ringFrames)
  {
    ghost var r := d.shm.ringFrames;
    act := Cycle(d.Blocks(ins, NUM_INPUT_STREAMS, n), anchorTime, stampTime);
    Clock.CursorIsAligned(s, n, r);
    CopyPositions0(s, n, r);
    d.ProcessCallback(n, ins, outs, anchorTime, stampTime);
    StepKeepsCursor(s, act, n, r);
    PrefixesAgree(d.shm);
  }

  lemma CopyPositions0(s: System, n: nat, r: nat)
    requires Geometry(n, r) && CursorInv(s, n, r)
    ensures CopyCursor(s.ctl.daemon) == s.ctl.daemon.frameNumber
  {
    if !s.ctl.daemon.isActive {
      DivModUnique(0, TWO64, 0, 0);
      TotalAdvances(0, n);
    }
  }

  lemma PrefixesAgree(shm: Region)
    requires shm.Valid()
    ensures shm.Down(NUM_INPUT_STREAMS) == shm.Down(MAX_STREAMS)[..NUM_INPUT_STREAMS]
    ensures shm.Up(NUM_OUTPUT_STREAMS) == shm.Up(MAX_STREAMS)[..NUM_OUTPUT_STREAMS]
  {
  }

  /** The daemon's shutdown is two stores. */
  method DaemonShutdown(d: JackBridge, ghost n: nat, ghost s: System) returns (ghost acts: seq<Action>)
    requires Represents(s, d) && 0 < n <= d.shm.ringFrames && Shaped(s, n, d.shm.ringFrames)
    modifies d.shm
    ensures acts == [ZeroHeartbeat, SetStatus(STATUS_INIT)]
    ensures Represents(Run(s, acts, n, d.shm.ringFrames), d)
  {
    acts := [ZeroHeartbeat, SetStatus(STATUS_INIT)];
    RunOfTwo(s, acts[0], acts[1], n, d.shm.ringFrames);
    d.OnShutdown();
    RegistersFollow(s, Run(s, acts, n, d.shm.ringFrames), d);
  }

  /** Loading the driver, also under a running daemon, makes a new device and three stores. */
  method DriverOpen(d: JackBridge, ticksPerFrame: real, ghost n: nat, ghost s: System)
    returns (dev: SA_Device, ghost acts: seq<Action>)
    requires Represents(s, d) && 0.0 <= ticksPerFrame
    requires 0 < n <= d.shm.ringFrames && Shaped(s, n, d.shm.ringFrames)
    modifies d.shm`seed, d.shm`syncMode, d.shm`driverStatus
    ensures fresh(dev) && Attached(d, dev) && acts == [ResetSeed, ClearSync, SetStatus(STATUS_ACTIVE)]
    ensures Represents(Run(s, acts, n, d.shm.ringFrames), d)
    ensures dev.startCount == 0 && dev.driverStatus == STATUS_ACTIVE && dev.Watch() == Watchdog.Watch(true, 0, 0, [])
    ensures dev.TicksPerRing() == ticksPerFrame * (d.shm.ringFrames as real)
  {
    acts := [ResetSeed, ClearSync, SetStatus(STATUS_ACTIVE)];
    Clock.RunOfThree(s, acts[0], acts[1], acts[2], n, d.shm.ringFrames);
    dev := new SA_Device(d.shm, ticksPerFrame);
    dev.HwOpen();
    RegistersFollow(s, Run(s, acts, n, d.shm.ringFrames), d);
  }

  /** The first start publishes STARTED, a later or failed one stores nothing. */
  method DriverStart(d: JackBridge, dev: SA_Device, now: UInt64, ghost n: nat, ghost s: System)
    returns (outcome: Lifecycle.Outcome, ghost acts: seq<Action>)
    requires Represents(s, d) && Attached(d, dev)
    requires 0 < n <= d.shm.ringFrames && Shaped(s, n, d.shm.ringFrames)
    modifies dev`startCount, dev`driverStatus, dev`ringStamps, dev`anchorHostTime, dev`lastDaemonAlive,
             dev`lastDaemonAliveHostTime, dev`deviceIsAlive, d.shm`driverStatus
    ensures Attached(d, dev)
    ensures acts == if old(dev.startCount) == 0 && old(dev.driverStatus) != STATUS_INIT
                    then [SetStatus(STATUS_STARTED)] else []
    ensures Represents(Run(s, acts, n, d.shm.ringFrames), d)
    ensures (dev.Life(), outcome) == Lifecycle.StartIO(old(dev.Life()))
    ensures dev.Watch() == if old(dev.startCount) == 0 && outcome == Lifecycle.Done
                           then Watchdog.Rearmed(d.shm.daemonAlive, now, old(dev.notices)) else old(dev.Watch())
    ensures dev.ringStamps == if old(dev.startCount) == 0 then 0 else old(dev.ringStamps)
    ensures dev.anchorHostTime == if old(dev.startCount) == 0 && outcome == Lifecycle.Done then 0
                                  else old(dev.anchorHostTime)
  {
    acts := if dev.startCount == 0 && dev.driverStatus != STATUS_INIT then [SetStatus(STATUS_STARTED)] else [];
    RunOfOne(s, SetStatus(STATUS_STARTED), n, d.shm.ringFrames);
    ghost var was := dev.Life();
    outcome := dev.StartIO(now);
    assert (dev.Life(), outcome) == Lifecycle.StartIO(was);
    RegistersFollow(s, Run(s, acts, n, d.shm.ringFrames), d);
  }

  method DriverStop(d: JackBridge, dev: SA_Device, ghost n: nat, ghost s: System) returns (ghost acts: seq<Action>)
    requires Represents(s, d) && Attached(d, dev)
    requires 0 < n <= d.shm.ringFrames && Shaped(s, n, d.shm.ringFrames)
    modifies dev`startCount, dev`driverStatus, d.shm`driverStatus
    ensures Attached(d, dev)
    ensures acts == if old(dev.startCount) == 1 then [SetStatus(STATUS_ACTIVE)] else []
    ensures Represents(Run(s, acts, n, d.shm.ringFrames), d)
    ensures dev.Life() == Lifecycle.StopIO(old(dev.Life()))
  {
    acts := if dev.startCount == 1 then [SetStatus(STATUS_ACTIVE)] else [];
    RunOfOne(s, SetStatus(STATUS_ACTIVE), n, d.shm.ringFrames);
    ghost var was := dev.Life();
    dev.StopIO();
    assert dev.Life() == Lifecycle.StopIO(was);
    RegistersFollow(s, Run(s, acts, n, d.shm.ringFrames), d);
  }

  /** A timestamp call offers the driver's own stamp, which is stored unless sync mode is on. */
  method DriverStamp(d: JackBridge, dev: SA_Device, now: UInt64, later: UInt64, ghost n: nat, ghost s: System)
    returns (sampleTime: UInt64, hostTime: UInt64, ghost acts: seq<Action>)
    requires Represents(s, d) && Attached(d, dev)
    requires 0 < n <= d.shm.ringFrames && Shaped(s, n, d.shm.ringFrames)
    modifies dev`deviceIsAlive, dev`lastDaemonAlive, dev`lastDaemonAliveHostTime, dev`notices, dev`ringStamps,
             d.shm`numberTimeStamps, d.shm`zeroHostTime
    ensures Attached(d, dev)
    ensures acts == [Decide(dev.ringStamps, dev.OwnHostTime()), StoreNumber, StoreHost]
    ensures var t := Run(s, acts, n, d.shm.ringFrames);
            && Represents(t, d)
            && (s.ctl.shm.syncMode == 1 ==>
                  sampleTime == Wrap64(t.ctl.shm.numberTimeStamps * dev.ringBufferFrameSize)
                  && hostTime == t.ctl.shm.zeroHostTime)
    ensures dev.ringStamps == if old(dev.NextHostTime()) <= later then Wrap64(old(dev.ringStamps) + 1)
                              else old(dev.ringStamps)
    ensures dev.Watch() == Watchdog.Poll(old(dev.Watch()), now, d.shm.daemonAlive, old(dev.Armed()),
                                         old(dev.Threshold()))
  {
    var seed;
    sampleTime, hostTime, seed := dev.GetZeroTimeStamp(now, later);
    acts := [Decide(dev.ringStamps, dev.OwnHostTime()), StoreNumber, StoreHost];
    Clock.RunOfThree(s, acts[0], acts[1], acts[2], n, d.shm.ringFrames);
    RegistersFollow(s, Run(s, acts, n, d.shm.ringFrames), d);
  }

  /** A driver write is one `HalWrite` step. */
  method DriverWrite(d: JackBridge, dev: SA_Device, stream: nat, m: nat, time: UInt64,
                     input: array<Sample>, ghost n: nat, ghost s: System)
    returns (ghost act: Action)
    requires Represents(s, d) && Attached(d, dev)
    requires 0 < n <= d.shm.ringFrames && Shaped(s, n, d.shm.ringFrames)
    requires stream < NUM_OUTPUT_STREAMS && m <= d.shm.ringFrames
    requires 2 * m <= input.Length && input !in d.shm.Buffers()
    modifies d.shm.up[stream], d.shm`writeFrameNumber
    ensures Attached(d, dev) && act == HalWrite(stream, time, input[..2 * m])
    ensures Represents(Step(s, act, n, d.shm.ringFrames), d)
  {
    dev.WriteOutputData(stream, m, time, input);
    act := HalWrite(stream, time, input[..2 * m]);
  }

  /** Capture, end to end: with the device alive and every requested frame within one ring of the
      cursor, the driver's in-place read hands the client exactly what JACK delivered. */
  method DriverRead(d: JackBridge, dev: SA_Device, stream: nat, m: nat, time: UInt64,
                    out: array<Sample>, ghost n: nat, ghost s: System)
    requires Represents(s, d) && Attached(d, dev)
    requires 0 < n <= d.shm.ringFrames && CursorInv(s, n, d.shm.ringFrames) && CaptureInv(s, d.shm.ringFrames)
    requires stream < NUM_INPUT_STREAMS && m <= d.shm.ringFrames
    requires 2 * m <= out.Length && out !in d.shm.Buffers()
    modifies out, d.shm`readFrameNumber
    ensures Attached(d, dev) && Represents(s, d)
    ensures dev.deviceIsAlive && Total(s, n) - d.shm.ringFrames <= time && time + m <= Total(s, n) ==>
        out[..2 * m] == s.sent[stream][2 * time..2 * (time + m)]
    ensures out[..2 * m] == if dev.deviceIsAlive then Loaded(s.down[stream], 2 * time, 2 * m) else Silent(2 * m)
  {
    if Total(s, n) - d.shm.ringFrames <= time && time + m <= Total(s, n) {
      WindowIsLoaded(s, stream, time, m, d.shm.ringFrames);
    }
    dev.ReadInputData(stream, m, time, out);
  }

  lemma RunOfOne(s: System, a: Action, n: nat, r: nat)
    requires 0 < n <= r && Shaped(s, n, r)
    ensures Run(s, [a], n, r) == Step(s, a, n, r)
  {
    assert [a][..0] == [];
  }

  lemma RunOfTwo(s: System, a: Action, b: Action, n: nat, r: nat)
    requires 0 < n <= r && Shaped(s, n, r)
    ensures Run(s, [a, b], n, r) == Step(Step(s, a, n, r), b, n, r)
  {
    RunOfOne(s, a, n, r);
    assert [a, b][..1] == [a];
  }
}
