/** Whole sessions of the two processes on the mutable objects. A sequential reference says what each
    call does to the bridge, to the driver's own fields and to the caller's buffers; the objects do
    exactly that, for any calls in any order. */
module Session {
  import opened Arithmetic
  import opened Ring
  import opened Registers
  import opened SharedRegion
  import opened Bridge
  import opened DaemonProcess
  import opened DriverDevice
  import opened Simulation
  import Clock
  import Lifecycle
  import Schedule
  import Watchdog

  /** A call of one of the two processes, with its buffers and clock readings. Open loads the driver
      again, as a new device object. */
  datatype Call =
    | Callback(ins: seq<array<Sample>>, outs: seq<array<Sample>>, anchorTime: UInt64, stampTime: UInt64)
    | Shutdown
    | Open(ticksPerFrame: real)
    | Close
    | Start(now: UInt64)
    | Stop
    | Stamp(now: UInt64, later: UInt64)
    | Write(stream: nat, m: nat, time: UInt64, input: array<Sample>)
    | Read(stream: nat, m: nat, time: UInt64, out: array<Sample>)

  /** What a call takes from outside the two processes: the samples in its input buffers, and the
      contents of a new device's uninitialised clock fields. */
  datatype Seen = Seen(blocks: seq<seq<Sample>>, ringStamps: UInt64, anchor: UInt64)

  /** The bridge, and the driver's own fields. */
  datatype World = World(sys: System, startCount: UInt64, driverStatus: UInt64, watch: Watchdog.Watch,
                         ringStamps: UInt64, anchor: UInt64, ticks: real)
  {
    function Life(): Lifecycle.State {
      Lifecycle.State(startCount, driverStatus, sys.ctl.shm.driverStatus, Lifecycle.Free)
    }

    /** The driver's own clock moves on by at most one ring period a call. */
    function StampsAt(later: UInt64): UInt64 {
      if DueAfter(anchor, ringStamps, ticks) <= later then Wrap64(ringStamps + 1) else ringStamps
    }
  }

  // The reference.

  /** The steps of the bridge a call makes. */
  function Acts(w: World, c: Call, seen: Seen): seq<Action> {
    match c
    case Callback(_, _, t0, t1) => [Cycle(seen.blocks, t0, t1)]
    case Shutdown => [ZeroHeartbeat, SetStatus(STATUS_INIT)]
    case Open(_) => [ResetSeed, ClearSync, SetStatus(STATUS_ACTIVE)]
    case Close => []
    case Start(_) => if w.startCount == 0 && w.driverStatus != STATUS_INIT then [SetStatus(STATUS_STARTED)] else []
    case Stop => if w.startCount == 1 then [SetStatus(STATUS_ACTIVE)] else []
    case Stamp(_, later) =>
      [Decide(w.StampsAt(later), PeriodStart(w.anchor, w.StampsAt(later), w.ticks)), StoreNumber, StoreHost]
    case Write(j, _, time, _) => [HalWrite(j, time, if seen.blocks == [] then [] else seen.blocks[0])]
    case Read(_, _, _, _) => []
  }

  /** What it does to the driver's own fields. */
  function DriverAfter(w: World, c: Call, seen: Seen, r: nat): World {
    match c
    case Open(ticksPerFrame) =>
      World(w.sys, 0, STATUS_ACTIVE, Watchdog.Watch(true, 0, 0, []), seen.ringStamps, seen.anchor,
            ticksPerFrame * (r as real))
    case Close => w.(driverStatus := STATUS_INIT)
    case Start(now) =>
      var (life, outcome) := Lifecycle.StartIO(w.Life());
      var first := w.startCount == 0;
      w.(startCount := life.startCount, driverStatus := life.driverStatus,
         watch := if first && outcome == Lifecycle.Done
                  then Watchdog.Rearmed(w.sys.ctl.shm.daemonAlive, now, w.watch.notices) else w.watch,
         ringStamps := if first then 0 else w.ringStamps,
         anchor := if first && outcome == Lifecycle.Done then 0 else w.anchor)
    case Stop =>
      var life := Lifecycle.StopIO(w.Life());
      w.(startCount := life.startCount, driverStatus := life.driverStatus)
    case Stamp(now, later) =>
      w.(watch := Watchdog.Poll(w.watch, now, w.sys.ctl.shm.daemonAlive, 0.0 < w.ticks, StalenessThreshold(w.ticks)),
         ringStamps := w.StampsAt(later))
    case _ => w
  }

  function Next(w: World, c: Call, seen: Seen, n: nat, r: nat): (t: World)
    requires 0 < n <= r && Shaped(w.sys, n, r)
    ensures Shaped(t.sys, n, r)
  {
    DriverAfter(w, c, seen, r).(sys := Run(w.sys, Acts(w, c, seen), n, r))
  }

  /** One call of a session and where it took the reference. */
  datatype Entry = Entry(call: Call, seen: Seen, before: World, after: World)

  function End(w: World, trace: seq<Entry>): World {
    if trace == [] then w else trace[|trace| - 1].after
  }

  /** From w, each call goes on where the one before it ended, as the reference says. */
  ghost predicate Linked(w: World, trace: seq<Entry>, n: nat, r: nat)
    requires 0 < n <= r && Shaped(w.sys, n, r)
    ensures Linked(w, trace, n, r) ==> Shaped(End(w, trace).sys, n, r)
  {
    trace == []
    || (var front, e := trace[..|trace| - 1], trace[|trace| - 1];
        && Linked(w, front, n, r) && e.before == End(w, front)
        && e.after == Next(e.before, e.call, e.seen, n, r))
  }

  function AllActs(trace: seq<Entry>): seq<Action> {
    if trace == [] then []
    else
      var e := trace[|trace| - 1];
      AllActs(trace[..|trace| - 1]) + Acts(e.before, e.call, e.seen)
  }

  /** What the reference does to the bridge is a run of the bridge, so every theorem about runs applies. */
  lemma {:induction false} SessionIsARun(w: World, trace: seq<Entry>, n: nat, r: nat)
    requires 0 < n <= r && Shaped(w.sys, n, r) && Linked(w, trace, n, r)
    ensures End(w, trace).sys == Run(w.sys, AllActs(trace), n, r)
  {
    if trace != [] {
      var front, e := trace[..|trace| - 1], trace[|trace| - 1];
      SessionIsARun(w, front, n, r);
      RunConcat(w.sys, AllActs(front), Acts(e.before, e.call, e.seen), n, r);
    }
  }

  /** The chunks that the session's started callbacks took from their port buffers, in order. */
  function ChunksTaken(w: World, trace: seq<Entry>, n: nat): seq<seq<seq<Sample>>> {
    if trace == [] then []
    else
      var e := trace[|trace| - 1];
      var chunk := Cycle(e.seen.blocks, 0, 0);
      ChunksTaken(w, trace[..|trace| - 1], n)
      + if e.call.Callback? && WellFormed(w.sys, chunk, n) && e.before.sys.ctl.shm.driverStatus == STATUS_STARTED
        then [e.seen.blocks] else []
  }

  lemma OnlyCallbacksCycle(w: World, c: Call, seen: Seen)
    requires !c.Callback?
    ensures forall k | 0 <= k < |Acts(w, c, seen)| :: !Acts(w, c, seen)[k].Cycle?
  {
  }

  lemma {:induction false} SessionBrings(w: World, trace: seq<Entry>, n: nat, r: nat)
    requires 0 < n <= r && Shaped(w.sys, n, r) && Linked(w, trace, n, r)
    ensures Schedule.Brought(w.sys, AllActs(trace), n) == ChunksTaken(w, trace, n)
  {
    if trace != [] {
      var front, e := trace[..|trace| - 1], trace[|trace| - 1];
      var acts, more := AllActs(front), Acts(e.before, e.call, e.seen);
      SessionBrings(w, front, n, r);
      if e.call.Callback? {
        SessionIsARun(w, front, n, r);
        StatusIsLast(w.sys, acts, n, r);
        Schedule.BroughtOneMore(w.sys, acts, Cycle(e.seen.blocks, e.call.anchorTime, e.call.stampTime), n);
      } else {
        OnlyCallbacksCycle(e.before, e.call, e.seen);
        Schedule.OthersBringNothing(w.sys, acts, more, n);
        assert ChunksTaken(w, trace, n) == ChunksTaken(w, front, n);
      }
    }
  }

  /** What a call shows the watchdog. */
  function EventsOf(w: World, c: Call): seq<Watchdog.Event> {
    match c
    case Stamp(now, _) =>
      [Watchdog.Polled(Watchdog.Look(now, w.sys.ctl.shm.daemonAlive, 0.0 < w.ticks, StalenessThreshold(w.ticks)))]
    case Start(now) =>
      if w.startCount == 0 && w.driverStatus != STATUS_INIT
      then [Watchdog.Started(now, w.sys.ctl.shm.daemonAlive)] else []
    case _ => []
  }

  function AllEvents(trace: seq<Entry>): seq<Watchdog.Event> {
    if trace == [] then []
    else
      var e := trace[|trace| - 1];
      AllEvents(trace[..|trace| - 1]) + EventsOf(e.before, e.call)
  }

  lemma WatchFollows(w: World, c: Call, seen: Seen, n: nat, r: nat)
    requires 0 < n <= r && Shaped(w.sys, n, r) && !c.Open?
    ensures Next(w, c, seen, n, r).watch == Watchdog.Watched(w.watch, EventsOf(w, c))
  {
    var events := EventsOf(w, c);
    assert events != [] ==> events[..|events| - 1] == [];
  }

  /** What it does to a device's watchdog, until the driver is loaded again, is a run of the watchdog. */
  lemma {:induction false} WatchIsARun(w: World, trace: seq<Entry>, n: nat, r: nat)
    requires 0 < n <= r && Shaped(w.sys, n, r) && Linked(w, trace, n, r)
    requires forall k | 0 <= k < |trace| :: !trace[k].call.Open?
    ensures End(w, trace).watch == Watchdog.Watched(w.watch, AllEvents(trace))
  {
    if trace != [] {
      var front, e := trace[..|trace| - 1], trace[|trace| - 1];
      WatchIsARun(w, front, n, r);
      WatchFollows(e.before, e.call, e.seen, n, r);
      Watchdog.WatchedConcat(w.watch, AllEvents(front), EventsOf(e.before, e.call));
    }
  }

  // The objects.

  /** Buffers have the size the code relies on and are no part of the shared region. */
  ghost predicate Usable(c: Call, d: JackBridge, n: nat) {
    match c
    case Callback(ins, outs, _, _) =>
      && d.Ports(ins, 2 * NUM_INPUT_STREAMS, n) && d.Ports(outs, 2 * NUM_OUTPUT_STREAMS, n) && d.Clearable(outs)
      && forall i, k | 0 <= i < |ins| && 0 <= k < |outs| :: ins[i] != outs[k]
    case Open(ticksPerFrame) => 0.0 <= ticksPerFrame
    case Write(j, m, _, input) =>
      j < NUM_OUTPUT_STREAMS && m <= d.shm.ringFrames && 2 * m <= input.Length && input !in d.shm.Buffers()
    case Read(j, m, _, out) =>
      j < NUM_INPUT_STREAMS && m <= d.shm.ringFrames && 2 * m <= out.Length && out !in d.shm.Buffers()
    case _ => true
  }

  /** The client buffers a call fills, and those it reads. */
  function Filled(c: Call): set<array<Sample>> {
    if c.Callback? then set a | a in c.outs else if c.Read? then {c.out} else {}
  }

  function Sources(c: Call): set<array<Sample>> {
    if c.Callback? then set a | a in c.ins else if c.Write? then {c.input} else {}
  }

  function FilledBy(calls: seq<Call>): set<array<Sample>> {
    if calls == [] then {} else FilledBy(calls[..|calls| - 1]) + Filled(calls[|calls| - 1])
  }

  /** The objects are where the reference is. */
  ghost predicate Joined(w: World, d: JackBridge, dev: SA_Device, n: nat)
    reads d, d.shm, d.shm.Buffers(), dev, dev.shm
  {
    && Represents(w.sys, d) && Attached(d, dev) && n <= d.shm.ringFrames
    && Geometry(n, d.shm.ringFrames) && CursorInv(w.sys, n, d.shm.ringFrames) && CaptureInv(w.sys, d.shm.ringFrames)
    && DriverIs(w, dev)
  }

  ghost predicate DriverIs(w: World, dev: SA_Device)
    reads dev
  {
    && w.startCount == dev.startCount && w.driverStatus == dev.driverStatus && w.watch == dev.Watch()
    && w.ringStamps == dev.ringStamps && w.anchor == dev.anchorHostTime && w.ticks == dev.TicksPerRing()
  }

  /** What a call's input buffers hold. */
  ghost function Offered(c: Call, d: JackBridge, n: nat): seq<seq<Sample>>
    requires Usable(c, d, n)
    reads Sources(c)
  {
    match c
    case Callback(ins, _, _, _) => d.Blocks(ins, NUM_INPUT_STREAMS, n)
    case Write(_, m, _, input) => [input[..2 * m]]
    case _ => []
  }

  /** The call's output buffers hold what the reference, going from w to t, says. */
  ghost predicate Delivers(c: Call, w: World, t: World, d: JackBridge, n: nat)
    requires Usable(c, d, n)
    reads Filled(c)
  {
    match c
    case Callback(_, outs, _, _) =>
      if w.sys.ctl.shm.driverStatus == STATUS_STARTED then
        && |t.sys.played| == |w.sys.played| == NUM_OUTPUT_STREAMS
        && forall j | 0 <= j < NUM_OUTPUT_STREAMS ::
             t.sys.played[j] == w.sys.played[j] + d.Blocks(outs, NUM_OUTPUT_STREAMS, n)[j]
      else forall i | 0 <= i < |outs| :: outs[i][..2 * d.shm.ringFrames] == Silent(2 * d.shm.ringFrames)
    case Read(j, m, time, out) =>
      && j < |w.sys.down| && 0 < |w.sys.down[j]|
      && out[..2 * m] == if w.watch.alive then Loaded(w.sys.down[j], 2 * time, 2 * m) else Silent(2 * m)
    case _ => true
  }

  /** A read by a live device inside the window holds exactly what JACK sent. */
  ghost predicate HoldsJackSamples(c: Call, w: World, n: nat, r: nat)
    requires c.Read? && 2 * c.m <= c.out.Length && c.stream < |w.sys.sent|
    reads c.out
  {
    w.watch.alive && Total(w.sys, n) - r <= c.time && c.time + c.m <= Total(w.sys, n) ==>
      && 2 * (c.time + c.m) <= |w.sys.sent[c.stream]|
      && c.out[..2 * c.m] == w.sys.sent[c.stream][2 * c.time..2 * (c.time + c.m)]
  }

  /** Stream j's frame k in a callback's chunks is what port buffers 2j (left) and 2j + 1 (right) held. */
  lemma OfferedFrame(c: Call, d: JackBridge, n: nat, j: nat, k: nat)
    requires c.Callback? && Usable(c, d, n) && j < NUM_INPUT_STREAMS && k < n
    ensures Offered(c, d, n)[j][2 * k] == c.ins[2 * j][k] && Offered(c, d, n)[j][2 * k + 1] == c.ins[2 * j + 1][k]
  {
    d.FrameOfBlock(c.ins, NUM_INPUT_STREAMS, n, j, k);
  }

  lemma SessionSends(w: World, trace: seq<Entry>, j: nat, n: nat, r: nat)
    requires 0 < n <= r && Initial(w.sys, n, r) && Linked(w, trace, n, r) && j < |w.sys.sent|
    ensures Schedule.AllChunks(ChunksTaken(w, trace, n), |w.sys.down|, 2 * n) && j < |End(w, trace).sys.sent|
    ensures End(w, trace).sys.sent[j] == Schedule.Stream(ChunksTaken(w, trace, n), j)
  {
    SessionIsARun(w, trace, n, r);
    SessionBrings(w, trace, n, r);
    Schedule.SentIsBrought(w.sys, AllActs(trace), j, n, r);
  }

  lemma InWindow(c: Call, w: World, n: nat, r: nat)
    requires c.Read? && 2 * c.m <= c.out.Length && c.stream < |w.sys.sent| && HoldsJackSamples(c, w, n, r)
    requires w.watch.alive && Total(w.sys, n) - r <= c.time && c.time + c.m <= Total(w.sys, n)
    ensures 2 * (c.time + c.m) <= |w.sys.sent[c.stream]|
    ensures c.out[..2 * c.m] == w.sys.sent[c.stream][2 * c.time..2 * (c.time + c.m)]
  {
  }

  /** A read inside the window, by a live device, after any session from construction: frame f of channel
      ch is what the started callback number f / n took for frame f mod n of its period. */
  lemma ReadHoldsPortSamples(w: World, trace: seq<Entry>, e: Entry, i: nat, ch: nat, n: nat, r: nat)
    requires n <= r && Geometry(n, r) && Initial(w.sys, n, r) && Linked(w, trace, n, r) && e.before == End(w, trace)
    requires e.call.Read? && 2 * e.call.m <= e.call.out.Length && e.call.stream < |w.sys.sent|
    requires e.call.stream < |e.before.sys.sent| && HoldsJackSamples(e.call, e.before, n, r)
    requires e.before.watch.alive && i < e.call.m && ch < 2
    requires Total(e.before.sys, n) - r <= e.call.time && e.call.time + e.call.m <= Total(e.before.sys, n)
    ensures var chunks := ChunksTaken(w, trace, n);
            && Schedule.AllChunks(chunks, |w.sys.down|, 2 * n) && e.call.time + i < n * |chunks|
            && e.call.out[..2 * e.call.m][2 * i + ch]
               == Schedule.SampleOf(chunks, |w.sys.down|, e.call.stream, n, e.call.time + i, ch)
  {
    var c := e.call;
    InWindow(c, e.before, n, r);
    SessionSends(w, trace, c.stream, n, r);
    Schedule.TakenFromStream(e.before.sys.sent[c.stream], ChunksTaken(w, trace, n), |w.sys.down|, c.stream, n,
                             c.time, c.m, i, ch);
  }

  const NOTHING := Seen([], 0, 0)

  /** Any step of the bridge keeps its invariants. */
  lemma StillInvariant(w: World, acts: seq<Action>, n: nat, r: nat)
    requires n <= r && Geometry(n, r) && CursorInv(w.sys, n, r) && CaptureInv(w.sys, r)
    ensures CursorInv(Run(w.sys, acts, n, r), n, r) && CaptureInv(Run(w.sys, acts, n, r), r)
  {
    RunKeepsAudio(w.sys, acts, n, r);
  }

  /** A read is no step of the bridge and leaves the driver's fields alone. */
  lemma NoStepIsMade(w: World, c: Call, n: nat, r: nat)
    requires 0 < n <= r && Shaped(w.sys, n, r) && c.Read?
    ensures Next(w, c, NOTHING, n, r) == w
  {
  }

  /** The region is created by the driver and then attached by a daemon. */
  method Boot(n: nat, r: nat, ticksPerFrame: real) returns (d: JackBridge, dev: SA_Device, ghost w: World)
    requires Geometry(n, r) && n <= r && 0.0 <= ticksPerFrame
    ensures Initial(w.sys, n, r) && Joined(w, d, dev, n) && d.shm.ringFrames == r
    ensures w.startCount == 0 && w.driverStatus == STATUS_ACTIVE && w.watch == Watchdog.Watch(true, 0, 0, [])
    ensures fresh(d) && fresh(dev) && fresh(d.shm) && fresh(d.shm.Buffers())
  {
    var region := new Region(r);
    dev := new SA_Device(region, ticksPerFrame);
    dev.HwOpen();
    d := new JackBridge(region);
    w := World(System(d.State(), region.Down(NUM_INPUT_STREAMS), region.Up(NUM_OUTPUT_STREAMS),
                      [[], []], [[]], 0, NoStore, 0, region.seed, 0),
               dev.startCount, dev.driverStatus, dev.Watch(), dev.ringStamps, dev.anchorHostTime, dev.TicksPerRing());
    TotalAdvances(0, n);
    DivModUnique(0, TWO64, 0, 0);
  }

  // One call at a time.

  method ExecuteCallback(c: Call, d: JackBridge, dev: SA_Device, n: nat, ghost w: World) returns (ghost seen: Seen)
    requires c.Callback? && Joined(w, d, dev, n) && Usable(c, d, n)
    modifies d, d.shm, d.shm.Buffers(), Filled(c)
    ensures seen.blocks == old(Offered(c, d, n)) && Joined(Next(w, c, seen, n, d.shm.ringFrames), d, dev, n)
    ensures Delivers(c, w, Next(w, c, seen, n, d.shm.ringFrames), d, n)
  {
    ghost var r := d.shm.ringFrames;
    seen := NOTHING.(blocks := d.Blocks(c.ins, NUM_INPUT_STREAMS, n));
    ghost var act := DaemonCycle(d, n, c.ins, c.outs, c.anchorTime, c.stampTime, w.sys);
    RunOfOne(w.sys, act, n, r);
    StillInvariant(w, [act], n, r);
  }

  method ExecuteShutdown(d: JackBridge, dev: SA_Device, n: nat, ghost w: World)
    requires Joined(w, d, dev, n)
    modifies d.shm
    ensures Joined(Next(w, Shutdown, NOTHING, n, d.shm.ringFrames), d, dev, n)
  {
    ghost var acts := DaemonShutdown(d, n, w.sys);
    StillInvariant(w, acts, n, d.shm.ringFrames);
  }

  method ExecuteOpen(ticksPerFrame: real, d: JackBridge, dev: SA_Device, n: nat, ghost w: World)
    returns (next: SA_Device, ghost seen: Seen)
    requires Joined(w, d, dev, n) && 0.0 <= ticksPerFrame
    modifies d.shm
    ensures fresh(next) && Joined(Next(w, Open(ticksPerFrame), seen, n, d.shm.ringFrames), d, next, n)
    ensures seen.blocks == []
  {
    ghost var acts;
    next, acts := DriverOpen(d, ticksPerFrame, n, w.sys);
    seen := Seen([], next.ringStamps, next.anchorHostTime);
    StillInvariant(w, acts, n, d.shm.ringFrames);
  }

  method ExecuteStart(now: UInt64, d: JackBridge, dev: SA_Device, n: nat, ghost w: World)
    requires Joined(w, d, dev, n)
    modifies dev, d.shm
    ensures Joined(Next(w, Start(now), NOTHING, n, d.shm.ringFrames), d, dev, n)
  {
    assert w.Life() == dev.Life();
    var outcome;
    ghost var acts;
    outcome, acts := DriverStart(d, dev, now, n, w.sys);
    StillInvariant(w, acts, n, d.shm.ringFrames);
  }

  method ExecuteStop(d: JackBridge, dev: SA_Device, n: nat, ghost w: World)
    requires Joined(w, d, dev, n)
    modifies dev, d.shm
    ensures Joined(Next(w, Stop, NOTHING, n, d.shm.ringFrames), d, dev, n)
  {
    assert w.Life() == dev.Life();
    ghost var acts := DriverStop(d, dev, n, w.sys);
    StillInvariant(w, acts, n, d.shm.ringFrames);
  }

  method ExecuteStamp(now: UInt64, later: UInt64, d: JackBridge, dev: SA_Device, n: nat, ghost w: World)
    requires Joined(w, d, dev, n)
    modifies dev, d.shm
    ensures Joined(Next(w, Stamp(now, later), NOTHING, n, d.shm.ringFrames), d, dev, n)
  {
    var sampleTime, hostTime;
    ghost var acts;
    sampleTime, hostTime, acts := DriverStamp(d, dev, now, later, n, w.sys);
    StillInvariant(w, acts, n, d.shm.ringFrames);
  }

  method ExecuteWrite(c: Call, d: JackBridge, dev: SA_Device, n: nat, ghost w: World) returns (ghost seen: Seen)
    requires c.Write? && Joined(w, d, dev, n) && Usable(c, d, n)
    modifies d.shm, d.shm.Buffers()
    ensures seen.blocks == old(Offered(c, d, n)) && Joined(Next(w, c, seen, n, d.shm.ringFrames), d, dev, n)
  {
    seen := NOTHING.(blocks := [c.input[..2 * c.m]]);
    ghost var act := DriverWrite(d, dev, c.stream, c.m, c.time, c.input, n, w.sys);
    RunOfOne(w.sys, act, n, d.shm.ringFrames);
    StillInvariant(w, [act], n, d.shm.ringFrames);
  }

  method ExecuteRead(c: Call, d: JackBridge, dev: SA_Device, n: nat, ghost w: World)
    requires c.Read? && Joined(w, d, dev, n) && Usable(c, d, n)
    modifies d.shm, c.out
    ensures Joined(Next(w, c, NOTHING, n, d.shm.ringFrames), d, dev, n)
    ensures Delivers(c, w, Next(w, c, NOTHING, n, d.shm.ringFrames), d, n)
    ensures c.stream < |w.sys.sent| && HoldsJackSamples(c, w, n, d.shm.ringFrames)
  {
    NoStepIsMade(w, c, n, d.shm.ringFrames);
    DriverRead(d, dev, c.stream, c.m, c.time, c.out, n, w.sys);
  }

  /** One call does exactly what the reference says: it takes what its input buffers hold, moves the
      bridge and the driver's fields as the reference does, and leaves the prescribed samples in its
      output buffers. */
  method Execute(c: Call, d: JackBridge, dev: SA_Device, n: nat, ghost w: World)
    returns (next: SA_Device, ghost seen: Seen)
    requires Joined(w, d, dev, n) && Usable(c, d, n)
    modifies d, dev, d.shm, d.shm.Buffers(), Filled(c)
    ensures (next == dev && !c.Open?) || (fresh(next) && c.Open?)
    ensures seen.blocks == old(Offered(c, d, n)) && Joined(Next(w, c, seen, n, d.shm.ringFrames), d, next, n)
    ensures Delivers(c, w, Next(w, c, seen, n, d.shm.ringFrames), d, n)
    ensures c.Read? ==> c.stream < |w.sys.sent| && HoldsJackSamples(c, w, n, d.shm.ringFrames)
  {
    next, seen := dev, NOTHING;
    match c {
      case Callback(_, _, _, _) => seen := ExecuteCallback(c, d, dev, n, w);
      case Shutdown => ExecuteShutdown(d, dev, n, w);
      case Open(ticksPerFrame) => next, seen := ExecuteOpen(ticksPerFrame, d, dev, n, w);
      case Close => dev.HwClose();
      case Start(now) => ExecuteStart(now, d, dev, n, w);
      case Stop => ExecuteStop(d, dev, n, w);
      case Stamp(now, later) => ExecuteStamp(now, later, d, dev, n, w);
      case Write(_, _, _, _) => seen := ExecuteWrite(c, d, dev, n, w);
      case Read(_, _, _, _) => ExecuteRead(c, d, dev, n, w);
    }
  }

  // Any calls, in any order.

  /** What the call of an entry delivered, and for a read in the window JACK's samples. */
  ghost predicate Delivered(e: Entry, d: JackBridge, n: nat, r: nat)
    requires Usable(e.call, d, n)
    reads Filled(e.call)
  {
    && Delivers(e.call, e.before, e.after, d, n)
    && (e.call.Read? ==> e.call.stream < |e.before.sys.sent| && HoldsJackSamples(e.call, e.before, n, r))
  }

  ghost predicate AllUsable(calls: seq<Call>, d: JackBridge, n: nat) {
    forall k: nat | k < |calls| :: Usable(calls[k], d, n)
  }

  ghost predicate TraceOf(trace: seq<Entry>, calls: seq<Call>) {
    |trace| == |calls| && forall k | 0 <= k < |calls| :: trace[k].call == calls[k]
  }

  /** No earlier call fills what call k reads. */
  predicate Untouched(calls: seq<Call>, k: nat)
    requires k < |calls|
  {
    Sources(calls[k]) !! FilledBy(calls[..k])
  }

  /** No later call fills what call k filled. */
  predicate Lasting(calls: seq<Call>, k: nat)
    requires k < |calls|
  {
    Filled(calls[k]) !! FilledBy(calls[k + 1..])
  }

  /** What the input buffers of all calls hold. */
  ghost function AllOffered(calls: seq<Call>, d: JackBridge, n: nat): (offered: seq<seq<seq<Sample>>>)
    requires AllUsable(calls, d, n)
    reads set k, a | 0 <= k < |calls| && a in Sources(calls[k]) :: a
    ensures |offered| == |calls|
    ensures forall k: nat | k < |calls| :: offered[k] == Offered(calls[k], d, n)
  {
    if calls == [] then []
    else AllOffered(calls[..|calls| - 1], d, n) + [Offered(calls[|calls| - 1], d, n)]
  }

  /** Every call took what was offered, if no earlier call fills its input buffers. */
  ghost predicate AllTaken(calls: seq<Call>, trace: seq<Entry>, offered: seq<seq<seq<Sample>>>)
    requires TraceOf(trace, calls) && |offered| == |calls|
  {
    forall k: nat | k < |calls| && Untouched(calls, k) :: trace[k].seen.blocks == offered[k]
  }

  /** Every call's output buffers hold what it delivered, if no later call fills them. */
  ghost predicate AllDelivered(calls: seq<Call>, trace: seq<Entry>, d: JackBridge, n: nat, r: nat)
    requires TraceOf(trace, calls) && AllUsable(calls, d, n)
    reads set k, a | 0 <= k < |calls| && a in Filled(calls[k]) :: a
  {
    forall k: nat | k < |calls| && Lasting(calls, k) :: Delivered(trace[k], d, n, r)
  }

  lemma FilledOneMore(calls: seq<Call>, call: Call)
    ensures FilledBy(calls + [call]) == FilledBy(calls) + Filled(call)
  {
    assert (calls + [call])[..|calls|] == calls;
  }

  lemma LastingInPrefix(calls: seq<Call>, call: Call, k: nat)
    requires k < |calls| && Lasting(calls + [call], k)
    ensures Lasting(calls, k) && Filled(calls[k]) !! Filled(call)
  {
    assert (calls + [call])[k + 1..] == calls[k + 1..] + [call];
    FilledOneMore(calls[k + 1..], call);
  }

  /** What is left of it by a call that fills other buffers. */
  ghost predicate DeliveredBeside(calls: seq<Call>, trace: seq<Entry>, other: set<array<Sample>>,
                                  d: JackBridge, n: nat, r: nat)
    requires TraceOf(trace, calls) && AllUsable(calls, d, n)
    reads set k, a | 0 <= k < |calls| && a in Filled(calls[k]) && a !in other :: a
  {
    forall k: nat | k < |calls| && Lasting(calls, k) && Filled(calls[k]) !! other :: Delivered(trace[k], d, n, r)
  }

  lemma LeftBeside(calls: seq<Call>, trace: seq<Entry>, other: set<array<Sample>>, d: JackBridge, n: nat, r: nat)
    requires TraceOf(trace, calls) && AllUsable(calls, d, n) && AllDelivered(calls, trace, d, n, r)
    ensures DeliveredBeside(calls, trace, other, d, n, r)
  {
  }

  lemma DeliveredOneMore(calls: seq<Call>, trace: seq<Entry>, e: Entry, d: JackBridge, n: nat, r: nat)
    requires TraceOf(trace, calls) && AllUsable(calls, d, n) && Usable(e.call, d, n) && Delivered(e, d, n, r)
    requires DeliveredBeside(calls, trace, Filled(e.call), d, n, r)
    ensures TraceOf(trace + [e], calls + [e.call]) && AllUsable(calls + [e.call], d, n)
    ensures AllDelivered(calls + [e.call], trace + [e], d, n, r)
  {
    forall k: nat | k < |calls| && Lasting(calls + [e.call], k) ensures Delivered(trace[k], d, n, r) {
      LastingInPrefix(calls, e.call, k);
    }
  }

  lemma UntouchedInPrefix(calls: seq<Call>, call: Call, k: nat)
    requires k <= |calls|
    ensures Untouched(calls + [call], k)
            <==> if k < |calls| then Untouched(calls, k) else Sources(call) !! FilledBy(calls)
  {
    assert (calls + [call])[..k] == calls[..k];
    assert k == |calls| ==> calls[..k] == calls;
  }

  lemma LinkedOneMore(w: World, trace: seq<Entry>, e: Entry, n: nat, r: nat)
    requires 0 < n <= r && Shaped(w.sys, n, r) && Linked(w, trace, n, r)
    requires e.before == End(w, trace) && e.after == Next(e.before, e.call, e.seen, n, r)
    ensures Linked(w, trace + [e], n, r) && End(w, trace + [e]) == e.after
  {
    assert (trace + [e])[..|trace|] == trace;
  }

  /** One call more leaves alone what it does not fill. */
  method ExecuteBeside(front: seq<Call>, c: Call, d: JackBridge, dev: SA_Device, n: nat, ghost w: World,
                       ghost trace: seq<Entry>)
    returns (next: SA_Device, ghost e: Entry)
    requires TraceOf(trace, front) && AllUsable(front, d, n) && Usable(c, d, n) && Joined(w, d, dev, n)
    requires AllDelivered(front, trace, d, n, d.shm.ringFrames)
    modifies d, dev, d.shm, d.shm.Buffers(), Filled(c)
    ensures next == dev || fresh(next)
    ensures e.call == c && e.seen.blocks == old(Offered(c, d, n)) && e.before == w
    ensures e.after == Next(w, c, e.seen, n, d.shm.ringFrames) && Joined(e.after, d, next, n)
    ensures Delivered(e, d, n, d.shm.ringFrames)
    ensures DeliveredBeside(front, trace, Filled(c), d, n, d.shm.ringFrames)
  {
    LeftBeside(front, trace, Filled(c), d, n, d.shm.ringFrames);
    ghost var seen;
    next, seen := Execute(c, d, dev, n, w);
    e := Entry(c, seen, w, Next(w, c, seen, n, d.shm.ringFrames));
  }

  lemma TakenOneMore(calls: seq<Call>, trace: seq<Entry>, e: Entry, offered: seq<seq<seq<Sample>>>)
    requires TraceOf(trace, calls) && |offered| == |calls| + 1 && AllTaken(calls, trace, offered[..|calls|])
    requires Sources(e.call) !! FilledBy(calls) ==> e.seen.blocks == offered[|calls|]
    ensures TraceOf(trace + [e], calls + [e.call]) && AllTaken(calls + [e.call], trace + [e], offered)
  {
    forall k: nat | k <= |calls| && Untouched(calls + [e.call], k)
      ensures (trace + [e])[k].seen.blocks == offered[k]
    {
      UntouchedInPrefix(calls, e.call, k);
    }
  }

  /** The last call of a session, after all the others. */
  method ExecuteLast(front: seq<Call>, c: Call, d: JackBridge, dev: SA_Device, n: nat, ghost w: World,
                     ghost trace: seq<Entry>, ghost offered: seq<seq<seq<Sample>>>)
    returns (next: SA_Device, ghost longer: seq<Entry>)
    requires TraceOf(trace, front) && AllUsable(front, d, n) && Usable(c, d, n) && AllUsable(front + [c], d, n)
    requires 0 < n <= d.shm.ringFrames && Shaped(w.sys, n, d.shm.ringFrames)
    requires Linked(w, trace, n, d.shm.ringFrames) && Joined(End(w, trace), d, dev, n)
    requires |offered| == |front| + 1 && AllTaken(front, trace, offered[..|front|])
    requires Sources(c) !! FilledBy(front) ==> Offered(c, d, n) == offered[|front|]
    requires AllDelivered(front, trace, d, n, d.shm.ringFrames)
    modifies d, dev, d.shm, d.shm.Buffers(), Filled(c)
    ensures next == dev || fresh(next)
    ensures Linked(w, longer, n, d.shm.ringFrames) && Joined(End(w, longer), d, next, n)
    ensures TraceOf(longer, front + [c]) && AllTaken(front + [c], longer, offered)
    ensures AllDelivered(front + [c], longer, d, n, d.shm.ringFrames)
  {
    ghost var e;
    next, e := ExecuteBeside(front, c, d, dev, n, End(w, trace), trace);
    longer := trace + [e];
    LinkedOneMore(w, trace, e, n, d.shm.ringFrames);
    TakenOneMore(front, trace, e, offered);
    DeliveredOneMore(front, trace, e, d, n, d.shm.ringFrames);
  }

  /** Any session, stops, restarts, reloads and shutdowns included, does exactly what the reference does
      call by call. What a call took is what its input buffers held at the start, unless an earlier call
      filled them; what it delivered is still there at the end, unless a later call filled it over. */
  method ExecuteAll(calls: seq<Call>, d: JackBridge, dev: SA_Device, n: nat, ghost w: World)
    returns (last: SA_Device, ghost trace: seq<Entry>)
    requires Joined(w, d, dev, n) && AllUsable(calls, d, n)
    modifies d, dev, d.shm, d.shm.Buffers(), FilledBy(calls)
    ensures TraceOf(trace, calls) && (last == dev || fresh(last))
    ensures Linked(w, trace, n, d.shm.ringFrames) && Joined(End(w, trace), d, last, n)
    ensures AllTaken(calls, trace, old(AllOffered(calls, d, n)))
    ensures AllDelivered(calls, trace, d, n, d.shm.ringFrames)
    decreases |calls|
  {
    if calls == [] {
      return dev, [];
    }
    var front, c := calls[..|calls| - 1], calls[|calls| - 1];
    assert front + [c] == calls;
    ghost var offered := AllOffered(calls, d, n);
    last, trace := ExecuteAll(front, d, dev, n, w);
    if Sources(c) !! FilledBy(front) {
      assert Offered(c, d, n) == old(Offered(c, d, n));
    }
    last, trace := ExecuteLast(front, c, d, last, n, w, trace, offered);
  }
}
