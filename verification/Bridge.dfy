/** The two processes and their shared region as one transition system, at the granularity of whole
    callbacks and whole driver copies, for any pattern of starts, stops and restarts. */
module Bridge {
  import opened Arithmetic
  import opened Ring
  import opened Registers
  import opened RingProjector

  /** The driver's own stamp: decided on when it saw SyncMode off, then stored number first. */
  datatype OwnStamp = NoStore | BothDue(number: UInt64, host: UInt64) | HostDue(host: UInt64)

  /** `sent[j]` is the stream JACK has delivered for input stream j in started callbacks, `played[j]`
      the stream handed to JACK from output stream j, both indexed by absolute sample; `started`
      counts the callbacks that saw STARTED, `anchors` those that re-anchored or activated since the
      seed was `seedOrigin`, and `latest` is the stamp number the daemon stored last. */
  datatype System = System(ctl: Control, down: seq<seq<Sample>>, up: seq<seq<Sample>>,
                           sent: seq<seq<Sample>>, played: seq<seq<Sample>>, started: nat,
                           own: OwnStamp, latest: nat, seedOrigin: UInt64, anchors: nat)

  /** Opening the driver is ResetSeed, ClearSync, SetStatus; the daemon's shutdown is ZeroHeartbeat,
      SetStatus. Any of them may come at any moment. */
  datatype Action =
    | Cycle(ins: seq<seq<Sample>>, anchorTime: UInt64, stampTime: UInt64)
    | SetStatus(status: UInt64)
    | ResetSeed
    | ClearSync
    | ZeroHeartbeat
    | Decide(number: UInt64, host: UInt64)  // the driver loads SyncMode and has this stamp to offer
    | StoreNumber
    | StoreHost
    | HalWrite(stream: nat, at: nat, block: seq<Sample>)

  predicate WellFormed(s: System, a: Action, n: nat) {
    match a
    case Cycle(ins, _, _) => |ins| == |s.down| && AllOfSize(ins, 2 * n)
    case HalWrite(j, _, block) => j < |s.up| && |block| <= |s.up[j]|
    case _ => true
  }

  predicate Shaped(s: System, n: nat, r: nat) {
    && |s.down| == |s.sent| && |s.up| == |s.played|
    && AllOfSize(s.down, 2 * r) && AllOfSize(s.up, 2 * r)
  }

  /** The audio side of a started callback, at cursor `cursor`. */
  function Transfer(s: System, ins: seq<seq<Sample>>, cursor: UInt64, n: nat, r: nat): System
    requires 0 < n <= r && Shaped(s, n, r)
    requires |ins| == |s.down| && AllOfSize(ins, 2 * n)
  {
    var send, recv := 2 * Projector(r, cursor).SendOffset(), 2 * Projector(r, cursor).RecvOffset(n);
    var outs := LoadedAll(s.up, recv, 2 * n);
    s.(down := StoredAll(s.down, send, ins),
       up := StoredAll(s.up, recv, SilentAll(|s.up|, 2 * n)),
       sent := seq(|s.sent|, j requires 0 <= j < |s.sent| => s.sent[j] + ins[j]),
       played := seq(|s.played|, j requires 0 <= j < |s.played| => s.played[j] + outs[j]))
  }

  function WithShared(s: System, shm: Shared): System {
    s.(ctl := s.ctl.(shm := shm))
  }

  /** The stamp number the daemon has stored last, after one more callback. */
  function LatestAfter(s: System, r: nat, next: Control): nat
    requires 0 < r
  {
    if Stamps(s.ctl, r) then next.shm.numberTimeStamps else s.latest
  }

  function Step(s: System, a: Action, n: nat, r: nat): (t: System)
    requires 0 < n <= r && Shaped(s, n, r)
    ensures Shaped(t, n, r)
  {
    var shm := s.ctl.shm;
    if !WellFormed(s, a, n) then s
    else
      match a
      case Cycle(ins, t0, t1) =>
        var next := Callback(s.ctl, n, r, t0, t1);
        var anchored := s.anchors + (if Restarting(s.ctl) then 1 else 0);
        if shm.driverStatus != STATUS_STARTED then s.(ctl := next)
        else
          Transfer(s, ins, CopyCursor(s.ctl.daemon), n, r).(
            ctl := next, started := s.started + 1, latest := LatestAfter(s, r, next),
            anchors := anchored + if s.ctl.daemon.isActive then 0 else 1)
      case SetStatus(v) => WithShared(s, shm.(driverStatus := v))
      case ResetSeed => WithShared(s, shm.(seed := 1)).(seedOrigin := 1, anchors := 0)
      case ClearSync => WithShared(s, shm.(syncMode := 0))
      case ZeroHeartbeat => WithShared(s, shm.(daemonAlive := 0))
      case Decide(number, host) =>
        if s.own.NoStore? && shm.syncMode != 1 then s.(own := BothDue(number, host)) else s
      case StoreNumber =>
        if s.own.BothDue? then WithShared(s, shm.(numberTimeStamps := s.own.number)).(own := HostDue(s.own.host))
        else s
      case StoreHost =>
        if s.own.HostDue? then WithShared(s, shm.(zeroHostTime := s.own.host)).(own := NoStore) else s
      case HalWrite(j, at, block) => s.(up := s.up[j := Stored(s.up[j], 2 * at, block)])
  }

  function Run(s: System, acts: seq<Action>, n: nat, r: nat): (t: System)
    requires 0 < n <= r && Shaped(s, n, r)
    ensures Shaped(t, n, r)
  {
    if acts == [] then s else Step(Run(s, acts[..|acts| - 1], n, r), acts[|acts| - 1], n, r)
  }

  lemma {:induction false} RunConcat(s: System, a: seq<Action>, b: seq<Action>, n: nat, r: nat)
    requires 0 < n <= r && Shaped(s, n, r)
    ensures Run(s, a + b, n, r) == Run(Run(s, a, n, r), b, n, r)
  {
    if b == [] {
      assert a + b == a;
    } else {
      assert (a + b)[..|a + b| - 1] == a + b[..|b| - 1];
      RunConcat(s, a, b[..|b| - 1], n, r);
    }
  }

  lemma GeometryFits(n: nat, r: nat)
    requires Geometry(n, r)
    ensures n <= r
  {
    if r < n {
      DivModUnique(r, n, 0, r);
      assert false;
    }
  }

  /** Absolute frames delivered so far; the daemon's cursor is this number modulo 2^64. */
  function Total(s: System, n: nat): nat {
    n * s.started
  }

  /** A freshly constructed daemon over rings and registers with arbitrary contents; the driver may
      have a stamp of its own under way. */
  predicate Initial(s: System, n: nat, r: nat) {
    && Shaped(s, n, r) && s.ctl == Constructed(s.ctl.shm) && s.started == 0
    && s.anchors == 0 && s.seedOrigin == s.ctl.shm.seed
    && (forall j | 0 <= j < |s.sent| :: s.sent[j] == [])
    && (forall j | 0 <= j < |s.played| :: s.played[j] == [])
  }

  ghost predicate CursorInv(s: System, n: nat, r: nat) {
    && Shaped(s, n, r)
    && s.ctl.daemon.frameNumber == Wrap64(Total(s, n))
    && (s.ctl.daemon.isActive <==> 0 < s.started)
    && (forall j | 0 <= j < |s.sent| :: |s.sent[j]| == 2 * Total(s, n))
    && (forall j | 0 <= j < |s.played| :: |s.played[j]| == 2 * Total(s, n))
  }

  /** Each ring cell within a ring's length of the cursor holds the sample JACK sent for it. */
  ghost predicate CaptureInv(s: System, r: nat)
    requires 0 < r && |s.down| == |s.sent| && AllOfSize(s.down, 2 * r)
  {
    forall j, k | 0 <= j < |s.sent| && 0 <= k < |s.sent[j]| && |s.sent[j]| - 2 * r <= k ::
      s.down[j][k % (2 * r)] == s.sent[j][k]
  }

  lemma DoubleMod(x: int, r: nat)
    requires 0 < r
    ensures (2 * x) % (2 * r) == 2 * (x % r)
  {
    DivModUnique(2 * x, 2 * r, x / r, 2 * (x % r));
  }

  /** A started callback copies at the absolute position the history has reached. */
  lemma CopyPositions(s: System, n: nat, r: nat)
    requires Geometry(n, r) && CursorInv(s, n, r) && s.ctl.shm.driverStatus == STATUS_STARTED
    ensures var p := Projector(r, CopyCursor(s.ctl.daemon));
            && p.frameCursor == s.ctl.daemon.frameNumber
            && 2 * p.SendOffset() == (2 * Total(s, n)) % (2 * r)
            && 2 * p.RecvOffset(n) == (2 * (Total(s, n) - n)) % (2 * r)
  {
    var p := Projector(r, CopyCursor(s.ctl.daemon));
    var total := Total(s, n);
    ModOfWrap(total, r);
    DoubleMod(total, r);
    RecvOffsetIsEuclidean(p, n);
    DoubleMod(total - n, r);
    ModEqual(p.frameCursor, total, r);
    ModEqual(p.frameCursor - n, total - n, r);
  }

  lemma StepKeepsCursor(s: System, a: Action, n: nat, r: nat)
    requires n <= r && Geometry(n, r) && CursorInv(s, n, r)
    ensures CursorInv(Step(s, a, n, r), n, r)
  {
    if WellFormed(s, a, n) && a.Cycle? && s.ctl.shm.driverStatus == STATUS_STARTED {
      StartedCallbackAdvances(s.ctl, n, r, a.anchorTime, a.stampTime);
      TotalAdvances(s.started, n);
      WrapPlus(Total(s, n), n);
    }
  }

  lemma TotalAdvances(k: nat, n: nat)
    ensures n * (k + 1) == n * k + n
    ensures n * 0 == 0
  {
  }

  lemma StartedCallbackAdvances(c: Control, n: nat, r: nat, t0: UInt64, t1: UInt64)
    requires 0 < r && c.shm.driverStatus == STATUS_STARTED
    requires !c.daemon.isActive ==> c.daemon.frameNumber == 0
    ensures var e := Callback(c, n, r, t0, t1);
            && e.daemon.frameNumber == Wrap64(c.daemon.frameNumber + n)
            && e.daemon.isActive && e.shm.driverStatus == STATUS_STARTED
  {
  }

  lemma WrapPlus(x: int, n: int)
    ensures Wrap64(Wrap64(x) + n) == Wrap64(x + n)
  {
    ModEqual(Wrap64(x) + n, x + n, TWO64);
    ModEqual(Wrap64(x), x, TWO64);
    DivModUnique(Wrap64(x), TWO64, 0, Wrap64(x));
  }

  lemma StepKeepsCapture(s: System, a: Action, n: nat, r: nat)
    requires n <= r && Geometry(n, r) && CursorInv(s, n, r) && CaptureInv(s, r)
    ensures CaptureInv(Step(s, a, n, r), r)
    ensures forall j | 0 <= j < |s.sent| :: s.sent[j] <= Step(s, a, n, r).sent[j]
  {
    if WellFormed(s, a, n) && a.Cycle? && s.ctl.shm.driverStatus == STATUS_STARTED {
      var t := Step(s, a, n, r);
      CopyPositions(s, n, r);
      forall j | 0 <= j < |s.sent|
        ensures forall k | 0 <= k < |t.sent[j]| && |t.sent[j]| - 2 * r <= k ::
                  t.down[j][k % (2 * r)] == t.sent[j][k]
      {
        StoreAtResidue(s.down[j], |s.sent[j]|, a.ins[j]);
        AppendKeepsWindow(s.down[j], s.sent[j], a.ins[j]);
      }
    }
  }

  /** Writing a block at the end of the history keeps the last ring's worth of it in the ring. */
  lemma AppendKeepsWindow(ring: seq<Sample>, sent: seq<Sample>, block: seq<Sample>)
    requires 0 < |ring| && |block| <= |ring|
    requires forall k | 0 <= k < |sent| && |sent| - |ring| <= k :: ring[k % |ring|] == sent[k]
    ensures forall k | 0 <= k < |sent + block| && |sent + block| - |ring| <= k ::
              Stored(ring, |sent|, block)[k % |ring|] == (sent + block)[k]
  {
    var n, h := |ring|, |sent|;
    forall k | 0 <= k < h + |block| && h + |block| - n <= k
      ensures Stored(ring, h, block)[k % n] == (sent + block)[k]
    {
      if h <= k {
        CellOffset(k % n, h, k - h, n);
      } else {
        DivModUnique(k - h, n, -1, k - h + n);
        ModEqual(k % n - h, k - h, n);
        ModEqual(k % n, k, n);
        DivModUnique(k % n, n, 0, k % n);
      }
    }
  }

  lemma {:induction false} RunKeepsAudio(s: System, acts: seq<Action>, n: nat, r: nat)
    requires n <= r && Geometry(n, r) && CursorInv(s, n, r) && CaptureInv(s, r)
    ensures CursorInv(Run(s, acts, n, r), n, r) && CaptureInv(Run(s, acts, n, r), r)
    ensures |Run(s, acts, n, r).sent| == |s.sent|
    ensures forall j | 0 <= j < |s.sent| :: s.sent[j] <= Run(s, acts, n, r).sent[j]
  {
    if acts != [] {
      var t := Run(s, acts[..|acts| - 1], n, r);
      RunKeepsAudio(s, acts[..|acts| - 1], n, r);
      StepKeepsCursor(t, acts[|acts| - 1], n, r);
      StepKeepsCapture(t, acts[|acts| - 1], n, r);
    }
  }

  /** Within one ring of the end, the ring holds what was sent. */
  lemma WindowIsLoaded(s: System, j: nat, t: nat, m: nat, r: nat)
    requires 0 < r && |s.down| == |s.sent| && AllOfSize(s.down, 2 * r) && CaptureInv(s, r) && j < |s.sent|
    requires |s.sent[j]| - 2 * r <= 2 * t && 2 * (t + m) <= |s.sent[j]|
    ensures Loaded(s.down[j], 2 * t, 2 * m) == s.sent[j][2 * t..2 * (t + m)]
  {
  }

  /** Capture refinement. After any run from construction, a driver read of m frames at time t whose
      frames all lie within one ring of the cursor yields, for every stream at once, exactly the
      samples JACK sent for frames t .. t + m. */
  lemma CaptureIsExact(s: System, acts: seq<Action>, n: nat, r: nat, t: nat, m: nat)
    requires n <= r && Geometry(n, r) && Initial(s, n, r)
    requires Total(Run(s, acts, n, r), n) - r <= t && t + m <= Total(Run(s, acts, n, r), n)
    ensures var e := Run(s, acts, n, r);
            |e.sent| == |e.down| == |s.sent| &&
            forall j | 0 <= j < |s.sent| ::
              && |e.sent[j]| == 2 * Total(e, n)
              && Loaded(e.down[j], 2 * t, 2 * m) == e.sent[j][2 * t..2 * (t + m)]
  {
    RunKeepsAudio(s, acts, n, r);
    var e := Run(s, acts, n, r);
    forall j | 0 <= j < |s.sent| ensures Loaded(e.down[j], 2 * t, 2 * m) == e.sent[j][2 * t..2 * (t + m)] {
      WindowIsLoaded(e, j, t, m, r);
    }
  }

  /** Cursor conservation: the cursor is n times the number of callbacks that saw STARTED. */
  lemma CursorCountsStartedCallbacks(s: System, acts: seq<Action>, n: nat, r: nat)
    requires n <= r && Geometry(n, r) && Initial(s, n, r)
    ensures var e := Run(s, acts, n, r);
            && e.ctl.daemon.frameNumber == Wrap64(n * e.started)
            && e.started == StartedCallbacks(s, acts, n, r)
  {
    RunKeepsAudio(s, acts, n, r);
    StartedIsCount(s, acts, n, r);
  }

  /** Counting from the schedule alone: well-formed callbacks made while the status was STARTED. */
  function StartedCallbacks(s: System, acts: seq<Action>, n: nat, r: nat): nat
    requires 0 < n <= r && Shaped(s, n, r)
  {
    if acts == [] then 0
    else
      var last := |acts| - 1;
      StartedCallbacks(s, acts[..last], n, r)
      + if acts[last].Cycle? && WellFormed(s, acts[last], n)
           && StatusAfter(s.ctl.shm.driverStatus, acts[..last]) == STATUS_STARTED then 1 else 0
  }

  /** The status register is whatever was stored last. */
  function StatusAfter(initial: UInt64, acts: seq<Action>): UInt64 {
    if acts == [] then initial
    else
      var last := |acts| - 1;
      if acts[last].SetStatus? then acts[last].status else StatusAfter(initial, acts[..last])
  }

  lemma {:induction false} StatusIsLast(s: System, acts: seq<Action>, n: nat, r: nat)
    requires 0 < n <= r && Shaped(s, n, r)
    ensures var e := Run(s, acts, n, r);
            && e.ctl.shm.driverStatus == StatusAfter(s.ctl.shm.driverStatus, acts)
            && |e.down| == |s.down| && |e.up| == |s.up|
  {
    if acts != [] {
      StatusIsLast(s, acts[..|acts| - 1], n, r);
      StepKeepsStatus(Run(s, acts[..|acts| - 1], n, r), acts[|acts| - 1], n, r);
    }
  }

  lemma StepKeepsStatus(s: System, a: Action, n: nat, r: nat)
    requires 0 < n <= r && Shaped(s, n, r)
    ensures var t := Step(s, a, n, r);
            && t.ctl.shm.driverStatus == (if a.SetStatus? then a.status else s.ctl.shm.driverStatus)
            && |t.down| == |s.down| && |t.up| == |s.up|
            && t.started == s.started + if a.Cycle? && WellFormed(s, a, n) && s.ctl.shm.driverStatus == STATUS_STARTED
                                        then 1 else 0
  {
  }

  lemma {:induction false} StartedIsCount(s: System, acts: seq<Action>, n: nat, r: nat)
    requires 0 < n <= r && Shaped(s, n, r)
    ensures Run(s, acts, n, r).started == s.started + StartedCallbacks(s, acts, n, r)
  {
    if acts != [] {
      var t, a := Run(s, acts[..|acts| - 1], n, r), acts[|acts| - 1];
      StartedIsCount(s, acts[..|acts| - 1], n, r);
      StatusIsLast(s, acts[..|acts| - 1], n, r);
      StepKeepsStatus(t, a, n, r);
      assert WellFormed(s, a, n) <==> WellFormed(t, a, n);
    }
  }
}
