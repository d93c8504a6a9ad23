/** What the registers and the rings hold after a run of the bridge, read off the schedule alone: which
    actions came in which order, with which clock readings and which samples. */
module Schedule {
  import opened Arithmetic
  import opened Ring
  import opened Registers
  import opened Bridge
  import Clock

  predicate IsCallback(s: System, a: Action, n: nat) {
    a.Cycle? && WellFormed(s, a, n)
  }

  /** The status register after these actions. */
  function StatusNow(s: System, acts: seq<Action>): UInt64 {
    StatusAfter(s.ctl.shm.driverStatus, acts)
  }

  /** The status that the latest callback found, ACTIVE before the first. */
  function LastFound(s: System, acts: seq<Action>, n: nat): UInt64 {
    if acts == [] then STATUS_ACTIVE
    else
      var front, a := acts[..|acts| - 1], acts[|acts| - 1];
      if IsCallback(s, a, n) then StatusNow(s, front) else LastFound(s, front, n)
  }

  /** A callback made now would be the first to find the driver started since one found it otherwise. */
  predicate StartIsNews(s: System, acts: seq<Action>, n: nat) {
    StatusNow(s, acts) == STATUS_STARTED && LastFound(s, acts, n) != STATUS_STARTED
  }

  /** Callbacks that noticed a start, and the first started one once more, since the seed was reset. */
  function Anchorings(s: System, acts: seq<Action>, n: nat, r: nat): nat
    requires 0 < n <= r && Shaped(s, n, r)
  {
    if acts == [] then 0
    else
      var front, a := acts[..|acts| - 1], acts[|acts| - 1];
      if a.ResetSeed? then 0
      else Anchorings(s, front, n, r) + if IsCallback(s, a, n) then AnchoringsNext(s, front, n, r) else 0
  }

  /** What a callback made now adds to them. */
  function AnchoringsNext(s: System, acts: seq<Action>, n: nat, r: nat): nat
    requires 0 < n <= r && Shaped(s, n, r)
  {
    (if StartIsNews(s, acts, n) then 1 else 0)
    + if StatusNow(s, acts) == STATUS_STARTED && StartedCallbacks(s, acts, n, r) == 0 then 1 else 0
  }

  /** What the seed was last set to, other than by counting. */
  function SeedBase(initial: UInt64, acts: seq<Action>): UInt64 {
    if acts == [] then initial
    else if acts[|acts| - 1].ResetSeed? then 1
    else SeedBase(initial, acts[..|acts| - 1])
  }

  lemma ShapesStay(s: System, acts: seq<Action>, a: Action, n: nat, r: nat)
    requires 0 < n <= r && Shaped(s, n, r)
    ensures WellFormed(Run(s, acts, n, r), a, n) <==> WellFormed(s, a, n)
  {
    StatusIsLast(s, acts, n, r);
  }

  lemma StepRemembers(s: System, a: Action, n: nat, r: nat)
    requires 0 < n <= r && Shaped(s, n, r)
    ensures Step(s, a, n, r).ctl.daemon.lastDriverStatus
            == if IsCallback(s, a, n) then s.ctl.shm.driverStatus else s.ctl.daemon.lastDriverStatus
  {
  }

  lemma {:induction false} DaemonRemembers(s: System, acts: seq<Action>, n: nat, r: nat)
    requires 0 < n <= r && Initial(s, n, r)
    ensures Run(s, acts, n, r).ctl.daemon.lastDriverStatus == LastFound(s, acts, n)
  {
    if acts != [] {
      var front, a := acts[..|acts| - 1], acts[|acts| - 1];
      DaemonRemembers(s, front, n, r);
      StatusIsLast(s, front, n, r);
      ShapesStay(s, front, a, n, r);
      StepRemembers(Run(s, front, n, r), a, n, r);
    }
  }

  lemma StepSeed(s: System, a: Action, n: nat, r: nat)
    requires 0 < n <= r && Shaped(s, n, r)
    ensures Step(s, a, n, r).ctl.shm.seed
            == if a.ResetSeed? then 1
               else if IsCallback(s, a, n) && s.ctl.shm.driverStatus == STATUS_STARTED
               then Wrap64(s.ctl.shm.seed + (if s.ctl.daemon.lastDriverStatus != STATUS_STARTED then 1 else 0)
                           + (if s.ctl.daemon.isActive then 0 else 1))
               else s.ctl.shm.seed
  {
    if IsCallback(s, a, n) && s.ctl.shm.driverStatus == STATUS_STARTED {
      Clock.StartedCallbackSeed(s.ctl, n, r, a.anchorTime, a.stampTime);
    }
  }

  lemma StepCounts(s: System, a: Action, n: nat, r: nat)
    requires 0 < n <= r && Shaped(s, n, r)
    ensures var t := Step(s, a, n, r);
            if a.ResetSeed? then t.seedOrigin == 1 && t.anchors == 0
            else
              && t.seedOrigin == s.seedOrigin
              && t.anchors == s.anchors
                 + if IsCallback(s, a, n) && s.ctl.shm.driverStatus == STATUS_STARTED
                   then (if s.ctl.daemon.lastDriverStatus != STATUS_STARTED then 1 else 0)
                        + (if s.ctl.daemon.isActive then 0 else 1)
                   else 0
  {
  }

  /** The state a run reaches, as far as the next callback asks. */
  lemma WhereTheDaemonIs(s: System, acts: seq<Action>, n: nat, r: nat)
    requires n <= r && Geometry(n, r) && Initial(s, n, r)
    ensures var e := Run(s, acts, n, r);
            && CursorInv(e, n, r) && e.started == StartedCallbacks(s, acts, n, r)
            && e.ctl.shm.driverStatus == StatusNow(s, acts)
            && e.ctl.daemon.lastDriverStatus == LastFound(s, acts, n)
            && (e.ctl.daemon.isActive <==> 0 < StartedCallbacks(s, acts, n, r))
  {
    RunKeepsAudio(s, acts, n, r);
    StartedIsCount(s, acts, n, r);
    StatusIsLast(s, acts, n, r);
    DaemonRemembers(s, acts, n, r);
  }

  /** The bridge's own count of anchorings is what the schedule says. */
  lemma {:induction false} AnchorsAreScheduled(s: System, acts: seq<Action>, n: nat, r: nat)
    requires n <= r && Geometry(n, r) && Initial(s, n, r)
    ensures Run(s, acts, n, r).anchors == Anchorings(s, acts, n, r)
    ensures Run(s, acts, n, r).seedOrigin == SeedBase(s.ctl.shm.seed, acts)
  {
    if acts != [] {
      var front, a := acts[..|acts| - 1], acts[|acts| - 1];
      AnchorsAreScheduled(s, front, n, r);
      WhereTheDaemonIs(s, front, n, r);
      ShapesStay(s, front, a, n, r);
      StepCounts(Run(s, front, n, r), a, n, r);
    }
  }

  predicate SeedCounts(s: System) {
    s.ctl.shm.seed == Wrap64(s.seedOrigin + s.anchors)
  }

  lemma StepKeepsSeedCount(s: System, a: Action, n: nat, r: nat)
    requires 0 < n <= r && Shaped(s, n, r) && SeedCounts(s)
    ensures SeedCounts(Step(s, a, n, r))
  {
    StepSeed(s, a, n, r);
    StepCounts(s, a, n, r);
    if a.ResetSeed? {
      WrapFixed(1);
    } else if IsCallback(s, a, n) && s.ctl.shm.driverStatus == STATUS_STARTED {
      WrapPlus(s.seedOrigin + s.anchors, Step(s, a, n, r).anchors - s.anchors);
    }
  }

  lemma {:induction false} SeedKeepsCount(s: System, acts: seq<Action>, n: nat, r: nat)
    requires 0 < n <= r && Initial(s, n, r)
    ensures SeedCounts(Run(s, acts, n, r))
  {
    if acts == [] {
      WrapFixed(s.ctl.shm.seed);
    } else {
      SeedKeepsCount(s, acts[..|acts| - 1], n, r);
      StepKeepsSeedCount(Run(s, acts[..|acts| - 1], n, r), acts[|acts| - 1], n, r);
    }
  }

  /** The seed counts the callbacks that found the driver newly started, and the daemon's first started
      one, since it was last reset. */
  lemma SeedCountsStarts(s: System, acts: seq<Action>, n: nat, r: nat)
    requires n <= r && Geometry(n, r) && Initial(s, n, r)
    ensures Run(s, acts, n, r).ctl.shm.seed
            == Wrap64(SeedBase(s.ctl.shm.seed, acts) + Anchorings(s, acts, n, r))
    ensures Run(s, acts, n, r).anchors == Anchorings(s, acts, n, r)
    ensures Run(s, acts, n, r).seedOrigin == SeedBase(s.ctl.shm.seed, acts)
  {
    AnchorsAreScheduled(s, acts, n, r);
    SeedKeepsCount(s, acts, n, r);
  }

  lemma WrapFixed(x: UInt64)
    ensures Wrap64(x) == x
  {
  }

  /** A wrapping count that goes on. */
  lemma CountsOn(word: UInt64, more: int, next: UInt64, base: int, count: int, nextBase: int, nextCount: int)
    requires word == Wrap64(base + count) && next == Wrap64(word + more)
    requires nextBase == base && nextCount == count + more
    ensures next == Wrap64(nextBase + nextCount)
  {
    WrapPlus(base + count, more);
  }

  lemma CallbackRegisters(c: Control, n: nat, r: nat, t0: UInt64, t1: UInt64)
    requires 0 < r && (!c.daemon.isActive ==> c.daemon.frameNumber == 0)
    ensures var e, f := Callback(c, n, r, t0, t1).shm, c.daemon.frameNumber;
            if c.shm.driverStatus != STATUS_STARTED
            then e.zeroHostTime == c.shm.zeroHostTime && e.numberTimeStamps == c.shm.numberTimeStamps
            else if f % r == 0 then e.zeroHostTime == t1 && e.numberTimeStamps == f / r
            else if c.daemon.lastDriverStatus != STATUS_STARTED && c.daemon.isActive
            then e.zeroHostTime == t0 && e.numberTimeStamps == f / r
            else c.daemon.isActive ==>
                   e.zeroHostTime == c.shm.zeroHostTime && e.numberTimeStamps == c.shm.numberTimeStamps
  {
    DivModUnique(0, r, 0, 0);
  }

  /** What the next callback does to the clock. On a ring boundary it stores its second clock reading, and
      off one its first, if it finds the driver newly started; in both cases with the number of the ring
      period that n frames for each started callback so far lead to. Otherwise it leaves the clock alone. */
  lemma CallbackSetsTheClock(s: System, acts: seq<Action>, a: Action, n: nat, r: nat)
    requires n <= r && Geometry(n, r) && Initial(s, n, r) && IsCallback(s, a, n)
    ensures var e := Run(s, acts, n, r);
            var before, after := e.ctl.shm, Step(e, a, n, r).ctl.shm;
            var frames := n * StartedCallbacks(s, acts, n, r);
            if StatusNow(s, acts) == STATUS_STARTED && frames % r == 0
            then after.zeroHostTime == a.stampTime && after.numberTimeStamps == Wrap64(frames) / r
            else if StartIsNews(s, acts, n)
            then after.zeroHostTime == a.anchorTime && after.numberTimeStamps == Wrap64(frames) / r
            else after.zeroHostTime == before.zeroHostTime && after.numberTimeStamps == before.numberTimeStamps
  {
    var e := Run(s, acts, n, r);
    WhereTheDaemonIs(s, acts, n, r);
    ShapesStay(s, acts, a, n, r);
    ModOfWrap(Total(e, n), r);
    DivModUnique(0, r, 0, 0);
    TotalAdvances(0, n);
    DivModUnique(0, TWO64, 0, 0);
    CallbackRegisters(e.ctl, n, r, a.anchorTime, a.stampTime);
  }

  // The heartbeat.

  function BeatsSince(s: System, acts: seq<Action>, n: nat): nat {
    if acts == [] || acts[|acts| - 1].ZeroHeartbeat? then 0
    else BeatsSince(s, acts[..|acts| - 1], n) + if IsCallback(s, acts[|acts| - 1], n) then 1 else 0
  }

  function BeatBase(initial: UInt64, acts: seq<Action>): UInt64 {
    if acts == [] then initial
    else if acts[|acts| - 1].ZeroHeartbeat? then 0
    else BeatBase(initial, acts[..|acts| - 1])
  }

  lemma StepBeats(s: System, a: Action, n: nat, r: nat)
    requires 0 < n <= r && Shaped(s, n, r)
    ensures Step(s, a, n, r).ctl.shm.daemonAlive
            == if a.ZeroHeartbeat? then 0
               else if IsCallback(s, a, n) then Wrap64(s.ctl.shm.daemonAlive + 1) else s.ctl.shm.daemonAlive
  {
  }

  /** The heartbeat counts every callback, started or not, since the daemon last zeroed it. */
  lemma {:induction false} HeartbeatCountsCallbacks(s: System, acts: seq<Action>, n: nat, r: nat)
    requires 0 < n <= r && Shaped(s, n, r)
    ensures Run(s, acts, n, r).ctl.shm.daemonAlive
            == Wrap64(BeatBase(s.ctl.shm.daemonAlive, acts) + BeatsSince(s, acts, n))
  {
    if acts == [] {
      WrapFixed(s.ctl.shm.daemonAlive);
    } else {
      var front, a := acts[..|acts| - 1], acts[|acts| - 1];
      HeartbeatCountsCallbacks(s, front, n, r);
      ShapesStay(s, front, a, n, r);
      StepBeats(Run(s, front, n, r), a, n, r);
      if a.ZeroHeartbeat? {
        WrapFixed(0);
      } else if IsCallback(s, a, n) {
        CountsOn(Run(s, front, n, r).ctl.shm.daemonAlive, 1, Run(s, acts, n, r).ctl.shm.daemonAlive,
                 BeatBase(s.ctl.shm.daemonAlive, front), BeatsSince(s, front, n),
                 BeatBase(s.ctl.shm.daemonAlive, acts), BeatsSince(s, acts, n));
      }
    }
  }

  // The audio.

  lemma BroughtOneMore(s: System, acts: seq<Action>, a: Action, n: nat)
    ensures Brought(s, acts + [a], n)
            == Brought(s, acts, n)
               + if IsCallback(s, a, n) && StatusNow(s, acts) == STATUS_STARTED then [a.ins] else []
  {
    assert (acts + [a])[..|acts|] == acts;
  }

  /** Actions that are no callbacks bring nothing. */
  lemma {:induction false} OthersBringNothing(s: System, acts: seq<Action>, more: seq<Action>, n: nat)
    requires forall k | 0 <= k < |more| :: !more[k].Cycle?
    ensures Brought(s, acts + more, n) == Brought(s, acts, n)
  {
    if more == [] {
      assert acts + more == acts;
    } else {
      assert (acts + more)[..|acts + more| - 1] == acts + more[..|more| - 1];
      OthersBringNothing(s, acts, more[..|more| - 1], n);
    }
  }

  /** The chunks of all input streams that the started callbacks brought, in order. */
  function Brought(s: System, acts: seq<Action>, n: nat): seq<seq<seq<Sample>>> {
    if acts == [] then []
    else
      var front, a := acts[..|acts| - 1], acts[|acts| - 1];
      Brought(s, front, n) + if IsCallback(s, a, n) && StatusNow(s, front) == STATUS_STARTED then [a.ins] else []
  }

  /** Stream j of these chunks, end to end. */
  function Stream(chunks: seq<seq<seq<Sample>>>, j: nat): seq<Sample>
    requires forall q | 0 <= q < |chunks| :: j < |chunks[q]|
  {
    if chunks == [] then [] else Stream(chunks[..|chunks| - 1], j) + chunks[|chunks| - 1][j]
  }

  predicate AllChunks(chunks: seq<seq<seq<Sample>>>, streams: nat, size: nat) {
    forall q | 0 <= q < |chunks| :: |chunks[q]| == streams && AllOfSize(chunks[q], size)
  }

  /** Sample k of stream j is sample k mod size of chunk k / size. */
  lemma {:induction false} StreamAt(chunks: seq<seq<seq<Sample>>>, j: nat, streams: nat, size: nat, q: nat, k: nat)
    requires AllChunks(chunks, streams, size) && j < streams && q < |chunks| && k < size
    ensures |Stream(chunks, j)| == size * |chunks| && size * q + k < size * |chunks|
    ensures Stream(chunks, j)[size * q + k] == chunks[q][j][k]
  {
    var last := |chunks| - 1;
    StreamSize(chunks, j, streams, size);
    StreamSize(chunks[..last], j, streams, size);
    MulMonotone(size, q, last);
    assert size * (last + 1) == size * last + size;
    if q < last {
      StreamAt(chunks[..last], j, streams, size, q, k);
    }
  }

  lemma {:induction false} StreamSize(chunks: seq<seq<seq<Sample>>>, j: nat, streams: nat, size: nat)
    requires AllChunks(chunks, streams, size) && j < streams
    ensures |Stream(chunks, j)| == size * |chunks|
  {
    if chunks != [] {
      StreamSize(chunks[..|chunks| - 1], j, streams, size);
      assert size * |chunks| == size * (|chunks| - 1) + size;
    }
  }

  lemma {:induction false} BroughtChunks(s: System, acts: seq<Action>, n: nat)
    ensures AllChunks(Brought(s, acts, n), |s.down|, 2 * n)
  {
    if acts != [] {
      BroughtChunks(s, acts[..|acts| - 1], n);
    }
  }

  lemma StreamOneMore(chunks: seq<seq<seq<Sample>>>, chunk: seq<seq<Sample>>, j: nat)
    requires j < |chunk| && forall q | 0 <= q < |chunks| :: j < |chunks[q]|
    ensures Stream(chunks + [chunk], j) == Stream(chunks, j) + chunk[j]
  {
    assert (chunks + [chunk])[..|chunks|] == chunks;
  }

  lemma StepSends(s: System, a: Action, j: nat, n: nat, r: nat)
    requires 0 < n <= r && Shaped(s, n, r) && j < |s.sent|
    ensures |Step(s, a, n, r).sent| == |s.sent|
    ensures Step(s, a, n, r).sent[j]
            == if IsCallback(s, a, n) && s.ctl.shm.driverStatus == STATUS_STARTED then s.sent[j] + a.ins[j]
               else s.sent[j]
  {
  }

  lemma {:induction false} SentIsBrought(s: System, acts: seq<Action>, j: nat, n: nat, r: nat)
    requires 0 < n <= r && Initial(s, n, r) && j < |s.sent|
    ensures AllChunks(Brought(s, acts, n), |s.down|, 2 * n) && |Run(s, acts, n, r).sent| == |s.sent|
    ensures Run(s, acts, n, r).sent[j] == Stream(Brought(s, acts, n), j)
  {
    BroughtChunks(s, acts, n);
    if acts != [] {
      var front, a := acts[..|acts| - 1], acts[|acts| - 1];
      SentIsBrought(s, front, j, n, r);
      StatusIsLast(s, front, n, r);
      ShapesStay(s, front, a, n, r);
      StepSends(Run(s, front, n, r), a, j, n, r);
      if IsCallback(s, a, n) && StatusNow(s, front) == STATUS_STARTED {
        StreamOneMore(Brought(s, front, n), a.ins, j);
      } else {
        assert Brought(s, acts, n) == Brought(s, front, n);
      }
    }
  }

  /** Frame f, channel c of stream j, in chunks of n frames. */
  function SampleOf(chunks: seq<seq<seq<Sample>>>, streams: nat, j: nat, n: nat, f: nat, c: nat): Sample
    requires AllChunks(chunks, streams, 2 * n) && 0 < n && j < streams && f < n * |chunks| && c < 2
  {
    FrameInChunk(f, n, |chunks|);
    chunks[f / n][j][2 * (f % n) + c]
  }

  lemma FrameInChunk(f: nat, n: nat, chunks: nat)
    requires 0 < n && f < n * chunks
    ensures f / n < chunks && 2 * f == 2 * n * (f / n) + 2 * (f % n)
  {
    assert f == n * (f / n) + f % n;
    assert 2 * (n * (f / n)) == 2 * n * (f / n);
    if chunks <= f / n {
      MulMonotone(n, chunks, f / n);
    }
  }

  lemma StreamFrame(chunks: seq<seq<seq<Sample>>>, streams: nat, j: nat, n: nat, f: nat, c: nat)
    requires AllChunks(chunks, streams, 2 * n) && 0 < n && j < streams && f < n * |chunks| && c < 2
    ensures 2 * f + c < |Stream(chunks, j)|
    ensures Stream(chunks, j)[2 * f + c] == SampleOf(chunks, streams, j, n, f, c)
  {
    FrameInChunk(f, n, |chunks|);
    StreamAt(chunks, j, streams, 2 * n, f / n, 2 * (f % n) + c);
  }

  /** End to end. After any run from construction, a driver read inside the window returns, for frame f of
      stream j and channel c, the sample that the started callback number f / n brought for frame f mod n
      of its period and that channel. */
  lemma ReadIsWhatCallbacksBrought(s: System, acts: seq<Action>, j: nat, t: nat, m: nat, i: nat, c: nat,
                                   n: nat, r: nat)
    requires n <= r && Geometry(n, r) && Initial(s, n, r) && j < |s.sent| && i < m && c < 2
    requires Total(Run(s, acts, n, r), n) - r <= t && t + m <= Total(Run(s, acts, n, r), n)
    ensures var e, chunks := Run(s, acts, n, r), Brought(s, acts, n);
            && |e.down| == |s.down| && AllChunks(chunks, |s.down|, 2 * n) && t + i < n * |chunks|
            && Loaded(e.down[j], 2 * t, 2 * m)[2 * i + c] == SampleOf(chunks, |s.down|, j, n, t + i, c)
  {
    CaptureIsExact(s, acts, n, r, t, m);
    SentIsBrought(s, acts, j, n, r);
    TakenFromStream(Run(s, acts, n, r).sent[j], Brought(s, acts, n), |s.down|, j, n, t, m, i, c);
  }

  lemma TakenFromStream(sent: seq<Sample>, chunks: seq<seq<seq<Sample>>>, streams: nat, j: nat, n: nat,
                        t: nat, m: nat, i: nat, c: nat)
    requires AllChunks(chunks, streams, 2 * n) && 0 < n && j < streams && i < m && c < 2
    requires sent == Stream(chunks, j) && 2 * (t + m) <= |sent|
    ensures t + i < n * |chunks|
    ensures sent[2 * t..2 * (t + m)][2 * i + c] == SampleOf(chunks, streams, j, n, t + i, c)
  {
    StreamSize(chunks, j, streams, 2 * n);
    assert 2 * n * |chunks| == 2 * (n * |chunks|);
    StreamFrame(chunks, streams, j, n, t + i, c);
  }
}
