/** driver/JackBridge/Plug-In/SA_Device.cpp: the CoreAudio device object. Host-clock readings are
    parameters; floating-point clock rates are reals. */
module DriverDevice {
  import opened Arithmetic
  import opened Ring
  import opened Registers
  import opened SharedRegion
  import opened RingCopy
  import Lifecycle
  import Watchdog

  // The driver's own clock: `ticks` host ticks to a ring period, counted from `anchor`.

  /** Host time at which period `stamps` ends. */
  function DueAfter(anchor: UInt64, stamps: UInt64, ticks: real): UInt64 {
    Wrap64(anchor + ((stamps + 1) as real * ticks).Floor)
  }

  /** Host time at which period `stamps` begins. */
  function PeriodStart(anchor: UInt64, stamps: UInt64, ticks: real): UInt64 {
    Wrap64((anchor as real + stamps as real * ticks).Floor)
  }

  /** Five ring periods. */
  function StalenessThreshold(ticks: real): nat {
    if 0.0 <= ticks then (5.0 * ticks).Floor else 0
  }

  /** The period after period `stamps` begins within the 64 bits of host time and of the count. */
  predicate NoWrap(anchor: UInt64, stamps: UInt64, ticks: real) {
    0.0 <= ticks && stamps + 1 < TWO64 && anchor as real + (stamps + 1) as real * ticks < TWO64 as real
  }

  lemma LaterPeriod(stamps: UInt64, ticks: real)
    requires 0.0 <= ticks
    ensures 0.0 <= stamps as real * ticks <= (stamps + 1) as real * ticks
  {
    assert (stamps + 1) as real * ticks == stamps as real * ticks + ticks;
  }

  lemma FloorPlus(n: int, x: real)
    ensures (n as real + x).Floor == n + x.Floor
  {
  }

  /** The driver's host times are those of an ideal clock that runs from the anchor at `ticks` host ticks a
      period, rounded down to a tick, and it is due to move on when its next period begins. */
  lemma OwnClockIsIdeal(anchor: UInt64, stamps: UInt64, ticks: real)
    requires NoWrap(anchor, stamps, ticks)
    ensures PeriodStart(anchor, 0, ticks) == anchor
    ensures var ideal := anchor as real + stamps as real * ticks;
            ideal - 1.0 < PeriodStart(anchor, stamps, ticks) as real <= ideal
    ensures DueAfter(anchor, stamps, ticks) == PeriodStart(anchor, stamps + 1, ticks)
  {
    LaterPeriod(stamps, ticks);
    FloorPlus(anchor, (stamps + 1) as real * ticks);
    var start, next := (anchor as real + stamps as real * ticks).Floor, anchor + ((stamps + 1) as real * ticks).Floor;
    DivModUnique(start, TWO64, 0, start);
    DivModUnique(next, TWO64, 0, next);
    DivModUnique(anchor, TWO64, 0, anchor);
  }

  /** What a call that finds `before` stamps reports: the ideal clock's time in whole ticks, and never the
      start of a period that has not begun, if it has just moved on to it. */
  lemma OwnStampIsIdeal(anchor: UInt64, before: UInt64, stamps: UInt64, later: UInt64, ticks: real)
    requires stamps == if DueAfter(anchor, before, ticks) <= later then Wrap64(before + 1) else before
    requires NoWrap(anchor, stamps, ticks)
    ensures ShowsIdealTime(PeriodStart(anchor, stamps, ticks), anchor, stamps, ticks)
    ensures stamps == before + 1 ==> PeriodStart(anchor, stamps, ticks) <= later
  {
    OwnClockIsIdeal(anchor, stamps, ticks);
    if stamps == before + 1 {
      LaterPeriod(stamps, ticks);
      OwnClockIsIdeal(anchor, before, ticks);
    }
  }

  predicate ShowsIdealTime(hostTime: UInt64, anchor: UInt64, stamps: UInt64, ticks: real) {
    hostTime as real <= anchor as real + stamps as real * ticks < hostTime as real + 1.0
  }

  /** The staleness threshold is five ring periods, rounded down to a tick. */
  lemma ThresholdIsFivePeriods(ticks: real)
    requires 0.0 <= ticks
    ensures 5.0 * ticks - 1.0 < StalenessThreshold(ticks) as real <= 5.0 * ticks
  {
  }

  class SA_Device {
    const shm: Region
    var startCount: UInt64
    var driverStatus: UInt64
    var ringBufferFrameSize: nat
    var hostTicksPerFrame: real
    var deviceIsAlive: bool
    var lastDaemonAlive: UInt64
    var lastDaemonAliveHostTime: UInt64
    var ringStamps: UInt64       // gDevice_NumberTimeStamps
    var anchorHostTime: UInt64   // gDevice_AnchorHostTime
    var notices: seq<bool>       // DeviceIsAlive values announced to the host

    ghost predicate Valid()
      reads this, shm
    {
      && shm.Valid()
      && (ringBufferFrameSize == 0 || ringBufferFrameSize == shm.ringFrames)
      && 0.0 <= hostTicksPerFrame
    }

    ghost function Life(): Lifecycle.State
      reads this, shm
    {
      Lifecycle.State(startCount, driverStatus, shm.driverStatus, Lifecycle.Free)
    }

    ghost function Watch(): Watchdog.Watch
      reads this
    {
      Watchdog.Watch(deviceIsAlive, lastDaemonAlive, lastDaemonAliveHostTime, notices)
    }

    /** The driver's own clock is left uninitialised, as its fields are in the source. */
    constructor (region: Region, ticksPerFrame: real)
      requires region.Valid() && 0.0 <= ticksPerFrame
      ensures Valid() && shm == region && ringBufferFrameSize == 0 && hostTicksPerFrame == ticksPerFrame
      ensures Life() == Lifecycle.State(0, STATUS_INIT, region.driverStatus, Lifecycle.Free)
      ensures Watch() == Watchdog.Watch(true, 0, 0, [])
    {
      shm := region;
      startCount, driverStatus, ringBufferFrameSize := 0, STATUS_INIT, 0;
      hostTicksPerFrame := ticksPerFrame;
      deviceIsAlive, lastDaemonAlive, lastDaemonAliveHostTime := true, 0, 0;
      ringStamps, anchorHostTime := *, *;
      notices := [];
    }

    method HwOpen()
      requires Valid()
      modifies this`driverStatus, this`ringBufferFrameSize, shm`seed, shm`syncMode, shm`driverStatus
      ensures Valid() && ringBufferFrameSize == shm.ringFrames
      ensures Life() == old(Life()).(driverStatus := STATUS_ACTIVE, shared := STATUS_ACTIVE)
      ensures Watch() == old(Watch())
      ensures shm.Words() == old(shm.Words()).(seed := 1, syncMode := 0, driverStatus := STATUS_ACTIVE)
    {
      shm.seed := 1;
      shm.syncMode := 0;
      driverStatus := STATUS_ACTIVE;
      shm.driverStatus := STATUS_ACTIVE;
      ringBufferFrameSize := shm.ringFrames;
    }

    method HwClose()
      requires Valid()
      modifies this`driverStatus
      ensures Life() == Lifecycle.Step(old(Life()), Lifecycle.Close)
    {
      driverStatus := STATUS_INIT;
    }

    method StartIO(now: UInt64) returns (outcome: Lifecycle.Outcome)
      requires Valid()
      modifies this`startCount, this`driverStatus, this`ringStamps, this`anchorHostTime, this`lastDaemonAlive,
               this`lastDaemonAliveHostTime, this`deviceIsAlive, shm`driverStatus
      ensures Valid()
      ensures ringStamps == if old(startCount) == 0 then 0 else old(ringStamps)
      ensures anchorHostTime == if old(startCount) == 0 && outcome == Lifecycle.Done then 0 else old(anchorHostTime)
      ensures (Life(), outcome) == Lifecycle.StartIO(old(Life()))
      ensures Watch() == if old(startCount) == 0 && outcome == Lifecycle.Done
                         then Watchdog.Rearmed(shm.daemonAlive, now, old(notices)) else old(Watch())
    {
      if startCount == TWO64 - 1 {
        return Lifecycle.CountMaxed;
      }
      if startCount == 0 {
        ringStamps := 0;
        var started := HwStartIO(now);
        if !started {
          return Lifecycle.NotRunning;
        }
      }
      startCount := startCount + 1;
      return Lifecycle.Done;
    }

    method HwStartIO(now: UInt64) returns (ok: bool)
      requires Valid()
      modifies this`driverStatus, this`anchorHostTime, this`lastDaemonAlive,
               this`lastDaemonAliveHostTime, this`deviceIsAlive, shm`driverStatus
      ensures ok <==> old(driverStatus) != STATUS_INIT
      ensures anchorHostTime == if ok then 0 else old(anchorHostTime)
      ensures ok ==> driverStatus == shm.driverStatus == STATUS_STARTED
                     && Watch() == Watchdog.Rearmed(shm.daemonAlive, now, notices)
      ensures !ok ==> driverStatus == old(driverStatus) && shm.driverStatus == old(shm.driverStatus)
                      && Watch() == old(Watch())
    {
      if driverStatus == STATUS_INIT {
        return false;
      }
      driverStatus := STATUS_STARTED;
      shm.driverStatus := STATUS_STARTED;
      anchorHostTime := 0;
      lastDaemonAlive := shm.daemonAlive;
      lastDaemonAliveHostTime := now;
      deviceIsAlive := true;
      return true;
    }

    method StopIO()
      requires Valid()
      modifies this`startCount, this`driverStatus, shm`driverStatus
      ensures Valid()
      ensures Life() == Lifecycle.StopIO(old(Life()))
    {
      if startCount == 1 {
        driverStatus := STATUS_ACTIVE;
        shm.driverStatus := STATUS_ACTIVE;
        startCount := 0;
      } else if startCount > 1 {
        startCount := startCount - 1;
      }
    }

    /** Host ticks per ring period. */
    function TicksPerRing(): real
      reads this`hostTicksPerFrame, this`ringBufferFrameSize
    {
      hostTicksPerFrame * (ringBufferFrameSize as real)
    }

    ghost predicate Armed()
      reads this`hostTicksPerFrame, this`ringBufferFrameSize
    {
      0 < ringBufferFrameSize && 0.0 < TicksPerRing()
    }

    /** The staleness threshold, five ring periods rounded down. */
    ghost function Threshold(): nat
      reads this`hostTicksPerFrame, this`ringBufferFrameSize
      requires 0.0 <= hostTicksPerFrame
    {
      StalenessThreshold(TicksPerRing())
    }

    /** When the driver's own clock is due to move on. */
    function NextHostTime(): UInt64
      reads this`anchorHostTime, this`ringStamps, this`hostTicksPerFrame, this`ringBufferFrameSize
    {
      DueAfter(anchorHostTime, ringStamps, TicksPerRing())
    }

    /** The host time of the driver's own latest ring period. */
    function OwnHostTime(): UInt64
      reads this`anchorHostTime, this`ringStamps, this`hostTicksPerFrame, this`ringBufferFrameSize
    {
      PeriodStart(anchorHostTime, ringStamps, TicksPerRing())
    }

    /** `now` is read first, `later` when the driver's own clock is advanced: by at most one period a
        call, and only into a period that has begun. */
    method GetZeroTimeStamp(now: UInt64, later: UInt64)
      returns (sampleTime: UInt64, hostTime: UInt64, seed: UInt64)
      requires Valid()
      modifies this`deviceIsAlive, this`lastDaemonAlive, this`lastDaemonAliveHostTime, this`notices,
               this`ringStamps, shm`numberTimeStamps, shm`zeroHostTime
      ensures Valid()
      ensures ringStamps == if old(NextHostTime()) <= later then Wrap64(old(ringStamps) + 1) else old(ringStamps)
      ensures Watch() == Watchdog.Poll(old(Watch()), now, shm.daemonAlive, old(Armed()), old(Threshold()))
      ensures Life() == old(Life())
      ensures seed == shm.seed
      ensures old(shm.syncMode) == 1 ==>
          && shm.Words() == old(shm.Words())
          && sampleTime == Wrap64(shm.numberTimeStamps * ringBufferFrameSize)
          && hostTime == shm.zeroHostTime
      ensures old(shm.syncMode) != 1 ==>
          && shm.Words() == old(shm.Words()).(numberTimeStamps := ringStamps, zeroHostTime := hostTime)
          && sampleTime == Wrap64(ringStamps * ringBufferFrameSize) && hostTime == OwnHostTime()
      ensures old(shm.syncMode) != 1 && NoWrap(anchorHostTime, ringStamps, TicksPerRing()) ==>
          && ShowsIdealTime(hostTime, anchorHostTime, ringStamps, TicksPerRing())
          && (ringStamps == old(ringStamps) + 1 ==> hostTime <= later)
    {
      ghost var before, anchor, ticks := ringStamps, anchorHostTime, TicksPerRing();
      UpdateLiveness(now);
      AdvanceOwnClock(later);
      sampleTime, hostTime := ReportZeroStamp();
      seed := shm.seed;
      if NoWrap(anchor, ringStamps, ticks) {
        OwnStampIsIdeal(anchor, before, ringStamps, later, ticks);
      }
    }

    method AdvanceOwnClock(later: UInt64)
      modifies this`ringStamps
      ensures ringStamps == if old(NextHostTime()) <= later then Wrap64(old(ringStamps) + 1) else old(ringStamps)
    {
      if NextHostTime() <= later {
        ringStamps := Wrap64(ringStamps + 1);
      }
    }

    /** The daemon's pair in sync mode; otherwise the driver's own, which it publishes. */
    method ReportZeroStamp() returns (sampleTime: UInt64, hostTime: UInt64)
      modifies shm`numberTimeStamps, shm`zeroHostTime
      ensures shm.syncMode == 1 ==>
          && shm.Words() == old(shm.Words())
          && sampleTime == Wrap64(shm.numberTimeStamps * ringBufferFrameSize) && hostTime == shm.zeroHostTime
      ensures shm.syncMode != 1 ==>
          && shm.Words() == old(shm.Words()).(numberTimeStamps := ringStamps, zeroHostTime := hostTime)
          && sampleTime == Wrap64(ringStamps * ringBufferFrameSize) && hostTime == OwnHostTime()
    {
      if shm.syncMode == 1 {
        sampleTime := Wrap64(shm.numberTimeStamps * ringBufferFrameSize);
        hostTime := shm.zeroHostTime;
      } else {
        sampleTime := Wrap64(ringStamps * ringBufferFrameSize);
        hostTime := OwnHostTime();
        shm.numberTimeStamps := ringStamps;
        shm.zeroHostTime := hostTime;
      }
    }

    /** The heartbeat check at the head of `GetZeroTimeStamp`. */
    method UpdateLiveness(now: UInt64)
      requires Valid()
      modifies this`deviceIsAlive, this`lastDaemonAlive, this`lastDaemonAliveHostTime, this`notices
      ensures Watch() == Watchdog.Poll(old(Watch()), now, shm.daemonAlive, Armed(), Threshold())
    {
      var curAlive := shm.daemonAlive;
      if curAlive != lastDaemonAlive {
        lastDaemonAlive := curAlive;
        lastDaemonAliveHostTime := now;
        if !deviceIsAlive {
          deviceIsAlive := true;
          notices := notices + [true];
        }
      } else if deviceIsAlive && ringBufferFrameSize > 0 && lastDaemonAliveHostTime != 0 && TicksPerRing() > 0.0 {
        var threshold := StalenessThreshold(TicksPerRing());
        if Wrap64(now - lastDaemonAliveHostTime) > threshold {
          deviceIsAlive := false;
          notices := notices + [false];
        }
      }
    }

    method ReadInputData(stream: nat, m: nat, t: UInt64, out: array<Sample>)
      requires Valid() && 0 < ringBufferFrameSize && stream < MAX_STREAMS
      requires m <= ringBufferFrameSize && 2 * m <= out.Length && out !in shm.Buffers()
      modifies out, shm`readFrameNumber
      ensures Valid()
      ensures out[..2 * m] == if deviceIsAlive then Loaded(shm.down[stream][..], 2 * t, 2 * m) else Silent(2 * m)
      ensures out[2 * m..] == old(out[2 * m..])
      ensures shm.readFrameNumber == old(shm.readFrameNumber)[stream := Wrap64(t + m)]
    {
      if !deviceIsAlive {
        ZeroSamples(out, 2 * m);
      } else {
        ReadWrapped(shm.down[stream], ringBufferFrameSize, t, m, out);
      }
      shm.readFrameNumber := shm.readFrameNumber[stream := Wrap64(t + m)];
    }

    method WriteOutputData(stream: nat, m: nat, t: UInt64, input: array<Sample>)
      requires Valid() && 0 < ringBufferFrameSize && stream < MAX_STREAMS
      requires m <= ringBufferFrameSize && 2 * m <= input.Length && input !in shm.Buffers()
      modifies shm.up[stream], shm`writeFrameNumber
      ensures Valid()
      ensures shm.up[stream][..] == Stored(old(shm.up[stream][..]), 2 * t, input[..2 * m])
      ensures shm.writeFrameNumber == old(shm.writeFrameNumber)[stream := Wrap64(t + m)]
    {
      WriteWrapped(shm.up[stream], ringBufferFrameSize, t, m, input);
      shm.writeFrameNumber := shm.writeFrameNumber[stream := Wrap64(t + m)];
    }
  }

  /** Where a copy of m frames at time t starts, and how many frames fit before the ring wraps. */
  method SplitCopy(t: UInt64, m: nat, r: nat) returns (start: nat, first: nat, second: nat)
    requires 0 < r && m <= r
    ensures start == t % r
    ensures first + second == m && start + first <= r
    ensures 0 < second ==> start + first == r && second <= start
  {
    start := t % r;
    first, second := m, 0;
    if start + first > r {
      first := r - start;
      second := m - first;
    }
  }

  /** The copying half of `ReadInputData`: at most two memcpys out of a ring of r frames. */
  method ReadWrapped(ring: array<Sample>, r: nat, t: UInt64, m: nat, out: array<Sample>)
    requires 0 < r && ring.Length == 2 * r && m <= r && 2 * m <= out.Length && out != ring
    modifies out
    ensures out[..2 * m] == Loaded(ring[..], 2 * t, 2 * m)
    ensures out[2 * m..] == old(out[2 * m..])
  {
    var start, first, second := SplitCopy(t, m, r);
    CopyTwoChunks(ring, start, first, second, out);
    TwoChunkLoad(ring[..], t, r, first, second);
    assert 2 * (first + second) == 2 * m;
    assert ring[..][2 * start..2 * start + 2 * first] == ring[2 * start..2 * start + 2 * first];
    assert ring[..][0..2 * second] == ring[0..2 * second];
  }

  method CopyTwoChunks(ring: array<Sample>, start: nat, first: nat, second: nat, out: array<Sample>)
    requires 2 * (start + first) <= ring.Length && 2 * second <= ring.Length
    requires 2 * (first + second) <= out.Length && out != ring
    modifies out
    ensures out[..2 * (first + second)] == ring[2 * start..2 * start + 2 * first] + ring[0..2 * second]
    ensures out[2 * (first + second)..] == old(out[2 * (first + second)..])
  {
    CopySamples(out, 0, ring, 2 * start, 2 * first);
    if second > 0 {
      CopySamples(out, 2 * first, ring, 0, 2 * second);
    }
  }

  /** The copying half of `WriteOutputData`: at most two memcpys into a ring of r frames. */
  method WriteWrapped(ring: array<Sample>, r: nat, t: UInt64, m: nat, input: array<Sample>)
    requires 0 < r && ring.Length == 2 * r && m <= r && 2 * m <= input.Length && input != ring
    modifies ring
    ensures ring[..] == Stored(old(ring[..]), 2 * t, input[..2 * m])
  {
    var start, first, second := SplitCopy(t, m, r);
    ghost var before, a, b := ring[..], input[0..2 * first], input[2 * first..2 * m];
    assert input[..2 * m] == a + b;
    TwoChunkStore(before, t, r, a, b);
    StoreTwoChunks(ring, start, first, second, input);
  }

  method StoreTwoChunks(ring: array<Sample>, start: nat, first: nat, second: nat, input: array<Sample>)
    requires 2 * (start + first) <= ring.Length && 2 * second <= ring.Length
    requires 2 * (first + second) <= input.Length && input != ring
    modifies ring
    ensures var once := Spliced(old(ring[..]), 2 * start, input[0..2 * first]);
            ring[..] == if second == 0 then once
                        else Spliced(once, 0, input[2 * first..2 * first + 2 * second])
  {
    SpliceSamples(ring, 2 * start, input, 0, 2 * first);
    if second > 0 {
      SpliceSamples(ring, 0, input, 2 * first, 2 * second);
    }
  }

  /** The two sample positions at which a wrapping copy of frames continues. */
  lemma FramePositions(t: nat, r: nat, first: nat, second: nat)
    requires 0 < r && t % r + first <= r && (0 < second ==> t % r + first == r)
    ensures (2 * t) % (2 * r) == 2 * (t % r)
    ensures 0 < second ==> (2 * t + 2 * first) % (2 * r) == 0
  {
    DivModUnique(2 * t, 2 * r, t / r, 2 * (t % r));
    if 0 < second {
      assert 2 * r * (t / r + 1) == 2 * r * (t / r) + 2 * r;
      DivModUnique(2 * t + 2 * first, 2 * r, t / r + 1, 0);
    }
  }

  /** The driver's two-chunk read is the sample-by-sample cyclic read. */
  lemma TwoChunkLoad(ring: seq<Sample>, t: nat, r: nat, first: nat, second: nat)
    requires 0 < r && |ring| == 2 * r && first + second <= r
    requires t % r + first <= r && (0 < second ==> t % r + first == r)
    ensures Loaded(ring, 2 * t, 2 * (first + second))
            == ring[2 * (t % r)..2 * (t % r) + 2 * first] + ring[0..2 * second]
  {
    FramePositions(t, r, first, second);
    LoadConcat(ring, 2 * t, 2 * first, 2 * second);
    LoadAtResidue(ring, 2 * t, 2 * first);
    LoadFlat(ring, 2 * (t % r), 2 * first);
    if 0 < second {
      LoadAtResidue(ring, 2 * t + 2 * first, 2 * second);
      LoadFlat(ring, 0, 2 * second);
    }
  }

  /** The driver's two-chunk write is the sample-by-sample cyclic write. */
  lemma TwoChunkStore(ring: seq<Sample>, t: nat, r: nat, a: seq<Sample>, b: seq<Sample>)
    requires 0 < r && |ring| == 2 * r && |a| % 2 == 0 && |b| % 2 == 0 && |a| + |b| <= 2 * r
    requires 2 * (t % r) + |a| <= 2 * r && (b != [] ==> 2 * (t % r) + |a| == 2 * r)
    ensures Stored(ring, 2 * t, a + b)
            == if b == [] then Spliced(ring, 2 * (t % r), a) else Spliced(Spliced(ring, 2 * (t % r), a), 0, b)
  {
    FramePositions(t, r, |a| / 2, |b| / 2);
    StoreConcat(ring, 2 * t, a, b);
    StoreAtResidue(ring, 2 * t, a);
    StoreFlat(ring, 2 * (t % r), a);
    var once := Stored(ring, 2 * t, a);
    if b == [] {
      assert a + b == a;
    } else {
      StoreAtResidue(once, 2 * t + |a|, b);
      StoreFlat(once, 0, b);
    }
  }
}
