/** daemon/JackBridge.cpp: the daemon object, updating its own cursor and the shared region. */
module DaemonProcess {
  import opened Arithmetic
  import opened Ring
  import opened Registers
  import opened RingProjector
  import opened SharedRegion
  import RingCopy

  class JackBridge {
    const shm: Region
    var frameNumber: UInt64
    var isActive: bool
    var lastDriverStatus: UInt64

    constructor (region: Region)
      requires region.Valid()
      modifies region`syncMode
      ensures shm == region && shm.Valid()
      ensures State() == Constructed(old(region.Words()))
    {
      shm := region;
      isActive, lastDriverStatus, frameNumber := false, STATUS_ACTIVE, 0;
      new;
      shm.syncMode := 0;
    }

    ghost function State(): Control
      reads this, shm
    {
      Control(shm.Words(), Daemon(frameNumber, isActive, lastDriverStatus))
    }

    /** Distinct JACK port buffers of at least n frames, none of them part of the shared region. */
    ghost predicate Ports(bufs: seq<array<Sample>>, count: nat, n: nat) {
      && |bufs| == count
      && (forall i | 0 <= i < count :: n <= bufs[i].Length && bufs[i] !in shm.Buffers())
      && (forall i, k | 0 <= i < k < count :: bufs[i] != bufs[k])
    }

    /** Buffers of at least the ring's bytes, all of which the idle path clears. */
    predicate Clearable(bufs: seq<array<Sample>>) {
      forall i | 0 <= i < |bufs| :: 2 * shm.ringFrames <= bufs[i].Length
    }

    /** The interleaved chunks held by stereo pairs of port buffers. */
    ghost function Blocks(bufs: seq<array<Sample>>, count: nat, n: nat): (s: seq<seq<Sample>>)
      requires |bufs| == 2 * count && forall i | 0 <= i < |bufs| :: n <= bufs[i].Length
      reads bufs
      ensures |s| == count && AllOfSize(s, 2 * n)
    {
      seq(count, j requires 0 <= j < count && |bufs| == 2 * count
                            && n <= bufs[2 * j].Length && n <= bufs[2 * j + 1].Length
                   reads bufs =>
        Interleaved(bufs[2 * j][..n], bufs[2 * j + 1][..n]))
    }

    /** Stream j's frame i is what port buffers 2j (left) and 2j + 1 (right) hold for it. */
    lemma FrameOfBlock(bufs: seq<array<Sample>>, count: nat, n: nat, j: nat, i: nat)
      requires |bufs| == 2 * count && forall k | 0 <= k < |bufs| :: n <= bufs[k].Length
      requires j < count && i < n
      ensures Blocks(bufs, count, n)[j][2 * i] == bufs[2 * j][i]
      ensures Blocks(bufs, count, n)[j][2 * i + 1] == bufs[2 * j + 1][i]
    {
      FrameOf(bufs[2 * j][..n], bufs[2 * j + 1][..n], i);
    }

    /** One stream's copy, as a cyclic write of its interleaved chunk. */
    method SendStream(ring: array<Sample>, offset: nat, inL: array<Sample>, inR: array<Sample>, n: nat)
      requires 0 < ring.Length && 2 * (offset + n) <= ring.Length
      requires n <= inL.Length && n <= inR.Length && ring != inL && ring != inR
      modifies ring
      ensures ring[..] == Stored(old(ring[..]), 2 * offset, Interleaved(inL[..n], inR[..n]))
    {
      RingCopy.RingWriteStereoInterleaved(ring, offset, inL, inR, n);
    }

    /** Copies one chunk of every input stream into its capture ring at the cursor. */
    method SendToCoreAudio(ins: seq<array<Sample>>, n: nat)
      requires shm.Valid() && Ports(ins, 2 * NUM_INPUT_STREAMS, n)
      requires Projector(shm.ringFrames, frameNumber).SendOffset() + n <= shm.ringFrames
      modifies set a | a in shm.down
      ensures shm.Down(NUM_INPUT_STREAMS)
              == StoredAll(old(shm.Down(NUM_INPUT_STREAMS)), 2 * Projector(shm.ringFrames, frameNumber).SendOffset(),
                           Blocks(ins, NUM_INPUT_STREAMS, n))
    {
      var offset := Projector(shm.ringFrames, frameNumber).SendOffset();
      for j := 0 to NUM_INPUT_STREAMS
        invariant forall k | 0 <= k < j ::
            shm.down[k][..] == Stored(old(shm.down[k][..]), 2 * offset,
                                      Interleaved(ins[2 * k][..n], ins[2 * k + 1][..n]))
        invariant forall k | j <= k < NUM_INPUT_STREAMS :: shm.down[k][..] == old(shm.down[k][..])
      {
        SendStream(shm.down[j], offset, ins[2 * j], ins[2 * j + 1], n);
      }
    }

    /** Takes the chunk before the cursor out of every playback ring, leaving silence. */
    method ReceiveFromCoreAudio(outs: seq<array<Sample>>, n: nat)
      requires shm.Valid() && Ports(outs, 2 * NUM_OUTPUT_STREAMS, n)
      requires Projector(shm.ringFrames, frameNumber).RecvOffset(n) + n <= shm.ringFrames
      modifies (set a | a in shm.up), set a | a in outs
      ensures var offset := 2 * Projector(shm.ringFrames, frameNumber).RecvOffset(n);
              && Blocks(outs, NUM_OUTPUT_STREAMS, n) == LoadedAll(old(shm.Up(NUM_OUTPUT_STREAMS)), offset, 2 * n)
              && shm.Up(NUM_OUTPUT_STREAMS)
                 == StoredAll(old(shm.Up(NUM_OUTPUT_STREAMS)), offset, SilentAll(NUM_OUTPUT_STREAMS, 2 * n))
      ensures forall j | NUM_OUTPUT_STREAMS <= j < MAX_STREAMS :: shm.up[j][..] == old(shm.up[j][..])
    {
      var offset := Projector(shm.ringFrames, frameNumber).RecvOffset(n);
      for j := 0 to NUM_OUTPUT_STREAMS
        invariant forall k | 0 <= k < j ::
            && Interleaved(outs[2 * k][..n], outs[2 * k + 1][..n]) == Loaded(old(shm.up[k][..]), 2 * offset, 2 * n)
            && shm.up[k][..] == Stored(old(shm.up[k][..]), 2 * offset, Silent(2 * n))
        invariant forall k | j <= k < MAX_STREAMS :: shm.up[k][..] == old(shm.up[k][..])
      {
        RingCopy.RingConsumeStereoInterleaved(shm.up[j], offset, outs[2 * j], outs[2 * j + 1], n);
      }
    }

    /** One JACK period. `anchorTime` and `stampTime` are the two host-clock readings. */
    method ProcessCallback(n: nat, ins: seq<array<Sample>>, outs: seq<array<Sample>>,
                           anchorTime: UInt64, stampTime: UInt64)
      requires shm.Valid()
      requires Ports(ins, 2 * NUM_INPUT_STREAMS, n) && Ports(outs, 2 * NUM_OUTPUT_STREAMS, n)
      requires forall i, k | 0 <= i < |ins| && 0 <= k < |outs| :: ins[i] != outs[k]
      requires var p := Projector(shm.ringFrames, CopyCursor(State().daemon));
               p.SendOffset() + n <= shm.ringFrames && p.RecvOffset(n) + n <= shm.ringFrames
      requires shm.driverStatus != STATUS_STARTED ==> Clearable(outs)
      modifies this, shm, shm.Buffers(), set a | a in outs
      ensures shm.Valid()
      ensures State() == Callback(old(State()), n, shm.ringFrames, anchorTime, stampTime)
      ensures old(shm.driverStatus) != STATUS_STARTED ==>
          && shm.Down(MAX_STREAMS) == old(shm.Down(MAX_STREAMS))
          && shm.Up(MAX_STREAMS) == old(shm.Up(MAX_STREAMS))
          && forall i | 0 <= i < |outs| ::
               2 * shm.ringFrames <= outs[i].Length && outs[i][..2 * shm.ringFrames] == Silent(2 * shm.ringFrames)
      ensures old(shm.driverStatus) == STATUS_STARTED ==>
          var p := Projector(shm.ringFrames, old(CopyCursor(State().daemon)));
          && shm.Down(NUM_INPUT_STREAMS)
             == StoredAll(old(shm.Down(NUM_INPUT_STREAMS)), 2 * p.SendOffset(),
                          old(Blocks(ins, NUM_INPUT_STREAMS, n)))
          && Blocks(outs, NUM_OUTPUT_STREAMS, n)
             == LoadedAll(old(shm.Up(NUM_OUTPUT_STREAMS)), 2 * p.RecvOffset(n), 2 * n)
          && shm.Up(NUM_OUTPUT_STREAMS)
             == StoredAll(old(shm.Up(NUM_OUTPUT_STREAMS)), 2 * p.RecvOffset(n), SilentAll(NUM_OUTPUT_STREAMS, 2 * n))
    {
      DetectRestart(anchorTime);
      if lastDriverStatus != STATUS_STARTED {
        // The driver is not working: hand JACK silence, a whole ring's worth of it.
        SilenceAll(outs, 2 * shm.ringFrames);
      } else {
        StartedCycle(n, ins, outs, stampTime);
      }
    }

    /** The rest of a callback that found the driver started. */
    method StartedCycle(n: nat, ins: seq<array<Sample>>, outs: seq<array<Sample>>, stampTime: UInt64)
      requires shm.Valid()
      requires Ports(ins, 2 * NUM_INPUT_STREAMS, n) && Ports(outs, 2 * NUM_OUTPUT_STREAMS, n)
      requires forall i, k | 0 <= i < |ins| && 0 <= k < |outs| :: ins[i] != outs[k]
      requires var p := Projector(shm.ringFrames, CopyCursor(State().daemon));
               p.SendOffset() + n <= shm.ringFrames && p.RecvOffset(n) + n <= shm.ringFrames
      modifies this`frameNumber, this`isActive,
               shm`syncMode, shm`zeroHostTime, shm`numberTimeStamps, shm`seed,
               shm.Buffers(), set a | a in outs
      ensures shm.Valid()
      ensures State() == Advanced(StampedAtBoundary(Activated(old(State())), shm.ringFrames, stampTime), n)
      ensures var p := Projector(shm.ringFrames, old(CopyCursor(State().daemon)));
          && shm.Down(NUM_INPUT_STREAMS)
             == StoredAll(old(shm.Down(NUM_INPUT_STREAMS)), 2 * p.SendOffset(),
                          old(Blocks(ins, NUM_INPUT_STREAMS, n)))
          && Blocks(outs, NUM_OUTPUT_STREAMS, n)
             == LoadedAll(old(shm.Up(NUM_OUTPUT_STREAMS)), 2 * p.RecvOffset(n), 2 * n)
          && shm.Up(NUM_OUTPUT_STREAMS)
             == StoredAll(old(shm.Up(NUM_OUTPUT_STREAMS)), 2 * p.RecvOffset(n), SilentAll(NUM_OUTPUT_STREAMS, 2 * n))
    {
      StampClock(stampTime);
      Transfer(n, ins, outs);
      frameNumber := Wrap64(frameNumber + n);
    }

    /** Both copies of a started callback, at the current cursor. */
    method Transfer(n: nat, ins: seq<array<Sample>>, outs: seq<array<Sample>>)
      requires shm.Valid()
      requires Ports(ins, 2 * NUM_INPUT_STREAMS, n) && Ports(outs, 2 * NUM_OUTPUT_STREAMS, n)
      requires forall i, k | 0 <= i < |ins| && 0 <= k < |outs| :: ins[i] != outs[k]
      requires var p := Projector(shm.ringFrames, frameNumber);
               p.SendOffset() + n <= shm.ringFrames && p.RecvOffset(n) + n <= shm.ringFrames
      modifies shm.Buffers(), set a | a in outs
      ensures var p := Projector(shm.ringFrames, frameNumber);
          && shm.Down(NUM_INPUT_STREAMS)
             == StoredAll(old(shm.Down(NUM_INPUT_STREAMS)), 2 * p.SendOffset(),
                          old(Blocks(ins, NUM_INPUT_STREAMS, n)))
          && Blocks(outs, NUM_OUTPUT_STREAMS, n)
             == LoadedAll(old(shm.Up(NUM_OUTPUT_STREAMS)), 2 * p.RecvOffset(n), 2 * n)
          && shm.Up(NUM_OUTPUT_STREAMS)
             == StoredAll(old(shm.Up(NUM_OUTPUT_STREAMS)), 2 * p.RecvOffset(n), SilentAll(NUM_OUTPUT_STREAMS, 2 * n))
    {
      SendToCoreAudio(ins, n);
      ReceiveFromCoreAudio(outs, n);
    }

    /** Bumps the heartbeat, re-anchors after a driver restart and remembers the status seen. */
    method DetectRestart(anchorTime: UInt64)
      requires 0 < shm.ringFrames
      modifies this`lastDriverStatus, shm`daemonAlive, shm`zeroHostTime, shm`numberTimeStamps, shm`seed
      ensures State() == Observed(Heartbeat(old(State())), shm.ringFrames, anchorTime)
    {
      shm.daemonAlive := Wrap64(shm.daemonAlive + 1);
      var currentStatus := shm.driverStatus;
      if currentStatus == STATUS_STARTED && lastDriverStatus != STATUS_STARTED {
        shm.zeroHostTime := anchorTime;
        shm.numberTimeStamps := frameNumber / shm.ringFrames;
        shm.seed := Wrap64(shm.seed + 1);
      }
      lastDriverStatus := currentStatus;
    }

    /** Activates on the first started callback and stamps the clock at ring boundaries. */
    method StampClock(stampTime: UInt64)
      requires 0 < shm.ringFrames
      modifies this`frameNumber, this`isActive,
               shm`syncMode, shm`zeroHostTime, shm`numberTimeStamps, shm`seed
      ensures State() == StampedAtBoundary(Activated(old(State())), shm.ringFrames, stampTime)
      ensures frameNumber == old(CopyCursor(State().daemon))
    {
      if !isActive {
        frameNumber := 0;
        shm.syncMode := 1;
        shm.numberTimeStamps := 0;
        shm.seed := Wrap64(shm.seed + 1);
        isActive := true;
      }
      if frameNumber % shm.ringFrames == 0 {
        shm.zeroHostTime := stampTime;
        shm.numberTimeStamps := frameNumber / shm.ringFrames;
      }
    }

    /** The first n samples of every buffer. */
    method SilenceAll(outs: seq<array<Sample>>, n: nat)
      requires forall i | 0 <= i < |outs| :: n <= outs[i].Length
      requires forall i, k | 0 <= i < k < |outs| :: outs[i] != outs[k]
      modifies set a | a in outs
      ensures forall i | 0 <= i < |outs| :: outs[i][..n] == Silent(n)
    {
      for i := 0 to |outs|
        invariant forall k | 0 <= k < i :: outs[k][..n] == Silent(n)
      {
        RingCopy.ZeroSamples(outs[i], n);
      }
    }

    /** jackd went away: zero the heartbeat and drop the driver status. */
    method OnShutdown()
      modifies shm
      ensures State() == old(State()).(shm := old(shm.Words()).(daemonAlive := 0, driverStatus := STATUS_INIT))
      ensures shm.readFrameNumber == old(shm.readFrameNumber) && shm.writeFrameNumber == old(shm.writeFrameNumber)
    {
      shm.daemonAlive := 0;
      shm.driverStatus := STATUS_INIT;
    }
  }
}
