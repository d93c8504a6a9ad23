/** shared/JackBridge.h: the shared-memory region both processes attach, as one mutable object. */
module SharedRegion {
  import opened Arithmetic
  import opened Ring
  import opened Registers

  const NUM_INPUT_STREAMS: nat := 2
  const NUM_OUTPUT_STREAMS: nat := 1
  const MAX_STREAMS: nat := 2

  class Region {
    const ringFrames: nat
    const down: seq<array<Sample>>  // buf_down: daemon to driver
    const up: seq<array<Sample>>    // buf_up: driver to daemon

    var numberTimeStamps: UInt64
    var zeroHostTime: UInt64
    var seed: UInt64
    var syncMode: UInt64
    var driverStatus: UInt64
    var daemonAlive: UInt64
    var readFrameNumber: seq<UInt64>
    var writeFrameNumber: seq<UInt64>

    /** Attaches a region of rings of `frames` frames, with whatever contents the memory holds. */
    constructor (frames: nat)
      requires 0 < frames
      ensures Valid() && ringFrames == frames
      ensures fresh(this) && forall a | a in Buffers() :: fresh(a)
    {
      ringFrames := frames;
      var d0, d1 := new Sample[2 * frames], new Sample[2 * frames];
      var u0, u1 := new Sample[2 * frames], new Sample[2 * frames];
      down, up := [d0, d1], [u0, u1];
      readFrameNumber, writeFrameNumber := [0, 0], [0, 0];
    }

    /** The set of ring buffers, which occupy disjoint parts of the region. */
    ghost function Buffers(): set<array<Sample>> {
      (set a | a in down) + (set a | a in up)
    }

    ghost predicate Valid()
      reads this
    {
      && 0 < ringFrames
      && |down| == |up| == |readFrameNumber| == |writeFrameNumber| == MAX_STREAMS
      && (forall j | 0 <= j < MAX_STREAMS :: down[j].Length == up[j].Length == 2 * ringFrames)
      && down[0] != down[1] && up[0] != up[1]
      && (forall i, j | 0 <= i < MAX_STREAMS && 0 <= j < MAX_STREAMS :: down[i] != up[j])
    }

    /** Contents of the rings of the first `count` input (output) streams. */
    ghost function Down(count: nat): (s: seq<seq<Sample>>)
      requires Valid() && count <= MAX_STREAMS
      reads this, Buffers()
      ensures |s| == count && AllOfSize(s, 2 * ringFrames)
    {
      seq(count, j requires 0 <= j < count reads this, Buffers() => down[j][..])
    }

    ghost function Up(count: nat): (s: seq<seq<Sample>>)
      requires Valid() && count <= MAX_STREAMS
      reads this, Buffers()
      ensures |s| == count && AllOfSize(s, 2 * ringFrames)
    {
      seq(count, j requires 0 <= j < count reads this, Buffers() => up[j][..])
    }

    ghost function Words(): Shared
      reads this
    {
      Shared(numberTimeStamps, zeroHostTime, seed, syncMode, driverStatus, daemonAlive)
    }
  }
}
