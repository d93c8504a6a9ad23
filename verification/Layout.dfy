/** shared/JackBridge.h: where things are in the shared region, in bytes from its start, and the ring
    geometry that follows. The object model gives every ring an array of its own; this is why it may. */
module Layout {
  import opened Arithmetic
  import opened Registers

  const FIRST_REGISTER: nat := 0x100
  const LAST_REGISTER: nat := 0x170
  const WORD_BYTES: nat := 8

  /** A word register, a stream's two head registers, and its two rings. */
  datatype Area =
    | Word(offset: nat)
    | ReadHead(stream: nat)
    | WriteHead(stream: nat)
    | UpRing(stream: nat)
    | DownRing(stream: nat)
  {
    function At(): nat {
      match this
      case Word(offset) => offset
      case ReadHead(i) => 0x180 + i * 0x10
      case WriteHead(i) => 0x188 + i * 0x10
      case UpRing(i) => 0x10000 * i + 0x10000
      case DownRing(i) => 0x10000 * i + 0x18000
    }

    function Bytes(): nat {
      if UpRing? || DownRing? then STREAM_BYTES else WORD_BYTES
    }

    /** What a region for this many streams contains. */
    predicate In(streams: nat) {
      match this
      case Word(offset) => FIRST_REGISTER <= offset <= LAST_REGISTER && offset % WORD_BYTES == 0
      case ReadHead(i) => i < streams
      case WriteHead(i) => i < streams
      case UpRing(i) => i < streams
      case DownRing(i) => i < streams
    }
  }

  function RegionBytes(streams: nat): nat {
    0x10000 * streams + 0x10000
  }

  predicate Disjoint(a: Area, b: Area) {
    a.At() + a.Bytes() <= b.At() || b.At() + b.Bytes() <= a.At()
  }

  /** Nothing in the region overlaps anything else in it, and it all fits, exactly as long as the head
      registers stop short of the first ring. */
  lemma AreasAreDisjoint(streams: nat)
    ensures (forall a: Area, b: Area | a.In(streams) && b.In(streams) && a != b :: Disjoint(a, b))
            <==> 0x180 + streams * 0x10 <= 0x10000
    ensures forall a: Area | a.In(streams) && (a.UpRing? || a.DownRing?) :: a.At() + a.Bytes() <= RegionBytes(streams)
  {
    if 0x180 + streams * 0x10 > 0x10000 {
      var last := (0x10000 - 0x180) / 0x10;
      assert ReadHead(last).In(streams) && UpRing(0).In(streams);
      assert !Disjoint(ReadHead(last), UpRing(0));
    }
  }

  /** The streams' head registers and rings lie end to end: a stream's two heads and then the next stream's,
      and after them the ring to the daemon, the ring to the driver, and then the next stream's, up to the
      end of the region. */
  lemma StreamsLieEndToEnd(i: nat)
    ensures ReadHead(0).At() == 0x180 && ReadHead(i).At() + WORD_BYTES == WriteHead(i).At()
    ensures WriteHead(i).At() + WORD_BYTES == ReadHead(i + 1).At()
    ensures UpRing(0).At() == RegionBytes(0) && UpRing(i).At() + STREAM_BYTES == DownRing(i).At()
    ensures DownRing(i).At() + STREAM_BYTES == UpRing(i + 1).At() == RegionBytes(i + 1)
  {
  }

  /** The ring as shipped: 4096 stereo frames, which every period dividing it may use. */
  lemma ShippedGeometry(n: nat)
    requires 0 < n && RING_FRAMES % n == 0
    ensures RING_FRAMES == 4096 && 2 * RING_FRAMES * SAMPLE_BYTES == STREAM_BYTES
    ensures Geometry(n, RING_FRAMES) && n <= RING_FRAMES
  {
    assert TWO64 == RING_FRAMES * (TWO64 / RING_FRAMES);
    if RING_FRAMES < n {
      DivModUnique(RING_FRAMES, n, 0, RING_FRAMES);
    }
  }
}
