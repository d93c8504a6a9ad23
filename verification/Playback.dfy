/** One playback ring at the granularity of single sample accesses. The daemon reads the two cells of a
    frame, then zeroes them; the HAL stores samples at any moment in between. */
module Playback {
  import opened Arithmetic
  import opened Ring

  const CHANNELS: nat := 2

  /** `out` is everything handed to JACK since absolute position `base`; the daemon has read the last
      `unzeroed` of these cells but not yet zeroed them. */
  datatype State = State(ring: seq<Sample>, base: int, out: seq<Sample>, unzeroed: nat) {
    /** The absolute position of the first cell the daemon has not finished with. */
    function Next(): int {
      base + |out| - unzeroed
    }

    ghost predicate Valid() {
      0 < |ring| && unzeroed <= |out| && unzeroed <= CHANNELS <= |ring|
    }
  }

  datatype Action = Read | Zero | HalStore(at: int, v: Sample)

  function Step(s: State, a: Action): State
    requires 0 < |s.ring|
  {
    match a
    case Read =>
      if s.unzeroed >= CHANNELS then s
      else s.(out := s.out + [s.ring[(s.base + |s.out|) % |s.ring|]], unzeroed := s.unzeroed + 1)
    case Zero =>
      if s.unzeroed == 0 then s
      else s.(ring := s.ring[s.Next() % |s.ring| := SILENCE], unzeroed := s.unzeroed - 1)
    case HalStore(at, v) => s.(ring := s.ring[at % |s.ring| := v])
  }

  function Run(s: State, acts: seq<Action>): (r: State)
    requires 0 < |s.ring|
    ensures |r.ring| == |s.ring|
  {
    if acts == [] then s else Step(Run(s, acts[..|acts| - 1]), acts[|acts| - 1])
  }

  /** No store of `acts` lands in cell `c` of a ring of `size` samples. */
  ghost predicate Untouched(acts: seq<Action>, c: int, size: nat)
    requires 0 < size
  {
    forall i | 0 <= i < |acts| && acts[i].HalStore? :: acts[i].at % size != c
  }

  /** When the sample now stored for position `at` will be consumed: the first position not before
      the daemon's that shares its cell. */
  function Due(s: State, at: int): int
    requires 0 < |s.ring|
  {
    s.Next() + (at - s.Next()) % |s.ring|
  }

  lemma DueIsOnTime(s: State, at: int)
    requires 0 < |s.ring|
    ensures Due(s, at) % |s.ring| == at % |s.ring|
    ensures Due(s, at) == at <==> s.Next() <= at < s.Next() + |s.ring|
  {
    var n := |s.ring|;
    var d := at - s.Next();
    assert Due(s, at) == at + n * (-(d / n));
    ModPlusMultiple(at, -(d / n), n);
    if 0 <= d < n {
      DivModUnique(d, n, 0, d);
    }
  }

  /** The sample was stored in the gap between the daemon's read and its zeroing of that cell. */
  predicate Lost(s: State, at: int)
    requires 0 < |s.ring|
  {
    exists k: nat | k < s.unzeroed :: ReadAgo(s, at, k)
  }

  predicate ReadAgo(s: State, at: int, k: nat)
    requires 0 < |s.ring|
  {
    at % |s.ring| == (s.Next() + k) % |s.ring|
  }

  lemma LostMeansAlreadyRead(s: State, at: int)
    requires s.Valid()
    ensures Lost(s, at) <==> Due(s, at) < s.base + |s.out|
  {
    var k := Due(s, at) - s.Next();
    DueIsOnTime(s, at);
    if Lost(s, at) {
      var i: nat :| i < s.unzeroed && ReadAgo(s, at, i);
      SamePositionWithinRing(s, at, s.Next() + i);
    } else if k < s.unzeroed {
      assert ReadAgo(s, at, k);
    }
  }

  /** Within one ring of the daemon's position, only the due position shares the cell. */
  lemma SamePositionWithinRing(s: State, at: int, x: int)
    requires 0 < |s.ring| && s.Next() <= x < s.Next() + |s.ring| && x % |s.ring| == at % |s.ring|
    ensures x == Due(s, at)
  {
    var d, n := Due(s, at), |s.ring|;
    DueIsOnTime(s, at);
    ModEqual(d, x, n);
    if x < d {
      DivModUnique(d - x, n, 0, d - x);
    } else {
      ModEqual(x, d, n);
      DivModUnique(x - d, n, 0, x - d);
    }
  }

  lemma {:induction false} RunStaysValid(s: State, acts: seq<Action>)
    requires s.Valid()
    ensures var t := Run(s, acts);
            t.Valid() && t.base == s.base && s.out <= t.out && s.Next() <= t.Next()
  {
    if acts != [] {
      RunStaysValid(s, acts[..|acts| - 1]);
    }
  }

  /** What later states `t` owe to the sample v stored for `at` in state `s`: it is handed out at its
      due position and nowhere else, and its cell holds it until then and silence afterwards. */
  ghost predicate HandsOutOnce(s: State, at: int, v: Sample, t: State)
    requires 0 < |s.ring|
  {
    && t.Valid() && t.base == s.base && s.out <= t.out && |t.ring| == |s.ring|
    && (forall i | |s.out| <= i < |t.out| && (s.base + i) % |s.ring| == at % |s.ring| ::
          t.out[i] == if s.base + i == Due(s, at) then v else SILENCE)
    && t.ring[at % |s.ring|] == (if t.Next() <= Due(s, at) then v else SILENCE)
    && s.Next() <= t.Next()
  }

  /** In every interleaving without a later store to the same cell, the sample is handed to JACK at
      its due position and nowhere else: every other consumption of that cell yields silence. */
  lemma {:induction false} DeliveredExactlyOnce(s: State, at: int, v: Sample, acts: seq<Action>)
    requires s.Valid() && Untouched(acts, at % |s.ring|, |s.ring|)
    ensures HandsOutOnce(s, at, v, Run(Step(s, HalStore(at, v)), acts))
  {
    if acts == [] {
      DueIsOnTime(s, at);
    } else {
      var last := |acts| - 1;
      DeliveredExactlyOnce(s, at, v, acts[..last]);
      StepHandsOutOnce(s, at, v, Run(Step(s, HalStore(at, v)), acts[..last]), acts[last]);
    }
  }

  lemma StepHandsOutOnce(s: State, at: int, v: Sample, t: State, a: Action)
    requires s.Valid() && HandsOutOnce(s, at, v, t)
    requires a.HalStore? ==> a.at % |s.ring| != at % |s.ring|
    ensures HandsOutOnce(s, at, v, Step(t, a))
  {
    match a
    case Read =>
      if t.unzeroed < CHANNELS {
        ReadHandsOut(s, at, v, t);
      }
    case Zero => ZeroHandsOut(s, at, v, t);
    case HalStore(x, u) => StoreElsewhereHandsOut(s, at, v, t, x, u);
  }

  lemma StoreElsewhereHandsOut(s: State, at: int, v: Sample, t: State, x: int, u: Sample)
    requires s.Valid() && HandsOutOnce(s, at, v, t) && x % |s.ring| != at % |s.ring|
    ensures HandsOutOnce(s, at, v, Step(t, HalStore(x, u)))
  {
  }

  lemma ZeroHandsOut(s: State, at: int, v: Sample, t: State)
    requires s.Valid() && HandsOutOnce(s, at, v, t)
    ensures HandsOutOnce(s, at, v, Step(t, Zero))
  {
    if t.unzeroed > 0 {
      var u := Step(t, Zero);
      assert u.out == t.out && u.Next() == t.Next() + 1;
      ZeroedCell(s, at, v, t);
    }
  }

  /** Zeroing the sample's cell happens at its due position or when it is already silent. */
  lemma ZeroedCell(s: State, at: int, v: Sample, t: State)
    requires s.Valid() && HandsOutOnce(s, at, v, t)
    ensures t.ring[t.Next() % |t.ring| := SILENCE][at % |s.ring|]
            == if t.Next() + 1 <= Due(s, at) then v else SILENCE
  {
    SameCellBeforeDue(s, at, t.Next());
    DueIsOnTime(s, at);
  }

  /** What a read of the sample's cell finds. */
  lemma ReadValue(s: State, at: int, v: Sample, t: State)
    requires s.Valid() && HandsOutOnce(s, at, v, t) && t.unzeroed < CHANNELS
    requires (t.base + |t.out|) % |s.ring| == at % |s.ring|
    ensures t.ring[at % |s.ring|] == if t.base + |t.out| == Due(s, at) then v else SILENCE
  {
    var n, d, x := |s.ring|, Due(s, at), t.base + |t.out|;
    DueIsOnTime(s, at);
    SameCellBeforeDue(s, at, x);
    if t.Next() <= d < x {
      ModEqual(x, d, n);
      DivModUnique(x - d, n, 0, x - d);
    }
  }

  lemma ReadHandsOut(s: State, at: int, v: Sample, t: State)
    requires s.Valid() && HandsOutOnce(s, at, v, t) && t.unzeroed < CHANNELS
    ensures HandsOutOnce(s, at, v, Step(t, Read))
  {
    var n, x := |s.ring|, t.base + |t.out|;
    var u := Step(t, Read);
    assert u.out == t.out + [t.ring[x % n]] && u.ring == t.ring && u.Next() == t.Next();
    if x % n == at % n {
      ReadValue(s, at, v, t);
    }
  }

  /** Between the daemon's position and the due position, only the latter shares the cell. */
  lemma SameCellBeforeDue(s: State, at: int, x: int)
    requires 0 < |s.ring|
    ensures s.Next() <= x <= Due(s, at) && x % |s.ring| == at % |s.ring| ==> x == Due(s, at)
  {
    DueIsOnTime(s, at);
    var d := Due(s, at);
    ModEqual(d, x, |s.ring|);
    if s.Next() <= x <= d && x % |s.ring| == at % |s.ring| {
      DivModUnique(d - x, |s.ring|, 0, d - x);
    }
  }

  /** A sample stored for a position in the safe window, outside the read-to-zero gap, reaches JACK
      exactly at that position once the daemon has passed it. */
  lemma DeliveredOnTime(s: State, at: int, v: Sample, acts: seq<Action>)
    requires s.Valid() && Untouched(acts, at % |s.ring|, |s.ring|)
    requires s.Next() <= at < s.Next() + |s.ring|
    requires at < Run(Step(s, HalStore(at, v)), acts).Next()
    ensures |s.out| <= at - s.base < |Run(Step(s, HalStore(at, v)), acts).out| <==> !Lost(s, at)
    ensures !Lost(s, at) ==> Run(Step(s, HalStore(at, v)), acts).out[at - s.base] == v
  {
    DueIsOnTime(s, at);
    LostMeansAlreadyRead(s, at);
    DeliveredExactlyOnce(s, at, v, acts);
  }

  /** A cell holding silence yields silence until the HAL stores into it. */
  lemma {:induction false} SilentUntilWritten(s: State, c: nat, acts: seq<Action>)
    requires s.Valid() && c < |s.ring| && s.ring[c] == SILENCE && Untouched(acts, c, |s.ring|)
    ensures var t := Run(s, acts);
            && t.Valid() && t.base == s.base && s.out <= t.out && t.ring[c] == SILENCE
            && forall i | |s.out| <= i < |t.out| && (s.base + i) % |s.ring| == c :: t.out[i] == SILENCE
  {
    if acts != [] {
      SilentUntilWritten(s, c, acts[..|acts| - 1]);
    }
  }

  const FRAME_STEPS: seq<Action> := [Read, Read] + [Zero, Zero]

  /** Consuming frames in turn, as the daemon's loop does: both channels are read, then both zeroed. */
  function ConsumeSteps(frames: nat): (r: seq<Action>)
    ensures |r| == 4 * frames
  {
    if frames == 0 then [] else ConsumeSteps(frames - 1) + FRAME_STEPS
  }

  /** m cells read and replaced by silence. */
  function Consumed(s: State, m: nat): State
    requires m <= |s.ring| && 0 < |s.ring|
  {
    s.(ring := Stored(s.ring, s.Next(), Silent(m)), out := s.out + Loaded(s.ring, s.Next(), m))
  }

  lemma {:induction false} ConsumeIsSteps(s: State, frames: nat)
    requires s.Valid() && 2 * frames <= |s.ring| && s.unzeroed == 0
    ensures Run(s, ConsumeSteps(frames)) == Consumed(s, 2 * frames)
  {
    if frames == 0 {
      assert Stored(s.ring, s.Next(), Silent(0)) == s.ring;
      assert s.out + Loaded(s.ring, s.Next(), 0) == s.out;
    } else {
      ConsumeIsSteps(s, frames - 1);
      RunConcat(s, ConsumeSteps(frames - 1), FRAME_STEPS);
      ConsumeOneMore(s, 2 * (frames - 1));
    }
  }

  lemma ConsumeOneMore(s: State, m: nat)
    requires s.Valid() && m + 2 <= |s.ring| && s.unzeroed == 0
    ensures Run(Consumed(s, m), FRAME_STEPS) == Consumed(s, m + 2)
  {
    var t := Consumed(s, m);
    ConsumeFrame(t);
    ConsumedFrame(s, m);
    assert t.Next() == s.Next() + m;
    assert Consumed(s, m + 2).out
           == t.out + [t.ring[t.Next() % |t.ring|], t.ring[(t.Next() + 1) % |t.ring|]];
  }

  function FrameRead(t: State): State
    requires 0 < |t.ring|
  {
    t.(out := t.out + [t.ring[t.Next() % |t.ring|], t.ring[(t.Next() + 1) % |t.ring|]], unzeroed := 2)
  }

  function FrameZeroed(t: State): State
    requires 0 < |t.ring|
  {
    t.(ring := t.ring[t.Next() % |t.ring| := SILENCE][(t.Next() + 1) % |t.ring| := SILENCE], unzeroed := 0)
  }

  lemma ReadFrame(t: State)
    requires t.Valid() && t.unzeroed == 0
    ensures Step(Step(t, Read), Read) == FrameRead(t)
  {
    var x := t.Next();
    var one := Step(t, Read);
    assert one.base + |one.out| == x + 1;
    assert one.out + [t.ring[(x + 1) % |t.ring|]] == t.out + [t.ring[x % |t.ring|], t.ring[(x + 1) % |t.ring|]];
  }

  lemma ZeroFrame(t: State)
    requires t.Valid() && t.unzeroed == 2
    ensures Step(Step(t, Zero), Zero) == FrameZeroed(t)
  {
    assert Step(t, Zero).Next() == t.Next() + 1;
  }

  /** The four accesses of one frame. */
  lemma ConsumeFrame(t: State)
    requires t.Valid() && t.unzeroed == 0
    ensures Run(t, FRAME_STEPS) == FrameZeroed(FrameRead(t)) && FrameRead(t).Next() == t.Next()
  {
    RunConcat(t, [Read, Read], [Zero, Zero]);
    RunTwo(t, Read, Read);
    ReadFrame(t);
    RunTwo(FrameRead(t), Zero, Zero);
    ZeroFrame(FrameRead(t));
  }

  lemma RunTwo(s: State, a: Action, b: Action)
    requires 0 < |s.ring|
    ensures Run(s, [a, b]) == Step(Step(s, a), b)
  {
    assert [a, b][..1] == [a] && [a][..0] == [];
    assert Run(s, [a]) == Step(s, a);
  }

  /** What m samples and then one more frame come to. */
  lemma ConsumedFrame(s: State, m: nat)
    requires s.Valid() && m + 2 <= |s.ring|
    ensures var ring, x := Stored(s.ring, s.Next(), Silent(m)), s.Next() + m;
            && ring[x % |ring|] == s.ring[x % |ring|] && ring[(x + 1) % |ring|] == s.ring[(x + 1) % |ring|]
            && ring[x % |ring| := SILENCE][(x + 1) % |ring| := SILENCE]
               == Stored(s.ring, s.Next(), Silent(m + 2))
    ensures Loaded(s.ring, s.Next(), m + 2)
            == Loaded(s.ring, s.Next(), m)
               + [s.ring[(s.Next() + m) % |s.ring|], s.ring[(s.Next() + m + 1) % |s.ring|]]
  {
    var ring, x := Stored(s.ring, s.Next(), Silent(m)), s.Next() + m;
    CellNotYetConsumed(s.ring, s.Next(), m, 0);
    CellNotYetConsumed(s.ring, s.Next(), m, 1);
    StoreSilence(s.ring, s.Next(), m);
    StoreSilence(s.ring, s.Next(), m + 1);
  }

  lemma StoreSilence(ring: seq<Sample>, at: int, m: nat)
    requires m < |ring|
    ensures Stored(ring, at, Silent(m))[(at + m) % |ring| := SILENCE] == Stored(ring, at, Silent(m + 1))
  {
    StoreOne(Stored(ring, at, Silent(m)), at + m, SILENCE);
    StoreConcat(ring, at, Silent(m), [SILENCE]);
    assert Silent(m) + [SILENCE] == Silent(m + 1);
  }

  lemma CellNotYetConsumed(ring: seq<Sample>, at: int, m: nat, k: nat)
    requires m + k < |ring|
    ensures Stored(ring, at, Silent(m))[(at + m + k) % |ring|] == ring[(at + m + k) % |ring|]
  {
    CellOffset((at + m + k) % |ring|, at, m + k, |ring|);
  }

  lemma {:induction false} RunConcat(s: State, a: seq<Action>, b: seq<Action>)
    requires 0 < |s.ring|
    ensures Run(s, a + b) == Run(Run(s, a), b)
  {
    if b == [] {
      assert a + b == a;
    } else {
      assert (a + b)[..|a + b| - 1] == a + b[..|b| - 1];
      RunConcat(s, a, b[..|b| - 1]);
    }
  }

  /** Storing a block sample by sample, as the driver's memcpy does. */
  function StoreSteps(at: int, block: seq<Sample>): (r: seq<Action>)
    ensures |r| == |block|
    ensures forall i | 0 <= i < |r| :: r[i] == HalStore(at + i, block[i])
  {
    seq(|block|, i requires 0 <= i < |block| => HalStore(at + i, block[i]))
  }

  lemma {:induction false} StoreIsSteps(s: State, at: int, block: seq<Sample>)
    requires 0 < |s.ring| && |block| <= |s.ring|
    ensures Run(s, StoreSteps(at, block)) == s.(ring := Stored(s.ring, at, block))
  {
    if block == [] {
      assert Stored(s.ring, at, []) == s.ring;
    } else {
      var n := |block| - 1;
      var front := block[..n];
      assert StoreSteps(at, block)[..n] == StoreSteps(at, front);
      StoreIsSteps(s, at, front);
      StoreOne(Stored(s.ring, at, front), at + n, block[n]);
      StoreConcat(s.ring, at, front, [block[n]]);
      assert front + [block[n]] == block;
    }
  }
}
