/** The bridge's whole-callback consumption of the playback rings is a run of the sample-by-sample
    playback ring, so the exactly-once delivery proved there holds of every run of the bridge. */
module PlaybackRefinement {
  import opened Arithmetic
  import opened Ring
  import opened Registers
  import opened RingProjector
  import opened Bridge
  import Playback

  /** Output stream j as a playback ring; the first chunk consumed is the one before frame 0. */
  function PlaybackOf(s: System, j: nat, n: nat): Playback.State
    requires j < |s.up| && j < |s.played|
  {
    Playback.State(s.up[j], -2 * n, s.played[j], 0)
  }

  function Steps(s: System, a: Action, j: nat, n: nat): seq<Playback.Action> {
    if !WellFormed(s, a, n) then []
    else
      match a
      case Cycle(_, _, _) =>
        if s.ctl.shm.driverStatus == STATUS_STARTED then Playback.ConsumeSteps(n) else []
      case HalWrite(i, at, block) => if i == j then Playback.StoreSteps(2 * at, block) else []
      case _ => []
  }

  function RunSteps(s: System, acts: seq<Action>, j: nat, n: nat, r: nat): seq<Playback.Action>
    requires 0 < n <= r && Shaped(s, n, r)
  {
    if acts == [] then []
    else
      var last := |acts| - 1;
      RunSteps(s, acts[..last], j, n, r) + Steps(Run(s, acts[..last], n, r), acts[last], j, n)
  }

  lemma StepRefines(s: System, a: Action, j: nat, n: nat, r: nat)
    requires n <= r && Geometry(n, r) && CursorInv(s, n, r) && j < |s.up|
    ensures |Step(s, a, n, r).up| == |s.up|
    ensures PlaybackOf(Step(s, a, n, r), j, n) == Playback.Run(PlaybackOf(s, j, n), Steps(s, a, j, n))
  {
    var p := PlaybackOf(s, j, n);
    if WellFormed(s, a, n) {
      if a.Cycle? && s.ctl.shm.driverStatus == STATUS_STARTED {
        CopyPositions(s, n, r);
        assert p.Next() == 2 * (Total(s, n) - n);
        StoreAtResidue(s.up[j], p.Next(), Silent(2 * n));
        LoadAtResidue(s.up[j], p.Next(), 2 * n);
        Playback.ConsumeIsSteps(p, n);
      } else if a.HalWrite? && a.stream == j {
        Playback.StoreIsSteps(p, 2 * a.at, a.block);
      }
    }
  }

  lemma {:induction false} RunRefines(s: System, acts: seq<Action>, j: nat, n: nat, r: nat)
    requires n <= r && Geometry(n, r) && CursorInv(s, n, r) && j < |s.up|
    ensures var t := Run(s, acts, n, r);
            && CursorInv(t, n, r) && |t.up| == |s.up|
            && PlaybackOf(t, j, n) == Playback.Run(PlaybackOf(s, j, n), RunSteps(s, acts, j, n, r))
  {
    if acts != [] {
      var last := |acts| - 1;
      RunRefines(s, acts[..last], j, n, r);
      var t := Run(s, acts[..last], n, r);
      StepKeepsCursor(t, acts[last], n, r);
      StepRefines(t, acts[last], j, n, r);
      Playback.RunConcat(PlaybackOf(s, j, n), RunSteps(s, acts[..last], j, n, r), Steps(t, acts[last], j, n));
    }
  }

  /** `a` does not write cell c of output stream j. */
  ghost predicate Spares(a: Action, j: nat, c: int, r: nat)
    requires 0 < r
  {
    a.HalWrite? && a.stream == j ==> Playback.Untouched(Playback.StoreSteps(2 * a.at, a.block), c, 2 * r)
  }

  lemma {:induction false} SparedRunUntouched(s: System, acts: seq<Action>, j: nat, c: int, n: nat, r: nat)
    requires 0 < n <= r && Shaped(s, n, r)
    requires forall k | 0 <= k < |acts| :: Spares(acts[k], j, c, r)
    ensures Playback.Untouched(RunSteps(s, acts, j, n, r), c, 2 * r)
  {
    if acts != [] {
      var last := |acts| - 1;
      SparedRunUntouched(s, acts[..last], j, c, n, r);
      ConsumeStoresNothing(n);
      UntouchedConcat(RunSteps(s, acts[..last], j, n, r), Steps(Run(s, acts[..last], n, r), acts[last], j, n),
                      c, 2 * r);
    }
  }

  lemma UntouchedConcat(a: seq<Playback.Action>, b: seq<Playback.Action>, c: int, size: nat)
    requires 0 < size && Playback.Untouched(a, c, size) && Playback.Untouched(b, c, size)
    ensures Playback.Untouched(a + b, c, size)
  {
  }

  lemma {:induction false} ConsumeStoresNothing(m: nat)
    ensures forall i | 0 <= i < 4 * m :: !Playback.ConsumeSteps(m)[i].HalStore?
  {
    if m != 0 {
      ConsumeStoresNothing(m - 1);
    }
  }

  /** The rest of a block that fits the ring never returns to the cell of its own sample i. */
  lemma RestOfBlockUntouched(at: nat, block: seq<Sample>, i: nat, size: nat)
    requires i < |block| <= size
    ensures Playback.Untouched(Playback.StoreSteps(at, block)[i + 1..], (at + i) % size, size)
  {
    var rest := Playback.StoreSteps(at, block)[i + 1..];
    forall k | 0 <= k < |rest| ensures rest[k].at % size != (at + i) % size {
      ModEqual(at + i + 1 + k, at + i, size);
      DivModUnique(k + 1, size, 0, k + 1);
    }
  }

  /** Exactly once. The driver writes a block at frame `at`; nothing later overwrites the cell of its
      sample i. Then, through any run, JACK receives that sample at its due position and receives
      silence from that cell at every other position; and it is due on time exactly when its frame is
      less than one ring ahead of the chunk the next callback will consume. */
  lemma PlaybackExactlyOnce(s: System, j: nat, at: nat, block: seq<Sample>, i: nat,
                            acts: seq<Action>, n: nat, r: nat)
    requires n <= r && Geometry(n, r) && CursorInv(s, n, r)
    requires j < |s.up| && i < |block| <= 2 * r
    requires forall k | 0 <= k < |acts| :: Spares(acts[k], j, (2 * at + i) % (2 * r), r)
    ensures var t := Run(Step(s, HalWrite(j, at, block), n, r), acts, n, r);
            var first := 2 * (Total(s, n) - n);
            var due := first + (2 * at + i - first) % (2 * r);
            && CursorInv(t, n, r) && |t.played| == |s.played|
            && s.played[j] <= t.played[j] && |t.played[j]| == 2 * Total(t, n)
            && (forall x | |s.played[j]| <= x < |t.played[j]| && (-2 * n + x) % (2 * r) == (2 * at + i) % (2 * r) ::
                  t.played[j][x] == if -2 * n + x == due then block[i] else SILENCE)
            && |s.played[j]| <= due + 2 * n
            && (due == 2 * at + i <==> Total(s, n) - n <= at + i / 2 < Total(s, n) - n + r)
  {
    var q, later := WriteIsStore(s, j, at, block, i, acts, n, r);
    var e := Playback.Run(Playback.Step(q, Playback.HalStore(2 * at + i, block[i])), later);
    assert e.out == Run(Step(s, HalWrite(j, at, block), n, r), acts, n, r).played[j];
    assert q.out == s.played[j] && |q.out| - 2 * n == 2 * (Total(s, n) - n);
    StoreIsHandedOut(q, 2 * at + i, block[i], later, n, r);
    FrameOfSample(Total(s, n) - n, at, i, r);
  }

  lemma FrameOfSample(first: int, at: nat, i: nat, r: nat)
    ensures 2 * first <= 2 * at + i < 2 * first + 2 * r <==> first <= at + i / 2 < first + r
  {
  }

  /** The playback ring's theorem for a store between callbacks, in terms of what JACK received. */
  lemma StoreIsHandedOut(q: Playback.State, x: int, v: Sample, later: seq<Playback.Action>, n: nat, r: nat)
    requires q.Valid() && q.unzeroed == 0 && q.base == -2 * n && |q.ring| == 2 * r
    requires Playback.Untouched(later, x % (2 * r), 2 * r)
    ensures var e := Playback.Run(Playback.Step(q, Playback.HalStore(x, v)), later);
            var first := |q.out| - 2 * n;
            var due := first + (x - first) % (2 * r);
            && q.out <= e.out
            && (forall k | |q.out| <= k < |e.out| && (-2 * n + k) % (2 * r) == x % (2 * r) ::
                  e.out[k] == if -2 * n + k == due then v else SILENCE)
            && (due == x <==> first <= x < first + 2 * r)
  {
    Playback.DeliveredExactlyOnce(q, x, v, later);
    Playback.DueIsOnTime(q, x);
    assert q.Next() == |q.out| - 2 * n;
    assert Playback.HandsOutOnce(q, x, v, Playback.Run(Playback.Step(q, Playback.HalStore(x, v)), later));
  }

  /** A block write and the run after it, seen from sample i: the playback ring `q` reached so far,
      the store of that sample, and then steps that spare its cell. */
  lemma WriteIsStore(s: System, j: nat, at: nat, block: seq<Sample>, i: nat,
                     acts: seq<Action>, n: nat, r: nat)
    returns (q: Playback.State, later: seq<Playback.Action>)
    requires n <= r && Geometry(n, r) && CursorInv(s, n, r)
    requires j < |s.up| && i < |block| <= 2 * r
    requires forall k | 0 <= k < |acts| :: Spares(acts[k], j, (2 * at + i) % (2 * r), r)
    ensures |q.ring| == 2 * r && q == PlaybackOf(s, j, n).(ring := q.ring)
    ensures Playback.Untouched(later, (2 * at + i) % (2 * r), 2 * r)
    ensures var t := Run(Step(s, HalWrite(j, at, block), n, r), acts, n, r);
            && CursorInv(t, n, r) && |t.up| == |s.up|
            && PlaybackOf(t, j, n)
               == Playback.Run(Playback.Step(q, Playback.HalStore(2 * at + i, block[i])), later)
  {
    var p, write := PlaybackOf(s, j, n), HalWrite(j, at, block);
    var u, stores := Step(s, write, n, r), Playback.StoreSteps(2 * at, block);
    var rest := RunSteps(u, acts, j, n, r);
    StepKeepsCursor(s, write, n, r);
    StepRefines(s, write, j, n, r);
    RunRefines(u, acts, j, n, r);
    SparedRunUntouched(u, acts, j, (2 * at + i) % (2 * r), n, r);
    RestOfBlockUntouched(2 * at, block, i, 2 * r);
    UntouchedConcat(stores[i + 1..], rest, (2 * at + i) % (2 * r), 2 * r);
    SplitAt(p, stores, i, rest);
    StoresOnlyChangeRing(p, stores[..i]);
    q, later := Playback.Run(p, stores[..i]), stores[i + 1..] + rest;
  }

  lemma SplitAt(p: Playback.State, stores: seq<Playback.Action>, i: nat, later: seq<Playback.Action>)
    requires 0 < |p.ring| && i < |stores|
    ensures Playback.Run(Playback.Run(p, stores), later)
            == Playback.Run(Playback.Step(Playback.Run(p, stores[..i]), stores[i]), stores[i + 1..] + later)
  {
    var head := stores[..i + 1];
    assert stores == head + stores[i + 1..];
    assert head[..i] == stores[..i];
    Playback.RunConcat(p, head, stores[i + 1..]);
    Playback.RunConcat(Playback.Run(p, head), stores[i + 1..], later);
  }

  lemma {:induction false} StoresOnlyChangeRing(p: Playback.State, stores: seq<Playback.Action>)
    requires 0 < |p.ring| && forall k | 0 <= k < |stores| :: stores[k].HalStore?
    ensures Playback.Run(p, stores) == p.(ring := Playback.Run(p, stores).ring)
  {
    if stores != [] {
      StoresOnlyChangeRing(p, stores[..|stores| - 1]);
    }
  }

  // A driver write interleaved sample by sample with the daemon.

  /** The stores in a schedule, in order. */
  function StoresOf(acts: seq<Playback.Action>): seq<Playback.Action> {
    if acts == [] then []
    else
      var last := acts[|acts| - 1];
      StoresOf(acts[..|acts| - 1]) + if last.HalStore? then [last] else []
  }

  lemma {:induction false} StoresOfConcat(a: seq<Playback.Action>, b: seq<Playback.Action>)
    ensures StoresOf(a + b) == StoresOf(a) + StoresOf(b)
  {
    if b == [] {
      assert a + b == a;
    } else {
      assert (a + b)[..|a + b| - 1] == a + b[..|b| - 1];
      StoresOfConcat(a, b[..|b| - 1]);
    }
  }

  lemma {:induction false} StoresTouch(acts: seq<Playback.Action>, c: int, size: nat)
    requires 0 < size
    ensures Playback.Untouched(StoresOf(acts), c, size) ==> Playback.Untouched(acts, c, size)
  {
    if acts != [] {
      var front, last := acts[..|acts| - 1], acts[|acts| - 1];
      StoresTouch(front, c, size);
      if Playback.Untouched(StoresOf(acts), c, size) {
        assert forall k | 0 <= k < |StoresOf(front)| :: StoresOf(acts)[k] == StoresOf(front)[k];
        assert last.HalStore? ==> StoresOf(acts)[|StoresOf(front)|] == last;
      }
    }
  }

  lemma StoresAround(mixed: seq<Playback.Action>, k: nat)
    requires k < |mixed| && mixed[k].HalStore?
    ensures StoresOf(mixed) == StoresOf(mixed[..k]) + [mixed[k]] + StoresOf(mixed[k + 1..])
  {
    assert mixed == mixed[..k + 1] + mixed[k + 1..];
    assert mixed[..k + 1][..k] == mixed[..k];
    StoresOfConcat(mixed[..k + 1], mixed[k + 1..]);
  }

  /** Where in the stores of a block the one for its sample i is. */
  lemma StoreOfSample(at: nat, block: seq<Sample>, i: nat, before: seq<Playback.Action>, a: Playback.Action,
                      after: seq<Playback.Action>)
    requires before + [a] + after == Playback.StoreSteps(at, block) && i < |block|
    requires a.HalStore? && a.at == at + i
    ensures a.v == block[i] && after == Playback.StoreSteps(at, block)[i + 1..]
  {
    var stores := before + [a] + after;
    assert stores[|before|] == a && stores[|before| + 1..] == after;
    assert Playback.StoreSteps(at, block)[|before|] == Playback.HalStore(at + |before|, block[|before|]);
  }

  /** A block that fits the ring, stored in between other steps: after sample i nothing returns to its cell. */
  lemma RestOfWriteUntouched(at: nat, block: seq<Sample>, i: nat, mixed: seq<Playback.Action>, k: nat, size: nat)
    requires i < |block| <= size && k < |mixed| && StoresOf(mixed) == Playback.StoreSteps(at, block)
    requires mixed[k].HalStore? && mixed[k].at == at + i
    ensures mixed[k].v == block[i] && Playback.Untouched(mixed[k + 1..], (at + i) % size, size)
  {
    StoresAround(mixed, k);
    StoreOfSample(at, block, i, StoresOf(mixed[..k]), mixed[k], StoresOf(mixed[k + 1..]));
    RestOfBlockUntouched(at, block, i, size);
    StoresTouch(mixed[k + 1..], (at + i) % size, size);
  }

  /** Step k of a schedule stores v for position x. With q the ring there and e the ring at the end: v is
      handed out at its due position and silence from its cell at every other; and once the daemon has
      passed x, v came at x if it was stored within a ring of the daemon and outside the gap between the
      read and the zeroing of its cell, and in that gap it did not. */
  ghost predicate StoreOutcome(q: Playback.State, x: int, v: Sample, e: Playback.State)
    requires q.Valid()
  {
    && q.base == e.base && q.out <= e.out
    && (forall y | |q.out| <= y < |e.out| && (q.base + y) % |q.ring| == x % |q.ring| ::
          e.out[y] == if q.base + y == Playback.Due(q, x) then v else SILENCE)
    && (q.Next() <= x < q.Next() + |q.ring| && x < e.Next() ==>
          && (|q.out| <= x - q.base < |e.out| <==> !Playback.Lost(q, x))
          && (!Playback.Lost(q, x) ==> e.out[x - q.base] == v))
  }

  lemma StoreAmongSteps(p: Playback.State, mixed: seq<Playback.Action>, k: nat)
    requires p.Valid() && k < |mixed| && mixed[k].HalStore?
    requires Playback.Untouched(mixed[k + 1..], mixed[k].at % |p.ring|, |p.ring|)
    ensures var q := Playback.Run(p, mixed[..k]);
            && q.Valid() && q.base == p.base && p.out <= q.out
            && StoreOutcome(q, mixed[k].at, mixed[k].v, Playback.Run(p, mixed))
  {
    var q, x, v, later := Playback.Run(p, mixed[..k]), mixed[k].at, mixed[k].v, mixed[k + 1..];
    SplitAt(p, mixed, k, []);
    assert later + [] == later;
    Playback.RunStaysValid(p, mixed[..k]);
    Playback.DeliveredExactlyOnce(q, x, v, later);
    if q.Next() <= x < q.Next() + |q.ring| && x < Playback.Run(p, mixed).Next() {
      Playback.DeliveredOnTime(q, x, v, later);
    }
  }

  /** A driver write that begins after any run of the bridge and is interleaved, sample by sample, with
      the daemon's reads and zeroings: each of its samples is handed to JACK exactly once, and at its own
      position exactly outside the read-to-zero gap. */
  lemma InterleavedWriteIsExact(s: System, acts: seq<Action>, j: nat, at: nat, block: seq<Sample>, i: nat,
                                mixed: seq<Playback.Action>, k: nat, n: nat, r: nat)
    requires n <= r && Geometry(n, r) && Initial(s, n, r)
    requires j < |Run(s, acts, n, r).up| && j < |Run(s, acts, n, r).played| && i < |block| <= 2 * r
    requires StoresOf(mixed) == Playback.StoreSteps(2 * at, block)
    requires k < |mixed| && mixed[k].HalStore? && mixed[k].at == 2 * at + i
    ensures var c := Run(s, acts, n, r);
            && |c.played[j]| == 2 * Total(c, n) && |c.up[j]| == 2 * r
            && var q := Playback.Run(PlaybackOf(c, j, n), mixed[..k]);
               && q.Valid() && q.base == -2 * n && c.played[j] <= q.out
               && StoreOutcome(q, 2 * at + i, block[i], Playback.Run(PlaybackOf(c, j, n), mixed))
  {
    RunKeepsAudio(s, acts, n, r);
    RestOfWriteUntouched(2 * at, block, i, mixed, k, 2 * r);
    StoreAmongSteps(PlaybackOf(Run(s, acts, n, r), j, n), mixed, k);
  }
}
