/** The bridge's whole-callback writes of the capture rings are a run of the sample-by-sample capture
    ring, so a driver read may be interleaved with them sample by sample. */
module CaptureRefinement {
  import opened Ring
  import opened Registers
  import opened RingProjector
  import opened Bridge
  import Capture

  /** Input stream j as a capture ring, with a read of `want` samples from `at` about to begin. */
  function CaptureOf(s: System, j: nat, at: nat, want: nat): Capture.State
    requires j < |s.down| && j < |s.sent|
  {
    Capture.State(s.down[j], s.sent[j], [], 0, at, want, [])
  }

  function Steps(s: System, a: Action, j: nat, n: nat): seq<Capture.Action>
    requires j < |s.down|
  {
    if a.Cycle? && WellFormed(s, a, n) && s.ctl.shm.driverStatus == STATUS_STARTED then Capture.CycleSteps(a.ins[j])
    else []
  }

  function RunSteps(s: System, acts: seq<Action>, j: nat, n: nat, r: nat): seq<Capture.Action>
    requires 0 < n <= r && Shaped(s, n, r) && j < |s.down|
  {
    if acts == [] then []
    else
      var last := |acts| - 1;
      DownKept(s, acts[..last], n, r);
      RunSteps(s, acts[..last], j, n, r) + Steps(Run(s, acts[..last], n, r), acts[last], j, n)
  }

  lemma {:induction false} DownKept(s: System, acts: seq<Action>, n: nat, r: nat)
    requires 0 < n <= r && Shaped(s, n, r)
    ensures |Run(s, acts, n, r).down| == |s.down|
  {
    if acts != [] {
      DownKept(s, acts[..|acts| - 1], n, r);
    }
  }

  lemma StepRefines(s: System, a: Action, j: nat, at: nat, want: nat, n: nat, r: nat)
    requires n <= r && Geometry(n, r) && CursorInv(s, n, r) && j < |s.down|
    ensures |Step(s, a, n, r).down| == |s.down|
    ensures CaptureOf(Step(s, a, n, r), j, at, want)
            == Capture.Run(CaptureOf(s, j, at, want), Steps(s, a, j, n), 2 * n)
  {
    if a.Cycle? && WellFormed(s, a, n) && s.ctl.shm.driverStatus == STATUS_STARTED {
      CopyPositions(s, n, r);
      StoreAtResidue(s.down[j], |s.sent[j]|, a.ins[j]);
      Capture.CycleIsSteps(CaptureOf(s, j, at, want), a.ins[j]);
    }
  }

  /** Every run of the whole bridge is, for each input stream, a run of the sample-level capture ring. */
  lemma {:induction false} RunRefines(s: System, acts: seq<Action>, j: nat, at: nat, want: nat, n: nat, r: nat)
    requires n <= r && Geometry(n, r) && CursorInv(s, n, r) && j < |s.down|
    ensures var t := Run(s, acts, n, r);
            && CursorInv(t, n, r) && |t.down| == |s.down|
            && CaptureOf(t, j, at, want)
               == Capture.Run(CaptureOf(s, j, at, want), RunSteps(s, acts, j, n, r), 2 * n)
  {
    if acts != [] {
      var last := |acts| - 1;
      RunRefines(s, acts[..last], j, at, want, n, r);
      var t := Run(s, acts[..last], n, r);
      StepKeepsCursor(t, acts[last], n, r);
      StepRefines(t, acts[last], j, at, want, n, r);
      Capture.RunConcat(CaptureOf(s, j, at, want), RunSteps(s, acts[..last], j, n, r),
                        Steps(t, acts[last], j, n), 2 * n);
    }
  }

  /** A read that begins after any run of the bridge, and from then on is interleaved sample by sample
      with the daemon's writes, returns exactly what JACK sent, as long as it is finished before the
      cursor comes within a ring less one chunk of its start. */
  lemma InterleavedReadIsExact(s: System, acts: seq<Action>, j: nat, t: nat, m: nat,
                               later: seq<Capture.Action>, n: nat, r: nat)
    requires n <= r && Geometry(n, r) && Initial(s, n, r) && j < |Run(s, acts, n, r).sent|
    requires t + m <= Total(Run(s, acts, n, r), n)
    requires var e := Capture.Run(CaptureOf(Run(s, acts, n, r), j, 2 * t, 2 * m), later, 2 * n);
             |e.got| == 2 * m && |e.sent| + 2 * n - 2 * r <= 2 * t
    ensures var c := Run(s, acts, n, r);
            && |c.sent[j]| == 2 * Total(c, n)
            && Capture.Run(CaptureOf(c, j, 2 * t, 2 * m), later, 2 * n).got == c.sent[j][2 * t..2 * (t + m)]
  {
    RunKeepsAudio(s, acts, n, r);
    var c := Run(s, acts, n, r);
    assert Capture.Inv(CaptureOf(c, j, 2 * t, 2 * m), 2 * r, 2 * n);
    Capture.ReadIsExact(CaptureOf(c, j, 2 * t, 2 * m), later, 2 * r, 2 * n);
  }
}
