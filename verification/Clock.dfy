/** The clock the daemon advertises, over runs of the bridge: alignment of the cursor, the zero
    timestamp that brackets it, its monotonicity, and the seed. */
module Clock {
  import opened Arithmetic
  import opened Registers
  import opened RingProjector
  import opened Bridge

  lemma CursorIsAligned(s: System, n: nat, r: nat)
    requires Geometry(n, r) && CursorInv(s, n, r)
    ensures s.ctl.daemon.frameNumber % n == 0
    ensures var p := Projector(r, s.ctl.daemon.frameNumber);
            p.SendOffset() + n <= r && p.RecvOffset(n) + n <= r
  {
    assert TWO64 % n == 0 by {
      assert TWO64 == r * (TWO64 / r) && r == n * (r / n);
      MulAssoc(n, r / n, TWO64 / r);
      DivModUnique(TWO64, n, (r / n) * (TWO64 / r), 0);
    }
    ModOfWrap(Total(s, n), n);
    DivModUnique(Total(s, n), n, s.started, 0);
    AlignedCopiesFit(Projector(r, s.ctl.daemon.frameNumber), n);
  }

  /** A bracketed cursor is either inside the current ring period or exactly at its end. */
  lemma BracketQuotient(frame: nat, stamp: nat, r: nat)
    requires 0 < r && stamp * r < frame <= (stamp + 1) * r
    ensures frame < (stamp + 1) * r ==> frame / r == stamp && frame % r != 0
    ensures frame == (stamp + 1) * r ==> frame / r == stamp + 1 && frame % r == 0
  {
    assert r * (stamp + 1) == (stamp + 1) * r && r * stamp == stamp * r;
    assert (stamp + 1) * r == stamp * r + r;
    if frame < (stamp + 1) * r {
      DivModUnique(frame, r, stamp, frame - r * stamp);
    } else {
      DivModUnique(frame, r, stamp + 1, 0);
    }
  }

  /** An aligned cursor strictly inside a period stays in it for one more chunk. */
  lemma AlignedStep(frame: nat, stamp: nat, n: nat, r: nat)
    requires 0 < n && 0 < r && r % n == 0 && frame % n == 0
    requires stamp * r <= frame < (stamp + 1) * r
    ensures stamp * r < frame + n <= (stamp + 1) * r
  {
    assert (stamp + 1) * r == stamp * r + r;
    DivModUnique(frame, r, stamp, frame - stamp * r);
    AlignedResidue(frame, r, n);
  }

  /** Where a started callback leaves the cursor, and the number it stores if it stores one: the cursor's
      period, which is a new one exactly when the cursor has reached the end of the latest. */
  lemma StartedCallbackStamp(c: Control, latest: nat, n: nat, r: nat, t0: UInt64, t1: UInt64)
    requires 0 < r && c.shm.driverStatus == STATUS_STARTED
    requires !c.daemon.isActive ==> c.daemon.frameNumber == 0
    requires c.daemon.isActive ==> latest * r < c.daemon.frameNumber <= (latest + 1) * r
    ensures var e := Callback(c, n, r, t0, t1);
            && (!Stamps(c, r) ==> e.shm.numberTimeStamps == c.shm.numberTimeStamps)
            && (Stamps(c, r) ==>
                  e.shm.numberTimeStamps
                  == if !c.daemon.isActive then 0
                     else if c.daemon.frameNumber == (latest + 1) * r then latest + 1 else latest)
            && (c.daemon.isActive && c.daemon.frameNumber == (latest + 1) * r ==> Stamps(c, r))
  {
    DivModUnique(0, r, 0, 0);
    if c.daemon.isActive {
      BracketQuotient(c.daemon.frameNumber, latest, r);
    }
  }

  lemma StartedCallbackSeed(c: Control, n: nat, r: nat, t0: UInt64, t1: UInt64)
    requires 0 < r && c.shm.driverStatus == STATUS_STARTED
    ensures Callback(c, n, r, t0, t1).shm.seed
            == Wrap64(c.shm.seed + (if Restarting(c) then 1 else 0) + (if c.daemon.isActive then 0 else 1))
  {
    DivModUnique(c.shm.seed, TWO64, 0, c.shm.seed);
    WrapPlus(c.shm.seed + 1, 1);
  }

  // What the daemon last stored: it brackets the cursor whatever the driver does.

  /** `number` names the ring period the cursor is in or at the end of. */
  predicate Brackets(number: nat, s: System, r: nat) {
    s.ctl.daemon.isActive ==> number * r < s.ctl.daemon.frameNumber <= (number + 1) * r
  }

  /** Only one number does. */
  lemma BracketIsUnique(p: nat, q: nat, s: System, r: nat)
    requires 0 < r && s.ctl.daemon.isActive && Brackets(p, s, r) && Brackets(q, s, r)
    ensures p == q
  {
    BracketQuotient(s.ctl.daemon.frameNumber, p, r);
    BracketQuotient(s.ctl.daemon.frameNumber, q, r);
  }

  ghost predicate ClockInv(s: System, r: nat) {
    Brackets(s.latest, s, r) && s.ctl.shm.seed == Wrap64(s.seedOrigin + s.anchors)
  }

  /** From s to t the daemon's stamps did not go back and it stayed active. */
  predicate Onward(s: System, t: System) {
    s.ctl.daemon.isActive ==> t.ctl.daemon.isActive && s.latest <= t.latest
  }

  lemma FrameAdvances(s: System, a: Action, n: nat, r: nat)
    requires n <= r && Geometry(n, r) && CursorInv(s, n, r)
    requires WellFormed(s, a, n) && a.Cycle? && s.ctl.shm.driverStatus == STATUS_STARTED
    requires Total(Step(s, a, n, r), n) < TWO64
    ensures Step(s, a, n, r).ctl.daemon.frameNumber == s.ctl.daemon.frameNumber + n
    ensures Step(s, a, n, r).ctl.daemon.isActive && (!s.ctl.daemon.isActive ==> s.ctl.daemon.frameNumber == 0)
  {
    TotalAdvances(s.started, n);
    DivModUnique(Total(s, n), TWO64, 0, Total(s, n));
    DivModUnique(Total(s, n) + n, TWO64, 0, Total(s, n) + n);
    StartedCallbackAdvances(s.ctl, n, r, a.anchorTime, a.stampTime);
  }

  lemma StartedCycleKeepsClock(s: System, a: Action, n: nat, r: nat)
    requires n <= r && Geometry(n, r) && CursorInv(s, n, r) && Brackets(s.latest, s, r)
    requires WellFormed(s, a, n) && a.Cycle? && s.ctl.shm.driverStatus == STATUS_STARTED
    requires Total(Step(s, a, n, r), n) < TWO64
    ensures Brackets(Step(s, a, n, r).latest, Step(s, a, n, r), r)
    ensures Onward(s, Step(s, a, n, r))
  {
    var f, k := s.ctl.daemon.frameNumber, s.latest;
    CursorIsAligned(s, n, r);
    FrameAdvances(s, a, n, r);
    StartedCallbackStamp(s.ctl, k, n, r, a.anchorTime, a.stampTime);
    if !s.ctl.daemon.isActive {
      AlignedStep(0, 0, n, r);
    } else if f == (k + 1) * r {
      assert (k + 1) * r == k * r + r && (k + 2) * r == (k + 1) * r + r;
      AlignedStep(f, k + 1, n, r);
    } else {
      AlignedStep(f, k, n, r);
    }
  }

  lemma StepKeepsClock(s: System, a: Action, n: nat, r: nat)
    requires n <= r && Geometry(n, r) && CursorInv(s, n, r) && ClockInv(s, r)
    requires Total(Step(s, a, n, r), n) < TWO64
    ensures ClockInv(Step(s, a, n, r), r) && Onward(s, Step(s, a, n, r))
  {
    DivModUnique(1, TWO64, 0, 1);
    if WellFormed(s, a, n) && a.Cycle? && s.ctl.shm.driverStatus == STATUS_STARTED {
      StartedCycleKeepsClock(s, a, n, r);
      StartedCallbackSeed(s.ctl, n, r, a.anchorTime, a.stampTime);
      WrapPlus(s.seedOrigin + s.anchors, 1);
      WrapPlus(s.seedOrigin + s.anchors, 2);
      DivModUnique(s.ctl.shm.seed, TWO64, 0, s.ctl.shm.seed);
    }
  }

  lemma StepNeverForgets(s: System, a: Action, n: nat, r: nat)
    requires 0 < n <= r && Shaped(s, n, r)
    ensures s.started <= Step(s, a, n, r).started
  {
  }

  /** Through any pattern of starts, stops, restarts, driver reloads and driver stamps, as long as the
      cursor fits 64 bits: the stamp the daemon stored last brackets the cursor and never goes back,
      and the seed counts the re-anchorings and activations since it was last reset. */
  lemma {:induction false} ClockOverRuns(s: System, acts: seq<Action>, n: nat, r: nat)
    requires n <= r && Geometry(n, r) && CursorInv(s, n, r) && ClockInv(s, r)
    requires Total(Run(s, acts, n, r), n) < TWO64
    ensures var t := Run(s, acts, n, r);
            CursorInv(t, n, r) && ClockInv(t, r) && Onward(s, t)
  {
    if acts != [] {
      var last := |acts| - 1;
      var t := Run(s, acts[..last], n, r);
      StepNeverForgets(t, acts[last], n, r);
      MulMonotone(n, t.started, Step(t, acts[last], n, r).started);
      ClockOverRuns(s, acts[..last], n, r);
      StepKeepsCursor(t, acts[last], n, r);
      StepKeepsClock(t, acts[last], n, r);
    }
  }

  // What the register shows: the daemon's number, unless a store of the driver's own lands on it.

  /** The advertised sample time, `numberTimeStamps` ring periods. */
  function SampleTime(s: System, r: nat): nat {
    s.ctl.shm.numberTimeStamps * r
  }

  /** An active daemon's number is in the register. */
  predicate Shown(s: System) {
    s.ctl.daemon.isActive ==> s.ctl.shm.numberTimeStamps == s.latest
  }

  /** The action puts another number than the daemon's into an active daemon's register. */
  predicate Overwrites(s: System, a: Action) {
    a.StoreNumber? && s.own.BothDue? && s.ctl.daemon.isActive && s.own.number != s.latest
  }

  predicate Undisturbed(s: System, acts: seq<Action>, n: nat, r: nat)
    requires 0 < n <= r && Shaped(s, n, r)
  {
    acts == []
    || (Undisturbed(s, acts[..|acts| - 1], n, r)
        && !Overwrites(Run(s, acts[..|acts| - 1], n, r), acts[|acts| - 1]))
  }

  lemma StepShows(s: System, a: Action, n: nat, r: nat)
    requires 0 < n <= r && Shaped(s, n, r) && Shown(s)
    ensures Shown(Step(s, a, n, r)) <==> !Overwrites(s, a)
  {
  }

  /** After every action of the run the advertised stamp brackets the cursor. */
  ghost predicate AlwaysBracketed(s: System, acts: seq<Action>, n: nat, r: nat)
    requires 0 < n <= r && Shaped(s, n, r)
  {
    forall k: nat | k <= |acts| :: BracketedAt(s, acts, k, n, r)
  }

  predicate BracketedAt(s: System, acts: seq<Action>, k: nat, n: nat, r: nat)
    requires 0 < n <= r && Shaped(s, n, r) && k <= |acts|
  {
    var t := Run(s, acts[..k], n, r);
    Brackets(t.ctl.shm.numberTimeStamps, t, r)
  }

  lemma AlwaysBracketedStep(s: System, acts: seq<Action>, n: nat, r: nat)
    requires 0 < n <= r && Shaped(s, n, r) && acts != []
    ensures AlwaysBracketed(s, acts, n, r)
            <==> AlwaysBracketed(s, acts[..|acts| - 1], n, r) && BracketedAt(s, acts, |acts|, n, r)
  {
    var front := acts[..|acts| - 1];
    forall k: nat | k <= |front| ensures BracketedAt(s, acts, k, n, r) <==> BracketedAt(s, front, k, n, r) {
      assert acts[..k] == front[..k];
    }
  }

  lemma ShownIffBracketed(s: System, r: nat)
    requires 0 < r && Brackets(s.latest, s, r)
    ensures Shown(s) <==> Brackets(s.ctl.shm.numberTimeStamps, s, r)
  {
    if s.ctl.daemon.isActive && Brackets(s.ctl.shm.numberTimeStamps, s, r) {
      BracketIsUnique(s.ctl.shm.numberTimeStamps, s.latest, s, r);
    }
  }

  lemma {:induction false} ShownUntilOverwritten(s: System, acts: seq<Action>, n: nat, r: nat)
    requires 0 < n <= r && Shaped(s, n, r) && Shown(s) && Undisturbed(s, acts, n, r)
    ensures Shown(Run(s, acts, n, r))
  {
    if acts != [] {
      ShownUntilOverwritten(s, acts[..|acts| - 1], n, r);
      StepShows(Run(s, acts[..|acts| - 1], n, r), acts[|acts| - 1], n, r);
    }
  }

  /** The last action of a run keeps the bracket exactly when it does not overwrite. */
  lemma LastBracket(s: System, acts: seq<Action>, n: nat, r: nat)
    requires 0 < n <= r && Shaped(s, n, r) && acts != [] && Shown(Run(s, acts[..|acts| - 1], n, r))
    requires Brackets(Run(s, acts, n, r).latest, Run(s, acts, n, r), r)
    ensures BracketedAt(s, acts, |acts|, n, r)
            <==> !Overwrites(Run(s, acts[..|acts| - 1], n, r), acts[|acts| - 1])
  {
    assert acts[..|acts|] == acts;
    StepShows(Run(s, acts[..|acts| - 1], n, r), acts[|acts| - 1], n, r);
    ShownIffBracketed(Run(s, acts, n, r), r);
  }

  /** The advertised stamp brackets the cursor throughout a run if and only if no store of the driver's
      own puts another number over an active daemon's. */
  lemma {:induction false} BracketHoldsExactly(s: System, acts: seq<Action>, n: nat, r: nat)
    requires n <= r && Geometry(n, r) && CursorInv(s, n, r) && ClockInv(s, r) && Shown(s)
    requires Total(Run(s, acts, n, r), n) < TWO64
    ensures AlwaysBracketed(s, acts, n, r) <==> Undisturbed(s, acts, n, r)
  {
    ClockOverRuns(s, acts, n, r);
    if acts == [] {
      assert acts[..0] == [];
      ShownIffBracketed(s, r);
    } else {
      var front := acts[..|acts| - 1];
      StepNeverForgets(Run(s, front, n, r), acts[|acts| - 1], n, r);
      MulMonotone(n, Run(s, front, n, r).started, Run(s, acts, n, r).started);
      BracketHoldsExactly(s, front, n, r);
      AlwaysBracketedStep(s, acts, n, r);
      if Undisturbed(s, front, n, r) {
        ShownUntilOverwritten(s, front, n, r);
        LastBracket(s, acts, n, r);
      }
    }
  }

  /** And then the advertised sample time never goes back. */
  lemma SampleTimeNeverGoesBack(s: System, acts: seq<Action>, n: nat, r: nat)
    requires n <= r && Geometry(n, r) && CursorInv(s, n, r) && ClockInv(s, r) && Shown(s)
    requires Total(Run(s, acts, n, r), n) < TWO64 && Undisturbed(s, acts, n, r) && s.ctl.daemon.isActive
    ensures SampleTime(s, r) <= SampleTime(Run(s, acts, n, r), r)
  {
    ClockOverRuns(s, acts, n, r);
    ShownUntilOverwritten(s, acts, n, r);
    MulMonotone(r, s.latest, Run(s, acts, n, r).latest);
  }

  /** With an active daemon, the advertised time goes back exactly when the driver's own store brings a
      smaller number, or a callback about to stamp finds a number larger than its cursor's period. */
  lemma SampleTimeDropsExactly(s: System, a: Action, n: nat, r: nat)
    requires 0 < n <= r && Shaped(s, n, r) && s.ctl.daemon.isActive
    ensures SampleTime(Step(s, a, n, r), r) < SampleTime(s, r)
            <==> || (a.StoreNumber? && s.own.BothDue? && s.own.number < s.ctl.shm.numberTimeStamps)
                 || (a.Cycle? && WellFormed(s, a, n) && Stamps(s.ctl, r)
                     && s.ctl.daemon.frameNumber / r < s.ctl.shm.numberTimeStamps)
  {
    TimesOrder(Step(s, a, n, r).ctl.shm.numberTimeStamps, s.ctl.shm.numberTimeStamps, r);
    NumberDropsExactly(s, a, n, r);
  }

  lemma TimesOrder(p: nat, q: nat, r: nat)
    requires 0 < r
    ensures p * r < q * r <==> p < q
  {
    if p < q {
      MulMonotone(r, p + 1, q);
    } else {
      MulMonotone(r, q, p);
    }
  }

  lemma NumberDropsExactly(s: System, a: Action, n: nat, r: nat)
    requires 0 < n <= r && Shaped(s, n, r) && s.ctl.daemon.isActive
    ensures Step(s, a, n, r).ctl.shm.numberTimeStamps < s.ctl.shm.numberTimeStamps
            <==> || (a.StoreNumber? && s.own.BothDue? && s.own.number < s.ctl.shm.numberTimeStamps)
                 || (a.Cycle? && WellFormed(s, a, n) && Stamps(s.ctl, r)
                     && s.ctl.daemon.frameNumber / r < s.ctl.shm.numberTimeStamps)
  {
  }

  // When that is so: no own store decided before activation lands after it, and no reload under an
  // active daemon.

  /** Sync mode is on for an active daemon and no own number is due. */
  predicate Synced(s: System) {
    s.ctl.daemon.isActive ==> s.ctl.shm.syncMode == 1 && !s.own.BothDue?
  }

  predicate Unsettling(s: System, a: Action, n: nat) {
    || (a.ClearSync? && s.ctl.daemon.isActive)
    || (a.Cycle? && WellFormed(s, a, n) && s.ctl.shm.driverStatus == STATUS_STARTED
        && !s.ctl.daemon.isActive && s.own.BothDue?)
  }

  predicate NeverUnsettled(s: System, acts: seq<Action>, n: nat, r: nat)
    requires 0 < n <= r && Shaped(s, n, r)
  {
    acts == []
    || (NeverUnsettled(s, acts[..|acts| - 1], n, r)
        && !Unsettling(Run(s, acts[..|acts| - 1], n, r), acts[|acts| - 1], n))
  }

  lemma {:induction false} SettledIsUndisturbed(s: System, acts: seq<Action>, n: nat, r: nat)
    requires 0 < n <= r && Shaped(s, n, r) && Synced(s) && NeverUnsettled(s, acts, n, r)
    ensures Undisturbed(s, acts, n, r) && Synced(Run(s, acts, n, r))
  {
    if acts != [] {
      SettledIsUndisturbed(s, acts[..|acts| - 1], n, r);
    }
  }

  /** From construction: alignment, fitting copies and the seed after any run; and the advertised
      bracket after any run in which no own store crosses the activation and the driver is not
      reloaded under the active daemon. */
  lemma ClockFromConstruction(s: System, acts: seq<Action>, n: nat, r: nat)
    requires n <= r && Geometry(n, r) && Initial(s, n, r)
    requires Total(Run(s, acts, n, r), n) < TWO64
    ensures var t := Run(s, acts, n, r);
            && t.ctl.daemon.frameNumber % n == 0
            && Projector(r, t.ctl.daemon.frameNumber).SendOffset() + n <= r
            && Projector(r, t.ctl.daemon.frameNumber).RecvOffset(n) + n <= r
            && (0 < t.started ==> t.latest * r < n * t.started <= (t.latest + 1) * r)
            && t.ctl.shm.seed == Wrap64(t.seedOrigin + t.anchors)
            && (NeverUnsettled(s, acts, n, r) && 0 < t.started ==>
                  t.ctl.shm.numberTimeStamps * r < n * t.started <= (t.ctl.shm.numberTimeStamps + 1) * r)
  {
    DivModUnique(s.ctl.shm.seed, TWO64, 0, s.ctl.shm.seed);
    ClockOverRuns(s, acts, n, r);
    var t := Run(s, acts, n, r);
    CursorIsAligned(t, n, r);
    DivModUnique(Total(t, n), TWO64, 0, Total(t, n));
    if NeverUnsettled(s, acts, n, r) {
      SettledIsUndisturbed(s, acts, n, r);
      ShownUntilOverwritten(s, acts, n, r);
    }
  }

  // The inputs on which the bracket and the order fail.

  lemma RunOfThree(s: System, a: Action, b: Action, c: Action, n: nat, r: nat)
    requires 0 < n <= r && Shaped(s, n, r)
    ensures Run(s, [a, b, c], n, r) == Step(Step(Step(s, a, n, r), b, n, r), c, n, r)
  {
    assert [a, b, c][..2] == [a, b] && [a, b][..1] == [a] && [a][..0] == [];
    assert Run(s, [a], n, r) == Step(s, a, n, r);
    assert Run(s, [a, b], n, r) == Step(Step(s, a, n, r), b, n, r);
  }

  /** A driver that saw SyncMode off with stamp 7 to offer, a whole activating callback, then the store:
      the register names period 7 while the cursor is in period 0. */
  lemma LateStoreBreaksTheBracket(s: System, host: UInt64, cycle: Action, n: nat, r: nat)
    requires n <= r && Geometry(n, r) && Initial(s, n, r) && s.ctl.shm.driverStatus == STATUS_STARTED
    requires s.own == NoStore && cycle.Cycle? && WellFormed(s, cycle, n)
    ensures var t := Run(s, [Decide(7, host), cycle, StoreNumber], n, r);
            && t.ctl.daemon.isActive && t.ctl.daemon.frameNumber == n && t.ctl.shm.numberTimeStamps == 7
            && !Brackets(t.ctl.shm.numberTimeStamps, t, r)
  {
    RunOfThree(s, Decide(7, host), cycle, StoreNumber, n, r);
    var decided := Step(s, Decide(7, host), n, r);
    StartedCallbackAdvances(decided.ctl, n, r, cycle.anchorTime, cycle.stampTime);
    DivModUnique(n, TWO64, 0, n);
  }

  /** And the next boundary stamp takes it back to 1. */
  lemma NextStampGoesBack(s: System, cycle: Action, n: nat, r: nat)
    requires n <= r && Geometry(n, r) && CursorInv(s, n, r) && s.ctl.shm.driverStatus == STATUS_STARTED
    requires s.ctl.daemon.isActive && s.ctl.daemon.frameNumber == r && s.ctl.shm.numberTimeStamps == 7
    requires cycle.Cycle? && WellFormed(s, cycle, n)
    ensures Step(s, cycle, n, r).ctl.shm.numberTimeStamps == 1
    ensures SampleTime(Step(s, cycle, n, r), r) < SampleTime(s, r)
  {
    DivModUnique(r, r, 1, 0);
    assert 7 * r > 1 * r;
  }

  /** A driver reload under an active daemon lets its next own stamp through. */
  lemma ReloadBreaksTheBracket(s: System, number: UInt64, host: UInt64, n: nat, r: nat)
    requires n <= r && Geometry(n, r) && CursorInv(s, n, r) && ClockInv(s, r)
    requires s.ctl.daemon.isActive && s.own == NoStore && number != s.latest
    ensures var t := Run(s, [ClearSync, Decide(number, host), StoreNumber], n, r);
            t.ctl.shm.numberTimeStamps == number && !Brackets(number, t, r)
  {
    RunOfThree(s, ClearSync, Decide(number, host), StoreNumber, n, r);
    var t := Run(s, [ClearSync, Decide(number, host), StoreNumber], n, r);
    if Brackets(number, t, r) {
      BracketIsUnique(number, s.latest, t, r);
    }
  }

  /** The re-anchoring after a driver restart maps the clock reading to the start of the ring period
      the cursor is in; it maps it to the cursor itself, as its comment has it, only on a boundary. */
  lemma ReanchorRoundsDown(c: Control, r: nat, now: UInt64)
    requires 0 < r && Restarting(c)
    ensures var e := Observed(c, r, now);
            && e.shm.zeroHostTime == now
            && e.shm.numberTimeStamps * r == c.daemon.frameNumber - c.daemon.frameNumber % r
            && (e.shm.numberTimeStamps * r == c.daemon.frameNumber <==> c.daemon.frameNumber % r == 0)
  {
  }

  // Sync mode.

  /** The driver was reloaded while the daemon was active. */
  predicate ReloadedWhileActive(s: System, acts: seq<Action>, n: nat, r: nat)
    requires 0 < n <= r && Shaped(s, n, r)
  {
    acts != []
    && (ReloadedWhileActive(s, acts[..|acts| - 1], n, r)
        || (acts[|acts| - 1].ClearSync? && Run(s, acts[..|acts| - 1], n, r).ctl.daemon.isActive))
  }

  /** After SyncMode was cleared, as opening the driver does, it is on again if and only if the daemon
      was not active then, has made a started callback since, and the driver has not been reloaded after
      that. So a reload under an active daemon leaves the driver on its own clock for that daemon's life. */
  lemma {:induction false} SyncModeExactly(s: System, acts: seq<Action>, n: nat, r: nat)
    requires 0 < n <= r && Shaped(s, n, r) && s.ctl.shm.syncMode == 0
    requires s.ctl.daemon.isActive <==> 0 < s.started
    ensures var t := Run(s, acts, n, r);
            && (t.ctl.daemon.isActive <==> 0 < t.started) && s.started <= t.started
            && (t.ctl.shm.syncMode == 1
                <==> !s.ctl.daemon.isActive && s.started < t.started && !ReloadedWhileActive(s, acts, n, r))
            && t.ctl.shm.syncMode <= 1 && (ReloadedWhileActive(s, acts, n, r) ==> t.ctl.daemon.isActive)
  {
    if acts != [] {
      SyncModeExactly(s, acts[..|acts| - 1], n, r);
    }
  }
}
