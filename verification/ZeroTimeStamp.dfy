/** The zero-timestamp pair: the daemon stores a host time and then a stamp number (JackBridge.cpp
    `process_callback`), the driver loads the number and then the host time (SA_Device.cpp
    `GetZeroTimeStamp`), or, outside sync mode, stores both itself. Every access is one step. */
module ZeroTimeStamp {

  /** Who wrote a register last: daemon stamp i, or the driver. */
  datatype Origin = Stamp(i: nat) | Driver

  /** A shared register, tagged with the origin of its value. */
  datatype Register = Register(value: nat, origin: Origin)

  datatype StampPair = StampPair(number: nat, host: nat)

  /** Where the daemon is inside a callback. */
  datatype DaemonAt =
    | Idle
    | AnchorNumber  // re-anchor: host time stored, number to follow
    | EnterSync     // activation: SyncMode to be set
    | ZeroNumber    // activation: number to be zeroed
    | Boundary      // about to test for a ring boundary
    | StampNumber   // boundary stamp: host time stored, number to follow

  /** Where the driver is inside a call; `calls` counts completed sync-mode results. */
  datatype DriverAt =
    | Outside
    | SyncNumber                    // saw SyncMode 1, number to be loaded
    | SyncHost(loaded: Register)    // number loaded, host time to be loaded
    | OwnNumber(number: nat, host: nat)  // saw SyncMode 0, number to be stored
    | OwnHost(host: nat)                 // number stored, host time to be stored

  datatype Result = Result(number: Register, host: Register)

  datatype State = State(sync: bool, number: Register, host: Register, stamps: seq<StampPair>,
                         frame: nat, active: bool, daemon: DaemonAt, driver: DriverAt,
                         results: seq<Result>)

  datatype Action =
    | Callback(reanchor: bool, now: nat)  // daemon enters a started callback
    | DaemonNext(now: nat, n: nat)        // daemon's next store
    | Call(number: nat, host: nat)        // driver loads SyncMode; its own clock, should it be needed
    | DriverNext                          // driver's next load or store
    | Reload                              // the driver is loaded again and clears SyncMode

  /** The next stamp begins by storing its host time. */
  function HostStored(s: State, now: nat, ring: nat): State
    requires 0 < ring
  {
    s.(host := Register(now, Stamp(|s.stamps|)), stamps := s.stamps + [StampPair(s.frame / ring, now)])
  }

  /** The number of the latest stamp. */
  function NumberStored(s: State): State
    requires s.stamps != []
  {
    var i := |s.stamps| - 1;
    s.(number := Register(s.stamps[i].number, Stamp(i)))
  }

  function Step(s: State, a: Action, ring: nat): State
    requires 0 < ring
  {
    match a
    case Callback(reanchor, now) =>
      if !s.daemon.Idle? then s
      else if reanchor || !s.active then HostStored(s, now, ring).(daemon := AnchorNumber)
      else s.(daemon := Boundary)
    case DaemonNext(now, n) =>
      (match s.daemon
       case Idle => s
       case AnchorNumber =>
         if s.stamps == [] then s
         else NumberStored(s).(daemon := if s.active then Boundary else EnterSync)
       case EnterSync => s.(sync := true, daemon := ZeroNumber)
       case ZeroNumber =>
         if s.stamps == [] then s
         else s.(number := Register(0, Stamp(|s.stamps| - 1)), active := true, daemon := Boundary)
       case Boundary =>
         if s.frame % ring == 0 then HostStored(s, now, ring).(daemon := StampNumber)
         else s.(frame := s.frame + n, daemon := Idle)
       case StampNumber =>
         if s.stamps == [] then s else NumberStored(s).(frame := s.frame + n, daemon := Idle))
    case Call(number, host) =>
      if !s.driver.Outside? then s
      else s.(driver := if s.sync then SyncNumber else OwnNumber(number, host))
    case DriverNext =>
      (match s.driver
       case Outside => s
       case SyncNumber => s.(driver := SyncHost(s.number))
       case SyncHost(loaded) => s.(driver := Outside, results := s.results + [Result(loaded, s.host)])
       case OwnNumber(number, host) => s.(number := Register(number, Driver), driver := OwnHost(host))
       case OwnHost(host) => s.(host := Register(host, Driver), driver := Outside))
    case Reload => s.(sync := false)
  }

  function Run(s: State, acts: seq<Action>, ring: nat): State
    requires 0 < ring
  {
    if acts == [] then s else Step(Run(s, acts[..|acts| - 1], ring), acts[|acts| - 1], ring)
  }

  predicate MidStamp(s: State) {
    s.daemon.AnchorNumber? || s.daemon.StampNumber?
  }

  /** A register whose value came from the daemon carries the value of that stamp. */
  predicate FromStamp(s: State, r: Register, isHost: bool) {
    r.origin.Stamp? ==>
      && r.origin.i < |s.stamps|
      && r.value == if isHost then s.stamps[r.origin.i].host else s.stamps[r.origin.i].number
  }

  /** Where the daemon is determines what it has stored. */
  ghost predicate DaemonInv(s: State) {
    && (!s.active ==> s.frame == 0)
    && (s.daemon.Idle? && !s.active ==> !s.sync)
    && (s.daemon.StampNumber? || s.daemon.Boundary? ==> s.active)
    && (s.daemon.EnterSync? || s.daemon.ZeroNumber? ==> !s.active)
    && (s.active || MidStamp(s) || s.daemon.EnterSync? || s.daemon.ZeroNumber? ==> s.stamps != [])
    && (s.daemon.EnterSync? || s.daemon.ZeroNumber? || (s.daemon.AnchorNumber? && !s.active) ==>
          s.stamps[|s.stamps| - 1].number == 0)
  }

  /** Everything the daemon wrote, wherever it has got to, is a value of the stamp it is tagged with. */
  ghost predicate ValuesInv(s: State) {
    && FromStamp(s, s.number, false) && FromStamp(s, s.host, true)
    && (s.driver.SyncHost? ==> FromStamp(s, s.driver.loaded, false))
    && (forall k | 0 <= k < |s.results| ::
          FromStamp(s, s.results[k].number, false) && FromStamp(s, s.results[k].host, true))
  }

  /** The daemon as constructed, over registers of any content and whatever the driver is doing. */
  predicate Initial(s: State) {
    && !s.sync && s.frame == 0 && !s.active && s.daemon.Idle? && s.stamps == [] && s.results == []
    && s.number.origin.Driver? && s.host.origin.Driver? && (s.driver.SyncHost? ==> s.driver.loaded.origin.Driver?)
  }

  ghost predicate Inv(s: State) {
    DaemonInv(s) && ValuesInv(s)
  }

  lemma StepKeepsInv(s: State, a: Action, ring: nat)
    requires 0 < ring && Inv(s)
    ensures Inv(Step(s, a, ring))
  {
    ZeroFrameStamp(s.frame, ring);
    StepKeepsValues(s, a, ring);
  }

  lemma StepKeepsValues(s: State, a: Action, ring: nat)
    requires 0 < ring && Inv(s)
    ensures ValuesInv(Step(s, a, ring))
  {
    var t := Step(s, a, ring);
    StepGrows(s, a, ring);
    StepKeepsRegisterValues(s, a, ring);
    forall k | 0 <= k < |t.results|
      ensures FromStamp(t, t.results[k].number, false) && FromStamp(t, t.results[k].host, true)
    {
      if k < |s.results| {
        assert FromStamp(s, s.results[k].number, false) && FromStamp(s, s.results[k].host, true);
      }
    }
  }

  lemma StepKeepsRegisterValues(s: State, a: Action, ring: nat)
    requires 0 < ring && Inv(s)
    ensures var t := Step(s, a, ring);
            && FromStamp(t, t.number, false) && FromStamp(t, t.host, true)
            && (t.driver.SyncHost? ==> FromStamp(t, t.driver.loaded, false))
  {
    if a.Callback? || a.DaemonNext? {
      DaemonKeepsRegisterValues(s, a, ring);
    }
  }

  lemma DaemonKeepsRegisterValues(s: State, a: Action, ring: nat)
    requires 0 < ring && Inv(s) && (a.Callback? || a.DaemonNext?)
    ensures var t := Step(s, a, ring);
            && FromStamp(t, t.number, false) && FromStamp(t, t.host, true)
            && t.driver == s.driver && (t.driver.SyncHost? ==> FromStamp(t, t.driver.loaded, false))
  {
    StepGrows(s, a, ring);
    StampsStay(s, Step(s, a, ring), s.number, false);
    StampsStay(s, Step(s, a, ring), s.host, true);
    if s.driver.SyncHost? {
      StampsStay(s, Step(s, a, ring), s.driver.loaded, false);
    }
  }

  lemma StampsStay(s: State, t: State, r: Register, isHost: bool)
    requires FromStamp(s, r, isHost) && s.stamps <= t.stamps
    ensures FromStamp(t, r, isHost)
  {
  }

  lemma ZeroFrameStamp(frame: nat, ring: nat)
    requires 0 < ring
    ensures frame == 0 ==> frame / ring == 0
  {
  }

  lemma StepGrows(s: State, a: Action, ring: nat)
    requires 0 < ring
    ensures s.stamps <= Step(s, a, ring).stamps && s.results <= Step(s, a, ring).results
  {
  }

  lemma {:induction false} RunKeepsInv(s: State, acts: seq<Action>, ring: nat)
    requires 0 < ring && Inv(s)
    ensures Inv(Run(s, acts, ring))
  {
    if acts != [] {
      RunKeepsInv(s, acts[..|acts| - 1], ring);
      StepKeepsInv(Run(s, acts[..|acts| - 1], ring), acts[|acts| - 1], ring);
    }
  }

  // What a stamp is, read off the schedule.

  /** The clock reading an action brings. */
  function ClockOf(a: Action): nat {
    match a
    case Callback(_, now) => now
    case DaemonNext(now, _) => now
    case _ => 0
  }

  /** Action i began stamp k: its host time is the action's clock reading, and its number is that of the
      ring period the cursor was in. */
  ghost predicate StampedAt(s: State, acts: seq<Action>, i: nat, k: nat, ring: nat)
    requires 0 < ring && i < |acts| && k < |Run(s, acts, ring).stamps|
  {
    var before, stamp := Run(s, acts[..i], ring), Run(s, acts, ring).stamps[k];
    && |before.stamps| == k && stamp.host == ClockOf(acts[i])
    && stamp.number * ring <= before.frame < (stamp.number + 1) * ring
  }

  lemma PeriodBrackets(frame: nat, ring: nat)
    requires 0 < ring
    ensures (frame / ring) * ring <= frame < (frame / ring + 1) * ring
  {
    assert frame == ring * (frame / ring) + frame % ring;
    assert (frame / ring + 1) * ring == (frame / ring) * ring + ring;
  }

  lemma StepStamps(s: State, a: Action, ring: nat)
    requires 0 < ring
    ensures var t := Step(s, a, ring);
            t.stamps == s.stamps || t.stamps == s.stamps + [StampPair(s.frame / ring, ClockOf(a))]
  {
  }

  /** Every stamp was begun by an action of the schedule, with that action's clock reading and the number of
      the cursor's ring period at that moment. */
  lemma {:induction false} StampsAreScheduled(s: State, acts: seq<Action>, k: nat, ring: nat)
    requires 0 < ring && |s.stamps| <= k < |Run(s, acts, ring).stamps|
    ensures exists i: nat | i < |acts| :: StampedAt(s, acts, i, k, ring)
  {
    var front, a := acts[..|acts| - 1], acts[|acts| - 1];
    var t := Run(s, front, ring);
    StepStamps(t, a, ring);
    PeriodBrackets(t.frame, ring);
    if k < |t.stamps| {
      StampsAreScheduled(s, front, k, ring);
      var i: nat :| i < |front| && StampedAt(s, front, i, k, ring);
      assert front[..i] == acts[..i];
      assert StampedAt(s, acts, i, k, ring);
    } else {
      assert StampedAt(s, acts, |front|, k, ring);
    }
  }

  // What holds of any two values of the daemon, whether or not the registers have settled.

  /** Two values of the daemon are never a number with the host time of an earlier stamp. */
  predicate Ordered(r: Result) {
    r.number.origin.Stamp? && r.host.origin.Stamp? ==> r.number.origin.i <= r.host.origin.i
  }

  /** The daemon's host time is that of its latest stamp, and no number is from a later one. */
  predicate OrderInv(s: State) {
    && (s.host.origin.Stamp? ==> s.host.origin.i == |s.stamps| - 1)
    && (s.number.origin.Stamp? ==> s.number.origin.i < |s.stamps|)
    && (s.driver.SyncHost? && s.driver.loaded.origin.Stamp? ==> s.driver.loaded.origin.i < |s.stamps|)
    && (forall k | 0 <= k < |s.results| :: Ordered(s.results[k]))
  }

  lemma StepKeepsOrder(s: State, a: Action, ring: nat)
    requires 0 < ring && OrderInv(s)
    ensures OrderInv(Step(s, a, ring))
  {
    var t := Step(s, a, ring);
    forall k | 0 <= k < |t.results| ensures Ordered(t.results[k]) {
      assert k < |s.results| ==> t.results[k] == s.results[k];
    }
  }

  lemma {:induction false} OrderStays(s: State, acts: seq<Action>, ring: nat)
    requires 0 < ring && OrderInv(s)
    ensures OrderInv(Run(s, acts, ring))
  {
    if acts != [] {
      OrderStays(s, acts[..|acts| - 1], ring);
      StepKeepsOrder(Run(s, acts[..|acts| - 1], ring), acts[|acts| - 1], ring);
    }
  }

  /** From the daemon's construction, in every interleaving, own stores of the driver at any time and
      reloads included: whenever a call returns two values of the daemon, the host time is of the same or
      a later stamp than the number, and both are the values of those stamps. */
  lemma DaemonValuesAreOrdered(s: State, acts: seq<Action>, ring: nat)
    requires 0 < ring && Initial(s)
    ensures var t := Run(s, acts, ring);
            && Inv(t) && OrderInv(t)
            && forall k | 0 <= k < |t.results| ::
                 && Ordered(t.results[k])
                 && FromStamp(t, t.results[k].number, false) && FromStamp(t, t.results[k].host, true)
  {
    RunKeepsInv(s, acts, ring);
    OrderStays(s, acts, ring);
  }

  /** One call, begun anywhere in such a run, with any steps between its two loads: it returns a number
      with a host time of the same or a later stamp if and only if the daemon was the last to store the
      number at the first load, and the host time at the second. */
  lemma NeverEarlierExactly(s: State, start: seq<Action>, between: seq<Action>, ring: nat)
    requires 0 < ring && Initial(s) && Run(s, start, ring).driver.SyncNumber? && DriverNext !in between
    ensures var first := Run(s, start, ring);
            var second := Run(Step(first, DriverNext, ring), between, ring);
            var u := Step(second, DriverNext, ring);
            && |u.results| == |first.results| + 1
            && (NeverEarlier(u.results[|first.results|])
                <==> first.number.origin.Stamp? && second.host.origin.Stamp?)
  {
    var first := Run(s, start, ring);
    var loaded := Step(first, DriverNext, ring);
    DriverWaits(loaded, between, ring);
    DaemonValuesAreOrdered(s, start, ring);
    OrderStays(loaded, between, ring);
  }

  // How both come to be the daemon's.

  /** The driver has begun no store of its own pair. */
  predicate Quiet(s: State) {
    s.active && !s.driver.OwnNumber? && !s.driver.OwnHost?
  }

  /** Both registers hold the daemon's values: the host time of the latest stamp, and its number, or an
      earlier stamp's while that is still due. */
  ghost predicate RegistersSettled(s: State) {
    && Inv(s) && Quiet(s)
    && s.host.origin == Stamp(|s.stamps| - 1) && s.number.origin.Stamp?
    && (if MidStamp(s) then s.number.origin.i < |s.stamps| - 1 else s.number.origin == s.host.origin)
  }

  /** A number a call in progress has loaded is the daemon's. */
  predicate LoadedSettled(s: State) {
    s.driver.SyncHost? ==> s.driver.loaded.origin.Stamp? && s.driver.loaded.origin.i < |s.stamps|
  }

  ghost predicate Settled(s: State) {
    RegistersSettled(s) && LoadedSettled(s)
  }

  /** A call reads the daemon's pair, or the next one will. */
  predicate Live(s: State) {
    s.sync || s.driver.SyncNumber? || s.driver.SyncHost?
  }

  /** As long as calls read the daemon's pair the registers hold it. A reload of the driver ends that. */
  ghost predicate Safe(s: State) {
    Inv(s) && s.active && (Live(s) ==> RegistersSettled(s))
  }

  /** The driver never returns a host time from an earlier stamp than the number it returned with it. */
  predicate NeverEarlier(r: Result) {
    r.number.origin.Stamp? && r.host.origin.Stamp? && r.number.origin.i <= r.host.origin.i
  }

  lemma StepKeepsSafe(s: State, a: Action, ring: nat)
    requires 0 < ring && Safe(s)
    ensures Safe(Step(s, a, ring)) && (Live(Step(s, a, ring)) ==> Live(s))
  {
    StepKeepsInv(s, a, ring);
  }

  lemma StepNeverEarlier(s: State, a: Action, ring: nat)
    requires 0 < ring && Safe(s) && LoadedSettled(s)
    ensures LoadedSettled(Step(s, a, ring))
    ensures var t := Step(s, a, ring);
            && s.results <= t.results
            && forall k | |s.results| <= k < |t.results| :: NeverEarlier(t.results[k])
  {
    StepGrows(s, a, ring);
  }

  /** From any settled state, through any interleaving and any reloads of the driver, every result pairs
      a number with a host time of the same or a later stamp, and both are the values of those stamps. */
  lemma {:induction false} HostIsNeverEarlier(s: State, acts: seq<Action>, ring: nat)
    requires 0 < ring && Safe(s) && LoadedSettled(s)
    ensures var t := Run(s, acts, ring);
            && Safe(t) && LoadedSettled(t) && (Live(t) ==> Live(s)) && s.results <= t.results
            && forall k | |s.results| <= k < |t.results| :: NeverEarlier(t.results[k])
  {
    if acts != [] {
      HostIsNeverEarlier(s, acts[..|acts| - 1], ring);
      StepKeepsSafe(Run(s, acts[..|acts| - 1], ring), acts[|acts| - 1], ring);
      StepNeverEarlier(Run(s, acts[..|acts| - 1], ring), acts[|acts| - 1], ring);
    }
  }

  /** A call that was already past its first load when the registers settled may still return what it
      had loaded; every later call pairs a number with a host time of the same or a later stamp. */
  lemma {:induction false} LaterCallsNeverEarlier(s: State, acts: seq<Action>, ring: nat)
    requires 0 < ring && RegistersSettled(s)
    ensures var t := Run(s, acts, ring);
            && Safe(t) && s.results <= t.results
            && (|t.results| > |s.results| || !s.driver.SyncHost? ==> LoadedSettled(t))
            && (|t.results| == |s.results| && s.driver.SyncHost? ==> t.driver == s.driver)
            && forall k | |s.results| + (if s.driver.SyncHost? then 1 else 0) <= k < |t.results| ::
                 NeverEarlier(t.results[k])
  {
    if acts != [] {
      LaterCallsNeverEarlier(s, acts[..|acts| - 1], ring);
      var t, a := Run(s, acts[..|acts| - 1], ring), acts[|acts| - 1];
      StepKeepsSafe(t, a, ring);
      StepGrows(t, a, ring);
      if LoadedSettled(t) {
        StepNeverEarlier(t, a, ring);
      }
    }
  }

  // How the registers come to settle.

  /** Since there were `base` stamps: what a stamp begun after that has put in the registers. */
  ghost predicate Settling(s: State, base: nat) {
    && Inv(s) && Quiet(s) && base <= |s.stamps|
    && (base < |s.stamps| ==>
          && s.host.origin == Stamp(|s.stamps| - 1)
          && (!MidStamp(s) ==> s.number.origin == s.host.origin)
          && (MidStamp(s) && s.number.origin.Stamp? ==> s.number.origin.i < |s.stamps| - 1)
          && (MidStamp(s) && base + 1 < |s.stamps| ==> s.number.origin.Stamp?))
    && (s.number.origin.Stamp? ==> s.number.origin.i < |s.stamps|)
  }

  lemma StepKeepsSettling(s: State, a: Action, base: nat, ring: nat)
    requires 0 < ring && Settling(s, base) && s.sync
    ensures Settling(Step(s, a, ring), base)
  {
    StepKeepsInv(s, a, ring);
  }

  /** An active daemon does not switch sync mode on. */
  lemma SyncStaysOff(s: State, a: Action, ring: nat)
    requires 0 < ring && Inv(s) && s.active
    ensures Step(s, a, ring).active && (Step(s, a, ring).sync ==> s.sync)
  {
  }

  /** A stamp begun after there were `base` stamps has been completed. */
  predicate WholeStampSince(s: State, base: nat) {
    base + 1 < |s.stamps| || (base + 1 == |s.stamps| && !MidStamp(s))
  }

  /** From any moment with no store of the driver's own outstanding, any run that ends in sync mode and
      in which the daemon begins and completes a stamp settles the registers, whatever the driver does
      meanwhile. */
  lemma {:induction false} WholeStampSettles(s: State, acts: seq<Action>, ring: nat)
    requires 0 < ring && Inv(s) && Quiet(s)
    ensures var t := Run(s, acts, ring);
            && Inv(t) && t.active && (t.sync ==> Settling(t, |s.stamps|))
            && (t.sync && WholeStampSince(t, |s.stamps|) ==> RegistersSettled(t))
  {
    if acts != [] {
      var t, a := Run(s, acts[..|acts| - 1], ring), acts[|acts| - 1];
      WholeStampSettles(s, acts[..|acts| - 1], ring);
      StepKeepsInv(t, a, ring);
      SyncStaysOff(t, a, ring);
      if t.sync {
        StepKeepsSettling(t, a, |s.stamps|, ring);
      }
    }
  }

  /** From the daemon's construction, in every interleaving and through reloads of the driver: take any
      later moment with no store of the driver's own outstanding, and any moment after that, still or
      again in sync mode, by which the daemon has begun and completed a stamp. Every call begun from then
      on returns a number with a host time of the same or a later stamp. */
  lemma NeverEarlierFromConstruction(s: State, start: seq<Action>, stamping: seq<Action>, rest: seq<Action>, ring: nat)
    requires 0 < ring && Initial(s) && Quiet(Run(s, start, ring))
    requires var v := Run(Run(s, start, ring), stamping, ring);
             v.sync && WholeStampSince(v, |Run(s, start, ring).stamps|)
    ensures var v := Run(Run(s, start, ring), stamping, ring);
            var t := Run(v, rest, ring);
            && v.results <= t.results
            && forall k | |v.results| + (if v.driver.SyncHost? then 1 else 0) <= k < |t.results| ::
                 NeverEarlier(t.results[k])
                 && FromStamp(t, t.results[k].number, false) && FromStamp(t, t.results[k].host, true)
  {
    RunKeepsInv(s, start, ring);
    WholeStampSettles(Run(s, start, ring), stamping, ring);
    LaterCallsNeverEarlier(Run(Run(s, start, ring), stamping, ring), rest, ring);
  }

  // When both values come from one stamp.

  /** A call's two loads, with any steps of the daemon between them: they return one stamp's pair if and
      only if no stamp was half stored at the first load and none began before the second. */
  lemma OnePairExactly(s: State, between: seq<Action>, ring: nat)
    requires 0 < ring && Settled(s) && s.driver.SyncNumber? && DriverNext !in between
    ensures var t := Run(Step(s, DriverNext, ring), between, ring);
            var u := Step(t, DriverNext, ring);
            && |u.results| == |s.results| + 1
            && (u.results[|s.results|].number.origin == u.results[|s.results|].host.origin
                <==> !MidStamp(s) && t.stamps == s.stamps)
  {
    var loaded := Step(s, DriverNext, ring);
    StepKeepsSafe(s, DriverNext, ring);
    StepNeverEarlier(s, DriverNext, ring);
    HostIsNeverEarlier(loaded, between, ring);
    StampsGrow(loaded, between, ring);
    DriverWaits(loaded, between, ring);
  }

  lemma {:induction false} DriverWaits(s: State, acts: seq<Action>, ring: nat)
    requires 0 < ring && s.driver.SyncHost? && DriverNext !in acts
    ensures Run(s, acts, ring).driver == s.driver && Run(s, acts, ring).results == s.results
  {
    if acts != [] {
      DriverWaits(s, acts[..|acts| - 1], ring);
    }
  }

  /** So a call that begins with the daemon between stamps and sees no stamp begin returns the latest
      stamp's pair. */
  lemma {:induction false} UnoverlappedCallIsOnePair(s: State, acts: seq<Action>, ring: nat)
    requires 0 < ring && Settled(s) && !MidStamp(s) && s.driver.Outside?
    requires Run(s, acts, ring).stamps == s.stamps
    ensures var t := Run(s, acts, ring);
            && Safe(t) && !MidStamp(t) && s.results <= t.results
            && (t.driver.SyncHost? ==> t.driver.loaded.origin == t.host.origin)
            && forall k | |s.results| <= k < |t.results| ::
                 t.results[k].number.origin == t.results[k].host.origin == Stamp(|s.stamps| - 1)
  {
    if acts != [] {
      var front := acts[..|acts| - 1];
      HostIsNeverEarlier(s, front, ring);
      StampsGrow(s, front, ring);
      StepGrows(Run(s, front, ring), acts[|acts| - 1], ring);
      StepKeepsSafe(Run(s, front, ring), acts[|acts| - 1], ring);
      UnoverlappedCallIsOnePair(s, front, ring);
    }
  }

  lemma {:induction false} StampsGrow(s: State, acts: seq<Action>, ring: nat)
    requires 0 < ring
    ensures s.stamps <= Run(s, acts, ring).stamps
  {
    if acts != [] {
      StampsGrow(s, acts[..|acts| - 1], ring);
    }
  }

  /** The shortest way to settle: the two stores of one stamp, the driver outside a call. */
  lemma NextStampSettles(s: State, ring: nat, now: nat, n: nat)
    requires 0 < ring && Inv(s) && Quiet(s) && s.daemon.Boundary? && s.frame % ring == 0 && s.driver.Outside?
    ensures Settled(Step(Step(s, DaemonNext(now, n), ring), DaemonNext(now, n), ring))
  {
    var a := DaemonNext(now, n);
    StepKeepsInv(s, a, ring);
    StepKeepsInv(Step(s, a, ring), a, ring);
  }

  /** A call that loads the number between those two stores keeps the driver's old number: the registers
      settle, the call does not. */
  lemma CallAcrossTheStamp(s: State, ring: nat, now: nat, n: nat)
    requires 0 < ring && Inv(s) && Quiet(s) && s.daemon.Boundary? && s.frame % ring == 0
    requires s.driver.SyncNumber? && s.number.origin.Driver?
    ensures var a := DaemonNext(now, n);
            var t := Step(Step(Step(s, a, ring), DriverNext, ring), a, ring);
            RegistersSettled(t) && !Settled(t) && t.driver.loaded == s.number
  {
    var a := DaemonNext(now, n);
    StepKeepsInv(s, a, ring);
    StepKeepsInv(Step(s, a, ring), DriverNext, ring);
    StepKeepsInv(Step(Step(s, a, ring), DriverNext, ring), a, ring);
  }

  /** Sync mode alone is not enough: a driver that read SyncMode 0 before the daemon set it can store
      its own pair afterwards, and with nothing outstanding any more a call then returns values no
      stamp of the daemon ever had. The pair stays the driver's until the next daemon stamp. */
  lemma LateStoreUnsettles(s: State, number: nat, host: nat, ring: nat)
    requires 0 < ring && s.sync && s.driver == OwnNumber(number, host)
    ensures var stored := Step(Step(s, DriverNext, ring), DriverNext, ring);
            var t := Step(Step(Step(stored, Call(0, 0), ring), DriverNext, ring), DriverNext, ring);
            && stored.sync && stored.driver == Outside
            && t.results == s.results + [Result(Register(number, Driver), Register(host, Driver))]
  {
  }

  /** The pair can be torn: a stamp that begins between the two loads gives the earlier number with
      the later host time, so `NeverEarlier` cannot be strengthened to equality. */
  lemma StampDuringCallTears(s: State, now: nat, ring: nat)
    requires 0 < ring && Settled(s) && s.driver.SyncNumber? && s.daemon.Boundary? && s.frame % ring == 0
    ensures var t := Step(Step(Step(s, DriverNext, ring), DaemonNext(now, 0), ring), DriverNext, ring);
            && |t.results| == |s.results| + 1
            && t.results[|s.results|].number.origin == Stamp(|s.stamps| - 1)
            && t.results[|s.results|].host.origin == Stamp(|s.stamps|)
  {
  }
}
