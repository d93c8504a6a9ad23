/** Deferred auto-wiring (daemon/JackBridge.cpp): JACK's notification thread sets a dirty flag and
    signals; the main thread waits for the signal, exchanges the flag and, if it was set, walks the
    ports twice, once per direction. Every store, signal and walk is one step. */
module WireWakeup {

  /** A slave port: its identity and whether it is a `from_slave` (else a `to_slave`) port. */
  datatype Port = Port(id: nat, fromSlave: bool)

  datatype Main =
    | Waiting    // in sigwait
    | Woken      // took SIGUSR1, about to exchange the flag
    | WireFrom   // in auto_wire, about to walk the from_slave ports
    | WireTo     // in auto_wire, about to walk the to_slave ports
    | Exited     // took SIGINT or SIGTERM

  /** `entered`: callbacks before their store; `stored`: callbacks between store and kill;
      `uncovered`: registered ports that no walk begun since their registration has seen. */
  datatype State = State(dirty: bool, pending: bool, terminating: bool, entered: set<Port>,
                         stored: set<Port>, uncovered: set<Port>, main: Main)

  datatype Action =
    | Register(p: Port)  // JACK registers the port and enters the callback
    | SetDirty(p: Port)
    | Kill(p: Port)
    | Terminate          // SIGINT or SIGTERM is raised
    | MainNext           // main's next step; in sigwait, SIGUSR1 is taken
    | MainExits          // sigwait returns a termination signal, also with SIGUSR1 pending

  predicate Enabled(s: State, a: Action) {
    match a
    case Register(p) => p !in s.entered && p !in s.stored && p !in s.uncovered
    case SetDirty(p) => p in s.entered
    case Kill(p) => p in s.stored
    case Terminate => !s.terminating
    case MainNext => s.main != Exited && (s.main == Waiting ==> s.pending)
    case MainExits => s.main == Waiting && s.terminating
  }

  function Step(s: State, a: Action): State
    requires Enabled(s, a)
  {
    match a
    case Register(p) => s.(entered := s.entered + {p}, uncovered := s.uncovered + {p})
    case SetDirty(p) => s.(dirty := true, entered := s.entered - {p}, stored := s.stored + {p})
    case Kill(p) => s.(pending := true, stored := s.stored - {p})
    case Terminate => s.(terminating := true)
    case MainNext =>
      (match s.main
       case Waiting => s.(pending := false, main := Woken)
       case Woken => s.(dirty := false, main := if s.dirty then WireFrom else Waiting)
       case WireFrom => s.(uncovered := (set p | p in s.uncovered && !p.fromSlave), main := WireTo)
       case WireTo => s.(uncovered := (set p | p in s.uncovered && p.fromSlave), main := Waiting)
       case Exited => s)
    case MainExits => s.(main := Exited)
  }

  /** A run of enabled actions; disabled ones have no effect. */
  function Run(s: State, acts: seq<Action>): State {
    if acts == [] then s
    else
      var t := Run(s, acts[..|acts| - 1]);
      if Enabled(t, acts[|acts| - 1]) then Step(t, acts[|acts| - 1]) else t
  }

  /** The daemon enters its loop after one initial pass that runs concurrently with callbacks. */
  predicate Initial(s: State) {
    s == State(false, false, false, {}, {}, s.uncovered, WireFrom)
  }

  // The same, read off the schedule: who registered, what was stored and signalled, which walks were begun.

  predicate TakenAt(s: State, acts: seq<Action>, i: nat)
    requires i < |acts|
  {
    Enabled(Run(s, acts[..i]), acts[i])
  }

  predicate RegistersAt(s: State, acts: seq<Action>, i: nat, p: Port)
    requires i < |acts|
  {
    acts[i] == Register(p) && TakenAt(s, acts, i)
  }

  /** Step i is the walk of p's own direction. */
  predicate WalksAt(s: State, acts: seq<Action>, i: nat, p: Port)
    requires i < |acts|
  {
    acts[i] == MainNext && Run(s, acts[..i]).main == if p.fromSlave then WireFrom else WireTo
  }

  predicate WalkedSince(s: State, acts: seq<Action>, since: nat, p: Port) {
    exists k: nat | since <= k < |acts| :: WalksAt(s, acts, k, p)
  }

  /** Step i registers p, and no walk of p's direction has been begun since. */
  predicate StillNewAt(s: State, acts: seq<Action>, i: nat, p: Port)
    requires i < |acts|
  {
    RegistersAt(s, acts, i, p) && !WalkedSince(s, acts, i + 1, p)
  }

  predicate StillNew(s: State, acts: seq<Action>, p: Port) {
    (p in s.uncovered && !WalkedSince(s, acts, 0, p)) || exists i: nat | i < |acts| :: StillNewAt(s, acts, i, p)
  }

  lemma WalkedOneMore(s: State, acts: seq<Action>, a: Action, since: nat, p: Port)
    requires since <= |acts|
    ensures WalkedSince(s, acts + [a], since, p)
            <==> WalkedSince(s, acts, since, p) || WalksAt(s, acts + [a], |acts|, p)
  {
    var all := acts + [a];
    forall k: nat | k < |acts| ensures WalksAt(s, all, k, p) <==> WalksAt(s, acts, k, p) {
      assert all[..k] == acts[..k];
    }
    if WalkedSince(s, acts, since, p) {
      var k: nat :| since <= k < |acts| && WalksAt(s, acts, k, p);
      assert WalksAt(s, all, k, p);
    }
  }

  lemma StillNewOneMore(s: State, acts: seq<Action>, a: Action, p: Port)
    ensures var all := acts + [a];
            StillNew(s, all, p)
            <==> (StillNew(s, acts, p) && !WalksAt(s, all, |acts|, p)) || RegistersAt(s, all, |acts|, p)
  {
    var all := acts + [a];
    forall i: nat | i < |acts|
      ensures StillNewAt(s, all, i, p) <==> StillNewAt(s, acts, i, p) && !WalksAt(s, all, |acts|, p)
    {
      assert all[..i] == acts[..i];
      WalkedOneMore(s, acts, a, i + 1, p);
    }
    WalkedOneMore(s, acts, a, 0, p);
    assert StillNewAt(s, all, |acts|, p) <==> RegistersAt(s, all, |acts|, p);
    if exists i: nat | i < |acts| :: StillNewAt(s, acts, i, p) {
      var i: nat :| i < |acts| && StillNewAt(s, acts, i, p);
      assert !WalksAt(s, all, |acts|, p) ==> StillNewAt(s, all, i, p);
    }
  }

  lemma StepCovers(s: State, a: Action, p: Port)
    ensures var t := if Enabled(s, a) then Step(s, a) else s;
            p in t.uncovered
            <==> (p in s.uncovered && !(a == MainNext && s.main == if p.fromSlave then WireFrom else WireTo))
                 || (a == Register(p) && Enabled(s, a))
  {
  }

  /** A port is uncovered exactly if it was so initially or an effective registration made it so, and no
      walk of its own direction has been begun since. */
  lemma {:induction false} UncoveredExactly(s: State, acts: seq<Action>, p: Port)
    ensures p in Run(s, acts).uncovered <==> StillNew(s, acts, p)
  {
    if acts != [] {
      var front, a := acts[..|acts| - 1], acts[|acts| - 1];
      assert acts == front + [a];
      UncoveredExactly(s, front, p);
      StillNewOneMore(s, front, a, p);
      StepCovers(Run(s, front), a, p);
    }
  }

  // The flag and the signal.

  /** A store of the flag has been made since main last exchanged it. */
  predicate FlagStored(s: State, acts: seq<Action>) {
    if acts == [] then s.dirty
    else
      var front, a := acts[..|acts| - 1], acts[|acts| - 1];
      (a.SetDirty? && Enabled(Run(s, front), a))
      || (FlagStored(s, front) && !(a.MainNext? && Run(s, front).main.Woken?))
  }

  /** A signal has been raised since main last took one. */
  predicate SignalRaised(s: State, acts: seq<Action>) {
    if acts == [] then s.pending
    else
      var front, a := acts[..|acts| - 1], acts[|acts| - 1];
      (a.Kill? && Enabled(Run(s, front), a))
      || (SignalRaised(s, front) && !(a.MainNext? && Run(s, front).main.Waiting?))
  }

  lemma StepSignals(s: State, a: Action)
    ensures var t := if Enabled(s, a) then Step(s, a) else s;
            && (t.dirty <==> (a.SetDirty? && Enabled(s, a)) || (s.dirty && !(a.MainNext? && s.main.Woken?)))
            && (t.pending <==> (a.Kill? && Enabled(s, a)) || (s.pending && !(a.MainNext? && s.main.Waiting?)))
  {
  }

  /** Main wakes only for a signal raised since it last took one, and then walks exactly if the flag was
      stored since it last exchanged it: first the one direction, then the other, then it waits again. */
  lemma {:induction false} WalksExactly(s: State, acts: seq<Action>)
    ensures var t := Run(s, acts);
            && (t.dirty <==> FlagStored(s, acts)) && (t.pending <==> SignalRaised(s, acts))
            && Run(s, acts + [MainNext]).main
               == match t.main
                  case Waiting => if SignalRaised(s, acts) then Woken else Waiting
                  case Woken => if FlagStored(s, acts) then WireFrom else Waiting
                  case WireFrom => WireTo
                  case WireTo => Waiting
                  case Exited => Exited
  {
    if acts != [] {
      WalksExactly(s, acts[..|acts| - 1]);
      StepSignals(Run(s, acts[..|acts| - 1]), acts[|acts| - 1]);
    }
    assert (acts + [MainNext])[..|acts|] == acts;
  }

  /** A wiring pass that will see port p is already certain to come. */
  predicate OnItsWay(s: State, p: Port) {
    || p in s.entered                                       // its callback has not stored yet
    || (s.dirty && (s.pending || s.stored != {} || s.main == Woken))
    || s.main == WireFrom
    || (s.main == WireTo && !p.fromSlave)
  }

  predicate Inv(s: State) {
    s.main != Exited ==> forall p | p in s.uncovered :: OnItsWay(s, p)
  }

  lemma StepKeepsInv(s: State, a: Action)
    requires Inv(s) && Enabled(s, a)
    ensures Inv(Step(s, a))
  {
    var t := Step(s, a);
    if t.main != Exited {
      forall p | p in t.uncovered ensures OnItsWay(t, p) {
        if p in s.uncovered {
          assert OnItsWay(s, p);
        }
        if a.SetDirty? {
          assert a.p in t.stored;
        }
      }
    }
  }

  lemma {:induction false} RunKeepsInv(s: State, acts: seq<Action>)
    requires Initial(s)
    ensures Inv(Run(s, acts))
  {
    if acts != [] {
      RunKeepsInv(s, acts[..|acts| - 1]);
      var t := Run(s, acts[..|acts| - 1]);
      if Enabled(t, acts[|acts| - 1]) {
        StepKeepsInv(t, acts[|acts| - 1]);
      }
    }
  }

  /** No lost wakeup: in every interleaving, until the daemon is told to exit, a port that no walk of its
      direction has seen since it registered has its callback still to store, or the flag set with a
      wakeup under way, or main already inside the pass that will see it. */
  lemma NoLostWakeup(s: State, acts: seq<Action>, p: Port)
    requires Initial(s) && StillNew(s, acts, p)
    ensures Run(s, acts).main != Exited ==> OnItsWay(Run(s, acts), p)
  {
    RunKeepsInv(s, acts);
    UncoveredExactly(s, acts, p);
  }

  /** Once the announcing callback is past its store, only the flag protects such a port. */
  lemma AnnouncedPortsAreProtected(s: State, acts: seq<Action>, p: Port)
    requires Initial(s) && StillNew(s, acts, p)
    requires var t := Run(s, acts);
             p !in t.entered && (t.main == Waiting || t.main == Woken)
    ensures var t := Run(s, acts);
            t.dirty && (t.pending || t.stored != {} || t.main == Woken)
  {
    NoLostWakeup(s, acts, p);
  }

  // Progress.

  function MainWork(m: Main): nat {
    match m
    case Waiting => 0
    case Woken => 3
    case WireFrom => 2
    case WireTo => 1
    case Exited => 0
  }

  /** An upper bound on the steps left when nothing new registers and nobody asks for exit. */
  function Work(s: State): nat {
    6 * |s.entered| + 5 * |s.stored| + (if s.pending then 4 else 0) + MainWork(s.main)
  }

  predicate Internal(a: Action) {
    a.SetDirty? || a.Kill? || a.MainNext?
  }

  lemma StepDecreasesWork(s: State, a: Action)
    requires Enabled(s, a) && Internal(a)
    ensures Work(Step(s, a)) < Work(s)
    ensures Step(s, a).terminating == s.terminating && (s.main != Exited ==> Step(s, a).main != Exited)
  {
    match a
    case SetDirty(p) =>
      RemoveOne(s.entered, p);
      AddOne(s.stored, p);
    case Kill(p) => RemoveOne(s.stored, p);
    case MainNext =>
  }

  lemma RemoveOne(ports: set<Port>, p: Port)
    requires p in ports
    ensures |ports - {p}| == |ports| - 1
  {
  }

  lemma AddOne(ports: set<Port>, p: Port)
    ensures |ports + {p}| <= |ports| + 1
  {
  }

  /** With no step left, every port has been covered. */
  lemma QuietMeansCovered(s: State)
    requires Inv(s) && s.main != Exited
    requires forall a | Internal(a) :: !Enabled(s, a)
    ensures s.uncovered == {}
  {
    assert !Enabled(s, MainNext);
    forall p | p in s.uncovered ensures false {
      assert OnItsWay(s, p);
      if p in s.entered {
        assert Enabled(s, SetDirty(p));
      } else {
        var q :| q in s.stored;
        assert Enabled(s, Kill(q));
      }
    }
  }

  /** Every schedule of internal steps, each enabled when taken, is at most `Work` long; and one that
      cannot be extended has covered every port. */
  lemma {:induction false} SettlesCovered(s: State, acts: seq<Action>)
    requires Inv(s) && s.main != Exited && AllEnabled(s, acts)
    requires forall i | 0 <= i < |acts| :: Internal(acts[i])
    ensures |acts| <= Work(s) - Work(Run(s, acts))
    ensures Inv(Run(s, acts)) && Run(s, acts).main != Exited
    ensures (forall a | Internal(a) :: !Enabled(Run(s, acts), a)) ==> Run(s, acts).uncovered == {}
  {
    if acts != [] {
      var last := |acts| - 1;
      SettlesCovered(s, acts[..last]);
      StepKeepsInv(Run(s, acts[..last]), acts[last]);
      StepDecreasesWork(Run(s, acts[..last]), acts[last]);
    }
    if forall a | Internal(a) :: !Enabled(Run(s, acts), a) {
      QuietMeansCovered(Run(s, acts));
    }
  }

  lemma {:induction false} RunConcat(s: State, a: seq<Action>, b: seq<Action>)
    ensures Run(s, a + b) == Run(Run(s, a), b)
  {
    if b == [] {
      assert a + b == a;
    } else {
      assert (a + b)[..|a + b| - 1] == a + b[..|b| - 1];
      RunConcat(s, a, b[..|b| - 1]);
    }
  }

  /** Every port is wired. After any run, if nothing new registers and nobody asks for exit, every schedule
      of the remaining steps is bounded; and once none is left, every port whose registration was ever
      carried out has had a walk of its own direction begun after that, and so has every initial port. */
  lemma EveryPortIsCovered(s: State, acts: seq<Action>, more: seq<Action>, p: Port)
    requires Initial(s) && Run(s, acts).main != Exited && AllEnabled(Run(s, acts), more)
    requires forall i | 0 <= i < |more| :: Internal(more[i])
    ensures |more| <= Work(Run(s, acts))
    ensures (forall a | Internal(a) :: !Enabled(Run(s, acts + more), a)) ==>
              && (p in s.uncovered ==> WalkedSince(s, acts + more, 0, p))
              && forall i: nat | i < |acts + more| && RegistersAt(s, acts + more, i, p) ::
                   WalkedSince(s, acts + more, i + 1, p)
  {
    RunKeepsInv(s, acts);
    SettlesCovered(Run(s, acts), more);
    RunConcat(s, acts, more);
    UncoveredExactly(s, acts + more, p);
    assert forall i: nat | i < |acts + more| && RegistersAt(s, acts + more, i, p) ::
        StillNewAt(s, acts + more, i, p) || WalkedSince(s, acts + more, i + 1, p);
  }

  predicate AllEnabled(s: State, acts: seq<Action>) {
    acts == [] || (AllEnabled(s, acts[..|acts| - 1]) && Enabled(Run(s, acts[..|acts| - 1]), acts[|acts| - 1]))
  }
}
