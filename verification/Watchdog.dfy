/** The daemon-liveness watchdog inside driver/JackBridge/Plug-In/SA_Device.cpp `GetZeroTimeStamp`. */
module Watchdog {
  import opened Arithmetic

  /** `notices` is what the host was told, in order: false for "device died", true for "alive again". */
  datatype Watch = Watch(alive: bool, lastCount: UInt64, lastTime: UInt64, notices: seq<bool>)

  /** One look at the heartbeat counter at host time `now`. `armed` stands for the ring-size and
      clock-rate guards, `threshold` for five ring periods in host ticks. */
  function Poll(w: Watch, now: UInt64, count: UInt64, armed: bool, threshold: nat): Watch {
    if count != w.lastCount then
      Watch(true, count, now, if w.alive then w.notices else w.notices + [true])
    else if w.alive && armed && w.lastTime != 0 && Wrap64(now - w.lastTime) > threshold then
      w.(alive := false, notices := w.notices + [false])
    else w
  }

  /** `_HW_StartIO` re-arms the watchdog without telling the host. */
  function Rearmed(count: UInt64, now: UInt64, notices: seq<bool>): Watch {
    Watch(true, count, now, notices)
  }

  /** One poll's observations. The guards and the threshold may differ from poll to poll: the clock
      rate is set after the device can be called, and a configuration change moves the threshold. */
  datatype Look = Look(now: UInt64, count: UInt64, armed: bool, threshold: nat)

  function Polls(w: Watch, looks: seq<Look>): Watch {
    if looks == [] then w
    else
      var last := looks[|looks| - 1];
      Poll(Polls(w, looks[..|looks| - 1]), last.now, last.count, last.armed, last.threshold)
  }

  // The specification side looks only at the sequence of observations since StartIO at `start`.

  datatype Start = Start(now: UInt64, count: UInt64)

  function CountBefore(start: Start, looks: seq<Look>): UInt64 {
    if looks == [] then start.count else looks[|looks| - 1].count
  }

  predicate ChangesAt(start: Start, looks: seq<Look>, i: nat)
    requires i < |looks|
  {
    looks[i].count != if i == 0 then start.count else looks[i - 1].count
  }

  /** Host time of the last observation that differed from the one before it. */
  function LastChange(start: Start, looks: seq<Look>): UInt64 {
    if looks == [] then start.now
    else
      var last := |looks| - 1;
      if ChangesAt(start, looks, last) then looks[last].now else LastChange(start, looks[..last])
  }

  /** Poll i found the counter stale past that poll's threshold, its guards held, and the counter has
      not changed since. */
  ghost predicate TrippedAt(start: Start, looks: seq<Look>, i: nat)
    requires i < |looks|
  {
    && (forall k: nat | i <= k < |looks| :: !ChangesAt(start, looks, k))
    && looks[i].armed && looks[i].now - LastChange(start, looks) > looks[i].threshold
  }

  ghost predicate Tripped(start: Start, looks: seq<Look>) {
    exists i: nat | i < |looks| :: TrippedAt(start, looks, i)
  }

  /** Host time does not run backwards. */
  predicate Monotone(start: Start, looks: seq<Look>) {
    && (forall i | 0 <= i < |looks| :: start.now <= looks[i].now)
    && (forall i, j | 0 <= i < j < |looks| :: looks[i].now <= looks[j].now)
  }

  predicate Alternating(notices: seq<bool>) {
    forall i | 0 <= i < |notices| :: notices[i] == (i % 2 == 1)
  }

  /** How often the alive flag changes over a run of polls. */
  function Flips(w: Watch, looks: seq<Look>): nat {
    if looks == [] then 0
    else
      var front := looks[..|looks| - 1];
      Flips(w, front) + if Polls(w, looks).alive != Polls(w, front).alive then 1 else 0
  }

  lemma NoUnderflow(now: UInt64, last: UInt64)
    requires last <= now
    ensures Wrap64(now - last) == now - last
  {
    DivModUnique(now - last, TWO64, 0, now - last);
  }

  lemma {:induction false} LastChangeIsPast(start: Start, looks: seq<Look>)
    requires Monotone(start, looks)
    ensures start.now <= LastChange(start, looks)
    ensures looks != [] ==> LastChange(start, looks) <= looks[|looks| - 1].now
  {
    if looks != [] {
      LastChangeIsPast(start, looks[..|looks| - 1]);
    }
  }

  lemma ChangesInPrefix(start: Start, looks: seq<Look>, n: nat, k: nat)
    requires k < n <= |looks|
    ensures ChangesAt(start, looks[..n], k) <==> ChangesAt(start, looks, k)
  {
  }

  /** One more poll: a change resets, otherwise this poll may trip. */
  lemma TrippedStep(start: Start, looks: seq<Look>)
    requires looks != []
    ensures var last, front := |looks| - 1, looks[..|looks| - 1];
            Tripped(start, looks)
            <==> !ChangesAt(start, looks, last)
                 && (Tripped(start, front)
                     || (looks[last].armed && looks[last].now - LastChange(start, front) > looks[last].threshold))
  {
    var last, front := |looks| - 1, looks[..|looks| - 1];
    forall k: nat | k < last ensures ChangesAt(start, front, k) <==> ChangesAt(start, looks, k) {
      ChangesInPrefix(start, looks, last, k);
    }
    if Tripped(start, looks) {
      var i: nat :| i < |looks| && TrippedAt(start, looks, i);
      assert !ChangesAt(start, looks, last);
      if i < last {
        assert TrippedAt(start, front, i);
      }
    }
    if !ChangesAt(start, looks, last) {
      if Tripped(start, front) {
        var i: nat :| i < |front| && TrippedAt(start, front, i);
        assert TrippedAt(start, looks, i);
      }
      if looks[last].armed && looks[last].now - LastChange(start, front) > looks[last].threshold {
        assert TrippedAt(start, looks, last);
      }
    }
  }

  /** After any run of polls since StartIO, whatever was announced before it: the device is dead exactly
      when some poll with its guards holding found the counter stale past that poll's threshold and the
      counter has not changed since; the host was told of every flip once, alternately, "died" first. */
  lemma {:induction false} AliveIffRecentChange(start: Start, looks: seq<Look>, earlier: seq<bool>)
    requires start.now != 0 && Monotone(start, looks)
    ensures var w := Polls(Rearmed(start.count, start.now, earlier), looks);
            && w.lastCount == CountBefore(start, looks)
            && w.lastTime == LastChange(start, looks)
            && (w.alive <==> !Tripped(start, looks))
            && earlier <= w.notices && Alternating(w.notices[|earlier|..])
            && (w.alive <==> (|w.notices| - |earlier|) % 2 == 0)
            && |w.notices| - |earlier| == Flips(Rearmed(start.count, start.now, earlier), looks)
  {
    if looks != [] {
      var last := |looks| - 1;
      var front := looks[..last];
      AliveIffRecentChange(start, front, earlier);
      TrippedStep(start, looks);
      LastChangeIsPast(start, front);
      NoUnderflow(looks[last].now, LastChange(start, front));
      PollAppends(Polls(Rearmed(start.count, start.now, earlier), front), looks[last], earlier);
    }
  }

  lemma PollAppends(w: Watch, look: Look, earlier: seq<bool>)
    requires earlier <= w.notices && Alternating(w.notices[|earlier|..])
    requires w.alive <==> (|w.notices| - |earlier|) % 2 == 0
    ensures var u := Poll(w, look.now, look.count, look.armed, look.threshold);
            && earlier <= u.notices && Alternating(u.notices[|earlier|..])
            && (u.alive <==> (|u.notices| - |earlier|) % 2 == 0)
            && |u.notices| == |w.notices| + if u.alive != w.alive then 1 else 0
  {
    var u := Poll(w, look.now, look.count, look.armed, look.threshold);
    if u.notices != w.notices {
      assert u.notices[|earlier|..] == w.notices[|earlier|..] + [u.alive];
    }
  }

  /** With guards and threshold fixed: alive exactly when the counter changed within the threshold. */
  lemma SteadyThreshold(start: Start, looks: seq<Look>, threshold: nat)
    requires start.now != 0 && Monotone(start, looks) && looks != []
    requires forall i | 0 <= i < |looks| :: looks[i].armed && looks[i].threshold == threshold
    ensures Polls(Rearmed(start.count, start.now, []), looks).alive
            <==> looks[|looks| - 1].now - LastChange(start, looks) <= threshold
  {
    var last := |looks| - 1;
    AliveIffRecentChange(start, looks, []);
    LastChangeIsPast(start, looks);
    if looks[last].now - LastChange(start, looks) > threshold {
      ChangedNow(start, looks);
      assert TrippedAt(start, looks, last);
    }
  }

  lemma ChangedNow(start: Start, looks: seq<Look>)
    requires looks != []
    ensures ChangesAt(start, looks, |looks| - 1) ==> LastChange(start, looks) == looks[|looks| - 1].now
  {
  }

  /** While a guard fails the watchdog never fires. */
  lemma {:induction false} DisarmedNeverFires(start: Start, looks: seq<Look>)
    requires forall i | 0 <= i < |looks| :: !looks[i].armed
    ensures var w := Polls(Rearmed(start.count, start.now, []), looks);
            w.alive && w.notices == []
  {
    if looks != [] {
      DisarmedNeverFires(start, looks[..|looks| - 1]);
    }
  }

  /** The daemon's shutdown store of 0 does not trip the watchdog at once: the first poll after it finds
      the device dead only if the counter already read 0 and was or had been found stale. */
  lemma ShutdownStoreIsAChange(start: Start, looks: seq<Look>, look: Look)
    requires start.now != 0 && Monotone(start, looks + [look]) && look.count == 0
    ensures var w := Polls(Rearmed(start.count, start.now, []), looks + [look]);
            w.alive <==> CountBefore(start, looks) != 0
                         || !(Tripped(start, looks)
                              || (look.armed && look.now - LastChange(start, looks) > look.threshold))
  {
    var all := looks + [look];
    assert all[..|looks|] == looks;
    AliveIffRecentChange(start, all, []);
    TrippedStep(start, all);
  }

  // Runs with starts in them.

  /** What reaches the watchdog: a poll, or a start that `_HW_StartIO` carries out. */
  datatype Event = Polled(look: Look) | Started(now: UInt64, count: UInt64)

  function After(w: Watch, e: Event): Watch {
    match e
    case Polled(look) => Poll(w, look.now, look.count, look.armed, look.threshold)
    case Started(now, count) => Rearmed(count, now, w.notices)
  }

  function Watched(w: Watch, events: seq<Event>): Watch {
    if events == [] then w else After(Watched(w, events[..|events| - 1]), events[|events| - 1])
  }

  lemma {:induction false} WatchedConcat(w: Watch, a: seq<Event>, b: seq<Event>)
    ensures Watched(w, a + b) == Watched(Watched(w, a), b)
  {
    if b == [] {
      assert a + b == a;
    } else {
      assert (a + b)[..|a + b| - 1] == a + b[..|b| - 1];
      WatchedConcat(w, a, b[..|b| - 1]);
    }
  }

  /** The guard of the branch that declares the device dead. */
  predicate Trips(w: Watch, e: Event) {
    && e.Polled? && e.look.count == w.lastCount && w.alive && e.look.armed
    && w.lastTime != 0 && Wrap64(e.look.now - w.lastTime) > e.look.threshold
  }

  /** Event i is a start that finds the device dead: the host is not told that it lives again. */
  predicate RevivesAt(w: Watch, events: seq<Event>, i: nat)
    requires i < |events|
  {
    events[i].Started? && !Watched(w, events[..i]).alive
  }

  predicate TripsAt(w: Watch, events: seq<Event>, k: nat)
    requires k < |events|
  {
    Trips(Watched(w, events[..k]), events[k])
  }

  predicate Revived(w: Watch, events: seq<Event>) {
    exists i: nat | i < |events| :: RevivesAt(w, events, i)
  }

  /** A poll trips after a start that found the device dead. */
  predicate DiesAfterRevival(w: Watch, events: seq<Event>) {
    exists i: nat, k: nat | i < k < |events| :: RevivesAt(w, events, i) && TripsAt(w, events, k)
  }

  lemma RevivedStep(w: Watch, events: seq<Event>, e: Event)
    ensures Revived(w, events + [e]) <==> Revived(w, events) || (e.Started? && !Watched(w, events).alive)
  {
    var all := events + [e];
    assert all[..|events|] == events;
    forall i: nat | i < |events| ensures RevivesAt(w, all, i) <==> RevivesAt(w, events, i) {
      assert all[..i] == events[..i];
    }
    assert RevivesAt(w, all, |events|) <==> e.Started? && !Watched(w, events).alive;
  }

  lemma DiesAfterRevivalStep(w: Watch, events: seq<Event>, e: Event)
    ensures DiesAfterRevival(w, events + [e])
            <==> DiesAfterRevival(w, events) || (Revived(w, events) && Trips(Watched(w, events), e))
  {
    var all, last := events + [e], |events|;
    assert all[..last] == events;
    forall i: nat | i < last
      ensures RevivesAt(w, all, i) <==> RevivesAt(w, events, i)
      ensures TripsAt(w, all, i) <==> TripsAt(w, events, i)
    {
      assert all[..i] == events[..i];
    }
    assert TripsAt(w, all, last) <==> Trips(Watched(w, events), e);
    if DiesAfterRevival(w, events) {
      var i: nat, k: nat :| i < k < last && RevivesAt(w, events, i) && TripsAt(w, events, k);
      assert RevivesAt(w, all, i) && TripsAt(w, all, k);
    }
    if Revived(w, events) && Trips(Watched(w, events), e) {
      var i: nat :| i < last && RevivesAt(w, events, i);
      assert RevivesAt(w, all, i) && TripsAt(w, all, last);
    }
  }

  /** Over any run of polls and starts, at any times: the host is told of deaths and revivals alternately,
      "died" first, exactly when no poll trips after a start that found the device dead. Without such a
      start the parity of the notices tells whether the device is alive. */
  lemma {:induction false} AlternatesExactly(w: Watch, events: seq<Event>)
    requires w.alive && w.notices == []
    ensures var t := Watched(w, events);
            && (Alternating(t.notices) <==> !DiesAfterRevival(w, events))
            && (!Revived(w, events) ==> (t.alive <==> |t.notices| % 2 == 0))
            && (Revived(w, events) && !DiesAfterRevival(w, events) ==> t.alive && |t.notices| % 2 == 1)
  {
    if events != [] {
      var front, e := events[..|events| - 1], events[|events| - 1];
      assert events == front + [e];
      AlternatesExactly(w, front);
      RevivedStep(w, front, e);
      DiesAfterRevivalStep(w, front, e);
      AlternatesMore(Watched(w, front).notices, Watched(w, events).alive);
    }
  }

  lemma AlternatesMore(notices: seq<bool>, alive: bool)
    ensures Alternating(notices + [alive]) <==> Alternating(notices) && (alive <==> |notices| % 2 == 1)
  {
    if Alternating(notices + [alive]) {
      forall i | 0 <= i < |notices| ensures notices[i] == (i % 2 == 1) {
        assert (notices + [alive])[i] == notices[i];
      }
      assert (notices + [alive])[|notices|] == alive;
    }
  }

  /** That does happen: a death, a start, and a second death, announced as two deaths in a row. */
  lemma SilentRearm(count: UInt64, start: UInt64, again: UInt64, threshold: nat)
    requires 0 < start && start + threshold + 1 <= again && again + threshold + 1 < TWO64
    ensures var w := Rearmed(count, start, []);
            var events := [Polled(Look(start + threshold + 1, count, true, threshold)), Started(again, count),
                           Polled(Look(again + threshold + 1, count, true, threshold))];
            Watched(w, events).notices == [false, false] && DiesAfterRevival(w, events)
  {
    var w := Rearmed(count, start, []);
    var events := [Polled(Look(start + threshold + 1, count, true, threshold)), Started(again, count),
                   Polled(Look(again + threshold + 1, count, true, threshold))];
    NoUnderflow(start + threshold + 1, start);
    NoUnderflow(again + threshold + 1, again);
    assert events[..0] == [] && events[..1] == [events[0]] && events[..2] == [events[0], events[1]];
    assert Watched(w, events[..0]) == w;
    assert Watched(w, events[..1]) == After(w, events[0]) by { assert events[..1][..0] == []; }
    assert Watched(w, events[..2]) == After(After(w, events[0]), events[1]) by {
      assert events[..2][..1] == events[..1];
    }
    assert RevivesAt(w, events, 1) && TripsAt(w, events, 2);
  }
}
