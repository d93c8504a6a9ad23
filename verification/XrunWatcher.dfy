/** pi/bin/jackbridge-xrun-watcher: a circular array of fifteen per-minute counts, and the file that
    shows them, against the full history of matching log lines. Times are seconds since the epoch. */
module XrunWatcher {
  const N_BUCKETS := 15

  /** One line of the file: the second a minute starts at, and its count. */
  datatype Row = Row(epoch: int, count: int)

  /** What select and readline produce in one iteration. */
  datatype Input = Quiet | Line(matches: bool) | Eof

  datatype Event = Event(now: real, input: Input)

  /** A file written at `at`, when `lines` had been handled. */
  datatype Written = Written(at: real, lines: seq<int>, rows: seq<Row>)

  function Minute(now: real): int {
    now.Floor / 60
  }

  /** The minutes of all matching lines handled, up to the end of the log. */
  function Matches(events: seq<Event>): seq<int> {
    if events == [] then []
    else
      var before, last := events[..|events| - 1], events[|events| - 1];
      Matches(before) + if !Ended(before) && last.input == Line(true) then [Minute(last.now)] else []
  }

  predicate InTurn(events: seq<Event>, i: nat)
    requires i < |events|
  {
    0 < i ==> Minute(events[i - 1].now) <= Minute(events[i].now)
  }

  /** The clock shows no earlier minute than before. */
  ghost predicate NeverBack(events: seq<Event>) {
    forall i: nat | i < |events| :: InTurn(events, i)
  }

  predicate Ended(events: seq<Event>) {
    exists i | 0 <= i < |events| :: events[i].input.Eof?
  }

  ghost function CountIn(history: seq<int>, m: int): int {
    multiset(history)[m]
  }

  /** The last fifteen minutes, oldest first. */
  ghost function Rendering(history: seq<int>, minute: int): seq<Row> {
    seq(N_BUCKETS, i => Row((minute - (N_BUCKETS - 1) + i) * 60, CountIn(history, minute - (N_BUCKETS - 1) + i)))
  }

  /** Each of the last fifteen minutes has its count in its bucket, and no line is from the future. */
  ghost predicate Agrees(buckets: seq<int>, history: seq<int>, minute: int) {
    && |buckets| == N_BUCKETS
    && (forall m | minute - N_BUCKETS < m <= minute :: buckets[m % N_BUCKETS] == CountIn(history, m))
    && forall h | h in history :: h <= minute
  }

  /** Minutes of one window have buckets of their own. */
  lemma OwnBuckets(m: int, k: int)
    requires -N_BUCKETS < m - k < N_BUCKETS && m != k
    ensures m % N_BUCKETS != k % N_BUCKETS
  {
  }

  lemma NextMinute(buckets: seq<int>, history: seq<int>, minute: int)
    requires Agrees(buckets, history, minute)
    ensures Agrees(buckets[(minute + 1) % N_BUCKETS := 0], history, minute + 1)
  {
    forall m | minute + 1 - N_BUCKETS < m <= minute + 1
      ensures buckets[(minute + 1) % N_BUCKETS := 0][m % N_BUCKETS] == CountIn(history, m) {
      if m == minute + 1 {
        assert m !in history;
      } else {
        OwnBuckets(m, minute + 1);
      }
    }
  }

  lemma OneMoreMatch(buckets: seq<int>, history: seq<int>, minute: int)
    requires Agrees(buckets, history, minute)
    ensures Agrees(buckets[minute % N_BUCKETS := buckets[minute % N_BUCKETS] + 1], history + [minute], minute)
  {
    var next := buckets[minute % N_BUCKETS := buckets[minute % N_BUCKETS] + 1];
    forall m | minute - N_BUCKETS < m <= minute ensures next[m % N_BUCKETS] == CountIn(history + [minute], m) {
      if m != minute {
        OwnBuckets(m, minute);
      }
    }
  }

  /** Event i is the iteration in which the file was written: the file shows the fifteen minutes up to
      its own, counting exactly the matching lines of the events so far. */
  ghost predicate WrittenAt(w: Written, events: seq<Event>, i: nat)
    requires i < |events|
  {
    w.at == events[i].now && w.lines == Matches(events[..i + 1])
  }

  ghost predicate Truthful(w: Written, events: seq<Event>) {
    exists i: nat | i < |events| :: WrittenAt(w, events, i)
  }

  ghost predicate AllTruthful(log: seq<Written>, events: seq<Event>) {
    forall i | 0 <= i < |log| :: Truthful(log[i], events)
  }

  lemma TruthfulLater(w: Written, events: seq<Event>, more: seq<Event>)
    requires Truthful(w, events)
    ensures Truthful(w, events + more)
  {
    var i: nat :| i < |events| && WrittenAt(w, events, i);
    assert (events + more)[..i + 1] == events[..i + 1];
    assert WrittenAt(w, events + more, i);
  }

  /** What the first n events come to: the matching lines, the files, and whether the log has ended. */
  ghost predicate Handled(input: seq<Event>, n: nat, lines: seq<int>, log: seq<Written>, stop: bool) {
    n <= |input| && lines == Matches(input[..n]) && AllTruthful(log, input[..n]) && (stop <==> Ended(input[..n]))
  }

  /** One event more, and perhaps one file. */
  lemma NextHandled(input: seq<Event>, n: nat, lines: seq<int>, log: seq<Written>,
                    nextLines: seq<int>, next: seq<Written>, rows: seq<Row>)
    requires Handled(input, n, lines, log, false) && n < |input|
    requires nextLines == lines + if input[n].input == Line(true) then [Minute(input[n].now)] else []
    requires next == log || next == log + [Written(input[n].now, nextLines, rows)]
    ensures Handled(input, n + 1, nextLines, next, input[n].input.Eof?)
  {
    var all := input[..n + 1];
    assert all == input[..n] + [input[n]];
    OneMoreEvent(input[..n], input[n]);
    forall i | 0 <= i < |next| ensures Truthful(next[i], all) {
      if i < |log| {
        assert next[i] == log[i];
        TruthfulLater(log[i], input[..n], [input[n]]);
      } else {
        assert all[..n + 1] == all;
        assert WrittenAt(next[i], all, n);
      }
    }
  }

  lemma AllHandled(input: seq<Event>, n: nat, lines: seq<int>, log: seq<Written>, stop: bool)
    requires Handled(input, n, lines, log, stop) && (n == |input| || stop)
    ensures lines == Matches(input)
  {
    if n == |input| {
      assert input[..n] == input;
    } else {
      NothingAfterEof(input, n);
    }
  }

  ghost predicate Punctual(dirty: bool, lastFlush: real, file: seq<Row>, log: seq<Written>) {
    && (forall i | 0 < i < |log| :: log[i].at - log[i - 1].at >= 1.0)
    && (log == [] ==> lastFlush == 0.0 && dirty)
    && (log != [] ==> lastFlush == log[|log| - 1].at && file == log[|log| - 1].rows)
  }

  ghost predicate Right(log: seq<Written>) {
    forall i | 0 <= i < |log| :: log[i].rows == Rendering(log[i].lines, Minute(log[i].at))
  }

  class Watcher {
    const buckets: array<int>
    var curMin: int
    var dirty: bool
    var lastFlush: real
    var file: seq<Row>             // what the file holds
    ghost var log: seq<Written>    // every file written, in order
    ghost var history: seq<int>    // the minutes of the matching lines handled

    ghost predicate Counted()
      reads this`curMin, this`history, buckets
    {
      buckets.Length == N_BUCKETS && Agrees(buckets[..], history, curMin)
    }

    /** The counts agree with the history, a clean watcher's file is up to date, and files are written
        at least a second apart, each right for the lines handled by then. */
    ghost predicate Valid()
      reads this`curMin, this`dirty, this`lastFlush, this`file, this`log, this`history, buckets
    {
      && Counted() && Punctual(dirty, lastFlush, file, log) && Right(log)
      && (!dirty ==> file == Rendering(history, curMin))
    }

    constructor (now: real)
      ensures Valid() && fresh(buckets) && curMin == Minute(now) && dirty && history == [] && log == []
    {
      buckets := new int[N_BUCKETS](_ => 0);
      curMin := Minute(now);
      dirty := true;
      lastFlush := 0.0;
      file := [];
      log := [];
      history := [];
    }

    method WriteFile() returns (rows: seq<Row>)
      requires Counted()
      ensures rows == Rendering(history, curMin)
    {
      rows := [];
      for i := 0 to N_BUCKETS
        invariant rows == Rendering(history, curMin)[..i]
      {
        var m := curMin - (N_BUCKETS - 1) + i;
        rows := rows + [Row(m * 60, buckets[m % N_BUCKETS])];
      }
    }

    /** Zero the buckets of the minutes crossed, however many. */
    method Advance(nowMin: int)
      requires Valid() && curMin <= nowMin
      modifies this`curMin, this`dirty, buckets
      ensures Valid() && curMin == nowMin
      ensures dirty == (old(dirty) || nowMin != old(curMin))
    {
      if nowMin != curMin {
        for m := curMin + 1 to nowMin + 1
          invariant Agrees(buckets[..], history, m - 1)
        {
          ghost var was := buckets[..];
          NextMinute(was, history, m - 1);
          buckets[m % N_BUCKETS] := 0;
          assert buckets[..] == was[m % N_BUCKETS := 0];
        }
        curMin := nowMin;
        dirty := true;
      }
    }

    method CountLine()
      requires Valid()
      modifies this`dirty, this`history, buckets
      ensures Valid() && dirty && history == old(history) + [curMin]
    {
      OneMoreMatch(buckets[..], history, curMin);
      ghost var was := buckets[..];
      var b := curMin % N_BUCKETS;
      buckets[b] := buckets[b] + 1;
      assert buckets[..] == was[b := was[b] + 1];
      dirty := true;
      history := history + [curMin];
    }

    method AdvanceAndCount(nowMin: int, matches: bool)
      requires Valid() && curMin <= nowMin
      modifies this`curMin, this`dirty, this`history, buckets
      ensures Valid() && curMin == nowMin && history == old(history) + if matches then [nowMin] else []
    {
      Advance(nowMin);
      if matches {
        CountLine();
      }
    }

    method Flush(now: real)
      requires Valid() && curMin == Minute(now)
      modifies this`dirty, this`lastFlush, this`file, this`log
      ensures Valid()
      ensures old(dirty) && now - old(lastFlush) >= 1.0 ==>
                && !dirty && lastFlush == now
                && log == old(log) + [Written(now, history, Rendering(history, curMin))]
      ensures !(old(dirty) && now - old(lastFlush) >= 1.0) ==>
                dirty == old(dirty) && lastFlush == old(lastFlush) && log == old(log)
    {
      if dirty && now - lastFlush >= 1.0 {
        file := WriteFile();
        log := log + [Written(now, history, file)];
        dirty := false;
        lastFlush := now;
      }
    }

    /** One iteration of the loop. */
    method Iterate(e: Event) returns (stop: bool)
      requires Valid() && curMin <= Minute(e.now)
      modifies this, buckets
      ensures Valid() && curMin == Minute(e.now) && (stop <==> e.input.Eof?)
      ensures history == old(history) + if e.input == Line(true) then [Minute(e.now)] else []
      ensures log == old(log)
              || (!stop && e.now - old(lastFlush) >= 1.0
                  && log == old(log) + [Written(e.now, history, Rendering(history, curMin))])
      ensures !stop && dirty ==> e.now - lastFlush < 1.0
    {
      AdvanceAndCount(Minute(e.now), e.input == Line(true));
      stop := e.input.Eof?;
      if !stop {
        Flush(e.now);
      }
    }

    /** The loop has made n iterations. */
    ghost predicate After(input: seq<Event>, n: nat, stop: bool)
      reads this, buckets
    {
      && Valid() && Handled(input, n, history, log, stop)
      && (n < |input| ==> curMin <= Minute(input[n].now))
      && (0 < n ==> curMin == Minute(input[n - 1].now))
      && (0 < n && !stop && dirty ==> input[n - 1].now - lastFlush < 1.0)
    }

    method Next(input: seq<Event>, n: nat) returns (stop: bool)
      requires n < |input| && NeverBack(input) && After(input, n, false)
      modifies this, buckets
      ensures After(input, n + 1, stop)
    {
      ghost var lines, files := history, log;
      stop := Iterate(input[n]);
      NextHandled(input, n, lines, files, history, log, Rendering(history, curMin));
      assert n + 1 < |input| ==> InTurn(input, n + 1);
    }

    /** The loop, on any events whose minutes do not go back: after it, the buckets agree with the lines
        handled, and every file written did with the lines handled by then. */
    method Watch(input: seq<Event>) returns (n: nat)
      requires Valid() && history == [] && log == []
      requires NeverBack(input) && (input != [] ==> curMin <= Minute(input[0].now))
      modifies this, buckets
      ensures Valid() && n <= |input| && (n == |input| || Ended(input[..n]))
      ensures history == Matches(input) && AllTruthful(log, input[..n])
      ensures 0 < n ==> curMin == Minute(input[n - 1].now)
      ensures 0 < n && !Ended(input[..n]) && dirty ==> input[n - 1].now - lastFlush < 1.0
    {
      n := 0;
      var stop := false;
      while n < |input| && !stop
        invariant n <= |input| && After(input, n, stop)
      {
        stop := Next(input, n);
        n := n + 1;
      }
      AllHandled(input, n, history, log, stop);
    }
  }

  lemma OneMoreEvent(events: seq<Event>, e: Event)
    requires !Ended(events)
    ensures Matches(events + [e]) == Matches(events) + if e.input == Line(true) then [Minute(e.now)] else []
    ensures Ended(events + [e]) <==> e.input.Eof?
  {
    assert (events + [e])[..|events|] == events;
    assert (events + [e])[|events|] == e;
  }

  lemma {:induction false} NothingAfterEof(events: seq<Event>, n: nat)
    requires n <= |events| && Ended(events[..n])
    ensures Matches(events) == Matches(events[..n])
    decreases |events|
  {
    if n == |events| {
      assert events[..n] == events;
    } else {
      var shorter := events[..|events| - 1];
      assert shorter[..n] == events[..n];
      NothingAfterEof(shorter, n);
      var i :| 0 <= i < n && events[..n][i].input.Eof?;
      assert shorter[i].input.Eof?;
    }
  }

  // What a file says about the log, in seconds.

  /** A minute is sixty seconds from its start. */
  lemma MinuteBrackets(now: real)
    ensures (Minute(now) * 60) as real <= now < (Minute(now) * 60 + 60) as real
  {
  }

  /** Matching lines handled in the minute that begins at second `epoch`. */
  function LinesIn(events: seq<Event>, epoch: int): nat {
    if events == [] then 0
    else
      var before, e := events[..|events| - 1], events[|events| - 1];
      LinesIn(before, epoch)
      + if !Ended(before) && e.input == Line(true) && epoch as real <= e.now < (epoch + 60) as real then 1 else 0
  }

  lemma {:induction false} CountIsLinesIn(events: seq<Event>, m: int)
    ensures CountIn(Matches(events), m) == LinesIn(events, m * 60)
  {
    if events != [] {
      var before, e := events[..|events| - 1], events[|events| - 1];
      CountIsLinesIn(before, m);
      MinuteBrackets(e.now);
      InMinute(e.now, m);
    }
  }

  lemma InMinute(now: real, m: int)
    ensures Minute(now) == m <==> (m * 60) as real <= now < (m * 60 + 60) as real
  {
    MinuteBrackets(now);
    var k := Minute(now);
    if (m * 60) as real <= now < (m * 60 + 60) as real {
      assert k * 60 < m * 60 + 60 && m * 60 < k * 60 + 60;
    }
  }

  /** A file written after these events: fifteen rows a minute apart, the last one the minute of writing,
      each with the number of matching lines handled within its sixty seconds. */
  lemma FileShowsTheLog(events: seq<Event>, now: real)
    ensures var rows := Rendering(Matches(events), Minute(now));
            && |rows| == 15
            && rows[14].epoch as real <= now < (rows[14].epoch + 60) as real
            && (forall i | 0 <= i < 14 :: rows[i + 1].epoch == rows[i].epoch + 60)
            && forall i | 0 <= i < 15 :: rows[i].count == LinesIn(events, rows[i].epoch)
  {
    MinuteBrackets(now);
    var first := Minute(now) - (N_BUCKETS - 1);
    forall i | 0 <= i < 15
      ensures Rendering(Matches(events), Minute(now))[i].count == LinesIn(events, (first + i) * 60)
    {
      CountIsLinesIn(events, first + i);
    }
  }
}
