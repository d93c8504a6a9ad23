/** The HAL anchor seqlock: the driver publishes six words per cycle (SA_Device.cpp
    `BeginIOOperation`), the daemon takes a snapshot with a retry loop (JackBridge.cpp
    `check_progress`). Every load and store is one step. */
module Seqlock {
  import opened Arithmetic

  const FIELDS: nat := 6

  /** `count` is the number of stores made to the sequence word, whose value is that number modulo
      2^64; `published[p]` is what publication p made visible, publication 0 being what was there. */
  datatype Writer = Quiet | Filling(next: nat, values: seq<UInt64>)

  /** A snapshot attempt: the sequence word read first (when `count` was `since`), then some of the
      fields in the order wanted. `accepted` lists the snapshots taken so far, each with the number of
      the publication current when the attempt began. */
  datatype Reader = Resting | Reading(s1: UInt64, since: nat, got: seq<UInt64>)

  datatype Snapshot = Snapshot(publication: nat, wanted: seq<nat>, values: seq<UInt64>)

  datatype State = State(count: nat, fields: seq<UInt64>, published: seq<seq<UInt64>>,
                         writer: Writer, reader: Reader, wanted: seq<nat>, accepted: seq<Snapshot>)
  {
    function Word(): UInt64 {
      Wrap64(count)
    }
  }

  datatype Action =
    | Publish(values: seq<UInt64>)  // writer: bump the word to odd
    | StoreField                    // writer: next field
    | Finish                        // writer: bump the word to even
    | LoadFirst(wanted: seq<nat>)   // reader: s1, and the fields this attempt will read
    | LoadField                     // reader: next wanted field
    | LoadSecond                    // reader: s2, then accept or retry

  predicate Usable(wanted: seq<nat>) {
    forall i | 0 <= i < |wanted| :: wanted[i] < FIELDS
  }

  /** The reader's loop exit: s1 is even and s2 equals it. */
  predicate Accepts(s1: UInt64, s2: UInt64) {
    !(s1 % 2 == 1 || s1 != s2)
  }

  function Step(s: State, a: Action): State
    requires Inv(s)
  {
    match a
    case Publish(values) =>
      if s.writer.Quiet? && |values| == FIELDS
      then s.(count := s.count + 1, writer := Filling(0, values)) else s
    case StoreField =>
      if s.writer.Filling? && s.writer.next < FIELDS
      then s.(fields := s.fields[s.writer.next := s.writer.values[s.writer.next]],
              writer := s.writer.(next := s.writer.next + 1))
      else s
    case Finish =>
      if s.writer.Filling? && s.writer.next == FIELDS
      then s.(count := s.count + 1, published := s.published + [s.writer.values], writer := Quiet)
      else s
    case LoadFirst(wanted) =>
      if s.reader.Resting? && Usable(wanted)
      then s.(reader := Reading(s.Word(), s.count, []), wanted := wanted) else s
    case LoadField =>
      if s.reader.Reading? && |s.reader.got| < |s.wanted|
      then s.(reader := s.reader.(got := s.reader.got + [s.fields[s.wanted[|s.reader.got|]]]))
      else s
    case LoadSecond =>
      if !s.reader.Reading? || |s.reader.got| < |s.wanted| then s
      else if Accepts(s.reader.s1, s.Word())
      then s.(reader := Resting,
              accepted := s.accepted + [Snapshot(s.reader.since / 2, s.wanted, s.reader.got)])
      else s.(reader := Resting)
  }

  /** The word is even exactly between publications, and then the fields are those of the latest. */
  ghost predicate WriterInv(s: State) {
    && |s.fields| == FIELDS && 0 < |s.published|
    && (forall p | 0 <= p < |s.published| :: |s.published[p]| == FIELDS)
    && match s.writer
       case Quiet => s.count == 2 * (|s.published| - 1) && s.fields == s.published[|s.published| - 1]
       case Filling(next, values) =>
         && s.count == 2 * (|s.published| - 1) + 1 && |values| == FIELDS && next <= FIELDS
         && forall f | 0 <= f < FIELDS ::
              s.fields[f] == if f < next then values[f] else s.published[|s.published| - 1][f]
  }

  /** What an attempt has read is consistent as long as the writer has not moved since it began. */
  ghost predicate ReaderInv(s: State)
    requires WriterInv(s)
  {
    && Usable(s.wanted)
    && (s.reader.Reading? ==>
          && s.reader.s1 == Wrap64(s.reader.since) && s.reader.since <= s.count
          && |s.reader.got| <= |s.wanted|
          && (s.reader.since == s.count && s.count % 2 == 0 ==>
                forall i | 0 <= i < |s.reader.got| :: s.reader.got[i] == s.published[s.count / 2][s.wanted[i]]))
  }

  ghost predicate Inv(s: State) {
    WriterInv(s) && ReaderInv(s)
  }

  lemma StepKeepsInv(s: State, a: Action)
    requires Inv(s)
    ensures Inv(Step(s, a))
    ensures s.published <= Step(s, a).published && s.count <= Step(s, a).count
  {
  }

  /** Fewer than 2^63 publications complete while a snapshot attempt is under way. */
  ghost predicate Bounded(s: State) {
    s.reader.Reading? ==> s.count - s.reader.since < TWO64
  }

  /** A snapshot holds values of one publication only. */
  ghost predicate Consistent(published: seq<seq<UInt64>>, n: Snapshot) {
    && n.publication < |published| && |n.values| == |n.wanted|
    && forall i | 0 <= i < |n.wanted| ::
         n.wanted[i] < |published[n.publication]| && n.values[i] == published[n.publication][n.wanted[i]]
  }

  ghost predicate AllConsistent(s: State) {
    && (forall k | 0 <= k < |s.accepted| :: Consistent(s.published, s.accepted[k]))
    && (forall j, k | 0 <= j < k < |s.accepted| :: s.accepted[j].publication <= s.accepted[k].publication)
    && (forall k | 0 <= k < |s.accepted| ::
          s.accepted[k].publication <= if s.reader.Reading? then s.reader.since / 2 else s.count / 2)
  }

  /** The word tells two moments apart while it has not gone all the way round. */
  lemma WordIsFaithful(since: nat, now: nat)
    requires since <= now < since + TWO64
    ensures Wrap64(since) == Wrap64(now) <==> since == now
    ensures Wrap64(since) % 2 == since % 2
  {
    ModEqual(now, since, TWO64);
    DivModUnique(now - since, TWO64, 0, now - since);
    ModOfWrap(since, 2);
  }

  lemma AcceptedWords(since: nat, now: nat)
    requires since <= now < since + TWO64
    ensures Accepts(Wrap64(since), Wrap64(now)) <==> since == now && now % 2 == 0
  {
    WordIsFaithful(since, now);
  }

  lemma QuietIsEven(s: State)
    requires WriterInv(s)
    ensures s.writer.Quiet? <==> s.count % 2 == 0
  {
  }

  /** An attempt that has loaded what it wanted is accepted if and only if the word was not stored to
      since its first load and no publication was under way then; otherwise it takes nothing and retries. */
  lemma AcceptsExactly(s: State)
    requires Inv(s) && Bounded(s) && s.reader.Reading? && |s.reader.got| == |s.wanted|
    ensures var t, taken := Step(s, LoadSecond), Snapshot(s.count / 2, s.wanted, s.reader.got);
            && t.reader == Resting && s.wanted == t.wanted
            && t.accepted
               == (if s.reader.since == s.count && s.writer.Quiet? then s.accepted + [taken] else s.accepted)
            && (t.accepted != s.accepted ==> Consistent(s.published, taken))
  {
    QuietIsEven(s);
    AcceptedWords(s.reader.since, s.count);
  }

  lemma StepKeepsSnapshots(s: State, a: Action)
    requires Inv(s) && Bounded(s) && AllConsistent(s)
    ensures AllConsistent(Step(s, a))
  {
    if a.LoadSecond? && s.reader.Reading? {
      WordIsFaithful(s.reader.since, s.count);
    }
  }

  function Run(s: State, acts: seq<Action>): (t: State)
    requires Inv(s)
    ensures Inv(t)
  {
    if acts == [] then s
    else
      var t := Run(s, acts[..|acts| - 1]);
      StepKeepsInv(t, acts[|acts| - 1]);
      Step(t, acts[|acts| - 1])
  }

  // What a run publishes and accepts, read off the schedule alone, from a quiet writer and a resting reader.

  datatype Writing = Between | Storing(values: seq<UInt64>, stored: nat)

  /** Which publication is under way, with the values it was given and the number of stores made. */
  function WritingAfter(acts: seq<Action>): Writing {
    if acts == [] then Between
    else
      var before, a := WritingAfter(acts[..|acts| - 1]), acts[|acts| - 1];
      if before.Between? then (if a.Publish? && |a.values| == FIELDS then Storing(a.values, 0) else Between)
      else if a.StoreField? && before.stored < FIELDS then before.(stored := before.stored + 1)
      else if a.Finish? && before.stored == FIELDS then Between
      else before
  }

  /** The values given to the publications that were finished, in order. */
  function Publications(acts: seq<Action>): seq<seq<UInt64>> {
    if acts == [] then []
    else
      var front := acts[..|acts| - 1];
      var w := WritingAfter(front);
      Publications(front) + if acts[|acts| - 1].Finish? && w.Storing? && w.stored == FIELDS then [w.values] else []
  }

  /** `undisturbed`: no publication was under way at the first load, and none has begun since. */
  datatype Attempt = NoAttempt | Loading(wanted: seq<nat>, loaded: nat, undisturbed: bool)

  /** The attempt under way, with the fields it was told to read. */
  function AttemptAfter(acts: seq<Action>): Attempt {
    if acts == [] then NoAttempt
    else
      var front, a := acts[..|acts| - 1], acts[|acts| - 1];
      var before := AttemptAfter(front);
      if before.NoAttempt? then
        if a.LoadFirst? && Usable(a.wanted) then Loading(a.wanted, 0, WritingAfter(front).Between?) else NoAttempt
      else if a.LoadField? && before.loaded < |before.wanted| then before.(loaded := before.loaded + 1)
      else if a.LoadSecond? && before.loaded == |before.wanted| then NoAttempt
      else if WritingAfter(front).Between? && WritingAfter(acts).Storing? then before.(undisturbed := false)
      else before
  }

  ghost predicate WriterFollows(s: State, t: State, acts: seq<Action>)
    requires Inv(t)
  {
    && t.published == s.published + Publications(acts)
    && match WritingAfter(acts)
       case Between => t.writer.Quiet?
       case Storing(values, stored) => t.writer == Filling(stored, values)
  }

  ghost predicate ReaderFollows(t: State, acts: seq<Action>)
    requires Inv(t)
  {
    match AttemptAfter(acts)
    case NoAttempt => t.reader.Resting?
    case Loading(wanted, loaded, undisturbed) =>
      && t.reader.Reading? && t.wanted == wanted && |t.reader.got| == loaded
      && (undisturbed <==> t.reader.since == t.count && t.writer.Quiet?)
  }

  lemma WriterStep(s: State, t: State, acts: seq<Action>, a: Action)
    requires Inv(s) && Inv(t) && WriterFollows(s, t, acts)
    ensures Inv(Step(t, a)) && WriterFollows(s, Step(t, a), acts + [a])
  {
    assert (acts + [a])[..|acts|] == acts;
    StepKeepsInv(t, a);
    assert s.published + (Publications(acts) + []) == s.published + Publications(acts);
  }

  lemma {:induction false} WriterIsScheduled(s: State, acts: seq<Action>)
    requires Inv(s) && s.writer.Quiet?
    ensures WriterFollows(s, Run(s, acts), acts)
  {
    if acts != [] {
      var front := acts[..|acts| - 1];
      assert acts == front + [acts[|front|]];
      WriterIsScheduled(s, front);
      WriterStep(s, Run(s, front), front, acts[|front|]);
    }
  }

  lemma ReaderStep(s: State, t: State, acts: seq<Action>, a: Action)
    requires Inv(s) && Inv(t) && WriterFollows(s, t, acts) && ReaderFollows(t, acts)
    ensures Inv(Step(t, a)) && ReaderFollows(Step(t, a), acts + [a])
  {
    assert (acts + [a])[..|acts|] == acts;
    StepKeepsInv(t, a);
  }

  lemma {:induction false} ReaderIsScheduled(s: State, acts: seq<Action>)
    requires Inv(s) && s.writer.Quiet? && s.reader.Resting?
    ensures ReaderFollows(Run(s, acts), acts)
  {
    if acts != [] {
      var front := acts[..|acts| - 1];
      assert acts == front + [acts[|front|]];
      ReaderIsScheduled(s, front);
      WriterIsScheduled(s, front);
      ReaderStep(s, Run(s, front), front, acts[|front|]);
    }
  }

  /** What an attempt takes, in every interleaving: it is accepted exactly if no publication was under way
      or began while it lasted, and then each of its values is the one that the latest finished
      publication was given for the field wanted. */
  lemma SnapshotIsLatestPublication(s: State, acts: seq<Action>)
    requires Inv(s) && s.writer.Quiet? && s.reader.Resting? && Bounded(Run(s, acts))
    requires AttemptAfter(acts).Loading? && AttemptAfter(acts).loaded == |AttemptAfter(acts).wanted|
    ensures var t, attempt, all := Run(s, acts), AttemptAfter(acts), s.published + Publications(acts);
            var accepted := Step(t, LoadSecond).accepted;
            if !attempt.undisturbed then accepted == t.accepted
            else
              && |accepted| == |t.accepted| + 1 && t.accepted <= accepted
              && var n := accepted[|t.accepted|];
                 && n.publication == |all| - 1 && n.wanted == attempt.wanted && Consistent(all, n)
  {
    WriterIsScheduled(s, acts);
    ReaderIsScheduled(s, acts);
    AcceptsExactly(Run(s, acts));
  }

  ghost predicate BoundedThroughout(s: State, acts: seq<Action>)
    requires Inv(s)
  {
    forall k: nat | k <= |acts| :: Bounded(Run(s, acts[..k]))
  }

  /** In every interleaving, from a quiet writer and a reader that has accepted nothing: what is published
      are the values given to the finished publications, in order; each accepted snapshot, of whatever
      fields, holds values of exactly the publication its number names; and these numbers never go back. */
  lemma {:induction false} SnapshotsAreConsistent(s: State, acts: seq<Action>)
    requires Inv(s) && s.writer.Quiet? && s.accepted == [] && s.reader.Resting? && BoundedThroughout(s, acts)
    ensures var t := Run(s, acts);
            t.published == s.published + Publications(acts) && AllConsistent(t)
  {
    WriterIsScheduled(s, acts);
    if acts != [] {
      var front := acts[..|acts| - 1];
      forall k: nat | k <= |front| ensures Bounded(Run(s, front[..k])) {
        assert front[..k] == acts[..k];
      }
      assert front[..|front|] == front;
      SnapshotsAreConsistent(s, front);
      StepKeepsSnapshots(Run(s, front), acts[|acts| - 1]);
    }
  }
}
