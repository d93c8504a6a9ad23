/** tools/stress_atomic.cpp: one producer and one consumer over a shared region, every cell access one
    step. The producer writes a mirrored word, fills a buffer and then publishes a sequence number. */
module StressTest {
  import opened Arithmetic

  /** The producer is in iteration `i` (or done); `filled` cells of this iteration are written. */
  datatype Producer = Mirroring(i: nat) | Filling(i: nat, filled: nat) | Finished

  /** The consumer has loaded m, then s, then is scanning the buffer from cell `k`. */
  datatype Consumer = LoadMirrored | LoadSeq(m: nat) | Scanning(m: nat, s: nat, k: nat) | Exited(code: nat)

  datatype State = State(mirrored: UInt64, seqNumber: UInt64, buffer: seq<UInt64>,
                         producer: Producer, consumer: Consumer,
                         lastMirrored: nat, lastSeq: nat, torn: nat, pairViolations: nat)

  datatype Action = Produce | Consume

  /** (i << 32) | (i & 0xffffffff), as a 64-bit word. */
  function Mirror(i: nat): UInt64 {
    Wrap64((i % TWO32) * TWO32 + i % TWO32)
  }

  function Produced(s: State, iterations: nat): State {
    match s.producer
    case Mirroring(i) =>
      if i > iterations then s.(producer := Finished)
      else s.(mirrored := Mirror(i), producer := Filling(i, 0))
    case Filling(i, k) =>
      if k < |s.buffer| then s.(buffer := s.buffer[k := Wrap64(i)], producer := Filling(i, k + 1))
      else s.(seqNumber := Wrap64(i), producer := Mirroring(i + 1))
    case Finished => s
  }

  function ExitCode(s: State): nat {
    if s.torn > 0 || s.pairViolations > 0 then 3 else 0
  }

  /** End of a consumer iteration. */
  function NextIteration(s: State, m: nat, n: nat, iterations: nat): State {
    var t := s.(lastSeq := n, consumer := LoadMirrored);
    if n >= iterations && m >= Mirror(iterations) then t.(consumer := Exited(ExitCode(t))) else t
  }

  function Consumed(s: State, iterations: nat): State {
    match s.consumer
    case LoadMirrored =>
      var m := s.mirrored;
      var t := if m / TWO32 != m % TWO32 then s.(torn := s.torn + 1) else s;
      if m < s.lastMirrored then t.(consumer := Exited(2))
      else t.(lastMirrored := m, consumer := LoadSeq(m))
    case LoadSeq(m) =>
      var n := s.seqNumber;
      if n < s.lastSeq then s.(consumer := Exited(2))
      else if n > 0 then s.(consumer := Scanning(m, n, 0))
      else NextIteration(s, m, n, iterations)
    case Scanning(m, n, k) =>
      if k < |s.buffer| && s.buffer[k] < n
      then NextIteration(s.(pairViolations := s.pairViolations + 1), m, n, iterations)
      else if k < |s.buffer| then s.(consumer := Scanning(m, n, k + 1))
      else NextIteration(s, m, n, iterations)
    case Exited(_) => s
  }

  function Step(s: State, a: Action, iterations: nat): State {
    if a.Produce? then Produced(s, iterations) else Consumed(s, iterations)
  }

  function Run(s: State, acts: seq<Action>, iterations: nat): State {
    if acts == [] then s else Step(Run(s, acts[..|acts| - 1], iterations), acts[|acts| - 1], iterations)
  }

  /** The zeroed region, before the fork. */
  predicate Initial(s: State) {
    && s.mirrored == 0 && s.seqNumber == 0 && (forall k | 0 <= k < |s.buffer| :: s.buffer[k] == 0)
    && s.producer == Mirroring(1) && s.consumer == LoadMirrored
    && s.lastMirrored == 0 && s.lastSeq == 0 && s.torn == 0 && s.pairViolations == 0
  }

  lemma MirrorValue(i: nat)
    requires i < TWO32
    ensures Mirror(i) == i * TWO32 + i && Mirror(i) / TWO32 == i == Mirror(i) % TWO32
  {
    DivModUnique(i, TWO32, 0, i);
    DivModUnique(i * TWO32 + i, TWO64, 0, i * TWO32 + i);
    DivModUnique(i * TWO32 + i, TWO32, i, i);
  }

  /** The mirrored words increase exactly as long as the iterations fit 32 bits; at 2^32 they fall
      back to 0 and the consumer's regression test would fire. */
  lemma MirrorIncreases(iterations: nat)
    ensures (forall i, j | 0 <= i < j <= iterations :: Mirror(i) < Mirror(j)) <==> iterations < TWO32
  {
    if iterations < TWO32 {
      forall i, j | 0 <= i < j <= iterations ensures Mirror(i) < Mirror(j) {
        MirrorValue(i);
        MirrorValue(j);
      }
    } else {
      assert Mirror(0) == 0 && Mirror(TWO32) == 0;
    }
  }

  /** The iteration whose words the producer has published, or is publishing. */
  function Published(s: State, iterations: nat): int {
    match s.producer
    case Mirroring(i) => i - 1
    case Filling(i, _) => i
    case Finished => iterations
  }

  ghost predicate ProducerInv(s: State, iterations: nat) {
    && (match s.producer
        case Mirroring(i) => 1 <= i <= iterations + 1 && s.seqNumber == i - 1
        case Filling(i, k) => 1 <= i <= iterations && k <= |s.buffer| && s.seqNumber == i - 1
        case Finished => s.seqNumber == iterations)
    && 0 <= Published(s, iterations) <= iterations && s.mirrored == Mirror(Published(s, iterations))
    && (forall k | 0 <= k < |s.buffer| :: s.seqNumber <= s.buffer[k])
    && (s.producer.Filling? ==> forall k | 0 <= k < s.producer.filled :: s.buffer[k] == s.producer.i)
  }

  ghost predicate ConsumerInv(s: State, iterations: nat) {
    && s.torn == 0 && s.pairViolations == 0
    && s.lastMirrored <= s.mirrored && s.lastSeq <= s.seqNumber
    && (s.consumer.LoadSeq? || s.consumer.Scanning? ==> s.consumer.m <= s.mirrored)
    && (s.consumer.Scanning? ==> s.lastSeq <= s.consumer.s <= s.seqNumber && s.consumer.k <= |s.buffer|)
    && (s.consumer.Exited? ==> s.consumer.code == 0 && s.lastSeq == iterations)
  }

  lemma ProduceKeepsInv(s: State, iterations: nat)
    requires iterations < TWO32 && ProducerInv(s, iterations)
    ensures var t := Produced(s, iterations);
            && ProducerInv(t, iterations) && s.mirrored <= t.mirrored && s.seqNumber <= t.seqNumber
            && |t.buffer| == |s.buffer|
  {
    var p, q := Published(s, iterations), Published(Produced(s, iterations), iterations);
    MirrorValue(p);
    MirrorValue(q);
    if !s.producer.Finished? {
      DivModUnique(s.producer.i, TWO64, 0, s.producer.i);
    }
  }

  lemma ConsumeKeepsInv(s: State, iterations: nat)
    requires iterations < TWO32 && ProducerInv(s, iterations) && ConsumerInv(s, iterations)
    ensures ConsumerInv(Consumed(s, iterations), iterations)
  {
    MirrorValue(Published(s, iterations));
  }

  ghost predicate Inv(s: State, cells: nat, iterations: nat) {
    ProducerInv(s, iterations) && ConsumerInv(s, iterations) && |s.buffer| == cells
  }

  lemma StepKeepsInv(s: State, a: Action, iterations: nat)
    requires iterations < TWO32 && Inv(s, |s.buffer|, iterations)
    ensures Inv(Step(s, a, iterations), |s.buffer|, iterations)
  {
    if a.Produce? {
      ProduceKeepsInv(s, iterations);
      ProduceKeepsConsumer(s, Produced(s, iterations), iterations);
    } else {
      ConsumeKeepsInv(s, iterations);
      ConsumeKeepsProducer(s, iterations);
    }
  }

  /** The producer only moves its own words, and only up. */
  lemma ProduceKeepsConsumer(s: State, t: State, iterations: nat)
    requires ConsumerInv(s, iterations) && t == Produced(s, iterations)
    requires s.mirrored <= t.mirrored && s.seqNumber <= t.seqNumber
    ensures ConsumerInv(t, iterations)
  {
  }

  lemma ConsumeKeepsProducer(s: State, iterations: nat)
    ensures var t := Consumed(s, iterations);
            t.producer == s.producer && t.buffer == s.buffer
            && t.mirrored == s.mirrored && t.seqNumber == s.seqNumber
  {
  }

  /** For every iteration count below 2^32 and every interleaving: no torn word, no regression, no
      buffer cell older than the sequence number, and a clean exit code if the consumer exits. */
  lemma {:induction false} StressIsSound(s: State, acts: seq<Action>, iterations: nat)
    requires iterations < TWO32 && Initial(s)
    ensures var t := Run(s, acts, iterations);
            && Inv(t, |s.buffer|, iterations)
            && t.torn == 0 && t.pairViolations == 0
            && (t.consumer.LoadMirrored? ==> t.lastMirrored <= t.mirrored && t.lastSeq <= t.seqNumber)
            && (t.consumer.Scanning? ==> forall k | 0 <= k < |t.buffer| :: t.consumer.s <= t.buffer[k])
            && (t.consumer.Exited? ==> t.consumer.code == 0)
  {
    if acts == [] {
      MirrorValue(0);
    } else {
      StressIsSound(s, acts[..|acts| - 1], iterations);
      StepKeepsInv(Run(s, acts[..|acts| - 1], iterations), acts[|acts| - 1], iterations);
    }
  }

  // The consumer terminates once the producer has finished.

  /** Consumer steps left, at most, once the producer has finished: the rest of the current iteration
      and, if that one started too early to see the final values, one more. */
  function StepsLeft(s: State, iterations: nat): nat {
    var full := |s.buffer| + 3;
    match s.consumer
    case LoadMirrored => full
    case LoadSeq(m) => (if m >= Mirror(iterations) then 0 else full) + |s.buffer| + 2
    case Scanning(m, n, k) =>
      (if m >= Mirror(iterations) && n >= iterations then 0 else full)
      + if k <= |s.buffer| then |s.buffer| - k + 1 else 1
    case Exited(_) => 0
  }

  lemma ConsumerProgresses(s: State, iterations: nat)
    requires iterations < TWO32 && ProducerInv(s, iterations) && ConsumerInv(s, iterations)
    requires s.producer.Finished? && !s.consumer.Exited?
    ensures var t := Consumed(s, iterations);
            t.producer.Finished? && StepsLeft(t, iterations) < StepsLeft(s, iterations)
  {
    MirrorValue(iterations);
  }

  /** After the producer has finished, the consumer exits within `StepsLeft` of its own steps, with
      exit code 0. */
  lemma {:induction false} ConsumerExits(s: State, steps: nat, iterations: nat)
    requires iterations < TWO32 && ProducerInv(s, iterations) && ConsumerInv(s, iterations)
    requires s.producer.Finished? && StepsLeft(s, iterations) <= steps
    ensures Iterate(s, steps, iterations).consumer == Exited(0)
    decreases steps
  {
    if s.consumer.Exited? {
      ExitedStays(s, steps, iterations);
    } else {
      ConsumerProgresses(s, iterations);
      ConsumeKeepsInv(s, iterations);
      ConsumerExits(Consumed(s, iterations), steps - 1, iterations);
    }
  }

  function Iterate(s: State, steps: nat, iterations: nat): State
    decreases steps
  {
    if steps == 0 then s else Iterate(Consumed(s, iterations), steps - 1, iterations)
  }

  lemma {:induction false} ExitedStays(s: State, steps: nat, iterations: nat)
    requires s.consumer.Exited?
    ensures Iterate(s, steps, iterations) == s
    decreases steps
  {
    if steps != 0 {
      ExitedStays(s, steps - 1, iterations);
    }
  }

  // The test does report: the consumer's verdict on any memory at all, however it changes.

  datatype Memory = Memory(mirrored: UInt64, seqNumber: UInt64, buffer: seq<UInt64>)

  function Facing(s: State, m: Memory): State {
    s.(mirrored := m.mirrored, seqNumber := m.seqNumber, buffer := m.buffer)
  }

  /** One consumer step on each of these memories. */
  function Watched(s: State, memories: seq<Memory>, iterations: nat): State {
    if memories == [] then s
    else Consumed(Facing(Watched(s, memories[..|memories| - 1], iterations), memories[|memories| - 1]), iterations)
  }

  /** The mirrored word the consumer loaded last, and the sequence number. */
  function LastWord(s: State, memories: seq<Memory>, iterations: nat): nat {
    if memories == [] then 0
    else
      var front := memories[..|memories| - 1];
      if Watched(s, front, iterations).consumer.LoadMirrored? then memories[|memories| - 1].mirrored
      else LastWord(s, front, iterations)
  }

  function LastNumber(s: State, memories: seq<Memory>, iterations: nat): nat {
    if memories == [] then 0
    else
      var front := memories[..|memories| - 1];
      if Watched(s, front, iterations).consumer.LoadSeq? then memories[|memories| - 1].seqNumber
      else LastNumber(s, front, iterations)
  }

  /** The step on this memory loads a word or a number smaller than the one before it. */
  predicate Regresses(s: State, before: seq<Memory>, m: Memory, iterations: nat) {
    var c := Watched(s, before, iterations).consumer;
    || (c.LoadMirrored? && m.mirrored < LastWord(s, before, iterations))
    || (c.LoadSeq? && m.seqNumber < LastNumber(s, before, iterations))
  }

  /** It loads a word with differing halves, or a cell older than the sequence number. */
  predicate Violates(s: State, before: seq<Memory>, m: Memory, iterations: nat) {
    var c := Watched(s, before, iterations).consumer;
    || (c.LoadMirrored? && m.mirrored / TWO32 != m.mirrored % TWO32)
    || (c.Scanning? && c.k < |m.buffer| && m.buffer[c.k] < LastNumber(s, before, iterations))
  }

  predicate EverRegresses(s: State, memories: seq<Memory>, iterations: nat) {
    memories != []
    && (EverRegresses(s, memories[..|memories| - 1], iterations)
        || Regresses(s, memories[..|memories| - 1], memories[|memories| - 1], iterations))
  }

  predicate EverViolates(s: State, memories: seq<Memory>, iterations: nat) {
    memories != []
    && (EverViolates(s, memories[..|memories| - 1], iterations)
        || Violates(s, memories[..|memories| - 1], memories[|memories| - 1], iterations))
  }

  ghost predicate VerdictInv(t: State, word: nat, number: nat, regressed: bool, violated: bool) {
    && (violated <==> t.torn > 0 || t.pairViolations > 0)
    && (regressed <==> t.consumer == Exited(2))
    && (t.consumer.Exited? && !regressed ==> t.consumer.code == ExitCode(t))
    && (!t.consumer.Exited? ==>
          t.lastMirrored == word && if t.consumer.Scanning? then t.consumer.s == number else t.lastSeq == number)
  }

  lemma VerdictStep(s: State, m: Memory, word: nat, number: nat, regressed: bool, violated: bool, iterations: nat)
    requires VerdictInv(s, word, number, regressed, violated)
    ensures var c := s.consumer;
            VerdictInv(Consumed(Facing(s, m), iterations),
                       if c.LoadMirrored? then m.mirrored else word, if c.LoadSeq? then m.seqNumber else number,
                       || regressed || (c.LoadMirrored? && m.mirrored < word) || (c.LoadSeq? && m.seqNumber < number),
                       || violated || (c.LoadMirrored? && m.mirrored / TWO32 != m.mirrored % TWO32)
                       || (c.Scanning? && c.k < |m.buffer| && m.buffer[c.k] < number))
  {
  }

  lemma {:induction false} VerdictHolds(s: State, memories: seq<Memory>, iterations: nat)
    requires Initial(s)
    ensures VerdictInv(Watched(s, memories, iterations), LastWord(s, memories, iterations),
                       LastNumber(s, memories, iterations), EverRegresses(s, memories, iterations),
                       EverViolates(s, memories, iterations))
  {
    if memories != [] {
      var front := memories[..|memories| - 1];
      VerdictHolds(s, front, iterations);
      VerdictStep(Watched(s, front, iterations), memories[|memories| - 1], LastWord(s, front, iterations),
                  LastNumber(s, front, iterations), EverRegresses(s, front, iterations),
                  EverViolates(s, front, iterations), iterations);
    }
  }

  /** The exit code tells exactly what the consumer has loaded: 2 if a word or a number went back, else 3
      if a word was torn or a scanned cell older than the number it belongs to, and else 0. */
  lemma VerdictIsExact(s: State, memories: seq<Memory>, iterations: nat)
    requires Initial(s) && Watched(s, memories, iterations).consumer.Exited?
    ensures Watched(s, memories, iterations).consumer.code
            == if EverRegresses(s, memories, iterations) then 2
               else if EverViolates(s, memories, iterations) then 3 else 0
  {
    VerdictHolds(s, memories, iterations);
  }

  lemma {:induction false} ScanReaches(s: State, cell: nat, iterations: nat)
    requires s.consumer.Scanning? && s.consumer.k <= cell < |s.buffer| && s.buffer[cell] < s.consumer.s
    requires forall k | s.consumer.k <= k < cell :: s.consumer.s <= s.buffer[k]
    ensures Iterate(s, cell - s.consumer.k + 1, iterations).pairViolations == s.pairViolations + 1
    decreases cell - s.consumer.k
  {
    if s.consumer.k < cell {
      ScanReaches(Consumed(s, iterations), cell, iterations);
    } else {
      assert Iterate(s, 1, iterations) == Iterate(Consumed(s, iterations), 0, iterations);
    }
  }

  /** The scan misses no cell: in a memory that stays as it is, with a number that is not 0, it counts the
      first cell older than the number. */
  lemma ScanFindsOlderCell(s: State, cell: nat, iterations: nat)
    requires s.consumer.LoadSeq? && 0 < s.seqNumber && s.lastSeq <= s.seqNumber
    requires cell < |s.buffer| && s.buffer[cell] < s.seqNumber
    requires forall k | 0 <= k < cell :: s.seqNumber <= s.buffer[k]
    ensures Iterate(s, cell + 2, iterations).pairViolations == s.pairViolations + 1
  {
    ScanReaches(Consumed(s, iterations), cell, iterations);
  }
}
