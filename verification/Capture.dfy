/** One capture ring at the granularity of single sample stores and loads: the daemon fills a chunk
    store by store while a HAL read, also sample by sample, is in progress. */
module Capture {
  import opened Arithmetic
  import opened Ring

  /** `sent` is the stream JACK has delivered in completed cycles, indexed by absolute sample;
      `block[..pos]` is the part of the current chunk already in the ring (`block` is empty between
      cycles). The reader wants `want` samples from absolute position `at` and has `got` so far. */
  datatype State = State(ring: seq<Sample>, sent: seq<Sample>, block: seq<Sample>, pos: nat,
                         at: nat, want: nat, got: seq<Sample>)

  datatype Action = Begin(chunk: seq<Sample>) | Store | End | Load

  /** Every sample within reach of the write head is the one JACK sent for that position. */
  ghost predicate Inv(s: State, size: nat, chunk: nat)
  {
    && 0 < chunk <= size == |s.ring|
    && (s.block == [] || |s.block| == chunk) && s.pos <= |s.block|
    && (forall k | 0 <= k < |s.sent| + s.pos && |s.sent| + s.pos - size <= k ::
          s.ring[k % size] == (s.sent + s.block)[k])
    && s.at + s.want <= |s.sent| && |s.got| <= s.want
    && (forall i | 0 <= i < |s.got| && |s.sent| + chunk - size <= s.at + i :: s.got[i] == s.sent[s.at + i])
  }

  function Step(s: State, a: Action, chunk: nat): State
    requires 0 < |s.ring|
  {
    match a
    case Begin(b) => if s.block == [] && |b| == chunk then s.(block := b, pos := 0) else s
    case Store =>
      if s.pos < |s.block|
      then s.(ring := s.ring[(|s.sent| + s.pos) % |s.ring| := s.block[s.pos]], pos := s.pos + 1)
      else s
    case End =>
      if s.block != [] && s.pos == |s.block|
      then s.(sent := s.sent + s.block, block := [], pos := 0)
      else s
    case Load =>
      if |s.got| < s.want
      then s.(got := s.got + [s.ring[(s.at + |s.got|) % |s.ring|]])
      else s
  }

  function Run(s: State, acts: seq<Action>, chunk: nat): (r: State)
    requires 0 < |s.ring|
    ensures |r.ring| == |s.ring|
  {
    if acts == [] then s else Step(Run(s, acts[..|acts| - 1], chunk), acts[|acts| - 1], chunk)
  }

  lemma StepKeepsInv(s: State, a: Action, size: nat, chunk: nat)
    requires Inv(s, size, chunk)
    ensures Inv(Step(s, a, chunk), size, chunk)
    ensures s.sent <= Step(s, a, chunk).sent
  {
    var t := Step(s, a, chunk);
    if a.Store? && s.pos < |s.block| {
      var head := |s.sent| + s.pos;
      forall k | 0 <= k < head + 1 && head + 1 - size <= k
        ensures t.ring[k % size] == (t.sent + t.block)[k]
      {
        if k != head && k % size == head % size {
          ModEqual(head, k, size);
          DivModUnique(head - k, size, 0, head - k);
          assert false;
        }
      }
    } else if a.End? && s.block != [] && s.pos == |s.block| {
      assert t.sent + t.block == s.sent + s.block;
    }
  }

  lemma {:induction false} RunKeepsInv(s: State, acts: seq<Action>, size: nat, chunk: nat)
    requires Inv(s, size, chunk)
    ensures Inv(Run(s, acts, chunk), size, chunk)
    ensures s.sent <= Run(s, acts, chunk).sent
    ensures Run(s, acts, chunk).at == s.at && Run(s, acts, chunk).want == s.want
  {
    if acts != [] {
      RunKeepsInv(s, acts[..|acts| - 1], size, chunk);
      StepKeepsInv(Run(s, acts[..|acts| - 1], chunk), acts[|acts| - 1], size, chunk);
    }
  }

  /** In every interleaving, a read that starts behind the cursor and finishes before the cursor
      comes within a ring (less the chunk being written) of it returns exactly what JACK sent. */
  lemma ReadIsExact(s: State, acts: seq<Action>, size: nat, chunk: nat)
    requires Inv(s, size, chunk) && s.got == []
    requires |Run(s, acts, chunk).got| == s.want
    requires |Run(s, acts, chunk).sent| + chunk - size <= s.at
    ensures Run(s, acts, chunk).got == s.sent[s.at..s.at + s.want]
  {
    RunKeepsInv(s, acts, size, chunk);
  }

  lemma {:induction false} RunConcat(s: State, a: seq<Action>, b: seq<Action>, chunk: nat)
    requires 0 < |s.ring|
    ensures Run(s, a + b, chunk) == Run(Run(s, a, chunk), b, chunk)
  {
    if b == [] {
      assert a + b == a;
    } else {
      assert (a + b)[..|a + b| - 1] == a + b[..|b| - 1];
      RunConcat(s, a, b[..|b| - 1], chunk);
    }
  }

  function Copies<T>(a: T, n: nat): (r: seq<T>)
    ensures |r| == n
  {
    seq(n, i => a)
  }

  /** The whole cycle of `sendToCoreAudio`, run store by store without interruption. */
  function CycleSteps(b: seq<Sample>): seq<Action> {
    [Begin(b)] + Copies(Store, |b|) + [End]
  }

  /** The store-by-store cycle is the chunk write that the daemon's copy loop is proved to make. */
  lemma CycleIsSteps(s: State, b: seq<Sample>)
    requires 0 < |b| <= |s.ring| && s.block == []
    ensures Run(s, CycleSteps(b), |b|) == s.(ring := Stored(s.ring, |s.sent|, b), sent := s.sent + b, pos := 0)
  {
    var prefix := [Begin(b)] + Copies(Store, |b|);
    assert CycleSteps(b)[..|prefix|] == prefix;
    StoresFill(s, b, |b|);
    assert b[..|b|] == b;
  }

  lemma {:induction false} StoresFill(s: State, b: seq<Sample>, n: nat)
    requires n <= |b| <= |s.ring| && 0 < |b| && s.block == []
    ensures Run(s, [Begin(b)] + Copies(Store, n), |b|)
            == s.(ring := Stored(s.ring, |s.sent|, b[..n]), block := b, pos := n)
  {
    var acts := [Begin(b)] + Copies(Store, n);
    if n == 0 {
      assert acts == [Begin(b)];
      assert acts[..0] == [];
      assert Stored(s.ring, |s.sent|, []) == s.ring;
      assert b[..0] == [];
    } else {
      assert acts[..|acts| - 1] == [Begin(b)] + Copies(Store, n - 1);
      StoresFill(s, b, n - 1);
      StoreOne(Stored(s.ring, |s.sent|, b[..n - 1]), |s.sent| + n - 1, b[n - 1]);
      StoreConcat(s.ring, |s.sent|, b[..n - 1], [b[n - 1]]);
      assert b[..n - 1] + [b[n - 1]] == b[..n];
    }
  }
}
