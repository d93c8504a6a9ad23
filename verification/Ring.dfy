/** What a ring of interleaved samples means, independent of how either process copies into it.
    Sample c of stereo frame k is sample 2k + c, and it lives in cell (2k + c) mod |ring|. */
module Ring {
  import opened Arithmetic

  // Samples are only ever moved or compared with silence.
  type Sample = real

  const SILENCE: Sample := 0.0

  /** The ring after writing `block` sample by sample at positions at, at + 1, ... (cyclically). */
  function Stored(ring: seq<Sample>, at: int, block: seq<Sample>): (r: seq<Sample>)
    requires 0 < |ring| && |block| <= |ring|
    ensures |r| == |ring|
  {
    seq(|ring|, p requires 0 <= p < |ring| =>
      var i := (p - at) % |ring|;
      if i < |block| then block[i] else ring[p])
  }

  /** The m samples read sample by sample from positions at, at + 1, ... (cyclically). */
  function Loaded(ring: seq<Sample>, at: int, m: nat): (r: seq<Sample>)
    requires 0 < |ring|
    ensures |r| == m
  {
    seq(m, i requires 0 <= i < m => ring[(at + i) % |ring|])
  }

  function Silent(m: nat): (r: seq<Sample>)
    ensures |r| == m
  {
    seq(m, i => SILENCE)
  }

  /** Stereo interleaving, as the shared rings hold it. */
  function Interleaved(l: seq<Sample>, r: seq<Sample>): (s: seq<Sample>)
    requires |l| == |r|
    ensures |s| == 2 * |l|
  {
    seq(2 * |l|, k requires 0 <= k < 2 * |l| => if k % 2 == 0 then l[k / 2] else r[k / 2])
  }

  /** Frame i: the left sample first, then the right one. */
  lemma FrameOf(l: seq<Sample>, r: seq<Sample>, i: nat)
    requires |l| == |r| && i < |l|
    ensures Interleaved(l, r)[2 * i] == l[i] && Interleaved(l, r)[2 * i + 1] == r[i]
  {
    assert (2 * i) / 2 == i && (2 * i + 1) / 2 == i;
  }

  // One operation applied to every stream's ring at the same position.

  predicate AllOfSize(rings: seq<seq<Sample>>, size: nat) {
    forall j | 0 <= j < |rings| :: |rings[j]| == size
  }

  function StoredAll(rings: seq<seq<Sample>>, at: int, blocks: seq<seq<Sample>>): (r: seq<seq<Sample>>)
    requires |blocks| == |rings|
    requires forall j | 0 <= j < |rings| :: 0 < |rings[j]| && |blocks[j]| <= |rings[j]|
    ensures |r| == |rings| && forall j | 0 <= j < |r| :: |r[j]| == |rings[j]|
  {
    seq(|rings|, j requires 0 <= j < |rings| => Stored(rings[j], at, blocks[j]))
  }

  function LoadedAll(rings: seq<seq<Sample>>, at: int, m: nat): (r: seq<seq<Sample>>)
    requires forall j | 0 <= j < |rings| :: 0 < |rings[j]|
    ensures |r| == |rings| && AllOfSize(r, m)
  {
    seq(|rings|, j requires 0 <= j < |rings| => Loaded(rings[j], at, m))
  }

  function SilentAll(count: nat, m: nat): (r: seq<seq<Sample>>)
    ensures |r| == count && AllOfSize(r, m)
  {
    seq(count, j => Silent(m))
  }

  /** `s` with `block` copied over the samples from `at`, without wrapping. */
  function Spliced(s: seq<Sample>, at: nat, block: seq<Sample>): (r: seq<Sample>)
    requires at + |block| <= |s|
    ensures |r| == |s|
  {
    s[..at] + block + s[at + |block|..]
  }

  lemma StoredAt(ring: seq<Sample>, at: int, block: seq<Sample>, i: nat)
    requires 0 < |ring| && i < |block| <= |ring|
    ensures Stored(ring, at, block)[(at + i) % |ring|] == block[i]
  {
    CellOffset((at + i) % |ring|, at, i, |ring|);
  }

  /** A cyclic write reads back unchanged. */
  lemma LoadAfterStore(ring: seq<Sample>, at: int, block: seq<Sample>)
    requires 0 < |ring| && |block| <= |ring|
    ensures Loaded(Stored(ring, at, block), at, |block|) == block
  {
    var back := Loaded(Stored(ring, at, block), at, |block|);
    forall i | 0 <= i < |block| ensures back[i] == block[i] {
      StoredAt(ring, at, block, i);
    }
  }

  /** Two writes, one after the other, are one write of the concatenation. */
  lemma StoreConcat(ring: seq<Sample>, at: int, a: seq<Sample>, b: seq<Sample>)
    requires 0 < |ring| && |a| + |b| <= |ring|
    ensures Stored(Stored(ring, at, a), at + |a|, b) == Stored(ring, at, a + b)
  {
    var n := |ring|;
    var twice := Stored(Stored(ring, at, a), at + |a|, b);
    forall p | 0 <= p < n ensures twice[p] == Stored(ring, at, a + b)[p] {
      var i, j := (p - at) % n, (p - at - |a|) % n;
      if |a| <= i {
        DivModUnique(p - at - |a|, n, (p - at) / n, i - |a|);
      } else {
        DivModUnique(p - at - |a|, n, (p - at) / n - 1, i - |a| + n);
      }
    }
  }

  lemma LoadConcat(ring: seq<Sample>, at: int, m1: nat, m2: nat)
    requires 0 < |ring|
    ensures Loaded(ring, at, m1) + Loaded(ring, at + m1, m2) == Loaded(ring, at, m1 + m2)
  {
    var both := Loaded(ring, at, m1) + Loaded(ring, at + m1, m2);
    forall i | 0 <= i < m1 + m2 ensures both[i] == Loaded(ring, at, m1 + m2)[i] {
      if m1 <= i {
        assert at + i == at + m1 + (i - m1);
      }
    }
  }

  lemma ShiftByMultiple(x: int, at: int, n: nat, q: int, r: int)
    requires 0 < n && at == n * q + r
    ensures (x - r) % n == (x - at) % n
    ensures (r + x) % n == (at + x) % n
  {
    ModPlusMultiple(x - at, q, n);
    ModPlusMultiple(r + x, q, n);
  }

  /** Only the position modulo the ring size matters. */
  lemma ResidueOffsets(x: int, at: int, n: nat)
    requires 0 < n
    ensures (x - at % n) % n == (x - at) % n
    ensures (at % n + x) % n == (at + x) % n
  {
    ShiftByMultiple(x, at, n, at / n, at % n);
  }

  lemma StoreAtResidue(ring: seq<Sample>, at: int, block: seq<Sample>)
    requires 0 < |ring| && |block| <= |ring|
    ensures Stored(ring, at % |ring|, block) == Stored(ring, at, block)
  {
    forall p | 0 <= p < |ring|
      ensures Stored(ring, at % |ring|, block)[p] == Stored(ring, at, block)[p]
    {
      ResidueOffsets(p, at, |ring|);
    }
  }

  lemma LoadAtResidue(ring: seq<Sample>, at: int, m: nat)
    requires 0 < |ring|
    ensures Loaded(ring, at % |ring|, m) == Loaded(ring, at, m)
  {
    forall i | 0 <= i < m ensures Loaded(ring, at % |ring|, m)[i] == Loaded(ring, at, m)[i] {
      ResidueOffsets(i, at, |ring|);
    }
  }

  /** A write that does not reach the end of the ring is a plain splice. */
  lemma StoreFlat(ring: seq<Sample>, at: nat, block: seq<Sample>)
    requires 0 < |ring| && at + |block| <= |ring|
    ensures Stored(ring, at, block) == Spliced(ring, at, block)
  {
    var n := |ring|;
    forall p | 0 <= p < n ensures Stored(ring, at, block)[p] == Spliced(ring, at, block)[p] {
      if at == n {
        assert |block| == 0;
      } else if p < at {
        DivModUnique(p - at, n, -1, p - at + n);
      } else {
        DivModUnique(p - at, n, 0, p - at);
      }
    }
  }

  lemma LoadFlat(ring: seq<Sample>, at: nat, m: nat)
    requires 0 < |ring| && at + m <= |ring|
    ensures Loaded(ring, at, m) == ring[at..at + m]
  {
    forall i | 0 <= i < m ensures Loaded(ring, at, m)[i] == ring[at..at + m][i] {
      DivModUnique(at + i, |ring|, 0, at + i);
    }
  }

  /** Cell p of the ring after one sample is written at absolute position x. */
  lemma StoreOne(ring: seq<Sample>, x: int, v: Sample)
    requires 0 < |ring|
    ensures Stored(ring, x, [v]) == ring[x % |ring| := v]
  {
    var n := |ring|;
    forall p | 0 <= p < n ensures Stored(ring, x, [v])[p] == ring[x % n := v][p] {
      CellOffset(p, x, 0, n);
    }
  }

  /** A stereo chunk stored frame by frame without wrapping is the cyclic write of it. */
  lemma StoredByFrames(was: seq<Sample>, ring: seq<Sample>, offset: nat, l: seq<Sample>, r: seq<Sample>)
    requires 0 < |was| == |ring| && |l| == |r| && 2 * (offset + |l|) <= |ring|
    requires forall i | 0 <= i < |l| :: ring[2 * (offset + i)] == l[i] && ring[2 * (offset + i) + 1] == r[i]
    requires forall p | 0 <= p < |ring| && !(2 * offset <= p < 2 * (offset + |l|)) :: ring[p] == was[p]
    ensures ring == Stored(was, 2 * offset, Interleaved(l, r))
  {
    var block := Interleaved(l, r);
    StoreFlat(was, 2 * offset, block);
    forall p | 0 <= p < |ring| ensures ring[p] == Spliced(was, 2 * offset, block)[p] {
      if 2 * offset <= p < 2 * (offset + |l|) {
        var i := (p - 2 * offset) / 2;
        FrameOf(l, r, i);
        assert ring[2 * (offset + i)] == l[i] && ring[2 * (offset + i) + 1] == r[i];
      }
    }
  }

  lemma LoadedByFrames(ring: seq<Sample>, offset: nat, l: seq<Sample>, r: seq<Sample>)
    requires 0 < |ring| && |l| == |r| && 2 * (offset + |l|) <= |ring|
    requires forall i | 0 <= i < |l| :: l[i] == ring[2 * (offset + i)] && r[i] == ring[2 * (offset + i) + 1]
    ensures Interleaved(l, r) == Loaded(ring, 2 * offset, 2 * |l|)
  {
    LoadFlat(ring, 2 * offset, 2 * |l|);
    forall k | 0 <= k < 2 * |l| ensures Interleaved(l, r)[k] == ring[2 * offset + k] {
      FrameOf(l, r, k / 2);
      assert l[k / 2] == ring[2 * (offset + k / 2)] && r[k / 2] == ring[2 * (offset + k / 2) + 1];
    }
  }
}
