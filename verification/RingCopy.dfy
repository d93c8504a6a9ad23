/** daemon/RingCopy.hpp: the daemon's unwrapped stereo copies, proved against the cyclic ring. */
module RingCopy {
  import opened Ring

  method RingWriteStereoInterleaved(ring: array<Sample>, offset: nat,
                                    inL: array<Sample>, inR: array<Sample>, n: nat)
    requires 0 < ring.Length && 2 * (offset + n) <= ring.Length
    requires n <= inL.Length && n <= inR.Length
    requires ring != inL && ring != inR
    modifies ring
    ensures forall i | 0 <= i < n :: ring[2 * (offset + i)] == inL[i] && ring[2 * (offset + i) + 1] == inR[i]
    ensures ring[..] == Stored(old(ring[..]), 2 * offset, Interleaved(inL[..n], inR[..n]))
  {
    for i := 0 to n
      invariant forall k | 0 <= k < i :: ring[2 * (offset + k)] == inL[k] && ring[2 * (offset + k) + 1] == inR[k]
      invariant forall p | 0 <= p < ring.Length && !(2 * offset <= p < 2 * (offset + i)) :: ring[p] == old(ring[p])
    {
      ring[(offset + i) * 2] := inL[i];
      ring[(offset + i) * 2 + 1] := inR[i];
    }
    StoredByFrames(old(ring[..]), ring[..], offset, inL[..n], inR[..n]);
  }

  method RingReadStereoInterleaved(ring: array<Sample>, offset: nat,
                                   outL: array<Sample>, outR: array<Sample>, n: nat)
    requires 0 < ring.Length && 2 * (offset + n) <= ring.Length
    requires n <= outL.Length && n <= outR.Length
    requires ring != outL && ring != outR && outL != outR
    modifies outL, outR
    ensures forall i | 0 <= i < n :: outL[i] == ring[2 * (offset + i)] && outR[i] == ring[2 * (offset + i) + 1]
    ensures Interleaved(outL[..n], outR[..n]) == Loaded(ring[..], 2 * offset, 2 * n)
    ensures outL[n..] == old(outL[n..]) && outR[n..] == old(outR[n..])
  {
    for i := 0 to n
      invariant forall k | 0 <= k < i :: outL[k] == ring[2 * (offset + k)] && outR[k] == ring[2 * (offset + k) + 1]
      invariant outL[n..] == old(outL[n..]) && outR[n..] == old(outR[n..])
    {
      outL[i] := ring[(offset + i) * 2];
      outR[i] := ring[(offset + i) * 2 + 1];
    }
    LoadedByFrames(ring[..], offset, outL[..n], outR[..n]);
  }

  /** Reads a chunk and leaves silence behind. */
  method RingConsumeStereoInterleaved(ring: array<Sample>, offset: nat,
                                      outL: array<Sample>, outR: array<Sample>, n: nat)
    requires 0 < ring.Length && 2 * (offset + n) <= ring.Length
    requires n <= outL.Length && n <= outR.Length
    requires ring != outL && ring != outR && outL != outR
    modifies ring, outL, outR
    ensures forall i | 0 <= i < n ::
        outL[i] == old(ring[2 * (offset + i)]) && outR[i] == old(ring[2 * (offset + i) + 1])
    ensures Interleaved(outL[..n], outR[..n]) == Loaded(old(ring[..]), 2 * offset, 2 * n)
    ensures outL[n..] == old(outL[n..]) && outR[n..] == old(outR[n..])
    ensures ring[..] == Stored(old(ring[..]), 2 * offset, Silent(2 * n))
  {
    for i := 0 to n
      invariant forall k | 0 <= k < i ::
          outL[k] == old(ring[2 * (offset + k)]) && outR[k] == old(ring[2 * (offset + k) + 1])
      invariant outL[n..] == old(outL[n..]) && outR[n..] == old(outR[n..])
      invariant forall p | 0 <= p < ring.Length ::
          ring[p] == if 2 * offset <= p < 2 * (offset + i) then SILENCE else old(ring[p])
    {
      outL[i] := ring[(offset + i) * 2];
      outR[i] := ring[(offset + i) * 2 + 1];
      ring[(offset + i) * 2] := SILENCE;
      ring[(offset + i) * 2 + 1] := SILENCE;
    }
    LoadedByFrames(old(ring[..]), offset, outL[..n], outR[..n]);
    StoreFlat(old(ring[..]), 2 * offset, Silent(2 * n));
  }

  /** memcpy of `count` samples between distinct buffers. */
  method CopySamples(dst: array<Sample>, dstAt: nat, src: array<Sample>, srcAt: nat, count: nat)
    requires dst != src
    requires dstAt + count <= dst.Length && srcAt + count <= src.Length
    modifies dst
    ensures forall p | 0 <= p < dst.Length ::
        dst[p] == if dstAt <= p < dstAt + count then src[p - dstAt + srcAt] else old(dst[p])
  {
    for i := 0 to count
      invariant forall p | 0 <= p < dst.Length ::
          dst[p] == if dstAt <= p < dstAt + i then src[p - dstAt + srcAt] else old(dst[p])
    {
      dst[dstAt + i] := src[srcAt + i];
    }
  }

  /** The same copy, seen as a splice of the whole destination. */
  method SpliceSamples(dst: array<Sample>, dstAt: nat, src: array<Sample>, srcAt: nat, count: nat)
    requires dst != src
    requires dstAt + count <= dst.Length && srcAt + count <= src.Length
    modifies dst
    ensures dst[..] == Spliced(old(dst[..]), dstAt, src[srcAt..srcAt + count])
  {
    CopySamples(dst, dstAt, src, srcAt, count);
  }

  /** bzero of the first `count` samples. */
  method ZeroSamples(dst: array<Sample>, count: nat)
    requires count <= dst.Length
    modifies dst
    ensures forall p | 0 <= p < dst.Length :: dst[p] == if p < count then SILENCE else old(dst[p])
  {
    for i := 0 to count
      invariant forall p | 0 <= p < dst.Length :: dst[p] == if p < i then SILENCE else old(dst[p])
    {
      dst[i] := SILENCE;
    }
  }
}
