/** daemon/RingProjector.hpp: projecting the daemon's 64-bit frame cursor onto the shared ring. */
module RingProjector {
  import opened Arithmetic

  /** `Projector(r, c)` is the struct with `ring_frames == r` and `frame_cursor == c`. */
  datatype Projector = Projector(ringFrames: nat, frameCursor: UInt64) {

    /** Where the next chunk is written. */
    function SendOffset(): nat
      requires 0 < ringFrames
    {
      frameCursor % ringFrames
    }

    /** Where the previous chunk is read; the subtraction underflows modulo 2^64. */
    function RecvOffset(n: nat): nat
      requires 0 < ringFrames
    {
      Wrap64(frameCursor - n) % ringFrames
    }
  }

  /** The underflowing offset is the Euclidean one exactly when nothing underflows or the ring
      size divides 2^64. */
  lemma RecvOffsetIsEuclidean(p: Projector, n: nat)
    requires 0 < p.ringFrames && n < TWO64
    ensures p.RecvOffset(n) == (p.frameCursor - n) % p.ringFrames
            <==> n <= p.frameCursor || TWO64 % p.ringFrames == 0
  {
    var x := p.frameCursor - n;
    if n <= p.frameCursor {
      DivModUnique(x, TWO64, 0, x);
    } else {
      DivModUnique(x, TWO64, -1, x + TWO64);
      ModEqual(x + TWO64, x, p.ringFrames);
    }
  }

  /** The chunk read in a cycle ends where the chunk written in that cycle begins. */
  lemma WindowsAdjacent(p: Projector, n: nat)
    requires 0 < p.ringFrames && TWO64 % p.ringFrames == 0 && n < TWO64
    ensures (p.RecvOffset(n) + n) % p.ringFrames == p.SendOffset()
  {
    var r := p.ringFrames;
    RecvOffsetIsEuclidean(p, n);
    var x := p.frameCursor - n;
    assert x % r + n == p.frameCursor + r * (-(x / r));
    ModPlusMultiple(p.frameCursor, -(x / r), r);
  }

  ghost predicate WindowsOverlap(p: Projector, n: nat)
    requires 0 < p.ringFrames
  {
    exists i, j | 0 <= i < n && 0 <= j < n :: ShareCell(p, n, i, j)
  }

  /** Frame i of the read window and frame j of the write window are the same ring frame. */
  ghost predicate ShareCell(p: Projector, n: nat, i: int, j: int)
    requires 0 < p.ringFrames
  {
    (p.RecvOffset(n) + i) % p.ringFrames == (p.SendOffset() + j) % p.ringFrames
  }

  /** One cycle's read and write windows share no frame exactly when two chunks fit in the ring. */
  lemma WindowsDisjoint(p: Projector, n: nat)
    requires 0 < p.ringFrames && TWO64 % p.ringFrames == 0 && 0 < n < TWO64
    ensures !WindowsOverlap(p, n) <==> 2 * n <= p.ringFrames
  {
    var r := p.ringFrames;
    if 2 * n > r {
      var i := if n < r then 0 else n - 1;
      var j := if n < r then r - n else r - 1;
      SameCell(p, n, i, j);
      DivModUnique(n + j - i, r, 1, 0);
    } else if WindowsOverlap(p, n) {
      var i, j :| 0 <= i < n && 0 <= j < n && ShareCell(p, n, i, j);
      SameCell(p, n, i, j);
      DivModUnique(n + j - i, r, 0, n + j - i);
      assert false;
    }
  }

  lemma SameCell(p: Projector, n: nat, i: int, j: int)
    requires 0 < p.ringFrames && TWO64 % p.ringFrames == 0 && n < TWO64
    ensures ShareCell(p, n, i, j) <==> (n + j - i) % p.ringFrames == 0
  {
    var r := p.ringFrames;
    var recv, send := p.RecvOffset(n), p.SendOffset();
    RecvOffsetIsEuclidean(p, n);
    ModEqual(send + j, recv + i, r);
    var k := (p.frameCursor - n) / r - p.frameCursor / r;
    assert send + j - (recv + i) == n + j - i + r * k by {
      assert r * k == r * ((p.frameCursor - n) / r) - r * (p.frameCursor / r);
    }
    ModPlusMultiple(n + j - i, k, r);
  }

  /** With a period that divides the ring and a cursor on a period boundary, both unwrapped copies
      of a cycle stay inside the ring. */
  lemma AlignedCopiesFit(p: Projector, n: nat)
    requires 0 < p.ringFrames && TWO64 % p.ringFrames == 0
    requires 0 < n < TWO64 && p.ringFrames % n == 0 && p.frameCursor % n == 0
    ensures p.SendOffset() + n <= p.ringFrames
    ensures p.RecvOffset(n) + n <= p.ringFrames
  {
    var r := p.ringFrames;
    RecvOffsetIsEuclidean(p, n);
    AlignedResidue(p.frameCursor, r, n);
    ModPlusMultiple(p.frameCursor, -1, n);
    AlignedResidue(p.frameCursor - n, r, n);
  }

  /** A multiple of n, reduced modulo a multiple r of n, leaves room for n more. */
  lemma AlignedResidue(x: int, r: int, n: int)
    requires 0 < n && 0 < r && r % n == 0 && x % n == 0
    ensures (x % r) % n == 0
    ensures x % r + n <= r
  {
    var q := x / r;
    assert x % r == x + r * (-q);
    assert r * (-q) == n * ((r / n) * (-q)) by { MulAssoc(n, r / n, -q); assert r == n * (r / n); }
    ModPlusMultiple(x, (r / n) * (-q), n);
    var a, b := (x % r) / n, r / n;
    assert x % r == n * a && r == n * b;
    if b <= a {
      MulMonotone(n, b, a);
      assert false;
    }
    MulMonotone(n, a + 1, b);
    assert n * (a + 1) == x % r + n;
  }
}
