/** driver/PublicUtility/CAHostTimeBase.h: host ticks to nanoseconds and back by a 32-bit ratio, with a
    128-bit product truncated to 64 bits, and signed differences. */
module HostTime {
  import opened Arithmetic

  const TWO128 := TWO64 * TWO64

  /** The product and the quotient are 128 bits wide, the answer 64. */
  function MultiplyByRatio(x: nat, numerator: nat, denominator: nat): UInt64
    requires 0 < denominator
  {
    if numerator != denominator then Wrap64(((x * numerator) % TWO128) / denominator) else Wrap64(x)
  }

  /** The arguments the code can be given: 64-bit times and 32-bit ratios. */
  predicate Words(x: int, numerator: int, denominator: int) {
    0 <= x < TWO64 && 0 < numerator < TWO32 && 0 < denominator < TWO32
  }

  /** The scaled value fits the 64-bit answer. */
  predicate Fits(x: nat, numerator: nat, denominator: nat) {
    x * numerator < TWO64 * denominator
  }

  lemma QuotientBounds(a: nat, d: nat)
    requires 0 < d
    ensures a - (d - 1) <= (a / d) * d <= a
  {
  }

  lemma QuotientBelow(a: nat, d: nat, bound: nat)
    requires 0 < d
    ensures a / d < bound <==> a < bound * d
  {
    if a / d < bound {
      MulMonotone(d, a / d + 1, bound);
    } else {
      MulMonotone(d, bound, a / d);
    }
  }

  lemma ProductFits(x: nat, numerator: nat)
    requires x < TWO64 && numerator < TWO32
    ensures x * numerator < TWO128 && (x * numerator) % TWO128 == x * numerator
  {
    MulMonotone(numerator, x, TWO64);
    DivModUnique(x * numerator, TWO128, 0, x * numerator);
  }

  lemma WrapsExactly(q: nat)
    ensures Wrap64(q) == q <==> q < TWO64
  {
  }

  /** The 128-bit product never overflows, and the answer is the exact quotient exactly when that fits. */
  lemma AnswerIsExact(x: nat, numerator: nat, denominator: nat)
    requires Words(x, numerator, denominator)
    ensures x * numerator < TWO128
    ensures MultiplyByRatio(x, numerator, denominator) == Wrap64((x * numerator) / denominator)
    ensures MultiplyByRatio(x, numerator, denominator) == (x * numerator) / denominator
            <==> Fits(x, numerator, denominator)
  {
    var product, q := x * numerator, (x * numerator) / denominator;
    ProductFits(x, numerator);
    QuotientBelow(product, denominator, TWO64);
    WrapsExactly(q);
    if numerator == denominator {
      DivModUnique(product, denominator, x, 0);
    }
  }

  lemma Monotone(x: nat, y: nat, numerator: nat, denominator: nat)
    requires Words(x, numerator, denominator) && Words(y, numerator, denominator) && x <= y
    requires Fits(y, numerator, denominator)
    ensures Fits(x, numerator, denominator)
    ensures MultiplyByRatio(x, numerator, denominator) <= MultiplyByRatio(y, numerator, denominator)
  {
    MulMonotone(numerator, x, y);
    AnswerIsExact(x, numerator, denominator);
    AnswerIsExact(y, numerator, denominator);
    var q := (x * numerator) / denominator;
    QuotientBounds(x * numerator, denominator);
    QuotientBelow(y * numerator, denominator, q);
  }

  /** The least number of whole ticks covering what one rounding can lose. */
  function Slack(numerator: nat, denominator: nat): nat
    requires 0 < numerator && 0 < denominator
  {
    (denominator - 1 + numerator - 1) / numerator
  }

  /** Rounding down twice: p is a quotient of t * n by d, and back is the quotient of p * d by n. */
  lemma TwiceRounded(t: nat, n: nat, d: nat, p: nat, back: nat)
    requires 0 < n && 0 < d && p == (t * n) / d && back == (p * d) / n
    ensures t - Slack(n, d) <= back <= t
  {
    var s := Slack(n, d);
    QuotientBounds(t * n, d);
    SlackCovers(n, d);
    QuotientBelow(p * d, n, t + 1);
    assert (t + 1) * n == t * n + n;
    if s <= t {
      assert (t - s) * n == t * n - s * n;
      QuotientBelow(p * d, n, t - s);
    }
  }

  /** Ticks to nanoseconds and back never gains, loses at most ceil((D-1)/N) ticks, and so at most one
      when a tick is no shorter than a nanosecond. */
  lemma RoundTrip(t: nat, numerator: nat, denominator: nat)
    requires Words(t, numerator, denominator) && Fits(t, numerator, denominator)
    ensures var back := MultiplyByRatio(MultiplyByRatio(t, numerator, denominator), denominator, numerator);
            && t - Slack(numerator, denominator) <= back <= t
            && (denominator <= numerator ==> t - 1 <= back)
  {
    var nanos := MultiplyByRatio(t, numerator, denominator);
    AnswerIsExact(t, numerator, denominator);
    AnswerIsExact(nanos, denominator, numerator);
    var back := (nanos * denominator) / numerator;
    QuotientIsNat(nanos * denominator, numerator);
    TwiceRounded(t, numerator, denominator, nanos, back);
    WrapsExactly(back);
    SlackCovers(numerator, denominator);
  }

  lemma QuotientIsNat(a: nat, d: nat)
    requires 0 < d
    ensures 0 <= a / d
  {
  }

  lemma SlackCovers(numerator: nat, denominator: nat)
    requires 0 < numerator && 0 < denominator
    ensures denominator - 1 <= Slack(numerator, denominator) * numerator
    ensures denominator <= numerator ==> Slack(numerator, denominator) <= 1
  {
    QuotientBounds(denominator - 1 + numerator - 1, numerator);
    QuotientBelow(denominator - 1 + numerator - 1, numerator, 2);
  }

  // Differences. The ratio is fixed at start-up.

  function Signed(u: nat): int {
    if u % TWO64 < TWO63 then u % TWO64 else u % TWO64 - TWO64
  }

  function Distance(start: nat, end: nat): nat {
    if start <= end then end - start else start - end
  }

  function AbsoluteHostDeltaToNanos(start: nat, end: nat, numerator: nat, denominator: nat): UInt64
    requires 0 < denominator
  {
    MultiplyByRatio(Distance(start, end), numerator, denominator)
  }

  /** The absolute difference is the exact quotient of the ticks between the two times, in either order,
      exactly when that fits the answer; it is taken modulo 2^64 otherwise. */
  lemma AbsoluteDifference(start: UInt64, end: UInt64, numerator: nat, denominator: nat)
    requires Words(start, numerator, denominator)
    ensures var m := AbsoluteHostDeltaToNanos(start, end, numerator, denominator);
            && (start <= end ==>
                  && m == Wrap64(((end - start) * numerator) / denominator)
                  && (m == ((end - start) * numerator) / denominator <==> Fits(end - start, numerator, denominator)))
            && (end <= start ==>
                  && m == Wrap64(((start - end) * numerator) / denominator)
                  && (m == ((start - end) * numerator) / denominator <==> Fits(start - end, numerator, denominator)))
  {
    if start <= end {
      AnswerIsExact(end - start, numerator, denominator);
    }
    if end <= start {
      AnswerIsExact(start - end, numerator, denominator);
    }
  }

  /** The sign is multiplied into the converted word, wrapping around at the most negative one. */
  function WithSign(forward: bool, m: UInt64): int {
    Signed((if forward then Signed(m) else -Signed(m)) % TWO64)
  }

  /** The difference goes through a signed word and back. */
  function HostDeltaToNanos(start: nat, end: nat, numerator: nat, denominator: nat): int
    requires 0 < denominator
  {
    WithSign(start <= end, MultiplyByRatio(Signed(Distance(start, end)) % TWO64, numerator, denominator))
  }

  lemma SignedRoundTrip(u: nat)
    requires u < TWO64
    ensures Signed(u) % TWO64 == u
  {
  }

  lemma Forward(m: UInt64)
    ensures WithSign(true, m) == if m < TWO63 then m as int else m - TWO64
  {
    SignedRoundTrip(m);
  }

  lemma Backward(m: UInt64)
    ensures WithSign(false, m) == if m <= TWO63 then -(m as int) else TWO64 - m
  {
    if m <= TWO63 {
      if 0 < m {
        DivModUnique(-Signed(m), TWO64, if m < TWO63 then -1 else 0, if m < TWO63 then TWO64 - m else TWO63);
      }
    } else {
      DivModUnique(TWO64 - m, TWO64, 0, TWO64 - m);
    }
  }

  lemma ZeroScales(numerator: nat, denominator: nat)
    requires 0 < denominator
    ensures MultiplyByRatio(0, numerator, denominator) == 0
  {
    DivModUnique(0, denominator, 0, 0);
  }

  /** The signed difference has the absolute one as its magnitude, with the sign of the difference,
      exactly when that fits a signed word; it is antisymmetric except at 2^63 nanoseconds. */
  lemma SignedDifference(start: UInt64, end: UInt64, numerator: nat, denominator: nat)
    requires Words(start, numerator, denominator)
    ensures var m: int := AbsoluteHostDeltaToNanos(start, end, numerator, denominator);
            var d := HostDeltaToNanos(start, end, numerator, denominator);
            && (d == (if start <= end then m else -m) <==> m < TWO63 || (m == TWO63 && end < start))
            && (HostDeltaToNanos(end, start, numerator, denominator) == -d <==> m != TWO63)
  {
    var m := AbsoluteHostDeltaToNanos(start, end, numerator, denominator);
    SignedRoundTrip(Distance(start, end));
    assert HostDeltaToNanos(start, end, numerator, denominator) == WithSign(start <= end, m);
    assert HostDeltaToNanos(end, start, numerator, denominator) == WithSign(end <= start, m);
    Forward(m);
    Backward(m);
    if start == end {
      ZeroScales(numerator, denominator);
    }
  }
}
