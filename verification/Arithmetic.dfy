/** Small arithmetic that several modules share. */
module Arithmetic {

  function Min(a: nat, b: nat): (r: nat)
    ensures r <= a && r <= b && (r == a || r == b)
  {
    if a < b then a else b
  }

  /** A place on a ring of n places, or a reading of a clock of n readings, for i below 2 n. */
  function Wrap(i: nat, n: nat): nat {
    if i < n then i else i - n
  }

  lemma {:induction false} ProductMonotone(a: int, b: int, d: int)
    requires 0 <= d && a <= b
    ensures a * d <= b * d
    decreases b - a
  {
    if a < b {
      ProductMonotone(a, b - 1, d);
      ProductStep(b, d);
    }
  }

  lemma ProductStep(a: int, d: int)
    ensures a * d == (a - 1) * d + d
    ensures (a + 1) * d == a * d + d
  {
  }

  /** What a clock of w readings shows at time t, when it showed 0 at `epoch`. */
  function ReadingOf(w: int, epoch: int, t: int): int
    requires 0 < w
  {
    (t - epoch) % w
  }

  lemma {:induction false} Remainder(x: int, r: int, q: int, w: int)
    requires 0 <= r < w && x == r + q * w
    ensures x % w == r && x / w == q
    ensures (0 <= x <==> 0 <= q) && (x < w <==> q <= 0)
  {
    if q < 0 { ProductMonotone(q, -1, w); }
    if q > 0 { ProductMonotone(1, q, w); }
    QuotientUnique(x, w, q);
  }

  lemma QuotientUnique(x: int, d: int, n: int)
    requires 0 < d && n * d <= x < n * d + d
    ensures n == x / d
  {
    var q := x / d;
    assert x == q * d + x % d;
    ProductStep(n, d);
    ProductStep(q, d);
    if n < q { ProductMonotone(n + 1, q, d); }
    if q < n { ProductMonotone(q + 1, n, d); }
  }

  lemma {:induction false} QuotientMonotone(x: int, y: int, d: int)
    requires 0 < d && x <= y
    ensures x / d <= y / d
  {
    var q, r := x / d, y / d;
    assert x == q * d + x % d && y == r * d + y % d;
    if r < q { ProductMonotone(r + 1, q, d); ProductStep(r, d); }
  }

  lemma ReadingInRange(w: int, epoch: int, t: int)
    requires 0 < w
    ensures 0 <= ReadingOf(w, epoch, t) < w
  {
  }

  lemma ReadingInEpoch(w: int, first: int, epoch: int, wraps: int, t: int)
    requires 0 < w && epoch == first + wraps * w && epoch <= t < epoch + w
    ensures ReadingOf(w, first, t) == t - epoch
  {
    assert t - first == (t - epoch) + wraps * w;
    Remainder(t - first, t - epoch, wraps, w);
  }

  /** A wrap later the clock shows the same, and so it does when its zero is counted from a wrap later. */
  lemma {:induction false} ReadingAfterWrap(w: int, epoch: int, t: int)
    requires 0 < w
    ensures ReadingOf(w, epoch, t + w) == ReadingOf(w, epoch, t) == ReadingOf(w, epoch + w, t)
  {
    var r, q := (t - epoch) % w, (t - epoch) / w;
    assert t - epoch == r + q * w;
    ProductStep(q, w);
    Remainder(t + w - epoch, r, q + 1, w);
    Remainder(t - epoch - w, r, q - 1, w);
  }

  /**
   * What somebody who sees only readings makes of a sample at time t: he lags
   * whole wraps behind, and takes it for the next time with this reading.  He is
   * right if and only if he was before, and less than a wrap has passed since.
   */
  lemma {:induction false} SampleIsRightIff(w: int, epoch: int, before: int, seen: int, last: int, t: int, lag: nat) returns (newLag: nat)
    requires 0 < w && last == before + lag * w && last <= t
    requires before <= seen < before + w && ReadingOf(w, epoch, seen) == ReadingOf(w, epoch, t)
    ensures t == seen + newLag * w
    ensures newLag == 0 <==> lag == 0 && t < last + w
    ensures seen == t <==> newLag == 0
  {
    var q, r := (t - epoch) / w, (seen - epoch) / w;
    assert t - epoch == q * w + (t - epoch) % w && seen - epoch == r * w + (seen - epoch) % w;
    var n := q - r;
    assert t - seen == n * w;
    if n < lag { ProductMonotone(n, lag - 1, w); ProductStep(lag, w); }
    newLag := n;
    if n > 0 { ProductMonotone(1, n, w); }
    if lag > 0 { ProductMonotone(1, lag, w); }
  }
}
