/**
 * Batch records as the device controller reports them, the empty sentinel
 * the analytics screen falls back to, and the derived display values.
 */
module Batches {
  import opened Options

  /**
   * One completed sorting run. `batchNumber` is a display label the server
   * may omit; the size and quality counts are independent and need not add
   * up to `total`.
   */
  datatype BatchRecord = BatchRecord(
    id: int,
    batchNumber: Option<int>,
    timestamp: Option<string>,
    total: nat,
    small: nat,
    medium: nat,
    large: nat,
    qualityGood: nat,
    qualityBad: nat)

  /** The sort key of the batch list. */
  function BatchId(b: BatchRecord): int { b.id }

  /** The record driving the charts: a batch, or the empty object `{}`. */
  datatype Active = NoBatch | Batch(record: BatchRecord)

  /**
   * The pie chart's slices, large then medium then small:
   * `activeBatch.field || 0` for each, so every field of `{}` reads as 0.
   */
  function PieValues(a: Active): (r: seq<nat>)
    ensures |r| == 3
    ensures a.NoBatch? ==> r == [0, 0, 0]
    ensures a.Batch? ==> r == [a.record.large, a.record.medium, a.record.small]
  {
    match a
    case NoBatch => [0, 0, 0]
    case Batch(b) => [b.large, b.medium, b.small]
  }

  /** The quality chart's slices: good first, then bad; both 0 on `{}`. */
  function QualityValues(a: Active): (r: seq<nat>)
    ensures |r| == 2
    ensures a.NoBatch? ==> r == [0, 0]
    ensures a.Batch? ==> r == [a.record.qualityGood, a.record.qualityBad]
  {
    match a
    case NoBatch => [0, 0]
    case Batch(b) => [b.qualityGood, b.qualityBad]
  }

  /** `activeBatch.total || 1`: a zero or missing total reads as 1. */
  function Denominator(a: Active): (d: nat)
    ensures d >= 1
    ensures a.Batch? && a.record.total > 0 ==> d == a.record.total
    ensures a.NoBatch? || a.record.total == 0 ==> d == 1
  {
    match a
    case NoBatch => 1
    case Batch(b) => if b.total == 0 then 1 else b.total
  }

  /**
   * `Math.round(n / d)` for non-negative `n`, computed exactly: the nearest
   * integer, halves rounded up.
   */
  function RoundHalfUp(n: nat, d: nat): (r: nat)
    requires d > 0
    ensures 2 * d * r <= 2 * n + d < 2 * d * r + 2 * d
  {
    (2 * n + d) / (2 * d)
  }

  /**
   * `getPercent(val)`: `val` as a whole percentage of the active total,
   * rounded half up; the denominator is never zero.
   */
  function Percent(a: Active, val: nat): (p: nat)
    ensures 2 * Denominator(a) * p <= 200 * val + Denominator(a) < 2 * Denominator(a) * p + 2 * Denominator(a)
  {
    RoundHalfUp(100 * val, Denominator(a))
  }

  /** No units is 0 %. */
  lemma PercentOfZero(a: Active)
    ensures Percent(a, 0) == 0
  {
    var d := Denominator(a);
    MulLess(2 * d, Percent(a, 0), 1);
  }

  /** The whole total is exactly 100 %. */
  lemma PercentOfTotal(a: Active)
    requires a.Batch? && a.record.total > 0
    ensures Percent(a, a.record.total) == 100
  {
    var d := a.record.total;
    var p := Percent(a, d);
    // 2dp <= 201d < 2dp + 2d, so 99 < p < 101
    MulLess(2 * d, p, 101);
    MulLess(2 * d, 99, p);
  }

  /** A larger count never shows a smaller percentage. */
  lemma PercentMonotone(a: Active, v: nat, w: nat)
    requires v <= w
    ensures Percent(a, v) <= Percent(a, w)
  {
    var d := Denominator(a);
    MulLess(2 * d, Percent(a, v), Percent(a, w) + 1);
  }

  /** A part no larger than the total is at most 100 %. */
  lemma PercentAtMostHundred(a: Active, v: nat)
    requires a.Batch? && v <= a.record.total
    ensures Percent(a, v) <= 100
  {
    if a.record.total == 0 {
      PercentOfZero(a);
    } else {
      PercentMonotone(a, v, a.record.total);
      PercentOfTotal(a);
    }
  }

  /** On the empty sentinel every chart value, and every percentage shown, is 0. */
  lemma SentinelShowsZero()
    ensures forall v | v in PieValues(NoBatch) + QualityValues(NoBatch) :: v == 0 && Percent(NoBatch, v) == 0
  {
    PercentOfZero(NoBatch);
  }

  /** Multiplying by a positive factor preserves strict order. */
  lemma MulLess(m: nat, x: int, y: int)
    requires m > 0
    ensures m * x < m * y <==> x < y
  {
    if x < y {
      assert m * y == m * x + m * (y - x);
    } else {
      assert m * x == m * y + m * (x - y);
    }
  }
}
