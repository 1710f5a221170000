/** A log-linear histogram: its buckets tile every 64-bit value, so a percentile is off by at most 1/64. */
module LatencyHistograms {
  import opened Basics
  import opened Bits

  const SUB_BUCKET_BITS: nat := 7
  const HALF: nat := 64
  const BUCKET_COUNT: nat := (64 - SUB_BUCKET_BITS + 2) * HALF

  // ---- Buckets ----

  /** std::bit_width: how many bits it takes to write `v`. */
  function BitWidth(v: nat): nat {
    if v == 0 then 0 else 1 + BitWidth(v / 2)
  }

  function ShiftFor(v: nat): nat {
    if BitWidth(v) > SUB_BUCKET_BITS then BitWidth(v) - SUB_BUCKET_BITS else 0
  }

  function IndexOf(v: nat): nat {
    ShiftFor(v) * HALF + Shr(v, ShiftFor(v))
  }

  /** How many low bits the values of bucket `i` have lost. */
  function ShiftAt(i: nat): nat {
    if i < 2 * HALF then 0 else i / HALF - 1
  }

  function LowestEquivalent(i: nat): (v: int)
    ensures v >= 0
  {
    if i < 2 * HALF then i else MulPow2(i - ShiftAt(i) * HALF, ShiftAt(i))
  }

  function HighestEquivalent(i: nat): (v: int)
    ensures v >= LowestEquivalent(i)
  {
    if i < 2 * HALF then i else LowestEquivalent(i) + (Pow2(ShiftAt(i)) - 1)
  }

  /** A left shift. */
  function MulPow2(m: nat, k: nat): nat {
    m * Pow2(k)
  }

  lemma {:induction false} BitWidthIs(v: nat)
    ensures v < Pow2(BitWidth(v)) && (v == 0 ==> BitWidth(v) == 0)
    ensures v > 0 ==> BitWidth(v) > 0 && Pow2(BitWidth(v) - 1) <= v
  {
    if v > 0 {
      BitWidthIs(v / 2);
    }
  }

  /** Bits kept: all of them below 128, then the top seven. */
  lemma TopBits(v: nat)
    ensures v < 128 ==> ShiftFor(v) == 0
    ensures v >= 128 ==> ShiftFor(v) > 0 && 64 <= Shr(v, ShiftFor(v)) < 128
    ensures v < WORD ==> ShiftFor(v) <= 57
  {
    hide BitWidth, Pow2, Shr;
    Pow2Values();
    BitWidthIs(v);
    var width, shift := BitWidth(v), ShiftFor(v);
    if v < 128 {
      if width > 7 {
        Pow2Monotone(7, width - 1);
      }
    } else {
      if width <= 7 {
        Pow2Monotone(width, 7);
      }
      ShiftFits(v, 7, shift);
      ShiftKeeps(v, shift);
    }
    if v < WORD && width > 64 {
      Pow2Monotone(64, width - 1);
    }
  }

  lemma ShiftKeeps(v: nat, shift: nat)
    requires Pow2(6 + shift) <= v
    ensures Shr(v, shift) >= 64
  {
    Pow2Sum(6, shift);
    assert Pow2(6) == 64;
    DivBounds(v, Pow2(shift));
    if v / Pow2(shift) < 64 {
      MulMonotone(v / Pow2(shift) + 1, 64, Pow2(shift));
    }
  }

  /** A value lies in the bucket it is counted in, and that bucket is in the table. */
  lemma InItsBucket(v: nat)
    ensures LowestEquivalent(IndexOf(v)) <= v <= HighestEquivalent(IndexOf(v))
    ensures v < WORD ==> IndexOf(v) < BUCKET_COUNT
  {
    hide ShiftFor;
    TopBits(v);
    var shift := ShiftFor(v);
    DivBounds(v, Pow2(shift));
    if v < 128 {
      assert Pow2(0) == 1;
    } else {
      var m := Shr(v, shift);
      QuotientIsUnique(IndexOf(v), HALF, shift + 1, m - HALF);
    }
  }

  /** The next bucket starts where this one ends. */
  lemma BucketsTouch(i: nat)
    ensures HighestEquivalent(i) + 1 == LowestEquivalent(i + 1)
  {
    hide Pow2;
    var q, r := i / HALF, i % HALF;
    DivBounds(i, HALF);
    if i + 1 < 2 * HALF {
    } else if i + 1 == 2 * HALF {
      Pow2Doubles(0);
    } else if r == HALF - 1 {
      QuotientIsUnique(i + 1, HALF, q + 1, 0);
      Pow2Doubles(q - 1);
      assert i - (q - 1) * HALF == 127 && (i + 1) - q * HALF == 64;
    } else {
      QuotientIsUnique(i + 1, HALF, q, r + 1);
      Successor(i - (q - 1) * HALF, Pow2(q - 1));
    }
  }

  lemma Pow2Doubles(k: nat)
    ensures Pow2(k + 1) == 2 * Pow2(k) && Pow2(0) == 1
  {
  }

  lemma Successor(m: nat, d: nat)
    ensures (m + 1) * d == m * d + d
  {
  }

  /** The buckets tile the 64-bit values: first to last, in order, no gap, no overlap. */
  lemma {:induction false} BucketsTile(i: nat, j: nat)
    requires i < j
    ensures HighestEquivalent(i) < LowestEquivalent(j)
    ensures LowestEquivalent(0) == 0 && HighestEquivalent(BUCKET_COUNT - 1) == WORD - 1
    decreases j - i
  {
    hide HighestEquivalent, LowestEquivalent;
    BucketsTouch(j - 1);
    if i < j - 1 {
      BucketsTile(i, j - 1);
    }
    Ends();
  }

  lemma Ends()
    ensures LowestEquivalent(0) == 0 && HighestEquivalent(BUCKET_COUNT - 1) == WORD - 1
  {
    hide Pow2;
    Pow2Values();
  }

  /** The bucket a value is counted in is the one bucket whose bounds hold it. */
  lemma BucketOfIff(v: nat, i: nat)
    ensures IndexOf(v) == i <==> LowestEquivalent(i) <= v <= HighestEquivalent(i)
  {
    hide *;
    InItsBucket(v);
    var j := IndexOf(v);
    if i < j {
      BucketsTile(i, j);
    } else if j < i {
      BucketsTile(j, i);
    }
  }

  lemma IndexIsMonotone(u: nat, v: nat)
    requires u <= v
    ensures IndexOf(u) <= IndexOf(v)
  {
    hide *;
    InItsBucket(u);
    InItsBucket(v);
    if IndexOf(v) < IndexOf(u) {
      BucketsTile(IndexOf(v), IndexOf(u));
    }
  }

  /** No bucket is wider than 1/64 of its low end. */
  lemma NarrowBuckets(i: nat)
    ensures HighestEquivalent(i) <= LowestEquivalent(i) + LowestEquivalent(i) / 64
  {
    if i >= 2 * HALF {
      DivBounds(i, HALF);
      var m, d := i - ShiftAt(i) * HALF, Pow2(ShiftAt(i));
      MulMonotone(64, m, d);
      DivBounds(m * d, 64);
    }
  }

  // ---- What was recorded ----

  /** How many of `values` are `x` or less. */
  function AtMost(values: seq<nat>, x: int): nat {
    if values == [] then 0
    else AtMost(values[..|values| - 1], x) + if values[|values| - 1] <= x then 1 else 0
  }

  function InBucket(values: seq<nat>, i: nat): nat {
    if values == [] then 0
    else InBucket(values[..|values| - 1], i) + if IndexOf(values[|values| - 1]) == i then 1 else 0
  }

  function Sum(values: seq<nat>): nat {
    if values == [] then 0 else Sum(values[..|values| - 1]) + values[|values| - 1]
  }

  /** `x` is the `rank`-th smallest of `values`. */
  ghost predicate IsRanked(values: seq<nat>, rank: nat, x: nat) {
    x in values && AtMost(values, x - 1) < rank <= AtMost(values, x)
  }

  lemma {:induction false} AtMostMonotone(values: seq<nat>, x: int, y: int)
    requires x <= y
    ensures AtMost(values, x) <= AtMost(values, y) <= |values|
  {
    if values != [] {
      AtMostMonotone(values[..|values| - 1], x, y);
    }
  }

  lemma {:induction false} AllAtMost(values: seq<nat>, x: int)
    ensures AtMost(values, x) == |values| <==> forall v | v in values :: v <= x
  {
    if values != [] {
      var n := |values| - 1;
      AllAtMost(values[..n], x);
      AtMostMonotone(values[..n], x, x);
      assert values == values[..n] + [values[n]];
      assert values[n] in values;
      assert forall v | v in values[..n] :: v in values;
      assert forall v | v in values :: v in values[..n] || v == values[n];
    }
  }

  lemma {:induction false} BucketHolds(values: seq<nat>, i: nat)
    ensures AtMost(values, LowestEquivalent(i) - 1) + InBucket(values, i) == AtMost(values, HighestEquivalent(i))
  {
    hide IndexOf, LowestEquivalent, HighestEquivalent;
    if values != [] {
      BucketHolds(values[..|values| - 1], i);
      BucketOfIff(values[|values| - 1], i);
    }
  }

  /** There is exactly one value of each rank. */
  lemma RankedOnce(values: seq<nat>, rank: nat) returns (x: nat)
    requires 1 <= rank <= |values|
    ensures IsRanked(values, rank, x)
    ensures forall y: nat | IsRanked(values, rank, y) :: y == x
  {
    x := FirstReaching(values, rank, Sum(values));
    forall y: nat | IsRanked(values, rank, y) ensures y == x {
      if y < x {
        AtMostMonotone(values, y, x - 1);
      } else if x < y {
        AtMostMonotone(values, x, y - 1);
      }
    }
  }

  lemma {:induction false} FirstReaching(values: seq<nat>, rank: nat, bound: nat) returns (x: nat)
    requires 1 <= rank <= |values|
    requires AtMost(values, bound) >= rank || bound == Sum(values)
    ensures IsRanked(values, rank, x)
    decreases bound
  {
    if bound == Sum(values) {
      EachAtMostSum(values);
      AllAtMost(values, bound);
    }
    if AtMost(values, bound - 1) < rank {
      x := bound;
      NewlyReached(values, x);
    } else {
      NoneBelowZero(values);
      x := FirstReaching(values, rank, bound - 1);
    }
  }

  lemma {:induction false} NoneBelowZero(values: seq<nat>)
    ensures AtMost(values, -1) == 0
  {
    if values != [] {
      NoneBelowZero(values[..|values| - 1]);
    }
  }

  lemma {:induction false} NewlyReached(values: seq<nat>, x: nat)
    requires AtMost(values, x - 1) < AtMost(values, x)
    ensures x in values
  {
    if values[|values| - 1] != x {
      NewlyReached(values[..|values| - 1], x);
    }
  }

  lemma {:induction false} EachAtMostSum(values: seq<nat>)
    ensures forall v | v in values :: v <= Sum(values)
  {
    if values != [] {
      EachAtMostSum(values[..|values| - 1]);
      assert values == values[..|values| - 1] + [values[|values| - 1]];
    }
  }

  /** The bucket that first reaches a rank is the bucket of the value of that rank. */
  lemma ReachedIn(values: seq<nat>, rank: nat, i: nat, x: nat)
    requires AtMost(values, LowestEquivalent(i) - 1) < rank <= AtMost(values, HighestEquivalent(i))
    requires IsRanked(values, rank, x)
    ensures IndexOf(x) == i
    ensures x <= HighestEquivalent(i) <= x + x / 64
  {
    hide IndexOf, LowestEquivalent, HighestEquivalent, AtMost;
    if HighestEquivalent(i) < x {
      AtMostMonotone(values, HighestEquivalent(i), x - 1);
    } else if x < LowestEquivalent(i) {
      AtMostMonotone(values, x, LowestEquivalent(i) - 1);
    }
    BucketOfIff(x, i);
    NarrowBuckets(i);
  }

  // ---- Percentiles ----

  function Ceil(x: real): int {
    -((-x).Floor)
  }

  /** A double in [0, 100], or outside it, or not a number. */
  datatype Percentile = NaN | Of(value: real) {
    predicate Positive() { Of? && value > 0.0 }
  }

  /** How many of `count` values a positive percentile asks for, exactly; anything past 100 asks for all. */
  function Share(percentile: Percentile, count: nat): real
    requires percentile.Positive()
  {
    (if percentile.value < 100.0 then percentile.value else 100.0) / 100.0 * count as real
  }

  function RankFor(share: real): int {
    var rank := Ceil(share);
    if rank < 1 then 1 else rank
  }

  /** The exact share is `percentile` hundredths of the values, and never more than all of them. */
  lemma ShareBounds(percentile: Percentile, count: nat)
    requires percentile.Positive() && count > 0
    ensures 0.0 < Share(percentile, count) <= count as real && RankFor(Share(percentile, count)) <= count
    ensures percentile.value <= 100.0 ==> 100.0 * Share(percentile, count) == percentile.value * count as real
    ensures percentile.value >= 100.0 ==> Share(percentile, count) == count as real
  {
    hide RankFor, Ceil;
    var part := (if percentile.value < 100.0 then percentile.value else 100.0) / 100.0;
    PartOfWhole(part, count as real);
    RankIsLeast(Share(percentile, count), count);
  }

  lemma PartOfWhole(part: real, whole: real)
    requires 0.0 < part <= 1.0 && whole > 0.0
    ensures 0.0 < part * whole <= whole
  {
  }

  /** It is the least rank, from 1 up, that covers the share. */
  lemma RankIsLeast(share: real, rank: nat)
    ensures 1 <= RankFor(share)
    ensures rank >= 1 ==> (RankFor(share) <= rank <==> share <= rank as real)
  {
    assert (-share).Floor as real <= -share < (-share).Floor as real + 1.0;
  }

  class LatencyHistogram {
    const counts: array<nat>
    var count: nat
    var sum: nat
    var min: nat
    var max: nat
    ghost var recorded: seq<nat>

    ghost predicate Valid()
      reads this, counts
    {
      && counts.Length == BUCKET_COUNT
      && (forall v | v in recorded :: v < WORD)
      && (forall i | 0 <= i < BUCKET_COUNT :: counts[i] == InBucket(recorded, i))
      && count == |recorded|
      && sum == Sum(recorded) % WORD
      && Extremes(recorded, min, max)
    }

    constructor ()
      ensures Valid() && fresh(counts) && recorded == []
    {
      counts := new nat[BUCKET_COUNT](_ => 0);
      count, sum, min, max, recorded := 0, 0, WORD - 1, 0, [];
    }

    method Record(value: nat)
      requires Valid() && value < WORD
      modifies this, counts
      ensures Valid() && recorded == old(recorded) + [value]
    {
      hide IndexOf, LowestEquivalent, HighestEquivalent, Extremes;
      InItsBucket(value);
      SumWraps(Sum(recorded), value);
      counts[IndexOf(value)] := counts[IndexOf(value)] + 1;
      count := count + 1;
      sum := (sum + value) % WORD;
      ExtremesGrow(recorded, min, max, value);
      min := Min(min, value);
      max := Max(max, value);
      ghost var before := recorded;
      recorded := recorded + [value];
      assert recorded[..|recorded| - 1] == before;
    }

    method MinRecorded() returns (v: nat)
      requires Valid()
      ensures count == 0 ==> v == 0
      ensures count > 0 ==> v in recorded && forall u | u in recorded :: v <= u
    {
      v := if count > 0 then min else 0;
    }

    method MaxRecorded() returns (v: nat)
      requires Valid()
      ensures count == 0 ==> v == 0
      ensures count > 0 ==> v in recorded && forall u | u in recorded :: u <= v
    {
      v := max;
    }

    /** The scan over the buckets. A rank past the count, from a product rounded up, gives the maximum. */
    method ValueAtRank(rank: nat) returns (v: nat)
      requires Valid() && rank >= 1
      ensures forall x: nat | IsRanked(recorded, rank, x) ::
          v == Min(HighestEquivalent(IndexOf(x)), max) && x <= v <= x + x / 64
      ensures rank > count ==> v == max
    {
      hide IndexOf, LowestEquivalent, HighestEquivalent, InBucket, AtMost;
      var seen, i := 0, 0;
      NoneBelowZero(recorded);
      Ends();
      while i < BUCKET_COUNT
        invariant 0 <= i <= BUCKET_COUNT
        invariant seen == AtMost(recorded, LowestEquivalent(i) - 1)
        invariant seen < rank
      {
        BucketHolds(recorded, i);
        BucketsTouch(i);
        seen := seen + counts[i];
        if seen >= rank {
          v := Min(HighestEquivalent(i), max);
          forall x: nat | IsRanked(recorded, rank, x)
            ensures v == Min(HighestEquivalent(IndexOf(x)), max) && x <= v <= x + x / 64
          {
            ReachedIn(recorded, rank, i, x);
          }
          AtMostMonotone(recorded, HighestEquivalent(i), HighestEquivalent(i));
          return;
        }
        i := i + 1;
      }
      AllReached(recorded, seen);
      v := max;
      forall x: nat ensures !IsRanked(recorded, rank, x) {
        AtMostMonotone(recorded, x, x);
      }
    }

    /**
     * `share` is what the product of percentile and count comes out as, rounded in any way. The answer covers it or
     * is the maximum, and is at most 1/64 above the exact value of its rank; no rounding, or rounding up, makes it
     * cover the percentile itself.
     */
    method ValueAtPercentile(percentile: Percentile, share: real) returns (v: nat)
      requires Valid()
      ensures count == 0 ==> v == 0
      ensures count > 0 && !percentile.Positive() ==> v in recorded && forall u | u in recorded :: v <= u
      ensures count > 0 && percentile.Positive() ==>
                && v <= max
                && (forall x: nat | IsRanked(recorded, RankFor(share), x) :: x <= v <= x + x / 64)
                && (RankFor(share) > count ==> v == max)
                && (share <= AtMost(recorded, v) as real || v == max)
                && (percentile.value <= 100.0 && 100.0 * share >= percentile.value * count as real ==>
                      percentile.value * count as real <= 100.0 * AtMost(recorded, v) as real)
                && (share >= count as real ==> v == max)
    {
      hide AtMost, RankFor, HighestEquivalent, IndexOf, InBucket, Sum, Share, Ceil;
      if count == 0 {
        return 0;
      }
      if !percentile.Positive() {
        return min;
      }
      var rank := RankFor(share);
      RankIsLeast(share, 1);
      ShareBounds(percentile, count);
      v := ValueAtRank(rank);
      if rank <= count {
        ghost var x := RankedOnce(recorded, rank);
        AtMostMonotone(recorded, x, v);
        RankIsLeast(share, AtMost(recorded, v));
        RankIsLeast(share, count - 1);
        AllAtMost(recorded, x);
      } else {
        AllAtMost(recorded, v);
      }
    }

    /** The exact share finds a recorded value of its rank to be close to. */
    lemma ExactRankExists(percentile: Percentile) returns (x: nat)
      requires Valid() && count > 0 && percentile.Positive()
      ensures IsRanked(recorded, RankFor(Share(percentile, count)), x)
    {
      hide RankFor, Share;
      ShareBounds(percentile, count);
      RankIsLeast(Share(percentile, count), 1);
      x := RankedOnce(recorded, RankFor(Share(percentile, count)));
    }

    method Reset()
      requires Valid()
      modifies this, counts
      ensures Valid() && recorded == []
    {
      hide IndexOf;
      forall i | 0 <= i < counts.Length {
        counts[i] := 0;
      }
      count, sum, min, max, recorded := 0, 0, WORD - 1, 0, [];
    }
  }

  ghost predicate Extremes(values: seq<nat>, min: nat, max: nat) {
    if values == [] then min == WORD - 1 && max == 0
    else min in values && max in values && forall v | v in values :: min <= v <= max
  }

  lemma ExtremesGrow(values: seq<nat>, min: nat, max: nat, value: nat)
    requires Extremes(values, min, max) && value < WORD
    ensures Extremes(values + [value], Min(min, value), Max(max, value))
  {
  }

  lemma SumWraps(sum: nat, value: nat)
    ensures (sum % WORD + value) % WORD == (sum + value) % WORD
  {
  }

  /** Past the last bucket, every value has been seen. */
  lemma AllReached(values: seq<nat>, seen: nat)
    requires forall v | v in values :: v < WORD
    requires seen == AtMost(values, LowestEquivalent(BUCKET_COUNT) - 1)
    ensures seen == |values|
  {
    hide LowestEquivalent, HighestEquivalent;
    Ends();
    BucketsTouch(BUCKET_COUNT - 1);
    AllAtMost(values, WORD - 1);
  }
}
