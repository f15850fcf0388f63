/** The latency histogram: its bucket layout, and its percentiles against sorting. */
module Histogram {
  import Modular

  const NUM_BUCKETS := 608
  const TIER_START_NS := [0, 64, 1024, 8704, 70144, 560384]
  const TIER_STEP_NS := [1, 8, 64, 512, 4096, 32768]
  const TIER_FIRST_IDX := [0, 64, 184, 304, 424, 544]
  const INT_MAX := 0x7FFF_FFFF
  const UINT64_MAX := 0xFFFF_FFFF_FFFF_FFFF

  /** `static_cast<int>` of an unsigned 64-bit value, as gcc and clang define it. */
  function CastInt(x: nat): (r: int)
    ensures -INT_MAX - 1 <= r <= INT_MAX
    ensures x <= INT_MAX ==> r == x
  {
    var low := x % 0x1_0000_0000;
    if low <= INT_MAX then low else low - 0x1_0000_0000
  }

  /** The tier a latency falls into: the last whose start does not exceed it. */
  function TierOf(ns: nat): (t: nat)
    ensures t < 6 && TIER_START_NS[t] <= ns && (t < 5 ==> ns < TIER_START_NS[t + 1])
  {
    if ns >= 560384 then 5 else if ns >= 70144 then 4 else if ns >= 8704 then 3
    else if ns >= 1024 then 2 else if ns >= 64 then 1 else 0
  }

  /** The sum of two `int` values.  Where it does not fit the source leaves the result undefined; here
      it wraps, as the hardware does. */
  function AddInt(a: int, b: int): int {
    var sum := a + b;
    if sum > INT_MAX then sum - 0x1_0000_0000 else if sum < -INT_MAX - 1 then sum + 0x1_0000_0000 else sum
  }

  /** `bucket_for`, with the cast and the addition as the source's `int` has them. */
  function BucketFor(ns: nat): (idx: int) {
    var t := TierOf(ns);
    var idx := AddInt(TIER_FIRST_IDX[t], CastInt((ns - TIER_START_NS[t]) / TIER_STEP_NS[t]));
    if idx >= NUM_BUCKETS then NUM_BUCKETS - 1 else idx
  }

  function TierOfBucket(idx: nat): (t: nat)
    ensures t < 6 && TIER_FIRST_IDX[t] <= idx && (t < 5 ==> idx < TIER_FIRST_IDX[t + 1])
  {
    if idx >= 544 then 5 else if idx >= 424 then 4 else if idx >= 304 then 3
    else if idx >= 184 then 2 else if idx >= 64 then 1 else 0
  }

  /** `bucket_to_ns`: the lower end of a bucket. */
  function BucketToNs(idx: nat): nat {
    var t := TierOfBucket(idx);
    TIER_START_NS[t] + (idx - TIER_FIRST_IDX[t]) * TIER_STEP_NS[t]
  }

  /** The loop of `bucket_for`, from the last tier down. */
  method FindBucket(ns: nat) returns (idx: int)
    ensures idx == BucketFor(ns)
  {
    var t := 5;
    while t >= 0
      invariant -1 <= t <= 5
      invariant t < 5 ==> ns < TIER_START_NS[t + 1]
    {
      if ns >= TIER_START_NS[t] {
        assert t == TierOf(ns);
        var offset := CastInt((ns - TIER_START_NS[t]) / TIER_STEP_NS[t]);
        idx := AddInt(TIER_FIRST_IDX[t], offset);
        if idx >= NUM_BUCKETS {
          idx := NUM_BUCKETS - 1;
        }
        return;
      }
      t := t - 1;
    }
    assert false;
  }

  /** The loop of `bucket_to_ns`. */
  method FindStart(idx: nat) returns (ns: nat)
    ensures ns == BucketToNs(idx)
  {
    var t := 5;
    while t >= 0
      invariant -1 <= t <= 5
      invariant t < 5 ==> idx < TIER_FIRST_IDX[t + 1]
    {
      if idx >= TIER_FIRST_IDX[t] {
        assert t == TierOfBucket(idx);
        return TIER_START_NS[t] + (idx - TIER_FIRST_IDX[t]) * TIER_STEP_NS[t];
      }
      t := t - 1;
    }
    assert false;
  }

  // ---- The layout --------------------------------------------------------------------------

  /** Latencies for which neither the cast nor the addition behind it overflows: about 19.5 hours. */
  predicate Representable(ns: nat) {
    ns < 560384 + 32768 * (0x8000_0000 - 544)
  }

  /** Without the cast. */
  function PlainBucket(ns: nat): (idx: nat)
    ensures idx < NUM_BUCKETS
  {
    var t := TierOf(ns);
    var idx := TIER_FIRST_IDX[t] + (ns - TIER_START_NS[t]) / TIER_STEP_NS[t];
    if idx >= NUM_BUCKETS then NUM_BUCKETS - 1 else idx
  }

  /** What the cast makes of the offset into the last tier. */
  function LastTierOffset(ns: nat): int
    requires ns >= 560384
  {
    CastInt((ns - 560384) / 32768)
  }

  /** Neither the cast nor the addition does harm: the latency is representable, or its wrapped offset
      happens to land in or past the last bucket without the sum overflowing. */
  predicate Harmless(ns: nat) {
    Representable(ns) || 63 <= LastTierOffset(ns) <= INT_MAX - 544
  }

  /** Below the last tier the offsets are small. */
  lemma LowerTiers(ns: nat)
    requires ns < 560384
    ensures BucketFor(ns) == PlainBucket(ns) < 544
  {
    hide CastInt;
    var t := TierOf(ns);
    assert (ns - TIER_START_NS[t]) / TIER_STEP_NS[t] <= 120;
  }

  lemma LastTier(ns: nat)
    requires ns >= 560384
    ensures BucketFor(ns) == (var o := LastTierOffset(ns);
                              if o > INT_MAX - 544 then o + 544 - 0x1_0000_0000 else if o >= 63 then 607 else o + 544)
    ensures PlainBucket(ns) == (if (ns - 560384) / 32768 >= 63 then 607 else 544 + (ns - 560384) / 32768)
  {
    hide CastInt;
  }

  /** Exactly for these latencies the code finds the right bucket. */
  lemma HarmlessIff(ns: nat)
    ensures BucketFor(ns) == PlainBucket(ns) <==> Harmless(ns)
  {
    if ns < 560384 {
      LowerTiers(ns);
    } else {
      LastTier(ns);
      hide CastInt, BucketFor, PlainBucket;
      assert Representable(ns) <==> (ns - 560384) / 32768 <= INT_MAX - 544;
    }
  }

  /** The latencies for which `record` stays inside its array, right bucket or not. */
  predicate InArray(ns: nat) {
    ns < 560384 || -544 <= LastTierOffset(ns) <= INT_MAX - 544
  }

  lemma InArrayIff(ns: nat)
    ensures 0 <= BucketFor(ns) < NUM_BUCKETS <==> InArray(ns)
    ensures Harmless(ns) ==> InArray(ns)
  {
    HarmlessIff(ns);
    if ns < 560384 {
      LowerTiers(ns);
    } else {
      LastTier(ns);
      hide CastInt, BucketFor, PlainBucket;
    }
  }

  /** The cast can do harm: this latency gets a negative index, which `record` would use as it is. */
  lemma HugeLatencyEscapes(ns: nat)
    requires ns == 560384 + 32768 * 0x8000_0000
    ensures !InArray(ns) && BucketFor(ns) == 544 - 0x8000_0000 < 0
  {
    LastTier(ns);
    assert LastTierOffset(ns) == -INT_MAX - 1;
    hide BucketFor, CastInt;
  }

  /** So can the addition behind a cast that is exact. */
  lemma SumEscapes(ns: nat)
    requires ns == 560384 + 32768 * INT_MAX
    ensures LastTierOffset(ns) == INT_MAX
    ensures !InArray(ns) && BucketFor(ns) == 543 - 0x8000_0000 < 0
  {
    LastTier(ns);
    assert LastTierOffset(ns) == INT_MAX;
    hide BucketFor, CastInt;
  }

  /** And a cast can wrap back into the array: this latency, a day and a half, is filed under zero. */
  lemma WrongBucket(ns: nat)
    requires ns == 560384 + 32768 * (0x1_0000_0000 - 544)
    ensures InArray(ns) && !Harmless(ns) && BucketFor(ns) == 0
  {
    LastTier(ns);
    assert LastTierOffset(ns) == -544;
    hide BucketFor, CastInt;
  }

  /** Bucket `i` is the interval from its own lower end to the next one's: the layout is contiguous,
      with the last bucket open. */
  lemma BucketIsInterval(ns: nat, i: nat)
    requires i < NUM_BUCKETS
    ensures PlainBucket(ns) == i <==>
      BucketToNs(i) <= ns && (i + 1 < NUM_BUCKETS ==> ns < BucketToNs(i + 1))
  {
    LowerEndsIncrease(i);
    LowerEnd(ns);
    if PlainBucket(ns) < i {
      LowerEndsOrdered(PlainBucket(ns) + 1, i);
    } else if PlainBucket(ns) > i {
      LowerEndsOrdered(i + 1, PlainBucket(ns));
    }
  }

  lemma LowerEndsIncrease(i: nat)
    ensures BucketToNs(i) < BucketToNs(i + 1)
  {
  }

  lemma {:induction false} LowerEndsOrdered(i: nat, j: nat)
    requires i <= j
    ensures BucketToNs(i) <= BucketToNs(j)
    decreases j - i
  {
    if i < j {
      LowerEndsIncrease(i);
      LowerEndsOrdered(i + 1, j);
    }
  }

  lemma LowerEnd(ns: nat)
    ensures var b := PlainBucket(ns);
      BucketToNs(b) <= ns && (b + 1 < NUM_BUCKETS ==> ns < BucketToNs(b + 1))
  {
  }

  /** The lower end of a bucket belongs to it. */
  lemma BucketRoundTrip(i: nat)
    requires i < NUM_BUCKETS
    ensures BucketFor(BucketToNs(i)) == i
  {
    LowerEndsIncrease(i);
    BucketIsInterval(BucketToNs(i), i);
    assert BucketToNs(607) == 2624768;
    LowerEndsOrdered(i, 607);
    HarmlessIff(BucketToNs(i));
  }

  lemma BucketMonotone(a: nat, b: nat)
    requires a <= b && Harmless(a) && Harmless(b)
    ensures 0 <= BucketFor(a) <= BucketFor(b) < NUM_BUCKETS
  {
    HarmlessIff(a);
    HarmlessIff(b);
    hide BucketFor, Harmless;
    PlainMonotone(a, b);
  }

  lemma PlainMonotone(a: nat, b: nat)
    requires a <= b
    ensures PlainBucket(a) <= PlainBucket(b)
  {
    hide PlainBucket, BucketToNs;
    LowerEnd(a);
    LowerEnd(b);
    if PlainBucket(b) < PlainBucket(a) {
      LowerEndsOrdered(PlainBucket(b) + 1, PlainBucket(a));
    }
  }

  /** Reporting the lower end never overstates, and understates by at most an eighth below the end
      of the last bucket; from there on everything reads 2624768. */
  lemma ErrorBound(ns: nat)
    requires Harmless(ns)
    ensures BucketFor(ns) >= 0 && BucketToNs(BucketFor(ns)) <= ns
    ensures ns < 2657536 ==> 8 * (ns - BucketToNs(BucketFor(ns))) <= ns
    ensures ns >= 2657536 ==> BucketToNs(BucketFor(ns)) == 2624768
  {
    HarmlessIff(ns);
    hide BucketFor, Harmless;
    LowerEnd(ns);
  }

  // ---- Counting and ranking ----------------------------------------------------------------

  ghost predicate AllInArray(xs: seq<nat>) {
    forall i :: 0 <= i < |xs| ==> InArray(xs[i])
  }

  ghost predicate AllHarmless(xs: seq<nat>) {
    forall i :: 0 <= i < |xs| ==> Harmless(xs[i])
  }

  /** Samples whose bucket is at most `i`. */
  function AtMost(xs: seq<nat>, i: int): (n: nat)
    ensures n <= |xs|
  {
    if |xs| == 0 then 0
    else AtMost(xs[..|xs| - 1], i) + if BucketFor(xs[|xs| - 1]) <= i then 1 else 0
  }

  function InBucket(xs: seq<nat>, i: int): nat {
    if |xs| == 0 then 0
    else InBucket(xs[..|xs| - 1], i) + if BucketFor(xs[|xs| - 1]) == i then 1 else 0
  }

  /** The first `i` counts together: the accumulator of the scan. */
  function Prefix(counts: seq<nat>, i: nat): nat
    requires i <= |counts|
  {
    if i == 0 then 0 else Prefix(counts, i - 1) + counts[i - 1]
  }

  function Total(counts: seq<nat>): nat {
    Prefix(counts, |counts|)
  }

  lemma {:induction false} AtMostStep(xs: seq<nat>, i: int)
    ensures AtMost(xs, i) == AtMost(xs, i - 1) + InBucket(xs, i)
    decreases |xs|
  {
    hide BucketFor;
    if |xs| > 0 {
      AtMostStep(xs[..|xs| - 1], i);
    }
  }

  lemma {:induction false} AtMostEnds(xs: seq<nat>)
    requires AllInArray(xs)
    ensures AtMost(xs, -1) == 0 && AtMost(xs, NUM_BUCKETS - 1) == |xs|
    decreases |xs|
  {
    hide BucketFor, InArray;
    if |xs| > 0 {
      InArrayIff(xs[|xs| - 1]);
      AtMostEnds(xs[..|xs| - 1]);
    }
  }

  /** Counts that are those of the samples add up bucket by bucket. */
  lemma {:induction false} PrefixIsAtMost(counts: seq<nat>, xs: seq<nat>, i: nat)
    requires |counts| == NUM_BUCKETS && i <= NUM_BUCKETS && AllInArray(xs)
    requires forall k :: 0 <= k < NUM_BUCKETS ==> counts[k] == InBucket(xs, k)
    ensures Prefix(counts, i) == AtMost(xs, i - 1)
    decreases i
  {
    hide AtMost, InBucket;
    if i == 0 {
      AtMostEnds(xs);
    } else {
      PrefixIsAtMost(counts, xs, i - 1);
      AtMostStep(xs, i - 1);
    }
  }

  lemma {:induction false} PrefixGrows(counts: seq<nat>, i: nat, j: nat)
    requires i <= j <= |counts|
    ensures Prefix(counts, i) <= Prefix(counts, j)
    decreases j
  {
    if i < j {
      PrefixGrows(counts, i, j - 1);
    }
  }

  ghost predicate Sorted(s: seq<nat>) {
    forall i, j :: 0 <= i <= j < |s| ==> s[i] <= s[j]
  }

  lemma {:induction false} AtMostOfMultiset(xs: seq<nat>, ys: seq<nat>, i: int)
    requires multiset(xs) == multiset(ys)
    ensures AtMost(xs, i) == AtMost(ys, i)
    decreases |xs|
  {
    hide BucketFor;
    assert |multiset(xs)| == |xs| && |multiset(ys)| == |ys|;
    if |xs| > 0 {
      var init, x := xs[..|xs| - 1], xs[|xs| - 1];
      assert xs == init + [x];
      assert x in multiset(xs);
      assert x in multiset(ys);
      var k :| 0 <= k < |ys| && ys[k] == x;
      var rest := ys[..k] + ys[k + 1..];
      assert ys == ys[..k] + [x] + ys[k + 1..];
      assert multiset(rest) == multiset(ys) - multiset{x};
      assert multiset(init) == multiset(xs) - multiset{x};
      AtMostOfMultiset(init, rest, i);
      AtMostRemove(ys[..k], ys[k + 1..], x, i);
    }
  }

  lemma {:induction false} AtMostRemove(a: seq<nat>, b: seq<nat>, x: nat, i: int)
    ensures AtMost(a + [x] + b, i) == AtMost(a + b, i) + if BucketFor(x) <= i then 1 else 0
    decreases |b|
  {
    hide BucketFor;
    if |b| == 0 {
      assert (a + [x] + b)[..|a|] == a && a + b == a && a + [x] + b == a + [x];
    } else {
      var all, both := a + [x] + b, a + b;
      assert all[..|all| - 1] == a + [x] + b[..|b| - 1] && both[..|both| - 1] == a + b[..|b| - 1];
      AtMostRemove(a, b[..|b| - 1], x, i);
    }
  }

  /** In sorted order the samples of the first buckets come first. */
  lemma {:induction false} RankInBuckets(s: seq<nat>, i: int, r: nat)
    requires Sorted(s) && AllHarmless(s) && r < |s|
    ensures BucketFor(s[r]) <= i <==> AtMost(s, i) > r
    decreases |s|
  {
    hide BucketFor, Harmless;
    var init, last := s[..|s| - 1], s[|s| - 1];
    BucketMonotone(s[r], last);
    if BucketFor(last) <= i {
      AllAtMost(s, i);
    } else if r < |s| - 1 {
      assert init[r] == s[r];
      RankInBuckets(init, i, r);
    }
  }

  lemma {:induction false} AllAtMost(s: seq<nat>, i: int)
    requires Sorted(s) && AllHarmless(s) && (|s| > 0 ==> BucketFor(s[|s| - 1]) <= i)
    ensures AtMost(s, i) == |s|
    decreases |s|
  {
    hide BucketFor, Harmless;
    if |s| > 1 {
      BucketMonotone(s[|s| - 2], s[|s| - 1]);
    }
    if |s| > 0 {
      AllAtMost(s[..|s| - 1], i);
    }
  }

  // ---- Percentiles -------------------------------------------------------------------------

  /** A percentile target as an exact fraction. */
  datatype Fraction = Fraction(num: nat, den: nat)

  const TARGETS := [Fraction(50, 100), Fraction(95, 100), Fraction(99, 100), Fraction(999, 1000)]

  predicate Proper(p: Fraction) {
    0 < p.num <= p.den
  }

  /** Zero-based rank of the ceil(p * n)-th smallest of n samples. */
  function Rank(p: Fraction, n: nat): (r: nat)
    requires Proper(p) && n > 0
    ensures r < n
    ensures forall acc: nat :: acc > r <==> acc * p.den >= p.num * n
  {
    var r := (p.num * n + p.den - 1) / p.den - 1;
    RankIsCeiling(p, n);
    r
  }

  lemma RankIsCeiling(p: Fraction, n: nat)
    requires Proper(p) && n > 0
    ensures var r := (p.num * n + p.den - 1) / p.den - 1;
      0 <= r < n && forall acc: nat :: acc > r <==> acc * p.den >= p.num * n
  {
    var m, d := p.num * n, p.den;
    assert m > 0;
    assert m <= d * n;
    var c := (m + d - 1) / d;
    Ceiling(m, d, n);
    forall acc: nat
      ensures acc >= c <==> acc * d >= m
    {
      CeilingCompare(m, d, acc);
    }
  }

  lemma Ceiling(m: nat, d: nat, n: nat)
    requires 0 < m <= d * n && d > 0
    ensures 1 <= (m + d - 1) / d <= n
  {
    CeilingCompare(m, d, n);
    CeilingCompare(m, d, 0);
  }

  lemma CeilingCompare(m: nat, d: nat, acc: nat)
    requires d > 0
    ensures acc >= (m + d - 1) / d <==> acc * d >= m
  {
    var q, r := (m + d - 1) / d, (m + d - 1) % d;
    assert m + d - 1 == d * q + r;
    if acc >= q {
      assert acc * d >= q * d;
    } else {
      assert (acc + 1) * d <= q * d;
    }
  }

  lemma RankMonotone(p: Fraction, q: Fraction, n: nat)
    requires Proper(p) && Proper(q) && n > 0 && p.num * q.den <= q.num * p.den
    ensures Rank(p, n) <= Rank(q, n)
  {
    var acc := Rank(q, n) + 1;
    assert acc * q.den >= q.num * n;
    assert acc * p.den >= p.num * n by {
      CrossMultiply(acc, p.num, p.den, q.num, q.den, n);
    }
  }

  lemma CrossMultiply(acc: nat, a: nat, b: nat, c: nat, d: nat, n: nat)
    requires d > 0 && acc * d >= c * n && a * d <= c * b
    ensures acc * b >= a * n
  {
    assert (acc * d) * b >= (c * n) * b by {
      MulOrder(c * n, acc * d, b);
    }
    assert (c * b) * n >= (a * d) * n by {
      MulOrder(a * d, c * b, n);
    }
    assert (acc * d) * b == (acc * b) * d && (c * n) * b == (c * b) * n && (a * d) * n == (a * n) * d;
    if acc * b < a * n {
      MulStrict(acc * b, a * n, d);
    }
  }

  lemma MulOrder(x: nat, y: nat, z: nat)
    requires x <= y
    ensures x * z <= y * z
  {
  }

  lemma MulStrict(x: nat, y: nat, z: nat)
    requires x < y && z > 0
    ensures x * z < y * z
  {
  }

  /** The comparison of the scan, `acc >= p * n`, in whole numbers. */
  predicate Meets(acc: nat, p: Fraction, n: nat) {
    acc * p.den >= p.num * n
  }

  lemma RankMeets(p: Fraction, n: nat, acc: nat)
    requires Proper(p) && n > 0
    ensures Meets(acc, p, n) <==> acc > Rank(p, n)
  {
  }

  lemma TargetsProper(t: nat)
    requires t < 4
    ensures Proper(TARGETS[t])
  {
  }

  /** A count that misses a target misses the next one. */
  lemma TargetsIncrease(acc: nat, t: nat, n: nat)
    requires t < 3 && n > 0 && Meets(acc, TARGETS[t + 1], n)
    ensures Meets(acc, TARGETS[t], n)
  {
    hide Rank;
    RankMonotone(TARGETS[t], TARGETS[t + 1], n);
    RankMeets(TARGETS[t], n, acc);
    RankMeets(TARGETS[t + 1], n, acc);
  }

  /** The first bucket, from `i` on, at which the accumulated counts meet the target; the number of
      buckets when there is none. */
  function Crossing(counts: seq<nat>, p: Fraction, n: nat, i: nat): (c: nat)
    requires i <= |counts|
    ensures i <= c <= |counts|
    ensures c < |counts| ==> Meets(Prefix(counts, c + 1), p, n)
    ensures forall k :: i < k <= c ==> !Meets(Prefix(counts, k), p, n)
    decreases |counts| - i
  {
    if i == |counts| || Meets(Prefix(counts, i + 1), p, n) then i else Crossing(counts, p, n, i + 1)
  }

  lemma MeetsMore(a: nat, b: nat, p: Fraction, n: nat)
    requires a <= b && Meets(a, p, n)
    ensures Meets(b, p, n)
  {
    MulOrder(a, b, p.den);
  }

  /** The bucket whose count takes the accumulator over the target is the crossing. */
  lemma CrossingIs(counts: seq<nat>, p: Fraction, n: nat, i: nat)
    requires i <= |counts| && !Meets(Prefix(counts, i), p, n)
    requires i < |counts| ==> Meets(Prefix(counts, i + 1), p, n)
    ensures Crossing(counts, p, n, 0) == i
  {
    hide Meets, Prefix;
    var c := Crossing(counts, p, n, 0);
    if c < i {
      PrefixGrows(counts, c + 1, i);
      MeetsMore(Prefix(counts, c + 1), Prefix(counts, i), p, n);
    }
  }

  /** What `get_stats` reports for target `t` when it has read `counts`, `n` and `maxNs`, whoever was
      recording meanwhile. */
  function Percentile(counts: seq<nat>, t: nat, n: nat, maxNs: nat): nat
    requires t < 4
  {
    var c := Crossing(counts, TARGETS[t], n, 0);
    if c < |counts| then BucketToNs(c) else maxNs
  }

  /** Counts that sum to at least `n` meet every target: nothing is left to fill in. */
  lemma EnoughCounts(counts: seq<nat>, n: nat, t: nat)
    requires t < 4 && n > 0 && Total(counts) >= n
    ensures Crossing(counts, TARGETS[t], n, 0) < |counts|
  {
    var p := TARGETS[t];
    TargetsProper(t);
    MeetsOwnCount(Total(counts), p, n);
    NothingAtStart(p, n);
    hide Meets;
    assert Prefix(counts, 0) == 0 && Total(counts) == Prefix(counts, |counts|);
  }

  lemma MeetsOwnCount(acc: nat, p: Fraction, n: nat)
    requires Proper(p) && acc >= n
    ensures Meets(acc, p, n)
  {
    MulOrder(p.num, p.den, n);
    MulOrder(n, acc, p.den);
    assert p.den * n == n * p.den;
  }

  lemma NothingAtStart(p: Fraction, n: nat)
    requires Proper(p) && n > 0
    ensures !Meets(0, p, n)
  {
    ProductPositive(p.num, n);
  }

  lemma ProductPositive(a: nat, b: nat)
    requires a > 0 && b > 0
    ensures a * b > 0
  {
  }

  /** Crossings, and with them the reported percentiles, are in the order of the targets. */
  lemma CrossingsOrdered(counts: seq<nat>, n: nat, t: nat)
    requires t < 3 && n > 0
    ensures Crossing(counts, TARGETS[t], n, 0) <= Crossing(counts, TARGETS[t + 1], n, 0)
  {
    hide Meets, Prefix;
    var c := Crossing(counts, TARGETS[t + 1], n, 0);
    if c < |counts| {
      TargetsIncrease(Prefix(counts, c + 1), t, n);
    }
  }

  /** Whatever has been read, as long as the counts sum to at least `n`, the four percentiles are
      lower ends of buckets and in order. */
  lemma PercentilesOrdered(counts: seq<nat>, n: nat, maxNs: nat)
    requires n > 0 && Total(counts) >= n
    ensures Percentile(counts, 0, n, maxNs) <= Percentile(counts, 1, n, maxNs)
         <= Percentile(counts, 2, n, maxNs) <= Percentile(counts, 3, n, maxNs)
  {
    hide Crossing, Total, BucketToNs;
    for t := 0 to 3
      invariant t >= 1 ==> Percentile(counts, 0, n, maxNs) <= Percentile(counts, 1, n, maxNs)
      invariant t >= 2 ==> Percentile(counts, 1, n, maxNs) <= Percentile(counts, 2, n, maxNs)
      invariant t >= 3 ==> Percentile(counts, 2, n, maxNs) <= Percentile(counts, 3, n, maxNs)
    {
      EnoughCounts(counts, n, t);
      EnoughCounts(counts, n, t + 1);
      CrossingsOrdered(counts, n, t);
      LowerEndsOrdered(Crossing(counts, TARGETS[t], n, 0), Crossing(counts, TARGETS[t + 1], n, 0));
    }
  }

  // ---- The tracker -------------------------------------------------------------------------

  function Sum(xs: seq<nat>): nat {
    if |xs| == 0 then 0 else Sum(xs[..|xs| - 1]) + xs[|xs| - 1]
  }

  function Mean(total: nat, n: nat): nat
    requires n > 0
  {
    total / n
  }

  datatype Stats = Stats(sampleCount: nat, minNs: nat, maxNs: nat, meanNs: nat, percentiles: seq<nat>)

  const NO_STATS := Stats(0, 0, 0, 0, [0, 0, 0, 0])

  lemma Snoc(xs: seq<nat>, x: nat)
    ensures Sum(xs + [x]) == Sum(xs) + x
    ensures forall i :: InBucket(xs + [x], i) == InBucket(xs, i) + if BucketFor(x) == i then 1 else 0
  {
    assert (xs + [x])[..|xs|] == xs;
  }

  /** What percentile `t` should read: the lower end of the bucket of the sample of that rank. */
  ghost function Reading(sorted: seq<nat>, t: nat): nat
    requires t < 4 && |sorted| > 0
  {
    TargetsProper(t);
    BucketToNs(PlainBucket(sorted[Rank(TARGETS[t], |sorted|)]))
  }

  /** Counts that are those of harmless samples report what sorting would. */
  lemma PercentileIsReading(counts: seq<nat>, sorted: seq<nat>, samples: seq<nat>, t: nat, maxNs: nat)
    requires Sorted(sorted) && multiset(sorted) == multiset(samples) && |samples| > 0 && t < 4
    requires AllHarmless(sorted) && AllInArray(samples) && |counts| == NUM_BUCKETS
    requires forall k :: 0 <= k < NUM_BUCKETS ==> counts[k] == InBucket(samples, k)
    ensures |sorted| == |samples|
    ensures Percentile(counts, t, |samples|, maxNs) == Reading(sorted, t)
  {
    hide AtMost, InBucket, Rank, Meets, PlainBucket, BucketFor, BucketToNs, Prefix, Crossing, Harmless, InArray;
    SameLength(sorted, samples);
    var n := |samples|;
    TargetsProper(t);
    var r := Rank(TARGETS[t], n);
    var i := BucketFor(sorted[r]);
    HarmlessIff(sorted[r]);
    RankInBuckets(sorted, i, r);
    RankInBuckets(sorted, i - 1, r);
    AtMostOfMultiset(sorted, samples, i);
    AtMostOfMultiset(sorted, samples, i - 1);
    PrefixIsAtMost(counts, samples, i);
    PrefixIsAtMost(counts, samples, i + 1);
    RankMeets(TARGETS[t], n, Prefix(counts, i));
    RankMeets(TARGETS[t], n, Prefix(counts, i + 1));
    CrossingIs(counts, TARGETS[t], n, i);
  }

  /** The inner loop: every target met by the running count reads bucket `i`. */
  method AddReached(out: seq<nat>, i: nat, acc: nat, counts: seq<nat>, n: nat, ghost maxNs: nat)
      returns (r: seq<nat>)
    requires i < |counts| && acc == Prefix(counts, i + 1) && n > 0 && |out| <= 4
    requires |out| < 4 ==> !Meets(Prefix(counts, i), TARGETS[|out|], n)
    requires forall t :: 0 <= t < |out| ==> out[t] == Percentile(counts, t, n, maxNs)
    ensures |r| <= 4 && (|r| < 4 ==> !Meets(acc, TARGETS[|r|], n))
    ensures forall t :: 0 <= t < |r| ==> r[t] == Percentile(counts, t, n, maxNs)
  {
    hide Prefix, Meets, Crossing, BucketToNs;
    r := out;
    while |r| < 4 && Meets(acc, TARGETS[|r|], n)
      invariant |r| <= 4
      invariant |r| < 4 ==> !Meets(Prefix(counts, i), TARGETS[|r|], n)
      invariant forall t :: 0 <= t < |r| ==> r[t] == Percentile(counts, t, n, maxNs)
      decreases 4 - |r|
    {
      CrossingIs(counts, TARGETS[|r|], n, i);
      if |r| < 3 && Meets(Prefix(counts, i), TARGETS[|r| + 1], n) {
        TargetsIncrease(Prefix(counts, i), |r|, n);
      }
      var ns := FindStart(i);
      r := r + [ns];
    }
  }

  /** The scan over the buckets with its two accumulators, on whatever counts were read, and the loop
      that fills the rest with the maximum. */
  method Scan(counts: seq<nat>, n: nat, maxNs: nat) returns (out: seq<nat>)
    requires n > 0
    ensures |out| == 4 && forall t :: 0 <= t < 4 ==> out[t] == Percentile(counts, t, n, maxNs)
  {
    out := [];
    var acc, i := 0, 0;
    NothingAtStart(TARGETS[0], n);
    assert Prefix(counts, 0) == 0;
    while i < |counts| && |out| < 4
      invariant 0 <= i <= |counts| && |out| <= 4
      invariant acc == Prefix(counts, i)
      invariant |out| < 4 ==> !Meets(acc, TARGETS[|out|], n)
      invariant forall t :: 0 <= t < |out| ==> out[t] == Percentile(counts, t, n, maxNs)
    {
      hide Percentile, Meets;
      acc := acc + counts[i];
      out := AddReached(out, i, acc, counts, n, maxNs);
      i := i + 1;
    }
    hide Meets, Prefix;
    while |out| < 4
      invariant |out| <= 4
      invariant |out| < 4 ==> i == |counts| && !Meets(Prefix(counts, i), TARGETS[|out|], n)
      invariant forall t :: 0 <= t < |out| ==> out[t] == Percentile(counts, t, n, maxNs)
      decreases 4 - |out|
    {
      CrossingIs(counts, TARGETS[|out|], n, i);
      if |out| < 3 && Meets(Prefix(counts, i), TARGETS[|out| + 1], n) {
        TargetsIncrease(Prefix(counts, i), |out|, n);
      }
      out := out + [maxNs];
    }
  }

  predicate Ordered(percentiles: seq<nat>) {
    |percentiles| == 4 && percentiles[0] <= percentiles[1] <= percentiles[2] <= percentiles[3]
  }

  /** Each percentile is the reading of its rank in sorted order, and none exceeds the maximum. */
  ghost predicate Exact(percentiles: seq<nat>, sorted: seq<nat>, maxNs: nat) {
    && |sorted| > 0 && |percentiles| == 4 && percentiles[3] <= maxNs
    && forall t :: 0 <= t < 4 ==> percentiles[t] == Reading(sorted, t)
  }

  class LatencyTracker {
    const buckets: array<nat>
    var totalNs: nat
    var sampleCount: nat
    var minNs: nat
    var maxNs: nat
    ghost var samples: seq<nat>

    ghost predicate Valid()
      reads this, buckets
    {
      && buckets.Length == NUM_BUCKETS
      && (forall i :: 0 <= i < NUM_BUCKETS ==> buckets[i] == InBucket(samples, i))
      && sampleCount == |samples| && totalNs == Sum(samples)
      && AllInArray(samples)
      && (forall i :: 0 <= i < |samples| ==> minNs <= samples[i] <= maxNs)
      && (|samples| == 0 ==> minNs == UINT64_MAX && maxNs == 0)
      && (|samples| > 0 ==> minNs in samples && maxNs in samples)
    }

    constructor ()
      ensures Valid() && fresh(buckets) && samples == []
    {
      buckets := new nat[NUM_BUCKETS](_ => 0);
      totalNs, sampleCount, minNs, maxNs, samples := 0, 0, UINT64_MAX, 0, [];
    }

    /** `record`, alone.  A latency whose index lies outside the array is undefined in the source. */
    method Record(ns: nat)
      requires Valid() && ns <= UINT64_MAX && InArray(ns)
      modifies this, buckets
      ensures Valid() && samples == old(samples) + [ns]
    {
      hide BucketFor, InBucket, Sum, InArray;
      InArrayIff(ns);
      Snoc(samples, ns);
      var idx := FindBucket(ns);
      buckets[idx] := buckets[idx] + 1;
      totalNs := totalNs + ns;
      sampleCount := sampleCount + 1;
      if ns < minNs {
        minNs := ns;
      }
      if ns > maxNs {
        maxNs := ns;
      }
      samples := samples + [ns];
      assert samples[|samples| - 1] == ns;
    }

    /** The percentiles are lower ends of buckets in order; when the cast did no harm to any sample,
        each is the lower end of the bucket of the sample of that rank in sorted order, for any
        arrangement `sorted` of the samples, and none exceeds the maximum. */
    method GetStats(ghost sorted: seq<nat>) returns (s: Stats)
      requires Valid() && Sorted(sorted) && multiset(sorted) == multiset(samples)
      ensures |samples| == 0 ==> s == NO_STATS
      ensures |samples| > 0 ==>
        && s.sampleCount == |samples| && s.minNs == minNs && s.maxNs == maxNs
        && s.meanNs == Mean(Sum(samples), |samples|)
        && Ordered(s.percentiles)
        && (AllHarmless(sorted) ==> Exact(s.percentiles, sorted, maxNs))
    {
      if sampleCount == 0 {
        return NO_STATS;
      }
      hide BucketToNs, InBucket, AtMost, Sum, Rank, Percentile, Prefix, Harmless, InArray;
      var n := sampleCount;
      var counts := buckets[..];
      WhatIsReported(counts, sorted, samples, maxNs);
      hide Reading, Sorted, AllHarmless, AllInArray;
      var out := Scan(counts, n, maxNs);
      hide Mean;
      return Stats(n, minNs, maxNs, Mean(totalNs, n), out);
    }

    method Reset()
      requires Valid()
      modifies this, buckets
      ensures Valid() && samples == []
    {
      for i := 0 to NUM_BUCKETS
        invariant forall k :: 0 <= k < i ==> buckets[k] == 0
        modifies buckets
      {
        buckets[i] := 0;
      }
      totalNs, sampleCount, minNs, maxNs, samples := 0, 0, UINT64_MAX, 0, [];
    }
  }

  lemma SameLength(a: seq<nat>, b: seq<nat>)
    requires multiset(a) == multiset(b)
    ensures |a| == |b|
  {
    assert |multiset(a)| == |a| && |multiset(b)| == |b|;
  }

  lemma WhatIsReported(counts: seq<nat>, sorted: seq<nat>, samples: seq<nat>, maxNs: nat)
    requires Sorted(sorted) && multiset(sorted) == multiset(samples) && |samples| > 0
    requires AllInArray(samples) && |counts| == NUM_BUCKETS
    requires forall k :: 0 <= k < NUM_BUCKETS ==> counts[k] == InBucket(samples, k)
    requires forall i :: 0 <= i < |samples| ==> samples[i] <= maxNs
    ensures |sorted| == |samples|
    ensures Percentile(counts, 0, |samples|, maxNs) <= Percentile(counts, 1, |samples|, maxNs)
         <= Percentile(counts, 2, |samples|, maxNs) <= Percentile(counts, 3, |samples|, maxNs)
    ensures AllHarmless(sorted) ==>
      && Percentile(counts, 3, |samples|, maxNs) <= maxNs
      && forall t :: 0 <= t < 4 ==> Percentile(counts, t, |samples|, maxNs) == Reading(sorted, t)
  {
    hide InBucket, Percentile, Prefix, Total, Harmless, InArray, Reading;
    SameLength(sorted, samples);
    TotalIsCount(counts, samples);
    PercentilesOrdered(counts, |samples|, maxNs);
    if AllHarmless(sorted) {
      forall t | 0 <= t < 4
        ensures Percentile(counts, t, |samples|, maxNs) == Reading(sorted, t)
      {
        PercentileIsReading(counts, sorted, samples, t, maxNs);
      }
      ReadingAtMost(sorted, samples, maxNs);
    }
  }

  lemma TotalIsCount(counts: seq<nat>, xs: seq<nat>)
    requires |counts| == NUM_BUCKETS && AllInArray(xs)
    requires forall k :: 0 <= k < NUM_BUCKETS ==> counts[k] == InBucket(xs, k)
    ensures Total(counts) == |xs|
  {
    hide InBucket, AtMost, Prefix, InArray;
    PrefixIsAtMost(counts, xs, NUM_BUCKETS);
    AtMostEnds(xs);
  }

  lemma ReadingAtMost(sorted: seq<nat>, samples: seq<nat>, maxNs: nat)
    requires |sorted| > 0 && multiset(sorted) == multiset(samples)
    requires forall i :: 0 <= i < |samples| ==> samples[i] <= maxNs
    ensures Reading(sorted, 3) <= maxNs
  {
    hide PlainBucket, BucketToNs, Rank;
    var x := sorted[Rank(TARGETS[3], |sorted|)];
    LowerEnd(x);
    assert x in multiset(sorted);
    assert x in multiset(samples);
  }

  // ---- What the numbers mean ---------------------------------------------------------------

  /** The mean rounds down. */
  lemma MeanRoundsDown(total: nat, n: nat)
    requires n > 0
    ensures n * Mean(total, n) <= total < n * Mean(total, n) + n
  {
    var q, r := total / n, total % n;
    assert total == n * q + r;
  }

  lemma {:induction false} SumWithin(xs: seq<nat>, lo: nat, hi: nat)
    requires forall i :: 0 <= i < |xs| ==> lo <= xs[i] <= hi
    ensures |xs| * lo <= Sum(xs) <= |xs| * hi
    decreases |xs|
  {
    if |xs| > 0 {
      SumWithin(xs[..|xs| - 1], lo, hi);
      assert |xs| * lo == (|xs| - 1) * lo + lo && |xs| * hi == (|xs| - 1) * hi + hi;
    }
  }

  /** The mean lies between the smallest and the largest sample. */
  lemma MeanWithin(xs: seq<nat>, lo: nat, hi: nat)
    requires |xs| > 0 && forall i :: 0 <= i < |xs| ==> lo <= xs[i] <= hi
    ensures lo <= Mean(Sum(xs), |xs|) <= hi
  {
    SumWithin(xs, lo, hi);
    MeanRoundsDown(Sum(xs), |xs|);
    QuotientWithin(|xs|, Mean(Sum(xs), |xs|), Sum(xs), lo, hi);
  }

  lemma QuotientWithin(n: nat, q: nat, total: nat, lo: nat, hi: nat)
    requires n * q <= total < n * q + n && n * lo <= total <= n * hi
    ensures lo <= q <= hi
  {
    if q < lo {
      Modular.MulStep(n, q, lo);
    }
    if hi < q {
      Modular.MulStep(n, hi, q);
    }
  }

  /** Samples below a bound. */
  function Below(xs: seq<nat>, bound: nat): (n: nat)
    ensures n <= |xs|
  {
    if |xs| == 0 then 0 else Below(xs[..|xs| - 1], bound) + if xs[|xs| - 1] < bound then 1 else 0
  }

  /** For harmless samples the buckets below `i` hold what lies below `i`'s lower end. */
  lemma {:induction false} BelowIsAtMost(xs: seq<nat>, i: nat)
    requires AllHarmless(xs) && i < NUM_BUCKETS
    ensures Below(xs, BucketToNs(i)) == AtMost(xs, i - 1)
    decreases |xs|
  {
    hide BucketFor, BucketToNs, Harmless;
    if |xs| > 0 {
      BelowIffBucket(xs[|xs| - 1], i);
      BelowIsAtMost(xs[..|xs| - 1], i);
    }
  }

  lemma BelowIffBucket(x: nat, i: nat)
    requires Harmless(x) && i < NUM_BUCKETS
    ensures x < BucketToNs(i) <==> BucketFor(x) <= i - 1
  {
    HarmlessIff(x);
    var b := PlainBucket(x);
    hide BucketFor, BucketToNs, PlainBucket, Harmless;
    LowerEnd(x);
    if b < i {
      LowerEndsOrdered(b + 1, i);
    } else {
      LowerEndsOrdered(i, b);
    }
  }

  /** The targets in thousandths. */
  function PerMille(t: nat): nat
    requires t < 4
  {
    if t == 0 then 500 else if t == 1 then 950 else if t == 2 then 990 else 999
  }

  lemma MeetsIsPerMille(acc: nat, t: nat, n: nat)
    requires t < 4
    ensures Meets(acc, TARGETS[t], n) <==> 1000 * acc >= PerMille(t) * n
  {
  }

  /** What a reported percentile says of harmless samples: less than that share of them lies below it, and
      at least that share lies below the end of its bucket (in the last bucket, all of them). */
  lemma SharesMean(counts: seq<nat>, samples: seq<nat>, t: nat)
    requires |samples| > 0 && t < 4 && AllHarmless(samples) && |counts| == NUM_BUCKETS
    requires forall k :: 0 <= k < NUM_BUCKETS ==> counts[k] == InBucket(samples, k)
    ensures var c := Crossing(counts, TARGETS[t], |samples|, 0);
      && c < NUM_BUCKETS
      && 1000 * Below(samples, BucketToNs(c)) < PerMille(t) * |samples|
      && (c + 1 < NUM_BUCKETS ==> 1000 * Below(samples, BucketToNs(c + 1)) >= PerMille(t) * |samples|)
  {
    hide Meets, Crossing, Prefix, AtMost, InBucket, Below, BucketToNs, PerMille, Harmless, InArray;
    var n := |samples|;
    HarmlessInArray(samples);
    TotalIsCount(counts, samples);
    EnoughCounts(counts, n, t);
    TargetsProper(t);
    var c := Crossing(counts, TARGETS[t], n, 0);
    BeforeCrossing(counts, TARGETS[t], n);
    PrefixIsAtMost(counts, samples, c);
    BelowIsAtMost(samples, c);
    MeetsIsPerMille(Prefix(counts, c), t, n);
    if c + 1 < NUM_BUCKETS {
      PrefixIsAtMost(counts, samples, c + 1);
      BelowIsAtMost(samples, c + 1);
      MeetsIsPerMille(Prefix(counts, c + 1), t, n);
    }
  }

  lemma BeforeCrossing(counts: seq<nat>, p: Fraction, n: nat)
    requires Proper(p) && n > 0
    ensures !Meets(Prefix(counts, Crossing(counts, p, n, 0)), p, n)
  {
    NothingAtStart(p, n);
    hide Meets;
    assert Prefix(counts, 0) == 0;
  }

  lemma HarmlessInArray(xs: seq<nat>)
    requires AllHarmless(xs)
    ensures AllInArray(xs)
  {
    hide Harmless, InArray;
    forall i | 0 <= i < |xs|
      ensures InArray(xs[i])
    {
      InArrayIff(xs[i]);
    }
  }
}
