/** Any number of threads recording into the histogram while one reads it, one atomic access per
    step; no reset meanwhile. */
module Recorders {
  import H = Histogram

  /** The accesses of `record`, in order. */
  datatype Stage = AtBucket | AtTotal | AtCount | AtMinLoad | MinLoop | AtMaxLoad | MaxLoop | Finished
  {
    function Index(): nat {
      match this
      case AtBucket => 0
      case AtTotal => 1
      case AtCount => 2
      case AtMinLoad => 3
      case MinLoop => 4
      case AtMaxLoad => 5
      case MaxLoop => 6
      case Finished => 7
    }
  }

  /** One call of `record`; `cur` is the local `cur_min` or `cur_max`. */
  datatype Recorder = Recorder(ns: nat, stage: Stage, cur: nat)

  /** One call of `get_stats`; `base` is history: the buckets when `sample_count_` was loaded. */
  datatype Reader =
    | NotStarted
    | Loading(count: nat, counts: seq<nat>, base: seq<nat>)

  datatype World = World(buckets: seq<nat>, totalNs: nat, count: nat, minNs: nat, maxNs: nat,
                         recs: seq<Recorder>, reader: Reader)

  datatype Step =
    | Record(i: nat, spurious: bool)  // a weak compare-exchange may fail for no reason
    | LoadCount
    | LoadBucket                      // the next one, in index order

  function Start(samples: seq<nat>): World {
    World(seq(H.NUM_BUCKETS, _ => 0), 0, 0, H.UINT64_MAX, 0,
          seq(|samples|, i requires 0 <= i < |samples| => Recorder(samples[i], AtBucket, 0)), NotStarted)
  }

  /** Every index into the array is inside it; elsewhere the source is undefined. */
  ghost predicate Safe(w: World) {
    |w.buckets| == H.NUM_BUCKETS && forall i :: 0 <= i < |w.recs| ==> H.InArray(w.recs[i].ns)
  }

  ghost function RecordStep(w: World, i: nat, spurious: bool): (w': World)
    requires i < |w.recs| && Safe(w)
    ensures Safe(w')
  {
    var r := w.recs[i];
    match r.stage
    case AtBucket =>
      H.InArrayIff(r.ns);
      var b := H.BucketFor(r.ns);
      w.(buckets := w.buckets[b := w.buckets[b] + 1], recs := w.recs[i := r.(stage := AtTotal)])
    case AtTotal => w.(totalNs := w.totalNs + r.ns, recs := w.recs[i := r.(stage := AtCount)])
    case AtCount => w.(count := w.count + 1, recs := w.recs[i := r.(stage := AtMinLoad)])
    case AtMinLoad => w.(recs := w.recs[i := r.(stage := MinLoop, cur := w.minNs)])
    case MinLoop =>
      if r.ns >= r.cur then w.(recs := w.recs[i := r.(stage := AtMaxLoad)])
      else if w.minNs == r.cur && !spurious then w.(minNs := r.ns, recs := w.recs[i := r.(stage := AtMaxLoad)])
      else w.(recs := w.recs[i := r.(cur := w.minNs)])
    case AtMaxLoad => w.(recs := w.recs[i := r.(stage := MaxLoop, cur := w.maxNs)])
    case MaxLoop =>
      if r.ns <= r.cur then w.(recs := w.recs[i := r.(stage := Finished)])
      else if w.maxNs == r.cur && !spurious then w.(maxNs := r.ns, recs := w.recs[i := r.(stage := Finished)])
      else w.(recs := w.recs[i := r.(cur := w.maxNs)])
    case Finished => w
  }

  ghost function Next(w: World, s: Step): (r: World)
    requires Safe(w)
    ensures Safe(r)
  {
    match s
    case Record(i, spurious) => if i < |w.recs| then RecordStep(w, i, spurious) else w
    case LoadCount => if w.reader.NotStarted? then w.(reader := Loading(w.count, [], w.buckets)) else w
    case LoadBucket =>
      if w.reader.Loading? && |w.reader.counts| < H.NUM_BUCKETS
      then w.(reader := w.reader.(counts := w.reader.counts + [w.buckets[|w.reader.counts|]]))
      else w
  }

  ghost function Run(w: World, steps: seq<Step>): (r: World)
    requires Safe(w)
    ensures Safe(r)
    decreases |steps|
  {
    if |steps| == 0 then w else Run(Next(w, steps[0]), steps[1..])
  }

  // ---- Counting recorders ------------------------------------------------------------------

  function Past(recs: seq<Recorder>, k: nat): nat {
    if |recs| == 0 then 0 else Past(recs[1..], k) + if recs[0].stage.Index() > k then 1 else 0
  }

  /** Recorders past their bucket increment whose sample lies in bucket `b`. */
  function PastIn(recs: seq<Recorder>, b: nat): nat {
    if |recs| == 0 then 0
    else PastIn(recs[1..], b) +
         if recs[0].stage.Index() > 0 && H.BucketFor(recs[0].ns) == b then 1 else 0
  }

  function PastSum(recs: seq<Recorder>): nat {
    if |recs| == 0 then 0 else PastSum(recs[1..]) + if recs[0].stage.Index() > 1 then recs[0].ns else 0
  }

  lemma {:induction false} PastUpdate(recs: seq<Recorder>, i: nat, r: Recorder, k: nat)
    requires i < |recs|
    ensures Past(recs[i := r], k) + (if recs[i].stage.Index() > k then 1 else 0)
         == Past(recs, k) + (if r.stage.Index() > k then 1 else 0)
    decreases |recs|
  {
    if i > 0 {
      assert recs[i := r][1..] == recs[1..][i - 1 := r];
      PastUpdate(recs[1..], i - 1, r, k);
    }
  }

  lemma {:induction false} PastInUpdate(recs: seq<Recorder>, i: nat, r: Recorder, b: nat)
    requires i < |recs| && r.ns == recs[i].ns
    ensures PastIn(recs[i := r], b)
            + (if recs[i].stage.Index() > 0 && H.BucketFor(r.ns) == b then 1 else 0)
         == PastIn(recs, b) + (if r.stage.Index() > 0 && H.BucketFor(r.ns) == b then 1 else 0)
    decreases |recs|
  {
    if i > 0 {
      assert recs[i := r][1..] == recs[1..][i - 1 := r];
      PastInUpdate(recs[1..], i - 1, r, b);
    }
  }

  lemma {:induction false} PastSumUpdate(recs: seq<Recorder>, i: nat, r: Recorder)
    requires i < |recs| && r.ns == recs[i].ns
    ensures PastSum(recs[i := r]) + (if recs[i].stage.Index() > 1 then r.ns else 0)
         == PastSum(recs) + (if r.stage.Index() > 1 then r.ns else 0)
    decreases |recs|
  {
    if i > 0 {
      assert recs[i := r][1..] == recs[1..][i - 1 := r];
      PastSumUpdate(recs[1..], i - 1, r);
    }
  }

  lemma {:induction false} PrefixUpdate(xs: seq<nat>, b: nat, i: nat)
    requires b < |xs| && i <= |xs|
    ensures H.Prefix(xs[b := xs[b] + 1], i) == H.Prefix(xs, i) + if b < i then 1 else 0
    decreases i
  {
    if i > 0 {
      PrefixUpdate(xs, b, i - 1);
    }
  }

  lemma {:induction false} PrefixMonotone(xs: seq<nat>, ys: seq<nat>, i: nat)
    requires |xs| == |ys| && i <= |xs| && forall k :: 0 <= k < |xs| ==> xs[k] <= ys[k]
    ensures H.Prefix(xs, i) <= H.Prefix(ys, i)
    decreases i
  {
    if i > 0 {
      PrefixMonotone(xs, ys, i - 1);
    }
  }

  lemma {:induction false} PastOrder(recs: seq<Recorder>, j: nat, k: nat)
    requires j <= k
    ensures Past(recs, k) <= Past(recs, j)
    decreases |recs|
  {
    if |recs| > 0 {
      PastOrder(recs[1..], j, k);
    }
  }

  // ---- The invariants ----------------------------------------------------------------------

  ghost predicate CountsInv(w: World) {
    && Safe(w)
    && H.Total(w.buckets) == Past(w.recs, 0)
    && (forall b: nat :: b < H.NUM_BUCKETS ==> w.buckets[b] == PastIn(w.recs, b))
    && w.totalNs == PastSum(w.recs)
    && w.count == Past(w.recs, 2)
  }

  ghost predicate MinInv(w: World) {
    && (forall i :: 0 <= i < |w.recs| ==>
          && (w.recs[i].stage.Index() > 4 ==> w.minNs <= w.recs[i].ns)
          && (w.recs[i].stage.MinLoop? ==> w.minNs <= w.recs[i].cur))
    && (w.minNs == H.UINT64_MAX || exists i :: 0 <= i < |w.recs| && w.recs[i].ns == w.minNs)
  }

  ghost predicate MaxInv(w: World) {
    && (forall i :: 0 <= i < |w.recs| ==>
          && (w.recs[i].stage.Index() > 6 ==> w.maxNs >= w.recs[i].ns)
          && (w.recs[i].stage.MaxLoop? ==> w.maxNs >= w.recs[i].cur))
    && (w.maxNs == 0 || exists i :: 0 <= i < |w.recs| && w.recs[i].ns == w.maxNs)
  }

  ghost predicate ReaderInv(w: World) {
    w.reader.Loading? ==>
      && |w.reader.base| == |w.buckets| && |w.reader.counts| <= |w.buckets|
      && w.reader.count <= H.Total(w.reader.base)
      && (forall b :: 0 <= b < |w.buckets| ==> w.reader.base[b] <= w.buckets[b])
      && (forall b :: 0 <= b < |w.reader.counts| ==> w.reader.base[b] <= w.reader.counts[b])
  }

  ghost predicate Inv(w: World) {
    CountsInv(w) && MinInv(w) && MaxInv(w) && ReaderInv(w)
  }

  lemma CountsKeep(w: World, i: nat, spurious: bool)
    requires CountsInv(w) && i < |w.recs|
    ensures CountsInv(RecordStep(w, i, spurious))
  {
    hide Past, PastIn, PastSum, H.Prefix, H.BucketFor, H.InArray;
    var r, w' := w.recs[i], RecordStep(w, i, spurious);
    H.InArrayIff(r.ns);
    if !r.stage.Finished? {
      var r' := w'.recs[i];
      PastUpdate(w.recs, i, r', 0);
      PastUpdate(w.recs, i, r', 2);
      PastSumUpdate(w.recs, i, r');
      forall b: nat | b < H.NUM_BUCKETS
        ensures w'.buckets[b] == PastIn(w'.recs, b)
      {
        PastInUpdate(w.recs, i, r', b);
      }
      PrefixUpdate(w.buckets, H.BucketFor(r.ns), H.NUM_BUCKETS);
    }
  }

  lemma MinKeeps(w: World, i: nat, spurious: bool)
    requires MinInv(w) && Safe(w) && i < |w.recs|
    ensures MinInv(RecordStep(w, i, spurious))
  {
    hide H.BucketFor, H.InArray;
    var w' := RecordStep(w, i, spurious);
    assert forall k :: 0 <= k < |w.recs| ==> w'.recs[k].ns == w.recs[k].ns;
    assert w'.minNs == w.minNs || w'.minNs == w'.recs[i].ns;
  }

  lemma MaxKeeps(w: World, i: nat, spurious: bool)
    requires MaxInv(w) && Safe(w) && i < |w.recs|
    ensures MaxInv(RecordStep(w, i, spurious))
  {
    hide H.BucketFor, H.InArray;
    var w' := RecordStep(w, i, spurious);
    assert forall k :: 0 <= k < |w.recs| ==> w'.recs[k].ns == w.recs[k].ns;
    assert w'.maxNs == w.maxNs || w'.maxNs == w'.recs[i].ns;
  }

  lemma ReaderKeeps(w: World, i: nat, spurious: bool)
    requires ReaderInv(w) && Safe(w) && i < |w.recs|
    ensures ReaderInv(RecordStep(w, i, spurious))
  {
    hide H.BucketFor, H.InArray, H.Prefix;
  }

  lemma NextKeeps(w: World, s: Step)
    requires Inv(w)
    ensures Inv(Next(w, s))
  {
    hide RecordStep, Past, PastIn, PastSum, H.Prefix, H.InArray;
    match s
    case Record(i, spurious) =>
      if i < |w.recs| {
        CountsKeep(w, i, spurious);
        MinKeeps(w, i, spurious);
        MaxKeeps(w, i, spurious);
        ReaderKeeps(w, i, spurious);
      }
    case LoadCount => PastOrder(w.recs, 0, 2);
    case LoadBucket =>
  }

  lemma {:induction false} RunKeeps(w: World, steps: seq<Step>)
    requires Inv(w)
    ensures Inv(Run(w, steps))
    decreases |steps|
  {
    if |steps| > 0 {
      NextKeeps(w, steps[0]);
      RunKeeps(Next(w, steps[0]), steps[1..]);
    }
  }

  lemma {:induction false} ZeroesPrefix(xs: seq<nat>, i: nat)
    requires i <= |xs| && forall k :: 0 <= k < |xs| ==> xs[k] == 0
    ensures H.Prefix(xs, i) == 0
    decreases i
  {
    if i > 0 {
      ZeroesPrefix(xs, i - 1);
    }
  }

  lemma {:induction false} NobodyPast(recs: seq<Recorder>, b: nat)
    requires forall i :: 0 <= i < |recs| ==> recs[i].stage.AtBucket?
    ensures Past(recs, 0) == Past(recs, 2) == PastIn(recs, b) == PastSum(recs) == 0
    decreases |recs|
  {
    if |recs| > 0 {
      NobodyPast(recs[1..], b);
    }
  }

  lemma StartIsInv(samples: seq<nat>)
    requires H.AllInArray(samples)
    ensures Inv(Start(samples))
  {
    hide H.InArray, H.BucketFor;
    var w := Start(samples);
    ZeroesPrefix(w.buckets, H.NUM_BUCKETS);
    NobodyPast(w.recs, 0);
    forall b: nat | b < H.NUM_BUCKETS
      ensures w.buckets[b] == PastIn(w.recs, b)
    {
      NobodyPast(w.recs, b);
    }
  }

  // ---- For every interleaving --------------------------------------------------------------

  /** The bucket counts a reader has loaded sum to at least the sample count it loaded first.  So the
      scan over them meets every target before it ends: each percentile reported is the lower end of
      the bucket where the counts cross the target, whatever maximum was loaded, and they are in order. */
  lemma EveryTargetIsMet(samples: seq<nat>, steps: seq<Step>, maxNs: nat)
    requires H.AllInArray(samples)
    ensures Safe(Start(samples))
    ensures var r := Run(Start(samples), steps).reader;
      r.Loading? && |r.counts| == H.NUM_BUCKETS && r.count > 0 ==>
        && H.Total(r.counts) >= r.count
        && (forall t :: 0 <= t < 4 ==>
              && H.Crossing(r.counts, H.TARGETS[t], r.count, 0) < H.NUM_BUCKETS
              && H.Percentile(r.counts, t, r.count, maxNs)
                 == H.BucketToNs(H.Crossing(r.counts, H.TARGETS[t], r.count, 0)))
        && H.Percentile(r.counts, 0, r.count, maxNs) <= H.Percentile(r.counts, 1, r.count, maxNs)
           <= H.Percentile(r.counts, 2, r.count, maxNs) <= H.Percentile(r.counts, 3, r.count, maxNs)
  {
    hide H.Crossing, H.Prefix, H.BucketToNs, H.InArray, Run;
    StartIsInv(samples);
    RunKeeps(Start(samples), steps);
    var r := Run(Start(samples), steps).reader;
    if r.Loading? && |r.counts| == H.NUM_BUCKETS && r.count > 0 {
      PrefixMonotone(r.base, r.counts, H.NUM_BUCKETS);
      forall t | 0 <= t < 4
        ensures H.Crossing(r.counts, H.TARGETS[t], r.count, 0) < H.NUM_BUCKETS
      {
        H.EnoughCounts(r.counts, r.count, t);
      }
      H.PercentilesOrdered(r.counts, r.count, maxNs);
    }
  }

  function Values(recs: seq<Recorder>): (xs: seq<nat>)
    ensures |xs| == |recs|
  {
    seq(|recs|, i requires 0 <= i < |recs| => recs[i].ns)
  }

  lemma {:induction false} EverybodyPast(recs: seq<Recorder>, k: nat)
    requires k < 7 && forall i :: 0 <= i < |recs| ==> recs[i].stage.Finished?
    ensures Past(recs, k) == |recs|
    decreases |recs|
  {
    if |recs| > 0 {
      EverybodyPast(recs[1..], k);
    }
  }

  lemma {:induction false} FinalBucket(recs: seq<Recorder>, b: nat)
    requires forall i :: 0 <= i < |recs| ==> recs[i].stage.Finished?
    ensures PastIn(recs, b) == H.InBucket(Values(recs), b) && PastSum(recs) == H.Sum(Values(recs))
    decreases |recs|
  {
    if |recs| > 0 {
      FinalBucket(recs[1..], b);
      assert Values(recs) == [recs[0].ns] + Values(recs[1..]);
      InBucketCons(recs[0].ns, Values(recs[1..]), b);
    }
  }

  lemma {:induction false} InBucketCons(x: nat, xs: seq<nat>, b: nat)
    ensures H.InBucket([x] + xs, b) == H.InBucket(xs, b) + if H.BucketFor(x) == b then 1 else 0
    ensures H.Sum([x] + xs) == H.Sum(xs) + x
    decreases |xs|
  {
    if |xs| > 0 {
      var init := xs[..|xs| - 1];
      assert ([x] + xs)[..|xs|] == [x] + init;
      InBucketCons(x, init, b);
    } else {
      assert ([x] + xs)[..0] == [];
    }
  }

  lemma {:induction false} RunKeepsSamples(w: World, steps: seq<Step>)
    requires Safe(w)
    ensures Values(Run(w, steps).recs) == Values(w.recs)
    decreases |steps|
  {
    if |steps| > 0 {
      assert Values(Next(w, steps[0]).recs) == Values(w.recs);
      RunKeepsSamples(Next(w, steps[0]), steps[1..]);
    }
  }

  /** Once all recorders have finished, however they interleaved and however often a
      compare-exchange failed: the histogram is that of the samples, its buckets sum to the count,
      and minimum and maximum are the true extremes. */
  lemma QuiescentIsExact(samples: seq<nat>, steps: seq<Step>)
    requires forall i :: 0 <= i < |samples| ==> samples[i] <= H.UINT64_MAX
    requires H.AllInArray(samples)
    ensures Safe(Start(samples))
    ensures var w := Run(Start(samples), steps);
      (forall i :: 0 <= i < |w.recs| ==> w.recs[i].stage.Finished?) ==>
        && w.count == |samples| == H.Total(w.buckets)
        && w.totalNs == H.Sum(samples)
        && (forall b: nat :: b < H.NUM_BUCKETS ==> w.buckets[b] == H.InBucket(samples, b))
        && (forall i :: 0 <= i < |samples| ==> w.minNs <= samples[i] <= w.maxNs)
        && (|samples| > 0 ==> (exists i :: 0 <= i < |samples| && samples[i] == w.minNs)
                              && exists i :: 0 <= i < |samples| && samples[i] == w.maxNs)
  {
    StartIsInv(samples);
    RunKeeps(Start(samples), steps);
    RunKeepsSamples(Start(samples), steps);
    var w := Run(Start(samples), steps);
    assert Values(Start(samples).recs) == samples;
    hide Inv, Run, Start;
    if forall i :: 0 <= i < |w.recs| ==> w.recs[i].stage.Finished? {
      assert forall i :: 0 <= i < |w.recs| ==> w.recs[i].ns == Values(w.recs)[i];
      ExactWhenFinished(w);
    }
  }

  lemma ExactWhenFinished(w: World)
    requires Inv(w) && forall i :: 0 <= i < |w.recs| ==> w.recs[i].stage.Finished?
    requires forall i :: 0 <= i < |w.recs| ==> w.recs[i].ns <= H.UINT64_MAX
    ensures var xs := Values(w.recs);
      && w.count == |xs| == H.Total(w.buckets) && w.totalNs == H.Sum(xs)
      && (forall b: nat :: b < H.NUM_BUCKETS ==> w.buckets[b] == H.InBucket(xs, b))
      && (forall i :: 0 <= i < |xs| ==> w.minNs <= xs[i] <= w.maxNs)
      && (|xs| > 0 ==> (exists i :: 0 <= i < |xs| && xs[i] == w.minNs)
                       && exists i :: 0 <= i < |xs| && xs[i] == w.maxNs)
  {
    hide Past, PastIn, PastSum, H.Prefix, H.InBucket, H.Sum, H.InArray;
    var xs := Values(w.recs);
    EverybodyPast(w.recs, 0);
    EverybodyPast(w.recs, 2);
    FinalBucket(w.recs, 0);
    forall b: nat | b < H.NUM_BUCKETS
      ensures w.buckets[b] == H.InBucket(xs, b)
    {
      FinalBucket(w.recs, b);
    }
    if |xs| > 0 {
      assert w.minNs <= w.recs[0].ns <= w.maxNs;
      if w.minNs == H.UINT64_MAX {
        assert xs[0] == w.minNs;
      } else {
        var i :| 0 <= i < |w.recs| && w.recs[i].ns == w.minNs;
        assert xs[i] == w.minNs;
      }
      if w.maxNs == 0 {
        assert xs[0] == w.maxNs;
      } else {
        var i :| 0 <= i < |w.recs| && w.recs[i].ns == w.maxNs;
        assert xs[i] == w.maxNs;
      }
    }
  }

  // ---- Nothing keeps a recorder or the reader from finishing -------------------------------

  /** Steps a recorder needs when it is left alone and no compare-exchange fails spuriously; a value
      loaded before another recorder's update costs one more. */
  function StepsLeft(w: World, i: nat): nat
    requires i < |w.recs|
  {
    var r := w.recs[i];
    match r.stage
    case AtBucket => 7
    case AtTotal => 6
    case AtCount => 5
    case AtMinLoad => 4
    case MinLoop => if r.ns < r.cur && r.cur != w.minNs then 4 else 3
    case AtMaxLoad => 2
    case MaxLoop => if r.ns > r.cur && r.cur != w.maxNs then 2 else 1
    case Finished => 0
  }

  lemma OneStepNearer(w: World, i: nat)
    requires Safe(w) && i < |w.recs|
    ensures StepsLeft(RecordStep(w, i, false), i) == if w.recs[i].stage.Finished? then 0 else StepsLeft(w, i) - 1
  {
    hide H.BucketFor, H.InArray;
  }

  /** Whatever the others have done before, a recorder left alone finishes within seven steps. */
  lemma {:induction false} RecorderFinishes(w: World, i: nat, n: nat)
    requires Safe(w) && i < |w.recs| && n >= StepsLeft(w, i)
    ensures StepsLeft(w, i) <= 7
    ensures var w' := Run(w, seq(n, _ => Record(i, false)));
      |w'.recs| == |w.recs| && w'.recs[i].stage.Finished?
    decreases n
  {
    hide H.InArray;
    if n > 0 {
      OneStepNearer(w, i);
      hide RecordStep;
      assert seq(n, _ => Record(i, false))[1..] == seq(n - 1, _ => Record(i, false));
      RecorderFinishes(Next(w, Record(i, false)), i, n - 1);
    }
  }

  /** Left alone, the reader loads the remaining buckets as they stand. */
  lemma {:induction false} ReaderLoads(w: World, n: nat)
    requires Safe(w) && w.reader.Loading? && |w.reader.counts| + n == H.NUM_BUCKETS
    ensures var r := Run(w, seq(n, _ => LoadBucket)).reader;
      r == w.reader.(counts := w.reader.counts + w.buckets[|w.reader.counts|..])
    decreases n
  {
    hide H.InArray, RecordStep;
    if n > 0 {
      assert seq(n, _ => LoadBucket)[1..] == seq(n - 1, _ => LoadBucket);
      var k := |w.reader.counts|;
      ReaderLoads(Next(w, LoadBucket), n - 1);
      assert w.buckets[k..] == [w.buckets[k]] + w.buckets[k + 1..];
    }
  }
}
