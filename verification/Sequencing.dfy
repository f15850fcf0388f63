/** Sequence numbers: how `tick_loop` assigns them, with fault injection and heartbeats, and what
    the parser's gap counters make of them. */
module Sequencing {
  import opened Protocol
  import opened Frames
  import F = Framing
  import P = Parsing

  /** One message the loop generates: a tick, with the fault flag it read, or a heartbeat. */
  datatype Op = Tick(fault: bool) | Beat

  /** The number given, and whether the loop skipped two numbers right before. */
  datatype Emission = Emission(seqNum: u32, jumped: bool)

  function Jumps(op: Op, next: u32): bool {
    op.Tick? && op.fault && next % 100 == 99
  }

  function NumberFor(op: Op, next: u32): u32 {
    if Jumps(op, next) then (next + 2) % SEQ_WRAP else next
  }

  function Emissions(ops: seq<Op>, next: u32): (es: seq<Emission>)
    ensures |es| == |ops|
  {
    if |ops| == 0 then []
    else
      var n := NumberFor(ops[0], next);
      [Emission(n, Jumps(ops[0], next))] + Emissions(ops[1..], (n + 1) % SEQ_WRAP)
  }

  function NextAfter(ops: seq<Op>, next: u32): u32 {
    if |ops| == 0 then next
    else NextAfter(ops[1..], (NumberFor(ops[0], next) + 1) % SEQ_WRAP)
  }

  lemma {:induction false} EmissionsConcat(a: seq<Op>, b: seq<Op>, next: u32)
    ensures Emissions(a + b, next) == Emissions(a, next) + Emissions(b, NextAfter(a, next))
    ensures NextAfter(a + b, next) == NextAfter(b, NextAfter(a, next))
    decreases |a|
  {
    if |a| == 0 {
      assert a + b == b;
    } else {
      assert (a + b)[1..] == a[1..] + b;
      EmissionsConcat(a[1..], b, (NumberFor(a[0], next) + 1) % SEQ_WRAP);
    }
  }

  /** A batch of the loop: the fault flag seen by each tick, then perhaps a heartbeat. */
  datatype Batch = Batch(faults: seq<bool>, heartbeat: bool)

  function Ticks(faults: seq<bool>): (ops: seq<Op>)
    ensures |ops| == |faults|
  {
    seq(|faults|, i requires 0 <= i < |faults| => Tick(faults[i]))
  }

  function OpsOf(batches: seq<Batch>): seq<Op> {
    if |batches| == 0 then []
    else
      var last := batches[|batches| - 1];
      OpsOf(batches[..|batches| - 1]) + Ticks(last.faults) + if last.heartbeat then [Beat] else []
  }

  lemma EmissionsSnoc(ops: seq<Op>, op: Op)
    ensures var next := NextAfter(ops, 0);
      && Emissions(ops + [op], 0) == Emissions(ops, 0) + [Emission(NumberFor(op, next), Jumps(op, next))]
      && NextAfter(ops + [op], 0) == (NumberFor(op, next) + 1) % SEQ_WRAP
  {
    EmissionsConcat(ops, [op], 0);
    assert Emissions([op][1..], 0) == [];
  }

  /** The number that is due for emission `i`: the start, or one more than the number before. */
  function Due(es: seq<Emission>, next: u32, i: nat): u32
    requires i < |es|
  {
    if i == 0 then next else (es[i - 1].seqNum + 1) % SEQ_WRAP
  }

  /** Over every run: the loop skips exactly before the ticks that read the fault flag while a number
      ending in 99 is due; it then gives out that number plus two, and otherwise the number due. */
  lemma {:induction false} SkipsAt99(ops: seq<Op>, next: u32, i: nat)
    requires i < |ops|
    ensures var es := Emissions(ops, next);
      && (es[i].jumped <==> ops[i] == Tick(true) && Due(es, next, i) % 100 == 99)
      && es[i].seqNum == if es[i].jumped then Due(es, next, i) + 2 else Due(es, next, i)
    decreases |ops|
  {
    var es, first := Emissions(ops, next), NumberFor(ops[0], next);
    if i == 0 {
      if Jumps(ops[0], next) {
        SkipDoesNotWrap(next);
      }
    } else {
      var rest := (first + 1) % SEQ_WRAP;
      SkipsAt99(ops[1..], rest, i - 1);
      assert es[1..] == Emissions(ops[1..], rest);
    }
  }

  /** Which numbers a run gives out, one by one. */
  ghost predicate SkipsOnlyAt99(ops: seq<Op>, es: seq<Emission>, next: u32) {
    |es| == |ops| && forall i :: 0 <= i < |es| ==>
      && (es[i].jumped <==> ops[i] == Tick(true) && Due(es, next, i) % 100 == 99)
      && es[i].seqNum == if es[i].jumped then Due(es, next, i) + 2 else Due(es, next, i)
  }

  lemma SkipsAt99All(ops: seq<Op>, next: u32)
    ensures SkipsOnlyAt99(ops, Emissions(ops, next), next)
  {
    hide Emissions, Due;
    forall i | 0 <= i < |ops|
      ensures var es := Emissions(ops, next);
        && (es[i].jumped <==> ops[i] == Tick(true) && Due(es, next, i) % 100 == 99)
        && es[i].seqNum == if es[i].jumped then Due(es, next, i) + 2 else Due(es, next, i)
    {
      SkipsAt99(ops, next, i);
    }
  }

  lemma OpsOfSnoc(batches: seq<Batch>, k: nat)
    requires k < |batches|
    ensures OpsOf(batches[..k + 1]) ==
      OpsOf(batches[..k]) + Ticks(batches[k].faults) + if batches[k].heartbeat then [Beat] else []
  {
    assert batches[..k + 1][..k] == batches[..k];
  }

  lemma TicksSnoc(before: seq<Op>, faults: seq<bool>, b: nat)
    requires b < |faults|
    ensures before + Ticks(faults[..b + 1]) == (before + Ticks(faults[..b])) + [Tick(faults[b])]
  {
  }

  /** The inner loop of `tick_loop`: one batch of ticks after the emissions `before` led to. */
  method TickBatch(ghost before: seq<Op>, faults: seq<bool>, done: seq<Emission>, from: u32)
    returns (out: seq<Emission>, next: u32)
    requires done == Emissions(before, 0) && from == NextAfter(before, 0)
    ensures out == Emissions(before + Ticks(faults), 0) && next == NextAfter(before + Ticks(faults), 0)
    ensures SkipsOnlyAt99(before + Ticks(faults), out, 0)
  {
    SkipsAt99All(before + Ticks(faults), 0);
    hide SkipsOnlyAt99;
    assert before + Ticks(faults[..0]) == before;
    hide Emissions, NextAfter, Ticks;
    out, next := done, from;
    for b := 0 to |faults|
      invariant out == Emissions(before + Ticks(faults[..b]), 0)
      invariant next == NextAfter(before + Ticks(faults[..b]), 0)
    {
      EmissionsSnoc(before + Ticks(faults[..b]), Tick(faults[b]));
      TicksSnoc(before, faults, b);
      var jumped := false;
      if faults[b] && next % 100 == 99 {
        next := (next + 2) % SEQ_WRAP;
        jumped := true;
      }
      out := out + [Emission(next, jumped)];
      next := (next + 1) % SEQ_WRAP;
    }
    assert faults[..|faults|] == faults;
  }

  /** Each batch is its ticks, with the flags they read, and then the heartbeat if one was due: nothing
      before it depends on what comes later, and nothing is left out or swapped. */
  lemma {:induction false} BatchesInOrder(batches: seq<Batch>, k: nat, i: nat)
    requires k < |batches| && i < |batches[k].faults| + if batches[k].heartbeat then 1 else 0
    ensures var at := |OpsOf(batches[..k])| + i;
      && at < |OpsOf(batches)|
      && OpsOf(batches)[at] == if i < |batches[k].faults| then Tick(batches[k].faults[i]) else Beat
    decreases |batches|
  {
    var init, n := batches[..|batches| - 1], |batches| - 1;
    assert batches[..|batches|] == batches;
    OpsOfSnoc(batches, n);
    if k < n {
      BatchesInOrder(init, k, i);
      assert init[..k] == batches[..k];
    }
  }

  /** `tick_loop` until `running_` goes false. */
  method TickLoop(batches: seq<Batch>) returns (out: seq<Emission>)
    ensures out == Emissions(OpsOf(batches), 0)
    ensures SkipsOnlyAt99(OpsOf(batches), out, 0)
  {
    SkipsAt99All(OpsOf(batches), 0);
    hide SkipsOnlyAt99;
    out := [];
    var next: u32 := 0;
    assert Emissions(OpsOf(batches[..0]), 0) == [] && NextAfter(OpsOf(batches[..0]), 0) == 0;
    hide Emissions, NextAfter, OpsOf, Ticks;
    for k := 0 to |batches|
      invariant out == Emissions(OpsOf(batches[..k]), 0) && next == NextAfter(OpsOf(batches[..k]), 0)
    {
      var batch := batches[k];
      ghost var before := OpsOf(batches[..k]);
      OpsOfSnoc(batches, k);
      out, next := TickBatch(before, batch.faults, out, next);
      if batch.heartbeat {
        EmissionsSnoc(before + Ticks(batch.faults), Beat);
        out := out + [Emission(next, false)];
        next := (next + 1) % SEQ_WRAP;
      } else {
        assert before + Ticks(batch.faults) + [] == before + Ticks(batch.faults);
      }
    }
    assert batches[..|batches|] == batches;
  }

  // ---- What the parser counts --------------------------------------------------------------

  function Faults(es: seq<Emission>): nat {
    if |es| == 0 then 0 else (if es[0].jumped then 1 else 0) + Faults(es[1..])
  }

  function TrackAll(st: P.State, es: seq<Emission>): P.State
    decreases |es|
  {
    if |es| == 0 then st else TrackAll(P.Track(st, es[0].seqNum), es[1..])
  }

  /** A skip never straddles the 32-bit wrap: numbers ending in 99 stop short of it. */
  lemma SkipDoesNotWrap(n: u32)
    requires n % 100 == 99
    ensures (n + 2) % SEQ_WRAP == n + 2
  {
  }

  lemma {:induction false} InStepCounts(st: P.State, ops: seq<Op>, next: u32)
    requires st.initialized && st.expected == next
    ensures var r, es := TrackAll(st, Emissions(ops, next)), Emissions(ops, next);
      r.gaps == st.gaps + Faults(es) && r.gapSize == st.gapSize + 2 * Faults(es)
    decreases |ops|
  {
    if |ops| > 0 {
      var n := NumberFor(ops[0], next);
      if Jumps(ops[0], next) {
        SkipDoesNotWrap(next);
      }
      var es := Emissions(ops, next);
      assert es[1..] == Emissions(ops[1..], (n + 1) % SEQ_WRAP);
      InStepCounts(P.Track(st, n), ops[1..], (n + 1) % SEQ_WRAP);
    }
  }

  /** For a client whose first message is emission `j` of any run, wrap-around included: the gaps
      it counts are the faults injected after that message, each of size two. */
  lemma GapsAreFaults(ops: seq<Op>, j: nat)
    requires j < |ops|
    ensures var es := Emissions(ops, 0);
      var r := TrackAll(P.INITIAL, es[j..]);
      r.gaps == Faults(es[j + 1..]) && r.gapSize == 2 * r.gaps
  {
    EmissionsFrom(ops, j);
    EmissionsFrom(ops, j + 1);
    NextIsBehindLast(ops, j);
    InStepCounts(P.Track(P.INITIAL, Emissions(ops, 0)[j].seqNum), ops[j + 1..], NextAfter(ops[..j + 1], 0));
  }

  /** The same for a client that has received `k` messages so far. */
  lemma GapsSoFar(ops: seq<Op>, j: nat, k: nat)
    requires 0 < k && j + k <= |ops|
    ensures var es := Emissions(ops, 0);
      var r := TrackAll(P.INITIAL, es[j..j + k]);
      r.gaps == Faults(es[j + 1..j + k]) && r.gapSize == 2 * r.gaps
  {
    hide Emissions, TrackAll, Faults;
    var es, part := Emissions(ops, 0), Emissions(ops[..j + k], 0);
    EmissionsFrom(ops, j + k);
    GapsAreFaults(ops[..j + k], j);
    assert part[j..] == es[j..j + k] && part[j + 1..] == es[j + 1..j + k];
  }

  lemma EmissionsFrom(ops: seq<Op>, j: nat)
    requires j <= |ops|
    ensures Emissions(ops, 0)[j..] == Emissions(ops[j..], NextAfter(ops[..j], 0))
    ensures Emissions(ops, 0)[..j] == Emissions(ops[..j], 0)
  {
    hide Emissions, NextAfter;
    EmissionsConcat(ops[..j], ops[j..], 0);
    assert ops[..j] + ops[j..] == ops;
  }

  lemma NextIsBehindLast(ops: seq<Op>, j: nat)
    requires j < |ops|
    ensures NextAfter(ops[..j + 1], 0) == (Emissions(ops, 0)[j].seqNum + 1) % SEQ_WRAP
  {
    hide Emissions, NextAfter, NumberFor, Jumps;
    EmissionsSnoc(ops[..j], ops[j]);
    assert ops[..j + 1] == ops[..j] + [ops[j]];
    EmissionsFrom(ops, j + 1);
    var prefix := Emissions(ops[..j + 1], 0);
    assert prefix[j].seqNum == NumberFor(ops[j], NextAfter(ops[..j], 0));
    assert Emissions(ops, 0)[j] == Emissions(ops, 0)[..j + 1][j];
  }

  /** Without faults the numbers are consecutive modulo 2^32 and nothing is ever reported. */
  lemma {:induction false} Consecutive(ops: seq<Op>, next: u32, i: nat)
    requires i < |ops| && forall k :: 0 <= k < |ops| ==> ops[k] != Tick(true)
    ensures Emissions(ops, next)[i] == Emission((next + i) % SEQ_WRAP, false)
    decreases |ops|
  {
    if i > 0 {
      Consecutive(ops[1..], (next + 1) % SEQ_WRAP, i - 1);
      ModStep(next, i);
    }
  }

  lemma ModStep(next: u32, i: nat)
    requires i > 0
    ensures ((next + 1) % SEQ_WRAP + (i - 1)) % SEQ_WRAP == (next + i) % SEQ_WRAP
  {
  }

  // ---- From numbers to frames --------------------------------------------------------------

  /** The frames carry the emissions' numbers. */
  ghost predicate Carries(fs: seq<Frame>, es: seq<Emission>) {
    |fs| == |es| && forall i :: 0 <= i < |fs| ==> fs[i].seqNum == es[i].seqNum
  }

  predicate SameTracking(a: P.State, b: P.State) {
    a.initialized == b.initialized && a.expected == b.expected && a.gaps == b.gaps && a.gapSize == b.gapSize
  }

  /** Gap accounting sees only the numbers, whatever else the frames are. */
  lemma {:induction false} FramesTrackLikeNumbers(a: P.State, b: P.State, fs: seq<Frame>, es: seq<Emission>)
    requires Carries(fs, es) && SameTracking(a, b)
    ensures SameTracking(P.ApplyAll(a, F.Msgs(fs)), TrackAll(b, es))
    decreases |fs|
  {
    if |fs| > 0 {
      F.MsgsCons(fs);
      FramesTrackLikeNumbers(P.Apply(a, F.Msg(fs[0])), P.Track(b, es[0].seqNum), fs[1..], es[1..]);
    }
  }
}
