/** `ByteRingBuffer` shared by one producer and one consumer, one atomic access or one copied byte
    per step, sequentially consistent. */
module RingThreads {
  import opened Protocol
  import opened Modular
  import opened RingBuffer

  datatype Producer =
    | Ready
    | Copying(src: seq<byte>, copied: nat)  // `write` past its two loads

  datatype Consumer =
    | Waiting
    | Peeking(len: nat, dst: seq<byte>)     // `peek` past its two loads

  /** `accepted` and `consumed` are history: the bytes of all completed writes and consumes. */
  datatype Ring = Ring(buf: seq<byte>, writePos: u64, readPos: u64,
                       producer: Producer, consumer: Consumer,
                       accepted: seq<byte>, consumed: seq<byte>)

  datatype Step =
    | BeginWrite(data: seq<byte>)  // load positions, clip to the free space
    | CopyIn                       // one byte of memcpy into the buffer
    | Publish                      // write_pos_.fetch_add
    | BeginPeek(len: nat)          // load positions, clip to the held bytes
    | CopyOut                      // one byte of memcpy out of the buffer
    | Consume(n: nat)              // read_pos_.fetch_add, at most what was peeked
    | Abandon                      // a peek not followed by a consume

  /** Where `memcpy` finds byte `i` of a run that starts at position `p`. */
  function Index(p: u64, i: nat, c: nat): (k: nat)
    requires c > 0
  {
    var base := And(p, c - 1);
    if base + i < c then base + i else base + i - c
  }

  function Next(c: nat, s: Ring, a: Step): Ring
    requires c > 0 && |s.buf| == c
  {
    match a
    case BeginWrite(data) =>
      var free := if Gap(s.writePos, s.readPos) <= c then c - Gap(s.writePos, s.readPos) else 0;
      var n := Min(|data|, free);
      if s.producer.Ready? && n > 0 then s.(producer := Copying(data[..n], 0)) else s
    case CopyIn =>
      if s.producer.Copying? && s.producer.copied < |s.producer.src|
         && Index(s.writePos, s.producer.copied, c) < c
      then s.(buf := s.buf[Index(s.writePos, s.producer.copied, c) := s.producer.src[s.producer.copied]],
              producer := s.producer.(copied := s.producer.copied + 1))
      else s
    case Publish =>
      if s.producer.Copying? && s.producer.copied == |s.producer.src|
      then s.(writePos := Advance(s.writePos, |s.producer.src|), producer := Ready,
              accepted := s.accepted + s.producer.src)
      else s
    case BeginPeek(len) =>
      if s.consumer.Waiting? then s.(consumer := Peeking(Min(len, Gap(s.writePos, s.readPos)), [])) else s
    case CopyOut =>
      if s.consumer.Peeking? && |s.consumer.dst| < s.consumer.len && Index(s.readPos, |s.consumer.dst|, c) < c
      then s.(consumer := s.consumer.(dst := s.consumer.dst + [s.buf[Index(s.readPos, |s.consumer.dst|, c)]]))
      else s
    case Consume(n) =>
      if s.consumer.Peeking? && n <= |s.consumer.dst| == s.consumer.len
      then s.(readPos := Advance(s.readPos, n), consumer := Waiting,
              consumed := s.consumed + s.consumer.dst[..n])
      else s
    case Abandon => s.(consumer := Waiting)
  }

  function Run(c: nat, s: Ring, steps: seq<Step>): (r: Ring)
    requires c > 0 && |s.buf| == c
    ensures |r.buf| == c
    decreases |steps|
  {
    if |steps| == 0 then s else Run(c, Next(c, s, steps[0]), steps[1..])
  }

  function Start(c: nat): Ring {
    Ring(seq(c, _ => 0), 0, 0, Ready, Waiting, [], [])
  }

  // ---- The invariant -----------------------------------------------------------------------

  ghost predicate Stored(buf: seq<byte>, from: nat, data: seq<byte>) {
    |buf| > 0 && forall p: nat :: from <= p < from + |data| ==> buf[Slot(p, |buf|)] == data[p - from]
  }

  ghost predicate Inv(k: nat, s: Ring) {
    var c, w, r := Pow2(k), |s.accepted|, |s.consumed|;
    && k <= 63 && |s.buf| == c < WRAP
    && s.writePos == w % WRAP && s.readPos == r % WRAP
    && r <= w <= r + c
    && s.consumed == s.accepted[..r]
    && Stored(s.buf, r, s.accepted[r..])
    && (s.producer.Copying? ==>
          && s.producer.copied <= |s.producer.src| && w + |s.producer.src| <= r + c
          && Stored(s.buf, w, s.producer.src[..s.producer.copied]))
    && (s.consumer.Peeking? ==>
          && |s.consumer.dst| <= s.consumer.len && r + s.consumer.len <= w
          && s.consumer.dst == s.accepted[r..r + |s.consumer.dst|])
  }

  lemma IndexIsSlot(t: nat, i: nat, k: nat)
    requires k <= 63 && i < Pow2(k)
    ensures Index(t % WRAP, i, Pow2(k)) == Slot(t + i, Pow2(k))
  {
    hide Slot, Pow2, And;
    MaskIsSlot(t % WRAP, k);
    SlotSurvivesWrap(t, k);
    SlotPlus(t, i, Pow2(k));
  }

  lemma StoreElsewhere(buf: seq<byte>, from: nat, data: seq<byte>, p: nat, b: byte)
    requires Stored(buf, from, data) && from + |data| <= p < from + |buf|
    ensures Stored(buf[Slot(p, |buf|) := b], from, data)
  {
    hide Slot;
    forall q: nat | from <= q < from + |data|
      ensures Slot(q, |buf|) != Slot(p, |buf|)
    {
      DifferentSlots(q, p, |buf|);
    }
  }

  lemma StoredConcat(buf: seq<byte>, from: nat, a: seq<byte>, b: seq<byte>)
    requires Stored(buf, from, a) && Stored(buf, from + |a|, b)
    ensures Stored(buf, from, a + b)
  {
    hide Slot;
  }

  lemma StoredDrop(buf: seq<byte>, from: nat, data: seq<byte>, n: nat)
    requires Stored(buf, from, data) && n <= |data|
    ensures Stored(buf, from + n, data[n..])
  {
    hide Slot;
  }

  lemma CopyInKeeps(k: nat, s: Ring)
    requires Inv(k, s)
    ensures Inv(k, Next(Pow2(k), s, CopyIn))
  {
    hide Slot, Pow2, Index;
    if s.producer.Copying? && s.producer.copied < |s.producer.src| {
      var c, w, r, i := Pow2(k), |s.accepted|, |s.consumed|, s.producer.copied;
      IndexIsSlot(w, i, k);
      var b := s.producer.src[i];
      var buf' := s.buf[Slot(w + i, c) := b];
      StoreElsewhere(s.buf, r, s.accepted[r..], w + i, b);
      StoreElsewhere(s.buf, w, s.producer.src[..i], w + i, b);
      StoredConcat(buf', w, s.producer.src[..i], [b]);
      assert s.producer.src[..i + 1] == s.producer.src[..i] + [b];
    }
  }

  lemma PublishKeeps(k: nat, s: Ring)
    requires Inv(k, s)
    ensures Inv(k, Next(Pow2(k), s, Publish))
  {
    hide Slot, Pow2, Advance, Gap;
    if s.producer.Copying? && s.producer.copied == |s.producer.src| {
      var w, r, src := |s.accepted|, |s.consumed|, s.producer.src;
      AdvanceWraps(w, |src|);
      assert src[..|src|] == src;
      StoredConcat(s.buf, r, s.accepted[r..], src);
      Appending(s.accepted, src, r, if s.consumer.Peeking? then |s.consumer.dst| else 0);
    }
  }

  lemma Appending(a: seq<byte>, b: seq<byte>, r: nat, d: nat)
    requires r + d <= |a|
    ensures (a + b)[r..] == a[r..] + b && (a + b)[..r] == a[..r] && (a + b)[r..r + d] == a[r..r + d]
  {
  }

  lemma ConsumeKeeps(k: nat, s: Ring, n: nat)
    requires Inv(k, s)
    ensures Inv(k, Next(Pow2(k), s, Consume(n)))
  {
    hide Slot, Pow2, Advance, Gap;
    if s.consumer.Peeking? && n <= |s.consumer.dst| == s.consumer.len {
      var r := |s.consumed|;
      AdvanceWraps(r, n);
      Dropping(s.accepted, r, |s.consumer.dst|, n);
      StoredDrop(s.buf, r, s.accepted[r..], n);
    }
  }

  lemma Dropping(a: seq<byte>, r: nat, d: nat, n: nat)
    requires n <= d && r + d <= |a|
    ensures a[..r] + a[r..r + d][..n] == a[..r + n] && a[r..][n..] == a[r + n..]
  {
  }

  lemma CopyOutKeeps(k: nat, s: Ring)
    requires Inv(k, s)
    ensures Inv(k, Next(Pow2(k), s, CopyOut))
  {
    hide Slot, Pow2, Index;
    if s.consumer.Peeking? && |s.consumer.dst| < s.consumer.len {
      var r, d := |s.consumed|, |s.consumer.dst|;
      IndexIsSlot(r, d, k);
      assert s.accepted[r..][d] == s.accepted[r + d];
      assert s.accepted[r..r + d + 1] == s.accepted[r..r + d] + [s.accepted[r + d]];
    }
  }

  lemma StartIsInv(k: nat)
    requires k <= 63
    ensures Inv(k, Start(Pow2(k)))
  {
    BelowWrap(k);
    hide Slot, Pow2;
  }

  lemma NextKeeps(k: nat, s: Ring, a: Step)
    requires Inv(k, s)
    ensures Inv(k, Next(Pow2(k), s, a))
  {
    WrappedDistance(|s.accepted|, |s.consumed|);
    match a
    case CopyIn => CopyInKeeps(k, s);
    case Publish => PublishKeeps(k, s);
    case CopyOut => CopyOutKeeps(k, s);
    case Consume(n) => ConsumeKeeps(k, s, n);
    case _ => hide Slot, Pow2;
  }

  lemma {:induction false} RunKeeps(k: nat, s: Ring, steps: seq<Step>)
    requires Inv(k, s)
    ensures Inv(k, Run(Pow2(k), s, steps))
    decreases |steps|
  {
    if |steps| > 0 {
      NextKeeps(k, s, steps[0]);
      RunKeeps(k, Next(Pow2(k), s, steps[0]), steps[1..]);
    }
  }

  // ---- What follows for every run ----------------------------------------------------------

  /** The ring is an unbounded FIFO stream seen through a window: bytes consumed, then bytes held,
      are the bytes accepted, and never more than the capacity is held. */
  lemma RefinesStream(k: nat, steps: seq<Step>)
    requires k <= 63
    ensures var s := Run(Pow2(k), Start(Pow2(k)), steps);
      && Gap(s.writePos, s.readPos) == |s.accepted| - |s.consumed| <= Pow2(k)
      && s.consumed + RingRead(s.buf, s.readPos, Gap(s.writePos, s.readPos)) == s.accepted
  {
    StartIsInv(k);
    RunKeeps(k, Start(Pow2(k)), steps);
    HeldBytes(k, Run(Pow2(k), Start(Pow2(k)), steps));
  }

  lemma HeldBytes(k: nat, s: Ring)
    requires Inv(k, s)
    ensures Gap(s.writePos, s.readPos) == |s.accepted| - |s.consumed| <= Pow2(k)
    ensures s.consumed + RingRead(s.buf, s.readPos, Gap(s.writePos, s.readPos)) == s.accepted
  {
    hide Slot, Pow2;
    var w, r, c := |s.accepted|, |s.consumed|, Pow2(k);
    WrappedDistance(w, r);
    var held := RingRead(s.buf, s.readPos, w - r);
    forall j | 0 <= j < w - r
      ensures held[j] == s.accepted[r..][j]
    {
      SlotFromWrapped(r, j, k);
      assert s.buf[Slot(r + j, c)] == s.accepted[r..][j];
    }
    assert held == s.accepted[r..];
  }

  /** In every run, the byte about to be copied in and the byte about to be copied out lie in
      different slots: the two copies never touch the same memory. */
  lemma CopiesNeverOverlap(k: nat, steps: seq<Step>)
    requires k <= 63
    ensures var s := Run(Pow2(k), Start(Pow2(k)), steps);
      s.producer.Copying? && s.producer.copied < |s.producer.src|
      && s.consumer.Peeking? && |s.consumer.dst| < s.consumer.len ==>
        Index(s.writePos, s.producer.copied, Pow2(k)) != Index(s.readPos, |s.consumer.dst|, Pow2(k))
  {
    hide Slot, And, Pow2, Index, Run, Stored;
    RunKeeps(k, Start(Pow2(k)), steps) by {
      StartIsInv(k);
    }
    var s := Run(Pow2(k), Start(Pow2(k)), steps);
    if s.producer.Copying? && s.producer.copied < |s.producer.src|
       && s.consumer.Peeking? && |s.consumer.dst| < s.consumer.len {
      var p, q := |s.accepted| + s.producer.copied, |s.consumed| + |s.consumer.dst|;
      IndexIsSlot(|s.accepted|, s.producer.copied, k);
      IndexIsSlot(|s.consumed|, |s.consumer.dst|, k);
      DifferentSlots(q, p, Pow2(k));
    }
  }

  /** Whatever a completed peek copied is what stands at the front of the stream. */
  lemma PeekedIsFront(k: nat, steps: seq<Step>)
    requires k <= 63
    ensures var s := Run(Pow2(k), Start(Pow2(k)), steps);
      s.consumer.Peeking? ==> s.consumed + s.consumer.dst <= s.accepted
  {
    StartIsInv(k);
    RunKeeps(k, Start(Pow2(k)), steps);
    var s := Run(Pow2(k), Start(Pow2(k)), steps);
    if s.consumer.Peeking? {
      var r, d := |s.consumed|, |s.consumer.dst|;
      assert s.accepted[..r] + s.accepted[r..r + d] == s.accepted[..r + d];
    }
  }

  // ---- Nothing keeps the two sides from finishing ------------------------------------------

  lemma OneStep(c: nat, s: Ring, a: Step)
    requires c > 0 && |s.buf| == c
    ensures Run(c, s, [a]) == Next(c, s, a)
  {
    hide Next;
    assert [a][1..] == [];
  }

  lemma {:induction false} RunConcat(c: nat, s: Ring, a: seq<Step>, b: seq<Step>)
    requires c > 0 && |s.buf| == c
    ensures Run(c, s, a + b) == Run(c, Run(c, s, a), b)
    decreases |a|
  {
    if |a| == 0 {
      assert a + b == b;
    } else {
      assert (a + b)[1..] == a[1..] + b;
      RunConcat(c, Next(c, s, a[0]), a[1..], b);
    }
  }

  /** The copy into the ring comes to its end. */
  lemma {:induction false} CopyInEnds(k: nat, s: Ring, n: nat)
    requires Inv(k, s) && s.producer.Copying? && s.producer.copied + n == |s.producer.src|
    ensures var s' := Run(Pow2(k), s, seq(n, _ => CopyIn));
      && Inv(k, s') && s'.producer == Copying(s.producer.src, |s.producer.src|)
      && s'.accepted == s.accepted && s'.consumed == s.consumed && s'.consumer == s.consumer
    decreases n
  {
    var steps := seq(n, _ => CopyIn);
    if n > 0 {
      InBounds(k, s);
      CopyInKeeps(k, s);
      hide Inv, Pow2, Index;
      assert steps[1..] == seq(n - 1, _ => CopyIn);
      CopyInEnds(k, Next(Pow2(k), s, CopyIn), n - 1);
    }
  }

  lemma InBounds(k: nat, s: Ring)
    requires Inv(k, s)
    ensures |s.buf| == Pow2(k)
    ensures s.producer.Copying? && s.producer.copied < |s.producer.src| ==>
      Index(s.writePos, s.producer.copied, Pow2(k)) < Pow2(k)
    ensures s.consumer.Peeking? && |s.consumer.dst| < s.consumer.len ==>
      Index(s.readPos, |s.consumer.dst|, Pow2(k)) < Pow2(k)
  {
    hide Pow2, Index, Stored, Slot;
    if s.producer.Copying? && s.producer.copied < |s.producer.src| {
      IndexIsSlot(|s.accepted|, s.producer.copied, k);
    }
    if s.consumer.Peeking? && |s.consumer.dst| < s.consumer.len {
      IndexIsSlot(|s.consumed|, |s.consumer.dst|, k);
    }
  }

  /** A write that finds room for its bytes gets them accepted, behind those accepted before. */
  lemma WriteCompletes(k: nat, s: Ring, data: seq<byte>)
    requires Inv(k, s) && s.producer.Ready? && 0 < |data|
    requires |s.accepted| - |s.consumed| + |data| <= Pow2(k)
    ensures Run(Pow2(k), s, [BeginWrite(data)] + (seq(|data|, _ => CopyIn) + [Publish])).accepted == s.accepted + data
  {
    var c, copies := Pow2(k), seq(|data|, _ => CopyIn);
    InBounds(k, s);
    WrappedDistance(|s.accepted|, |s.consumed|);
    assert data[..|data|] == data;
    var s1 := Next(c, s, BeginWrite(data));
    assert s1 == s.(producer := Copying(data, 0));
    NextKeeps(k, s, BeginWrite(data));
    hide Pow2, Inv, Index, Next, Gap;
    OneStep(c, s, BeginWrite(data));
    CopyInEnds(k, s1, |data|);
    var s2 := Run(c, s1, copies);
    InBounds(k, s2);
    OneStep(c, s2, Publish);
    RunConcat(c, s, [BeginWrite(data)], copies + [Publish]);
    RunConcat(c, s1, copies, [Publish]);
    PublishAppends(c, s2);
  }

  lemma PublishAppends(c: nat, s: Ring)
    requires c > 0 && |s.buf| == c && s.producer.Copying? && s.producer.copied == |s.producer.src|
    ensures Next(c, s, Publish).accepted == s.accepted + s.producer.src
  {
  }

  lemma {:induction false} CopyOutEnds(k: nat, s: Ring, n: nat)
    requires Inv(k, s) && s.consumer.Peeking? && |s.consumer.dst| + n == s.consumer.len
    ensures var s' := Run(Pow2(k), s, seq(n, _ => CopyOut));
      && Inv(k, s') && s'.consumer.Peeking? && |s'.consumer.dst| == s'.consumer.len == s.consumer.len
      && s'.accepted == s.accepted && s'.consumed == s.consumed && s'.producer == s.producer
    decreases n
  {
    var steps := seq(n, _ => CopyOut);
    if n > 0 {
      InBounds(k, s);
      CopyOutKeeps(k, s);
      hide Inv, Pow2, Index;
      assert steps[1..] == seq(n - 1, _ => CopyOut);
      CopyOutEnds(k, Next(Pow2(k), s, CopyOut), n - 1);
    }
  }

  /** A peek at bytes that are there, followed by a consume, hands out exactly the next bytes. */
  lemma ReadCompletes(k: nat, s: Ring, n: nat)
    requires Inv(k, s) && s.consumer.Waiting? && |s.consumed| + n <= |s.accepted|
    ensures Run(Pow2(k), s, [BeginPeek(n)] + (seq(n, _ => CopyOut) + [Consume(n)])).consumed
         == s.consumed + s.accepted[|s.consumed|..|s.consumed| + n]
  {
    var c, copies, r := Pow2(k), seq(n, _ => CopyOut), |s.consumed|;
    InBounds(k, s);
    WrappedDistance(|s.accepted|, r);
    var s1 := Next(c, s, BeginPeek(n));
    assert s1 == s.(consumer := Peeking(n, []));
    NextKeeps(k, s, BeginPeek(n));
    OneStep(c, s, BeginPeek(n));
    CopyOutEnds(k, s1, n);
    var s2 := Run(c, s1, copies);
    InBounds(k, s2);
    PeekIsFront(k, s2);
    hide Pow2, Inv, Index, Next, Gap;
    OneStep(c, s2, Consume(n));
    RunConcat(c, s, [BeginPeek(n)], copies + [Consume(n)]);
    RunConcat(c, s1, copies, [Consume(n)]);
    ConsumeTakes(c, s2);
  }

  lemma PeekIsFront(k: nat, s: Ring)
    requires Inv(k, s) && s.consumer.Peeking?
    ensures |s.consumed| + |s.consumer.dst| <= |s.accepted|
    ensures s.consumer.dst == s.accepted[|s.consumed|..|s.consumed| + |s.consumer.dst|]
  {
    hide Pow2, Stored;
  }

  lemma ConsumeTakes(c: nat, s: Ring)
    requires c > 0 && |s.buf| == c && s.consumer.Peeking? && |s.consumer.dst| == s.consumer.len
    ensures Next(c, s, Consume(s.consumer.len)).consumed == s.consumed + s.consumer.dst
  {
    assert s.consumer.dst[..s.consumer.len] == s.consumer.dst;
  }
}
