/** The parser's counters and dispatches as a fold over the tokens, and the theorems about every
    way of feeding it: per call with a bounded ring, and per atomic step with a racing producer. */
module Parsing {
  import opened Protocol
  import opened Frames
  import opened Framing
  import opened Checksum

  datatype State = State(initialized: bool, expected: u32,
                         parsed: nat, checksumErrors: nat, gaps: nat, gapSize: nat,
                         dispatched: seq<Frame>)

  const INITIAL := State(false, 0, 0, 0, 0, 0, [])

  /** Frames handed to the callback: not heartbeats, not symbols out of range. */
  predicate Dispatchable(f: Frame) {
    !f.Heartbeat? && f.symbol < MAX_SYMBOLS
  }

  /** Sequence accounting for one accepted frame; an old number is not a gap but still moves `expected`. */
  function Track(st: State, n: u32): State {
    var gap := st.initialized && n > st.expected;
    st.(initialized := true,
        expected := (n + 1) % SEQ_WRAP,
        gaps := if gap then st.gaps + 1 else st.gaps,
        gapSize := if gap then st.gapSize + (n - st.expected) else st.gapSize)
  }

  function Apply(st: State, t: Token): State {
    match t
    case Junk(_, bad) => if bad then st.(checksumErrors := st.checksumErrors + 1) else st
    case Msg(f) =>
      var tracked := Track(st, f.seqNum);
      if f.symbol >= MAX_SYMBOLS && !f.Heartbeat? then tracked
      else if f.Heartbeat? then tracked.(parsed := tracked.parsed + 1)
      else tracked.(parsed := tracked.parsed + 1, dispatched := tracked.dispatched + [f])
  }

  function ApplyAll(st: State, ts: seq<Token>): State
    decreases |ts|
  {
    if |ts| == 0 then st else ApplyAll(Apply(st, ts[0]), ts[1..])
  }

  /** One `process` call on a quiet buffer. */
  function Parsed(st: State, buf: seq<byte>): State {
    ApplyAll(st, Tokens(buf))
  }

  lemma {:induction false} ApplyAllConcat(st: State, a: seq<Token>, b: seq<Token>)
    ensures ApplyAll(st, a + b) == ApplyAll(ApplyAll(st, a), b)
    decreases |a|
  {
    if |a| == 0 {
      assert a + b == b;
    } else {
      assert (a + b)[1..] == a[1..] + b;
      ApplyAllConcat(Apply(st, a[0]), a[1..], b);
    }
  }

  // ---- What the counters mean --------------------------------------------------------------

  function Delivered(ts: seq<Token>): seq<Frame> {
    if |ts| == 0 then []
    else (if ts[0].Msg? && Dispatchable(ts[0].frame) then [ts[0].frame] else []) + Delivered(ts[1..])
  }

  function Count(ts: seq<Token>, p: Token -> bool): nat {
    if |ts| == 0 then 0 else (if p(ts[0]) then 1 else 0) + Count(ts[1..], p)
  }

  const IS_JUNK := (t: Token) => t.Junk?
  const IS_MESSAGE := (t: Token) => t.Msg?
  const IS_BAD := (t: Token) => t.Junk? && t.badChecksum
  const IS_TRADE := (t: Token) => t.Msg? && t.frame.Trade?
  const IS_QUOTE := (t: Token) => t.Msg? && t.frame.Quote?
  const IS_HEARTBEAT := (t: Token) => t.Msg? && t.frame.Heartbeat?

  /** The callback sees exactly the dispatchable frames in order; `msgs_parsed` counts them and the
      heartbeats; `checksum_errors` counts the bytes skipped for a bad checksum. */
  lemma {:induction false} CountersMean(st: State, ts: seq<Token>)
    ensures var r := ApplyAll(st, ts);
      && r.dispatched == st.dispatched + Delivered(ts)
      && r.checksumErrors == st.checksumErrors + Count(ts, IS_BAD)
      && r.parsed == st.parsed + |Delivered(ts)| + Count(ts, IS_HEARTBEAT)
    decreases |ts|
  {
    if |ts| > 0 {
      CountersMean(Apply(st, ts[0]), ts[1..]);
    }
  }

  // ---- Checksum errors ---------------------------------------------------------------------

  /** The bytes at the head have a known type and all its length, and are no frame's encoding. */
  ghost predicate Corrupt(buf: seq<byte>) {
    && |buf| >= HEADER_SIZE && KnownType(buf) && |buf| >= SizeOf(buf[0])
    && !exists f: Frame :: Encode(f) == buf[..SizeOf(buf[0])]
  }

  lemma HeadApplied(st: State, buf: seq<byte>)
    requires !Scan(buf).NeedMore?
    ensures Apply(st, Head(buf)).checksumErrors == st.checksumErrors + if Corrupt(buf) then 1 else 0
    ensures Corrupt(buf) ==> Apply(st, Head(buf)) == st.(checksumErrors := st.checksumErrors + 1)
    ensures !KnownType(buf) ==> Apply(st, Head(buf)) == st
  {
    CorruptIffFlagged(buf);
    JunkAtHead(buf);
    hide Corrupt, Scan, Head;
  }

  lemma CorruptIffFlagged(buf: seq<byte>)
    requires !Scan(buf).NeedMore?
    ensures Corrupt(buf) <==> Scan(buf) == Skip(true)
    ensures |buf| >= HEADER_SIZE && (!KnownType(buf) <==> Scan(buf) == Skip(false))
  {
    ScanMeans(buf);
    hide Scan, KnownType, SizeOf, Encode;
  }

  lemma JunkAtHead(buf: seq<byte>)
    requires !Scan(buf).NeedMore?
    ensures Scan(buf).Skip? ==> Head(buf) == Junk(buf[0], Scan(buf).badChecksum)
    ensures Scan(buf).Take? ==> Head(buf).Msg?
  {
    hide Scan, Decode;
  }

  /** How often the parser's head is corrupt while it works through the bytes. */
  ghost function CorruptHeads(buf: seq<byte>): nat
    decreases |buf|
  {
    if Scan(buf).NeedMore? then 0
    else CorruptHeads(buf[HeadSize(buf)..]) + if Corrupt(buf) then 1 else 0
  }

  /** `checksum_errors` counts, over any bytes, exactly the positions at which the parser meets a known
      type with all its length that is no frame's encoding; unknown types count nothing. */
  lemma {:induction false} ChecksumErrorsMean(st: State, buf: seq<byte>)
    ensures Parsed(st, buf).checksumErrors == st.checksumErrors + CorruptHeads(buf)
    decreases |buf|
  {
    hide Scan, Head, HeadSize, Apply, Corrupt;
    TokensUnfold(buf);
    if !Scan(buf).NeedMore? {
      HeadApplied(st, buf);
      var rest := buf[HeadSize(buf)..];
      ChecksumErrorsMean(Apply(st, Head(buf)), rest);
      assert Tokens(buf)[1..] == Tokens(rest);
    }
  }

  /** A frame damaged within four consecutive bytes is counted once, and nothing else changes; what
      happens to the bytes behind the skipped one is up to them. */
  lemma DamageIsCounted(st: State, f: Frame, t: seq<byte>, p: nat, rest: seq<byte>)
    requires DifferOnlyInWindow(Encode(f), t, p) && t != Encode(f) && t[..2] == Encode(f)[..2]
    ensures !Scan(t + rest).NeedMore?
    ensures Apply(st, Head(t + rest)) == st.(checksumErrors := st.checksumErrors + 1)
    ensures HeadSize(t + rest) == 1
  {
    DamagedAtHead(f, t, p, rest);
  }

  // ---- Old numbers -------------------------------------------------------------------------

  /** The message arrives with a number below the expected one. */
  predicate Late(st: State, t: Token) {
    t.Msg? && st.initialized && t.frame.seqNum < st.expected
  }

  predicate InOrder(st: State, ts: seq<Token>)
    decreases |ts|
  {
    |ts| > 0 ==> !Late(st, ts[0]) && InOrder(Apply(st, ts[0]), ts[1..])
  }

  /** By how much late messages move the expectation back, all together. */
  function Behind(st: State, ts: seq<Token>): nat
    decreases |ts|
  {
    if |ts| == 0 then 0
    else Behind(Apply(st, ts[0]), ts[1..])
         + if Late(st, ts[0]) then st.expected - ts[0].frame.seqNum else 0
  }

  /** By how many numbers the expectation moves on, wraps of the 32-bit counter included. */
  function Advance(st: State, ts: seq<Token>): int {
    ApplyAll(st, ts).expected - st.expected + SEQ_WRAP * Count(ts, IS_LAST)
  }

  const IS_LAST := (t: Token) => t.Msg? && t.frame.seqNum == SEQ_WRAP - 1

  /** Over every stream: the gaps reported are the numbers passed over without a message, plus what
      late messages moved the expectation back. */
  lemma {:induction false} GapBalance(st: State, ts: seq<Token>)
    requires st.initialized
    ensures ApplyAll(st, ts).gapSize - st.gapSize == Advance(st, ts) - Count(ts, IS_MESSAGE) + Behind(st, ts)
    decreases |ts|
  {
    if |ts| > 0 {
      GapStep(st, ts[0]);
      var next := Apply(st, ts[0]);
      hide Apply, Late;
      GapBalance(next, ts[1..]);
    }
  }

  lemma GapStep(st: State, t: Token)
    requires st.initialized
    ensures var next := Apply(st, t);
      next.initialized
      && next.gapSize - st.gapSize
         == next.expected - st.expected + (if IS_LAST(t) then SEQ_WRAP else 0) - (if IS_MESSAGE(t) then 1 else 0)
            + if Late(st, t) then st.expected - t.frame.seqNum else 0
  {
  }

  lemma {:induction false} BehindIffLate(st: State, ts: seq<Token>)
    ensures Behind(st, ts) == 0 <==> InOrder(st, ts)
    decreases |ts|
  {
    if |ts| > 0 {
      BehindIffLate(Apply(st, ts[0]), ts[1..]);
    }
  }

  /** The gap counter tells how many numbers were passed over if and only if no message was late. */
  lemma GapSizeExactIff(st: State, ts: seq<Token>)
    requires st.initialized
    ensures ApplyAll(st, ts).gapSize - st.gapSize >= Advance(st, ts) - Count(ts, IS_MESSAGE)
    ensures ApplyAll(st, ts).gapSize - st.gapSize == Advance(st, ts) - Count(ts, IS_MESSAGE) <==> InOrder(st, ts)
  {
    GapBalance(st, ts);
    BehindIffLate(st, ts);
  }

  /** The documented handling: a late message is discarded. */
  function Discarding(st: State, t: Token): State {
    if Late(st, t) then st else Apply(st, t)
  }

  function DiscardingAll(st: State, ts: seq<Token>): State
    decreases |ts|
  {
    if |ts| == 0 then st else DiscardingAll(Discarding(st, ts[0]), ts[1..])
  }

  /** Late messages with something to dispatch, when late ones are discarded. */
  function LateDispatches(st: State, ts: seq<Token>): nat
    decreases |ts|
  {
    if |ts| == 0 then 0
    else LateDispatches(Discarding(st, ts[0]), ts[1..])
         + if Late(st, ts[0]) && Dispatchable(ts[0].frame) then 1 else 0
  }

  lemma {:induction false} DiscardingDelivers(st: State, ts: seq<Token>)
    ensures var r := DiscardingAll(st, ts);
      && |r.dispatched| + LateDispatches(st, ts) == |st.dispatched| + |Delivered(ts)|
      && (LateDispatches(st, ts) == 0 ==> r.dispatched == st.dispatched + Delivered(ts))
    decreases |ts|
  {
    if |ts| > 0 {
      DiscardingStep(st, ts[0]);
      hide Discarding, Late, Dispatchable;
      var next := Discarding(st, ts[0]);
      DiscardingDelivers(next, ts[1..]);
      var head := if ts[0].Msg? && Dispatchable(ts[0].frame) then [ts[0].frame] else [];
      Assoc(st.dispatched, head, Delivered(ts[1..]));
    }
  }

  lemma DiscardingStep(st: State, t: Token)
    ensures Discarding(st, t).dispatched
         == st.dispatched + if t.Msg? && Dispatchable(t.frame) && !Late(st, t) then [t.frame] else []
  {
  }

  /** The callback sees what the documented handling would show it if and only if no message with
      something to dispatch is late. */
  lemma DuplicatesDiscardedIff(st: State, ts: seq<Token>)
    ensures ApplyAll(st, ts).dispatched == DiscardingAll(st, ts).dispatched <==> LateDispatches(st, ts) == 0
  {
    CountersMean(st, ts);
    DiscardingDelivers(st, ts);
  }

  /** A stream on which both fail: the old number is dispatched and moves the expectation back, so that
      the next message in order is reported as a gap although nothing is missing. */
  lemma OldNumbersCount(st: State, late: Frame, next: Frame)
    requires st.initialized && late.seqNum < st.expected == next.seqNum
    ensures var r := ApplyAll(st, [Msg(late), Msg(next)]);
      && r.gapSize == st.gapSize + (st.expected - 1 - late.seqNum)
      && r.gaps == st.gaps + (if late.seqNum == st.expected - 1 then 0 else 1)
      && (Dispatchable(late) && Dispatchable(next) ==> r.dispatched == st.dispatched + [late, next])
      && !InOrder(st, [Msg(late), Msg(next)])
      && (Dispatchable(late) ==> LateDispatches(st, [Msg(late), Msg(next)]) > 0)
  {
    var a, b := Msg(late), Msg(next);
    var mid := Apply(st, a);
    ApplyAllConcat(st, [a], [b]);
    ApplyAllOne(st, a);
    ApplyAllOne(mid, b);
    assert [a] + [b] == [a, b];
    assert mid.expected == late.seqNum + 1;
  }

  // ---- Bytes -------------------------------------------------------------------------------

  lemma {:induction false} FlattenLength(ts: seq<Token>)
    ensures |Flatten(ts)| == Count(ts, IS_JUNK) + 20 * Count(ts, IS_HEARTBEAT)
                             + 32 * Count(ts, IS_TRADE) + 44 * Count(ts, IS_QUOTE)
    decreases |ts|
  {
    if |ts| > 0 {
      FlattenLength(ts[1..]);
    }
  }

  /** Byte accounting: every byte is skipped, in a frame of 20, 32 or 44 bytes, or still held. */
  lemma ByteAccounting(buf: seq<byte>)
    ensures var ts := Tokens(buf);
      |buf| == Count(ts, IS_JUNK) + 20 * Count(ts, IS_HEARTBEAT) + 32 * Count(ts, IS_TRADE)
               + 44 * Count(ts, IS_QUOTE) + |Left(buf)|
    ensures |Left(buf)| < MAX_MSG_SIZE
  {
    Lossless(buf);
    FlattenLength(Tokens(buf));
  }

  // ---- Every sequence of calls -------------------------------------------------------------

  datatype Call = Feed(data: seq<byte>) | Process

  /** The parser between calls: ring contents, state, and (history) the bytes the ring accepted. */
  datatype Pipe = Pipe(buf: seq<byte>, st: State, accepted: seq<byte>)

  function Do(cap: nat, p: Pipe, c: Call): Pipe {
    match c
    case Feed(data) =>
      var n := Min(|data|, if |p.buf| <= cap then cap - |p.buf| else 0);
      p.(buf := p.buf + data[..n], accepted := p.accepted + data[..n])
    case Process => p.(buf := Left(p.buf), st := Parsed(p.st, p.buf))
  }

  function DoAll(cap: nat, p: Pipe, cs: seq<Call>): Pipe
    decreases |cs|
  {
    if |cs| == 0 then p else DoAll(cap, Do(cap, p, cs[0]), cs[1..])
  }

  /** Parsing what is pending would give what one parse of everything accepted gives. */
  ghost predicate InStep(p: Pipe) {
    Parsed(p.st, p.buf) == Parsed(INITIAL, p.accepted) && Left(p.buf) == Left(p.accepted)
  }

  lemma ParsedChunks(st: State, a: seq<byte>, b: seq<byte>)
    ensures Parsed(st, a + b) == Parsed(Parsed(st, a), Left(a) + b)
    ensures Left(a + b) == Left(Left(a) + b)
  {
    Chunking(a, b);
    ApplyAllConcat(st, Tokens(a), Tokens(Left(a) + b));
  }

  lemma LeftIsDrained(st: State, buf: seq<byte>)
    ensures Parsed(st, Left(buf)) == st && Left(Left(buf)) == Left(buf)
  {
  }

  lemma DoKeepsInStep(cap: nat, p: Pipe, c: Call)
    requires InStep(p)
    ensures InStep(Do(cap, p, c))
  {
    hide Left, Parsed;
    match c
    case Feed(data) =>
      var d := data[..Min(|data|, if |p.buf| <= cap then cap - |p.buf| else 0)];
      ParsedChunks(p.st, p.buf, d);
      ParsedChunks(INITIAL, p.accepted, d);
    case Process =>
      LeftIsDrained(Parsed(p.st, p.buf), p.buf);
  }

  lemma {:induction false} DoAllKeepsInStep(cap: nat, p: Pipe, cs: seq<Call>)
    requires InStep(p)
    ensures InStep(DoAll(cap, p, cs))
    decreases |cs|
  {
    if |cs| > 0 {
      DoKeepsInStep(cap, p, cs[0]);
      DoAllKeepsInStep(cap, Do(cap, p, cs[0]), cs[1..]);
    }
  }

  lemma {:induction false} DoAllConcat(cap: nat, p: Pipe, a: seq<Call>, b: seq<Call>)
    ensures DoAll(cap, p, a + b) == DoAll(cap, DoAll(cap, p, a), b)
    decreases |a|
  {
    if |a| == 0 {
      assert a + b == b;
    } else {
      assert (a + b)[1..] == a[1..] + b;
      DoAllConcat(cap, Do(cap, p, a[0]), a[1..], b);
    }
  }

  const EMPTY := Pipe([], INITIAL, [])

  /** Chunking independence: for any bytes, any split into feeds and `process` calls anywhere,
      after a final `process` every counter, the expected number, the dispatched frames and the
      rest are those of one feed and one `process` over the bytes the ring accepted. */
  lemma ScheduleIndependent(cap: nat, cs: seq<Call>)
    ensures var p := DoAll(cap, EMPTY, cs + [Process]);
      p.st == Parsed(INITIAL, p.accepted) && p.buf == Left(p.accepted)
  {
    DoAllKeepsInStep(cap, EMPTY, cs);
    DoAllConcat(cap, EMPTY, cs, [Process]);
    var p := DoAll(cap, EMPTY, cs);
    assert DoAll(cap, p, [Process]) == Do(cap, p, Process);
  }

  /** Feeds short enough for what `process` can leave behind. */
  function Alternate(chunks: seq<seq<byte>>): seq<Call> {
    if |chunks| == 0 then [] else [Feed(chunks[0]), Process] + Alternate(chunks[1..])
  }

  lemma {:induction false} NothingDropped(cap: nat, p: Pipe, chunks: seq<seq<byte>>)
    requires cap >= MAX_MSG_SIZE - 1 && |p.buf| < MAX_MSG_SIZE
    requires forall i :: 0 <= i < |chunks| ==> |chunks[i]| <= cap - (MAX_MSG_SIZE - 1)
    ensures DoAll(cap, p, Alternate(chunks)).accepted == p.accepted + Join(chunks)
    decreases |chunks|
  {
    if |chunks| > 0 {
      OneRound(cap, p, chunks);
      var r := Do(cap, Do(cap, p, Feed(chunks[0])), Process);
      NothingDropped(cap, r, chunks[1..]);
      hide Do, DoAll, Alternate;
      Assoc(p.accepted, chunks[0], Join(chunks[1..]));
    }
  }

  lemma OneRound(cap: nat, p: Pipe, chunks: seq<seq<byte>>)
    requires cap >= MAX_MSG_SIZE - 1 && |p.buf| < MAX_MSG_SIZE
    requires |chunks| > 0 && |chunks[0]| <= cap - (MAX_MSG_SIZE - 1)
    ensures var r := Do(cap, Do(cap, p, Feed(chunks[0])), Process);
      && DoAll(cap, p, Alternate(chunks)) == DoAll(cap, r, Alternate(chunks[1..]))
      && r.accepted == p.accepted + chunks[0] && |r.buf| < MAX_MSG_SIZE
  {
    var cs, rest := Alternate(chunks), Alternate(chunks[1..]);
    assert cs[0] == Feed(chunks[0]) && cs[1..] == [Process] + rest && ([Process] + rest)[1..] == rest;
    hide Alternate;
    TwoCalls(cap, p, cs);
  }

  lemma TwoCalls(cap: nat, p: Pipe, cs: seq<Call>)
    requires |cs| >= 2
    ensures DoAll(cap, p, cs) == DoAll(cap, Do(cap, Do(cap, p, cs[0]), cs[1]), cs[2..])
  {
    hide Do;
    assert cs[1..][0] == cs[1] && cs[1..][1..] == cs[2..];
  }

  /** Feeds of at most capacity-43 bytes, each followed by `process`, never lose a byte, and the
      result is that of parsing the whole stream at once. */
  lemma ShortFeedsAreLossless(cap: nat, chunks: seq<seq<byte>>)
    requires cap >= MAX_MSG_SIZE - 1
    requires forall i :: 0 <= i < |chunks| ==> |chunks[i]| <= cap - (MAX_MSG_SIZE - 1)
    ensures var p := DoAll(cap, EMPTY, Alternate(chunks) + [Process]);
      p.accepted == Join(chunks) && p.st == Parsed(INITIAL, Join(chunks)) && p.buf == Left(Join(chunks))
  {
    NothingDropped(cap, EMPTY, chunks);
    ScheduleIndependent(cap, Alternate(chunks));
    DoAllConcat(cap, EMPTY, Alternate(chunks), [Process]);
    var p := DoAll(cap, EMPTY, Alternate(chunks));
    assert DoAll(cap, p, [Process]) == Do(cap, p, Process);
    assert [] + Join(chunks) == Join(chunks);
  }

  // ---- Every interleaving with the network thread ------------------------------------------

  datatype Pc = AtHead | HaveHeader(header: seq<byte>)

  /** `published` is what the network thread has released into the ring so far, `read` the bytes
      consumed from it; `done` (history) the tokens acted upon. */
  datatype Shared = Shared(published: seq<byte>, read: nat, pc: Pc, st: State, done: seq<Token>)

  datatype Step = Publish(data: seq<byte>) | CheckHeader | CheckBody

  /** One atomic step.  `CheckHeader` is the first `readable` test and the header peek; `CheckBody`
      the second `readable` test, which may see bytes published since, the peek of the message,
      and the `consume` with the bookkeeping behind it. */
  function Next(s: Shared, a: Step): Shared
    requires s.read <= |s.published|
  {
    var avail := s.published[s.read..];
    match a
    case Publish(data) => s.(published := s.published + data)
    case CheckHeader =>
      if s.pc.AtHead? && |avail| >= HEADER_SIZE then s.(pc := HaveHeader(avail[..HEADER_SIZE])) else s
    case CheckBody =>
      if s.pc.AtHead? || |avail| < HEADER_SIZE then s
      else
        var view := s.pc.header + avail[HEADER_SIZE..];
        if Scan(view).NeedMore? then s.(pc := AtHead)
        else s.(read := Min(s.read + HeadSize(view), |s.published|), pc := AtHead,
                st := Apply(s.st, Head(view)), done := s.done + [Head(view)])
  }

  function Run(s: Shared, steps: seq<Step>): (r: Shared)
    requires s.read <= |s.published|
    ensures r.read <= |r.published|
    decreases |steps|
  {
    if |steps| == 0 then s else Run(Next(s, steps[0]), steps[1..])
  }

  const IDLE := Shared([], 0, AtHead, INITIAL, [])

  ghost predicate Inv(s: Shared) {
    && s.read <= |s.published|
    && (s.pc.HaveHeader? ==> |s.published| - s.read >= HEADER_SIZE
                             && s.pc.header == s.published[s.read..s.read + HEADER_SIZE])
    && s.st == ApplyAll(INITIAL, s.done)
    && Tokens(s.published) == s.done + Tokens(s.published[s.read..])
    && Left(s.published) == Left(s.published[s.read..])
    && Flatten(s.done) == s.published[..s.read]
  }

  lemma {:induction false} FlattenConcat(a: seq<Token>, b: seq<Token>)
    ensures Flatten(a + b) == Flatten(a) + Flatten(b)
    decreases |a|
  {
    if |a| == 0 {
      assert a + b == b;
    } else {
      assert (a + b)[1..] == a[1..] + b;
      FlattenConcat(a[1..], b);
    }
  }

  lemma TokensExtend(all: seq<byte>, avail: seq<byte>, done: seq<Token>, data: seq<byte>)
    requires Tokens(all) == done + Tokens(avail) && Left(all) == Left(avail)
    ensures Tokens(all + data) == done + Tokens(avail + data) && Left(all + data) == Left(avail + data)
  {
    Chunking(all, data);
    Chunking(avail, data);
    Assoc(done, Tokens(avail), Tokens(Left(avail) + data));
  }

  lemma PublishKeeps(s: Shared, data: seq<byte>)
    requires Inv(s)
    ensures Inv(Next(s, Publish(data)))
  {
    hide Tokens, Left, Scan, Flatten, ApplyAll;
    var avail, all := s.published[s.read..], s.published + data;
    TokensExtend(s.published, avail, s.done, data);
    assert all[s.read..] == avail + data && all[..s.read] == s.published[..s.read];
    if s.pc.HaveHeader? {
      assert all[s.read..s.read + HEADER_SIZE] == s.published[s.read..s.read + HEADER_SIZE];
    }
  }

  lemma TokensAdvance(done: seq<Token>, avail: seq<byte>)
    requires !Scan(avail).NeedMore?
    ensures var t, n := Head(avail), HeadSize(avail);
      && done + Tokens(avail) == (done + [t]) + Tokens(avail[n..])
      && Left(avail) == Left(avail[n..])
      && Flatten(done + [t]) == Flatten(done) + avail[..n]
      && ApplyAll(INITIAL, done + [t]) == Apply(ApplyAll(INITIAL, done), t)
  {
    var t, n := Head(avail), HeadSize(avail);
    HeadBytes(avail);
    hide Scan, Head, HeadSize, Apply, Flatten;
    Assoc(done, [t], Tokens(avail[n..]));
    FlattenConcat(done, [t]);
    FlattenOne(t);
    ApplyAllConcat(INITIAL, done, [t]);
    ApplyAllOne(ApplyAll(INITIAL, done), t);
  }

  lemma ApplyAllOne(st: State, t: Token)
    ensures ApplyAll(st, [t]) == Apply(st, t)
  {
    assert [t][1..] == [];
  }

  lemma FlattenOne(t: Token)
    ensures Flatten([t]) == t.Bytes()
  {
    assert Flatten([t][1..]) == [];
  }

  lemma BodyKeeps(s: Shared)
    requires Inv(s) && s.pc.HaveHeader?
    ensures Inv(Next(s, CheckBody))
  {
    hide Tokens, Left, Scan, Flatten, ApplyAll, Head, HeadSize, Apply;
    var avail := s.published[s.read..];
    assert s.pc.header + avail[HEADER_SIZE..] == avail;
    if !Scan(avail).NeedMore? {
      var n := HeadSize(avail);
      TokensAdvance(s.done, avail);
      assert s.published[s.read + n..] == avail[n..];
      assert s.published[..s.read + n] == s.published[..s.read] + avail[..n];
    }
  }

  lemma NextKeeps(s: Shared, a: Step)
    requires Inv(s)
    ensures Inv(Next(s, a))
  {
    match a
    case Publish(data) => PublishKeeps(s, data);
    case CheckHeader =>
      if |s.published| - s.read >= HEADER_SIZE {
        SliceOfSlice(s.published, s.read, |s.published|, 0, HEADER_SIZE);
      }
    case CheckBody =>
      if s.pc.HaveHeader? {
        BodyKeeps(s);
      }
  }

  lemma {:induction false} RunKeeps(s: Shared, steps: seq<Step>)
    requires Inv(s)
    ensures Inv(Run(s, steps))
    decreases |steps|
  {
    if |steps| > 0 {
      NextKeeps(s, steps[0]);
      RunKeeps(Next(s, steps[0]), steps[1..]);
    }
  }

  /** With a decidable head published, two steps of the parser act on it, whatever came before. */
  lemma HeadIsActedOn(s: Shared)
    requires Inv(s) && s.pc.AtHead? && !Scan(s.published[s.read..]).NeedMore?
    ensures var avail := s.published[s.read..];
      Run(s, [CheckHeader, CheckBody])
      == s.(read := s.read + HeadSize(avail), st := Apply(s.st, Head(avail)), done := s.done + [Head(avail)])
  {
    hide Tokens, Left, Flatten, ApplyAll, Apply, Head;
    var avail := s.published[s.read..];
    var mid := Next(s, CheckHeader);
    assert avail[..HEADER_SIZE] + avail[HEADER_SIZE..] == avail;
    hide Scan, HeadSize;
    assert [CheckHeader, CheckBody][1..] == [CheckBody] && [CheckBody][1..] == [];
    assert Run(mid, [CheckBody]) == Next(mid, CheckBody);
  }

  /** In every interleaving of the two threads the parser has acted on a prefix of the tokens of
      what was published, spelling exactly the bytes it consumed; whenever nothing decidable is
      left, its state is that of one parse of everything published. */
  lemma EveryInterleaving(steps: seq<Step>)
    ensures var s := Run(IDLE, steps);
      && s.done <= Tokens(s.published)
      && Flatten(s.done) == s.published[..s.read]
      && s.st == ApplyAll(INITIAL, s.done)
      && (Scan(s.published[s.read..]).NeedMore? ==>
            s.st == Parsed(INITIAL, s.published) && s.published[s.read..] == Left(s.published))
  {
    RunKeeps(IDLE, steps);
    var s := Run(IDLE, steps);
    if Scan(s.published[s.read..]).NeedMore? {
      assert s.done + [] == s.done;
    }
  }
}
