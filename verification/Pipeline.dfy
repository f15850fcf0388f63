/** All the threads at once: the server's sends, the client's network thread copying into the ring, the
    parse thread peeking, deciding, consuming and updating one symbol's cache entry, and any number of
    readers of that entry.  The machines proved apart are the parts of this one; a step of the whole is a
    step of one of them. */
module Pipeline {
  import opened Protocol
  import opened Frames
  import opened Modular
  import F = Framing
  import P = Parsing
  import Q = SendQueue
  import E = EndToEnd
  import R = RingThreads
  import C = Cache
  import L = Seqlock

  /** Where the parse thread is. */
  datatype Task =
    | Head                // before the first `readable`
    | Peek(len: nat)      // `readable` has shown that many bytes, before `peek`
    | Copy                // in `peek`, and behind it until the decision
    | Body(len: nat)      // the header is known, before the second `readable`
    | Call(u: C.Update)   // in the callback, before `seqlock_write_begin`
    | Update              // before the next store or `seqlock_write_end`

  /** What is fixed: the ring holds 2^log2 bytes, the entry is that of `symbol`, whose prices are read
      with `price`. */
  datatype Setup = Setup(log2: nat, symbol: nat, price: u64 -> real)

  /** `up` is the server's end; `received` counts the bytes of its wire that `recv` has returned; `lossy`
      records a ring overflow; `st` and `done` are the parser's state and (history) its tokens. */
  datatype World = World(up: E.World, received: nat, lossy: bool, ring: R.Ring,
                         task: Task, st: P.State, done: seq<F.Token>, entry: L.Entry)

  datatype Step =
    | Emit(f: Frame, reply: Q.Reply)
    | Drain(replies: seq<Q.Reply>)
    | Recv(n: nat)            // recv, and the loads of the ring's `write`
    | WriteByte
    | PublishWrite
    | ParseStep
    | Reader(a: L.Step)       // a step of a reader of the entry

  predicate OfReader(a: L.Step) {
    a.LoadSeq1? || a.CopyOne? || a.LoadSeq2? || a.TestLoop?
  }

  function Free(c: Setup, ring: R.Ring): nat {
    var held := Gap(ring.writePos, ring.readPos);
    if held <= Pow2(c.log2) then Pow2(c.log2) - held else 0
  }

  /** The next access of the parse thread. */
  function NextParse(c: Setup, w: World): World
    requires |w.ring.buf| == Pow2(c.log2)
  {
    var size := Pow2(c.log2);
    match w.task
    case Head => if Gap(w.ring.writePos, w.ring.readPos) >= HEADER_SIZE then w.(task := Peek(HEADER_SIZE)) else w
    case Peek(len) => w.(ring := R.Next(size, w.ring, R.BeginPeek(len)), task := Copy)
    case Copy =>
      if !w.ring.consumer.Peeking? then w
      else if |w.ring.consumer.dst| < w.ring.consumer.len then w.(ring := R.Next(size, w.ring, R.CopyOut))
      else Decide(c, w, w.ring.consumer.dst)
    case Body(len) => w.(task := if Gap(w.ring.writePos, w.ring.readPos) >= len then Peek(len) else Head)
    case Call(u) => w.(entry := L.Next(w.entry, L.Begin(u)), task := Update)
    case Update =>
      if w.entry.writer.Writing? && |w.entry.writer.todo| > 0 then w.(entry := L.Next(w.entry, L.Store))
      else w.(entry := L.Next(w.entry, L.End), task := Head)
  }

  /** With a header or a whole message copied: go on to the message, or skip a byte or take the message,
      and call back. */
  function Decide(c: Setup, w: World, copied: seq<byte>): World
    requires |w.ring.buf| == Pow2(c.log2)
  {
    var size := Pow2(c.log2);
    if |copied| < HEADER_SIZE then w
    else if F.Scan(copied).NeedMore? then
      w.(ring := R.Next(size, w.ring, R.Abandon),
         task := Body(HEADER_SIZE + Max0(PayloadSize(Load16(copied, 0))) + CHECKSUM_SIZE))
    else
      var t := F.Head(copied);
      w.(ring := R.Next(size, w.ring, R.Consume(F.HeadSize(copied))),
         st := P.Apply(w.st, t), done := w.done + [t],
         task := if Concerns(c, t) then Call(C.UpdateOf(t.frame, c.price)) else Head)
  }

  function Max0(x: int): nat {
    if x < 0 then 0 else x
  }

  /** The token is handed to the callback and is for the symbol. */
  predicate Concerns(c: Setup, t: F.Token) {
    t.Msg? && P.Dispatchable(t.frame) && t.frame.symbol == c.symbol
  }

  /** `recv` returns up to `n` bytes, and `write` starts on what fits of them. */
  function Received(c: Setup, w: World, n: nat): (w': World)
    requires |w.ring.buf| == Pow2(c.log2)
    ensures |w'.ring.buf| == Pow2(c.log2)
  {
    if w.ring.producer.Copying? || w.received > |w.up.server.wire| then w
    else
      var k := Min(n, |w.up.server.wire| - w.received);
      var data := w.up.server.wire[w.received..w.received + k];
      w.(received := w.received + k, lossy := w.lossy || k > Free(c, w.ring),
         ring := R.Next(Pow2(c.log2), w.ring, R.BeginWrite(data)))
  }

  function Next(c: Setup, w: World, s: Step): (w': World)
    requires |w.ring.buf| == Pow2(c.log2)
    ensures |w'.ring.buf| == Pow2(c.log2)
  {
    var size := Pow2(c.log2);
    match s
    case Emit(f, reply) => w.(up := E.Next(0, w.up, E.Emit(f, reply)))
    case Drain(replies) => w.(up := E.Next(0, w.up, E.Drain(replies)))
    case Recv(n) => Received(c, w, n)
    case WriteByte => w.(ring := R.Next(size, w.ring, R.CopyIn))
    case PublishWrite => w.(ring := R.Next(size, w.ring, R.Publish))
    case ParseStep => NextParse(c, w)
    case Reader(a) => if OfReader(a) then w.(entry := L.Next(w.entry, a)) else w
  }

  function Run(c: Setup, w: World, steps: seq<Step>): World
    requires |w.ring.buf| == Pow2(c.log2)
    decreases |steps|
  {
    if |steps| == 0 then w else Run(c, Next(c, w, steps[0]), steps[1..])
  }

  function Start(c: Setup, seq2s: seq<u32>): (w: World)
    ensures |w.ring.buf| == Pow2(c.log2)
  {
    World(E.CONNECTED, 0, false, R.Start(Pow2(c.log2)), Head, P.INITIAL, [], L.Start(seq2s))
  }

  // ---- The invariants, one for each part and each joint ------------------------------------

  /** Bytes on their way into the ring. */
  function InFlight(ring: R.Ring): seq<byte> {
    if ring.producer.Copying? then ring.producer.src else []
  }

  /** What the ring has or is getting is what was received, unless something was dropped. */
  ghost predicate Fed(w: World) {
    && w.received <= |w.up.server.wire|
    && (!w.lossy ==> w.ring.accepted + InFlight(w.ring) == w.up.server.wire[..w.received])
  }

  /** The parser's view of the ring is a state of the machine of `Parsing`. */
  ghost predicate Parsed(w: World) {
    && |w.ring.consumed| <= |w.ring.accepted|
    && P.Inv(P.Shared(w.ring.accepted, |w.ring.consumed|, P.AtHead, w.st, w.done))
  }

  /** The updates of the entry are the dispatched messages of the symbol, the one being applied included. */
  ghost predicate Applied(c: Setup, w: World) {
    var own := C.Own(w.st.dispatched, c.symbol, c.price);
    match w.task
    case Call(u) => w.entry.writer.Idle? && w.entry.updates + [u] == own
    case Update => w.entry.writer.Writing? && w.entry.updates + [w.entry.writer.update] == own
    case _ => w.entry.writer.Idle? && w.entry.updates == own
  }

  ghost predicate Inv(c: Setup, w: World) {
    E.Inv(w.up) && R.Inv(c.log2, w.ring) && L.Inv(w.entry) && Fed(w) && Parsed(w) && Applied(c, w)
  }

  lemma UpKeeps(w: World, s: E.Step)
    requires E.Inv(w.up) && Fed(w) && (s.Emit? || s.Drain?)
    ensures var w' := w.(up := E.Next(0, w.up, s)); E.Inv(w'.up) && Fed(w')
  {
    hide E.Inv, E.Next, Fed;
    E.NextKeeps(0, w.up, s);
    UpGrows(w.up, s);
    FedGrows(w, E.Next(0, w.up, s));
  }

  lemma FedGrows(w: World, up: E.World)
    requires Fed(w) && w.up.server.wire <= up.server.wire
    ensures Fed(w.(up := up))
  {
    assert up.server.wire[..w.received] == w.up.server.wire[..w.received];
  }

  lemma UpGrows(up: E.World, s: E.Step)
    requires s.Emit? || s.Drain?
    ensures up.server.wire <= E.Next(0, up, s).server.wire
  {
    hide Q.SendTo, Q.Flush, Encode;
    match s
    case Emit(f, reply) => E.WireOnlyGrows(up.server, Encode(f), reply);
    case Drain(replies) => E.FlushGrows(up.server, replies);
  }

  /** What begins to be written is what was received, if it fits. */
  lemma BeginWriteTakes(c: Setup, ring: R.Ring, data: seq<byte>)
    requires R.Inv(c.log2, ring) && ring.producer.Ready?
    ensures var ring' := R.Next(Pow2(c.log2), ring, R.BeginWrite(data));
      && ring'.accepted == ring.accepted && ring'.consumed == ring.consumed
      && (|data| <= Free(c, ring) ==> InFlight(ring') == data)
  {
    hide Pow2, R.Stored, Gap;
    if |data| <= Free(c, ring) {
      assert data[..|data|] == data;
    }
  }

  lemma ReceivedFrame(c: Setup, w: World, n: nat)
    requires R.Inv(c.log2, w.ring) && |w.ring.buf| == Pow2(c.log2)
    ensures var w' := Received(c, w, n);
      && R.Inv(c.log2, w'.ring)
      && w'.ring.accepted == w.ring.accepted && w'.ring.consumed == w.ring.consumed
      && w'.up == w.up && w'.task == w.task && w'.st == w.st && w'.done == w.done && w'.entry == w.entry
  {
    hide Pow2, R.Inv, R.Next, Free;
    if w.ring.producer.Ready? && w.received <= |w.up.server.wire| {
      var k := Min(n, |w.up.server.wire| - w.received);
      var data := w.up.server.wire[w.received..w.received + k];
      BeginWriteTakes(c, w.ring, data);
      R.NextKeeps(c.log2, w.ring, R.BeginWrite(data));
    }
  }

  /** The next piece of the wire, once in flight, continues what was accepted before. */
  lemma NextPiece(accepted: seq<byte>, wire: seq<byte>, from: nat, k: nat)
    requires from + k <= |wire| && accepted + [] == wire[..from]
    ensures accepted + wire[from..from + k] == wire[..from + k]
  {
    assert accepted + [] == accepted;
    assert wire[..from] + wire[from..from + k] == wire[..from + k];
  }

  lemma RecvKeeps(c: Setup, w: World, n: nat)
    requires Fed(w) && R.Inv(c.log2, w.ring) && |w.ring.buf| == Pow2(c.log2)
    ensures Fed(Received(c, w, n))
  {
    hide Pow2, R.Inv, R.Next, Free;
    if w.ring.producer.Ready? {
      var k := Min(n, |w.up.server.wire| - w.received);
      BeginWriteTakes(c, w.ring, w.up.server.wire[w.received..w.received + k]);
      if !w.lossy {
        NextPiece(w.ring.accepted, w.up.server.wire, w.received, k);
      }
    }
  }

  /** Steps of the ring's producer leave what the parser has done alone. */
  lemma ProducerKeeps(c: Setup, w: World, a: R.Step)
    requires R.Inv(c.log2, w.ring) && Fed(w) && Parsed(w) && (a.CopyIn? || a.Publish?)
    ensures var w' := w.(ring := R.Next(Pow2(c.log2), w.ring, a)); Fed(w') && Parsed(w')
  {
    hide Pow2, R.Stored, R.Index, P.Inv;
    var view := P.Shared(w.ring.accepted, |w.ring.consumed|, P.AtHead, w.st, w.done);
    if a.Publish? && w.ring.producer.Copying? {
      P.PublishKeeps(view, w.ring.producer.src);
    }
  }

  /** What a peek has copied is the front of what the ring holds. */
  lemma CopiedIsFront(c: Setup, ring: R.Ring)
    requires R.Inv(c.log2, ring) && ring.consumer.Peeking?
    ensures var r, dst := |ring.consumed|, ring.consumer.dst;
      r + |dst| <= |ring.accepted| && ring.accepted[r..] == dst + ring.accepted[r + |dst|..]
  {
    hide Pow2, R.Stored;
    var r, d := |ring.consumed|, |ring.consumer.dst|;
    assert ring.accepted[r..] == ring.accepted[r..r + d] + ring.accepted[r + d..];
  }

  /** A decision on the bytes copied is the one that `Parsing` takes on everything published. */
  lemma DecideKeeps(c: Setup, w: World)
    requires R.Inv(c.log2, w.ring) && Parsed(w) && w.ring.consumer.Peeking?
    requires |w.ring.consumer.dst| == w.ring.consumer.len
    ensures Parsed(Decide(c, w, w.ring.consumer.dst))
  {
    hide Pow2, R.Stored, F.Scan, F.Head, P.Inv, P.Apply, Load16, Concerns;
    var r, copied := |w.ring.consumed|, w.ring.consumer.dst;
    if |copied| >= HEADER_SIZE && !F.Scan(copied).NeedMore? {
      var v := P.Shared(w.ring.accepted, r, P.AtHead, w.st, w.done);
      var avail := v.published[r..];
      CopiedIsFront(c, w.ring);
      F.ScanStable(copied, w.ring.accepted[r + |copied|..]);
      var v1 := P.Next(v, P.CheckHeader);
      P.NextKeeps(v, P.CheckHeader);
      assert v1.pc == P.HaveHeader(avail[..HEADER_SIZE]);
      assert avail[..HEADER_SIZE] + avail[HEADER_SIZE..] == avail;
      P.NextKeeps(v1, P.CheckBody);
    }
  }

  lemma OwnGrows(c: Setup, st: P.State, t: F.Token)
    ensures C.Own(P.Apply(st, t).dispatched, c.symbol, c.price)
         == C.Own(st.dispatched, c.symbol, c.price)
            + if Concerns(c, t) then [C.UpdateOf(t.frame, c.price)] else []
  {
    if t.Msg? && P.Dispatchable(t.frame) {
      assert (st.dispatched + [t.frame])[..|st.dispatched|] == st.dispatched;
    }
  }

  lemma ParseKeeps(c: Setup, w: World)
    requires Inv(c, w)
    ensures Inv(c, Next(c, w, ParseStep))
  {
    hide Pow2, R.Stored, R.Index, R.Inv, P.Inv, E.Inv, L.Inv, L.Next, C.Own, Decide, Gap;
    var size := Pow2(c.log2);
    match w.task
    case Head =>
    case Peek(len) => R.NextKeeps(c.log2, w.ring, R.BeginPeek(len));
    case Copy =>
      if w.ring.consumer.Peeking? {
        if |w.ring.consumer.dst| < w.ring.consumer.len {
          R.NextKeeps(c.log2, w.ring, R.CopyOut);
        } else {
          DecideKeepsAll(c, w);
        }
      }
    case Body(len) =>
    case Call(u) => EntryKeeps(w.entry, L.Begin(u));
    case Update =>
      EntryKeeps(w.entry, if |w.entry.writer.todo| > 0 then L.Store else L.End);
  }

  lemma DecideKeepsAll(c: Setup, w: World)
    requires Inv(c, w) && w.task.Copy? && w.ring.consumer.Peeking?
    requires |w.ring.consumer.dst| >= w.ring.consumer.len
    ensures Inv(c, Decide(c, w, w.ring.consumer.dst))
  {
    CopyIsComplete(c, w.ring);
    DecideKeeps(c, w);
    DecideRing(c, w, w.ring.consumer.dst);
    DecideApplies(c, w, w.ring.consumer.dst);
    hide Decide, R.Inv, P.Inv, E.Inv, L.Inv, Fed, Parsed, Applied;
  }

  lemma CopyIsComplete(c: Setup, ring: R.Ring)
    requires R.Inv(c.log2, ring) && ring.consumer.Peeking? && |ring.consumer.dst| >= ring.consumer.len
    ensures |ring.consumer.dst| == ring.consumer.len
  {
    hide Pow2, R.Stored;
  }

  /** A decision moves the ring by a step of its own and nothing else. */
  lemma DecideRing(c: Setup, w: World, copied: seq<byte>)
    requires R.Inv(c.log2, w.ring) && |w.ring.buf| == Pow2(c.log2) && Fed(w)
    ensures var w' := Decide(c, w, copied);
      R.Inv(c.log2, w'.ring) && Fed(w') && w'.up == w.up && w'.entry == w.entry
  {
    hide Pow2, R.Inv, F.Scan, F.Head, P.Apply, Load16, Concerns;
    if |copied| >= HEADER_SIZE {
      if F.Scan(copied).NeedMore? {
        R.NextKeeps(c.log2, w.ring, R.Abandon);
      } else {
        R.NextKeeps(c.log2, w.ring, R.Consume(F.HeadSize(copied)));
      }
    }
  }

  /** A token for the symbol calls back with its update; the others leave the entry's list complete. */
  lemma DecideApplies(c: Setup, w: World, copied: seq<byte>)
    requires |w.ring.buf| == Pow2(c.log2) && Applied(c, w) && w.task.Copy?
    ensures Applied(c, Decide(c, w, copied))
  {
    if |copied| >= HEADER_SIZE && !F.Scan(copied).NeedMore? {
      OwnGrows(c, w.st, F.Head(copied));
    }
    hide Pow2, F.Scan, F.Head, F.HeadSize, P.Apply, R.Next, C.Own, Load16, Concerns, Max0;
  }

  /** What the writer's steps do to the list of updates. */
  lemma EntryKeeps(e: L.Entry, a: L.Step)
    requires L.Inv(e)
    ensures L.Inv(L.Next(e, a))
    ensures a.Begin? && e.writer.Idle? ==>
      L.Next(e, a).writer.Writing? && L.Next(e, a).writer.update == a.u && L.Next(e, a).updates == e.updates
    ensures a.Store? && e.writer.Writing? ==>
      L.Next(e, a).writer.Writing? && L.Next(e, a).writer.update == e.writer.update
      && L.Next(e, a).updates == e.updates
    ensures a.End? && e.writer.Writing? && |e.writer.todo| == 0 ==>
      L.Next(e, a).writer.Idle? && L.Next(e, a).updates == e.updates + [e.writer.update]
    ensures OfReader(a) ==> L.Next(e, a).writer == e.writer && L.Next(e, a).updates == e.updates
  {
    L.NextKeeps(e, a);
    hide L.Inv;
  }

  lemma RecvKeepsAll(c: Setup, w: World, n: nat)
    requires Inv(c, w)
    ensures Inv(c, Received(c, w, n))
  {
    RingSize(c, w);
    ReceivedFrame(c, w, n);
    RecvKeeps(c, w, n);
    hide Pow2, R.Inv, P.Inv, E.Inv, L.Inv, C.Own, Fed, Received;
  }

  lemma ProducerKeepsAll(c: Setup, w: World, a: R.Step)
    requires Inv(c, w) && (a.CopyIn? || a.Publish?)
    ensures Inv(c, w.(ring := R.Next(Pow2(c.log2), w.ring, a)))
  {
    ProducerKeeps(c, w, a);
    R.NextKeeps(c.log2, w.ring, a);
    hide Pow2, R.Inv, P.Inv, E.Inv, L.Inv, C.Own, Fed, Parsed, R.Next;
  }

  lemma UpKeepsAll(c: Setup, w: World, s: E.Step)
    requires Inv(c, w) && (s.Emit? || s.Drain?)
    ensures Inv(c, w.(up := E.Next(0, w.up, s)))
  {
    UpKeeps(w, s);
    hide Pow2, R.Inv, P.Inv, E.Inv, L.Inv, C.Own, Fed, E.Next;
  }

  lemma ReaderKeepsAll(c: Setup, w: World, a: L.Step)
    requires Inv(c, w) && OfReader(a)
    ensures Inv(c, w.(entry := L.Next(w.entry, a)))
  {
    EntryKeeps(w.entry, a);
    hide Pow2, R.Inv, P.Inv, E.Inv, L.Inv, C.Own, Parsed, L.Next;
  }

  lemma NextKeeps(c: Setup, w: World, s: Step)
    requires Inv(c, w)
    ensures Inv(c, Next(c, w, s))
  {
    RingSize(c, w);
    hide Inv, Pow2, R.Next, E.Next, L.Next, NextParse, Received;
    match s
    case Emit(f, reply) => UpKeepsAll(c, w, E.Emit(f, reply));
    case Drain(replies) => UpKeepsAll(c, w, E.Drain(replies));
    case Recv(n) => RecvKeepsAll(c, w, n);
    case WriteByte => ProducerKeepsAll(c, w, R.CopyIn);
    case PublishWrite => ProducerKeepsAll(c, w, R.Publish);
    case ParseStep => ParseKeeps(c, w);
    case Reader(a) =>
      if OfReader(a) {
        ReaderKeepsAll(c, w, a);
      }
  }

  lemma {:induction false} RunKeeps(c: Setup, w: World, steps: seq<Step>)
    requires Inv(c, w)
    ensures Inv(c, Run(c, w, steps))
    decreases |steps|
  {
    hide Inv, Next, Pow2;
    if |steps| > 0 {
      assert |w.ring.buf| == Pow2(c.log2) by {
        RingSize(c, w);
      }
      NextKeeps(c, w, steps[0]);
      RunKeeps(c, Next(c, w, steps[0]), steps[1..]);
    }
  }

  lemma RingSize(c: Setup, w: World)
    requires Inv(c, w)
    ensures |w.ring.buf| == Pow2(c.log2)
  {
  }

  lemma StartIsInv(c: Setup, seq2s: seq<u32>)
    requires c.log2 <= 63
    ensures Inv(c, Start(c, seq2s))
  {
    E.StartIsInv();
    R.StartIsInv(c.log2);
    L.StartIsInv(seq2s);
    hide E.Inv, R.Inv, L.Inv, Pow2;
  }

  // ---- What readers get --------------------------------------------------------------------

  /** The messages of a valid symbol all reach the callback. */
  lemma {:induction false} OwnOfDelivered(fs: seq<Frame>, c: Setup)
    requires c.symbol < MAX_SYMBOLS
    ensures C.Own(P.Delivered(F.Msgs(fs)), c.symbol, c.price) == C.Own(fs, c.symbol, c.price)
    decreases |fs|
  {
    if |fs| > 0 {
      var rest := fs[1..];
      F.MsgsCons(fs);
      OwnOfDelivered(rest, c);
      assert fs == [fs[0]] + rest;
      C.OwnConcat([fs[0]], rest, c.symbol, c.price);
      var head := if P.Dispatchable(fs[0]) then [fs[0]] else [];
      assert P.Delivered(F.Msgs(fs)) == head + P.Delivered(F.Msgs(rest));
      C.OwnConcat(head, P.Delivered(F.Msgs(rest)), c.symbol, c.price);
      assert [fs[0]][..0] == [];
    }
  }

  lemma {:induction false} OwnPrefix(fs: seq<Frame>, m: nat, c: Setup) returns (j: nat)
    requires m <= |C.Own(fs, c.symbol, c.price)|
    ensures j <= |fs| && C.Own(fs[..j], c.symbol, c.price) == C.Own(fs, c.symbol, c.price)[..m]
    decreases |fs|
  {
    var own := C.Own(fs, c.symbol, c.price);
    if m == |own| {
      j := |fs|;
      assert fs[..j] == fs;
    } else {
      var init := fs[..|fs| - 1];
      assert C.Own(init, c.symbol, c.price) <= own;
      j := OwnPrefix(init, m, c);
      assert init[..j] == fs[..j];
    }
  }

  lemma WhatIsParsed(w: World)
    requires Parsed(w)
    ensures w.st == P.ApplyAll(P.INITIAL, w.done) && w.done <= F.Tokens(w.ring.accepted)
  {
    hide P.ApplyAll, F.Tokens, F.Left, F.Flatten;
  }

  lemma WhatIsFed(w: World)
    requires E.Inv(w.up) && Fed(w) && !w.lossy
    ensures w.ring.accepted <= F.EncodeAll(w.up.sent)
  {
    E.WirePrefix(w.up);
    E.ConcatEncoded(w.up.sent);
    hide E.Inv, Join, F.EncodeAll;
    assert w.ring.accepted <= w.up.server.wire[..w.received];
  }

  lemma WhatIsApplied(c: Setup, w: World)
    requires Applied(c, w)
    ensures w.entry.updates <= C.Own(w.st.dispatched, c.symbol, c.price)
  {
    hide C.Own;
  }

  /** A prefix of an encoded stream has the tokens of its first frames. */
  lemma TokensOfPrefix(sent: seq<Frame>, bytes: seq<byte>) returns (n: nat)
    requires bytes <= F.EncodeAll(sent)
    ensures n <= |sent| && F.Tokens(bytes) == F.Msgs(sent[..n])
  {
    hide F.EncodeAll, F.Tokens, F.Unfinished, F.Left, E.Whole;
    E.CutAnywhere(sent, bytes);
    n := E.Whole(sent, |bytes|);
    var part := bytes[|F.EncodeAll(sent[..n])|..];
    F.FramesComeBack(sent[..n], part);
    assert bytes == F.EncodeAll(sent[..n]) + part;
  }

  /** The tokens acted on are those of the first frames sent. */
  lemma DoneAreSent(c: Setup, w: World)
    requires E.Inv(w.up) && Fed(w) && Parsed(w) && !w.lossy
    ensures |w.done| <= |w.up.sent| && w.done == F.Msgs(w.up.sent[..|w.done|])
  {
    WhatIsFed(w);
    WhatIsParsed(w);
    hide E.Inv, Fed, Parsed, P.ApplyAll, F.Tokens, F.EncodeAll;
    var n := TokensOfPrefix(w.up.sent, w.ring.accepted);
    assert w.done == F.Msgs(w.up.sent[..n])[..|w.done|];
  }

  lemma UpdatesAreSent(c: Setup, w: World)
    requires Applied(c, w) && Parsed(w) && c.symbol < MAX_SYMBOLS
    requires |w.done| <= |w.up.sent| && w.done == F.Msgs(w.up.sent[..|w.done|])
    ensures w.entry.updates <= C.Own(w.up.sent[..|w.done|], c.symbol, c.price)
  {
    WhatIsApplied(c, w);
    WhatIsParsed(w);
    hide Applied, Parsed, C.Own, P.ApplyAll, F.Tokens;
    DispatchedOfFrames(w.up.sent[..|w.done|], c);
  }

  lemma DispatchedOfFrames(fs: seq<Frame>, c: Setup)
    requires c.symbol < MAX_SYMBOLS
    ensures C.Own(P.ApplyAll(P.INITIAL, F.Msgs(fs)).dispatched, c.symbol, c.price)
         == C.Own(fs, c.symbol, c.price)
  {
    hide C.Own, P.ApplyAll, P.Delivered, P.Count;
    P.CountersMean(P.INITIAL, F.Msgs(fs));
    assert [] + P.Delivered(F.Msgs(fs)) == P.Delivered(F.Msgs(fs));
    OwnOfDelivered(fs, c);
  }

  /** In every interleaving, without ring overflow, the tokens the parser has acted on are at every
      moment the first frames sent: in order, with nothing between them. */
  lemma ActsOnSentFrames(c: Setup, seq2s: seq<u32>, steps: seq<Step>)
    requires c.log2 <= 63
    ensures var w := Run(c, Start(c, seq2s), steps);
      !w.lossy ==>
        && |w.done| <= |w.up.sent| && w.done == F.Msgs(w.up.sent[..|w.done|])
        && w.st == P.ApplyAll(P.INITIAL, w.done)
  {
    hide Run, Start, E.Inv, R.Inv, L.Inv, Fed, Parsed, Applied, P.ApplyAll;
    StartIsInv(c, seq2s);
    RunKeeps(c, Start(c, seq2s), steps);
    var w := Run(c, Start(c, seq2s), steps);
    if !w.lossy {
      DoneAreSent(c, w);
      WhatIsParsed(w);
    }
  }

  /** From the exchange to the strategy, in every interleaving of all threads: without ring overflow, a
      snapshot of a symbol returned with an even `seq1` (and fewer than 2^31 writes meanwhile) is exactly
      the replay of the symbol's own messages among the first so many frames that the server sent. */
  lemma SnapshotsAreOfSentFrames(c: Setup, seq2s: seq<u32>, steps: seq<Step>, i: nat)
    requires c.log2 <= 63 && c.symbol < MAX_SYMBOLS
    requires i < |Run(c, Start(c, seq2s), steps).entry.readers|
    ensures var w := Run(c, Start(c, seq2s), steps);
      var r := w.entry.readers[i];
      !w.lossy && r.pc.Returned? && r.seq1 % 2 == 0 && r.finish - r.start < SEQ_WRAP ==>
        exists j :: 0 <= j <= |w.up.sent| && r.s == C.Replay(C.Own(w.up.sent[..j], c.symbol, c.price))
  {
    hide Run, Start, E.Inv, R.Inv, L.Inv, Fed, Parsed, Applied, C.Own, C.Replay;
    StartIsInv(c, seq2s);
    RunKeeps(c, Start(c, seq2s), steps);
    var w := Run(c, Start(c, seq2s), steps);
    var r := w.entry.readers[i];
    if !w.lossy && r.pc.Returned? && r.seq1 % 2 == 0 && r.finish - r.start < SEQ_WRAP {
      L.EvenExit(w.entry, i);
      DoneAreSent(c, w);
      UpdatesAreSent(c, w);
      var fs := w.up.sent[..|w.done|];
      var own, m := C.Own(fs, c.symbol, c.price), r.start / 2;
      assert w.entry.updates[..m] == own[..m];
      var j := OwnPrefix(fs, m, c);
      assert fs[..j] == w.up.sent[..j];
      assert r.s == C.Replay(C.Own(w.up.sent[..j], c.symbol, c.price));
    }
  }

  // ---- Nothing keeps the parse thread from getting on --------------------------------------

  /** `n` steps of the parse thread alone. */
  function Alone(c: Setup, w: World, n: nat): (w': World)
    requires |w.ring.buf| == Pow2(c.log2)
    ensures |w'.ring.buf| == Pow2(c.log2)
    decreases n
  {
    if n == 0 then w else Alone(c, Next(c, w, ParseStep), n - 1)
  }

  lemma {:induction false} AloneIsRun(c: Setup, w: World, n: nat)
    requires |w.ring.buf| == Pow2(c.log2)
    ensures Alone(c, w, n) == Run(c, w, seq(n, _ => ParseStep))
    decreases n
  {
    hide Next, Pow2;
    if n > 0 {
      assert seq(n, _ => ParseStep)[1..] == seq(n - 1, _ => ParseStep);
      AloneIsRun(c, Next(c, w, ParseStep), n - 1);
    }
  }

  lemma {:induction false} AloneAdds(c: Setup, w: World, a: nat, b: nat)
    requires |w.ring.buf| == Pow2(c.log2)
    ensures Alone(c, w, a + b) == Alone(c, Alone(c, w, a), b)
    decreases a
  {
    hide Next, Pow2;
    if a > 0 {
      AloneAdds(c, Next(c, w, ParseStep), a - 1, b);
    }
  }

  /** The bytes the ring holds. */
  function Held(ring: R.Ring): seq<byte>
    requires |ring.consumed| <= |ring.accepted|
  {
    ring.accepted[|ring.consumed|..]
  }

  /** The parse thread is inside or at the end of a peek of `len` bytes; nothing else has changed. */
  ghost predicate InPeek(c: Setup, w: World, w': World, len: nat) {
    && R.Inv(c.log2, w'.ring) && w'.ring.consumer.Peeking? && w'.ring.consumer.len == len
    && w'.ring.accepted == w.ring.accepted && w'.ring.consumed == w.ring.consumed
    && w'.task == Copy && w'.st == w.st && w'.done == w.done && w'.entry == w.entry
  }

  lemma {:induction false} CopyEnds(c: Setup, w: World, len: nat, n: nat)
    requires InPeek(c, w, w, len) && |w.ring.consumer.dst| + n == len
    requires |w.ring.buf| == Pow2(c.log2)
    ensures var w' := Alone(c, w, n); InPeek(c, w, w', len) && |w'.ring.consumer.dst| == len
    decreases n
  {
    hide R.Inv, R.Next, Pow2;
    if n > 0 {
      OneByteCopied(c, w, len);
      hide Next;
      CopyEnds(c, Next(c, w, ParseStep), len, n - 1);
    }
  }

  lemma OneByteCopied(c: Setup, w: World, len: nat)
    requires InPeek(c, w, w, len) && |w.ring.consumer.dst| < len && |w.ring.buf| == Pow2(c.log2)
    ensures var w' := Next(c, w, ParseStep);
      InPeek(c, w, w', len) && |w'.ring.consumer.dst| == |w.ring.consumer.dst| + 1
  {
    R.InBounds(c.log2, w.ring);
    R.NextKeeps(c.log2, w.ring, R.CopyOut);
    hide R.Inv, R.Index, Pow2, Decide;
  }

  /** A peek at bytes that are there copies exactly the front of what is held. */
  lemma PeekCopies(c: Setup, w: World, len: nat)
    requires R.Inv(c.log2, w.ring) && |w.ring.buf| == Pow2(c.log2) && |w.ring.consumed| <= |w.ring.accepted|
    requires w.task == Peek(len) && w.ring.consumer.Waiting? && len <= |Held(w.ring)|
    ensures var w' := Alone(c, w, 1 + len);
      InPeek(c, w, w', len) && w'.ring.consumer.dst == Held(w.ring)[..len]
  {
    R.NextKeeps(c.log2, w.ring, R.BeginPeek(len));
    PeekBegins(c, w, len);
    var w1 := Next(c, w, ParseStep);
    hide R.Inv, R.Next, Next, Pow2;
    CopyEnds(c, w1, len, len);
    var w2 := Alone(c, w1, len);
    R.PeekIsFront(c.log2, w2.ring);
    assert Alone(c, w, 1 + len) == w2;
    var r := |w.ring.consumed|;
    assert w.ring.accepted[r..r + len] == Held(w.ring)[..len];
  }

  lemma PeekBegins(c: Setup, w: World, len: nat)
    requires R.Inv(c.log2, w.ring) && |w.ring.buf| == Pow2(c.log2)
    requires w.task == Peek(len) && w.ring.consumer.Waiting? && |w.ring.consumed| + len <= |w.ring.accepted|
    ensures var w' := Next(c, w, ParseStep);
      w' == w.(ring := R.Next(Pow2(c.log2), w.ring, R.BeginPeek(len)), task := Copy)
      && w'.ring == w.ring.(consumer := R.Peeking(len, []))
  {
    hide Pow2, R.Stored;
    WrappedDistance(|w.ring.accepted|, |w.ring.consumed|);
    hide Gap;
  }

  lemma GapIsHeld(c: Setup, ring: R.Ring)
    requires R.Inv(c.log2, ring)
    ensures Gap(ring.writePos, ring.readPos) == |ring.accepted| - |ring.consumed|
  {
    hide Pow2, R.Stored, Gap;
    WrappedDistance(|ring.accepted|, |ring.consumed|);
  }

  /** A decidable head is decided by its header when the type is unknown, and else by its whole length. */
  lemma HeaderOrWhole(avail: seq<byte>)
    requires !F.Scan(avail).NeedMore?
    ensures |avail| >= HEADER_SIZE
    ensures F.Scan(avail[..HEADER_SIZE]).NeedMore? ==>
      var size := HEADER_SIZE + Max0(PayloadSize(Load16(avail[..HEADER_SIZE], 0))) + CHECKSUM_SIZE;
      size <= |avail| && !F.Scan(avail[..size]).NeedMore?
  {
    F.SameType(avail, avail[..HEADER_SIZE]);
    var size := HEADER_SIZE + Max0(PayloadSize(Load16(avail, 0))) + CHECKSUM_SIZE;
    if size <= |avail| {
      F.SameType(avail, avail[..size]);
    }
    hide Load16;
  }

  /** The decision on a front part that can be decided is the decision on everything held. */
  lemma FrontDecides(avail: seq<byte>, len: nat)
    requires len <= |avail| && !F.Scan(avail[..len]).NeedMore?
    ensures !F.Scan(avail).NeedMore?
    ensures F.Head(avail[..len]) == F.Head(avail) && F.HeadSize(avail[..len]) == F.HeadSize(avail)
  {
    assert avail[..len] + avail[len..] == avail;
    F.ScanStable(avail[..len], avail[len..]);
  }

  /** At the end of a copy that can be decided, one more step acts on the head of what is held. */
  lemma DecisionActs(c: Setup, w: World, len: nat)
    requires InPeek(c, w, w, len) && |w.ring.buf| == Pow2(c.log2) && |w.ring.consumed| + len <= |w.ring.accepted|
    requires w.ring.consumer.dst == Held(w.ring)[..len] && len >= HEADER_SIZE
    requires !F.Scan(w.ring.consumer.dst).NeedMore?
    ensures var avail := Held(w.ring);
      var w' := Next(c, w, ParseStep);
      && !F.Scan(avail).NeedMore?
      && w'.done == w.done + [F.Head(avail)] && w'.st == P.Apply(w.st, F.Head(avail))
      && w'.ring.consumed == w.ring.consumed + avail[..F.HeadSize(avail)]
  {
    var avail := Held(w.ring);
    FrontDecides(avail, len);
    hide F.Scan, F.Head, P.Apply, Pow2, R.Inv, Concerns;
    assert avail[..len][..F.HeadSize(avail)] == avail[..F.HeadSize(avail)];
  }

  /** The parse thread has acted on the head of what was held. */
  ghost predicate ActedOnHead(w: World, w': World)
    requires |w.ring.consumed| <= |w.ring.accepted| && !F.Scan(Held(w.ring)).NeedMore?
  {
    var avail := Held(w.ring);
    && w'.done == w.done + [F.Head(avail)] && w'.st == P.Apply(w.st, F.Head(avail))
    && w'.ring.consumed == w.ring.consumed + avail[..F.HeadSize(avail)]
  }

  /** With a decidable head in the ring, the parse thread alone acts on it within a hundred of its own
      steps, wherever the server and the network thread have stopped. */
  lemma ActsOnHead(c: Setup, w: World) returns (n: nat)
    requires Inv(c, w) && w.task.Head? && w.ring.consumer.Waiting? && |w.ring.consumed| <= |w.ring.accepted|
    requires !F.Scan(Held(w.ring)).NeedMore?
    ensures |w.ring.buf| == Pow2(c.log2) && n <= 100
    ensures ActedOnHead(w, Run(c, w, seq(n, _ => ParseStep)))
  {
    RingSize(c, w);
    hide Inv, R.Inv, InPeek, Pow2, Next, Run, ActedOnHead, F.Scan, Held, Load16;
    HeaderOrWhole(Held(w.ring));
    var w1 := HeaderCopied(c, w);
    if F.Scan(Held(w.ring)[..HEADER_SIZE]).NeedMore? {
      n := ActsOnMessage(c, w, w1);
    } else {
      n := ActsOnHeader(c, w, w1);
    }
    AloneIsRun(c, w, n);
  }

  lemma ActsOnHeader(c: Setup, w: World, w1: World) returns (n: nat)
    requires |w.ring.buf| == Pow2(c.log2) && |w.ring.consumed| <= |w.ring.accepted| && |Held(w.ring)| >= HEADER_SIZE
    requires |w1.ring.buf| == Pow2(c.log2) && w1 == Alone(c, w, 2 + HEADER_SIZE) && InPeek(c, w, w1, HEADER_SIZE)
    requires w1.ring.consumer.dst == Held(w.ring)[..HEADER_SIZE]
    requires !F.Scan(Held(w.ring)).NeedMore? && !F.Scan(Held(w.ring)[..HEADER_SIZE]).NeedMore?
    ensures n <= 100 && ActedOnHead(w, Alone(c, w, n))
  {
    hide R.Inv, Pow2, Next, F.Scan, F.Head, P.Apply;
    DecisionActs(c, w1, HEADER_SIZE);
    n := 2 + HEADER_SIZE + 1;
    AloneAdds(c, w, 2 + HEADER_SIZE, 1);
    AloneOnce(c, w1);
    hide Alone;
  }

  lemma ActsOnMessage(c: Setup, w: World, w1: World) returns (n: nat)
    requires |w.ring.buf| == Pow2(c.log2) && |w.ring.consumed| <= |w.ring.accepted| && |Held(w.ring)| >= HEADER_SIZE
    requires |w1.ring.buf| == Pow2(c.log2) && w1 == Alone(c, w, 2 + HEADER_SIZE) && InPeek(c, w, w1, HEADER_SIZE)
    requires w1.ring.consumer.dst == Held(w.ring)[..HEADER_SIZE]
    requires !F.Scan(Held(w.ring)).NeedMore? && F.Scan(Held(w.ring)[..HEADER_SIZE]).NeedMore?
    ensures n <= 100 && ActedOnHead(w, Alone(c, w, n))
  {
    hide R.Inv, Pow2, Next, F.Scan, F.Head, P.Apply, Load16;
    var avail := Held(w.ring);
    HeaderOrWhole(avail);
    var size := HEADER_SIZE + Max0(PayloadSize(Load16(avail[..HEADER_SIZE], 0))) + CHECKSUM_SIZE;
    PayloadSmall(avail[..HEADER_SIZE]);
    var w2 := MessageCopied(c, w1, size);
    DecisionActs(c, w2, size);
    n := (2 + HEADER_SIZE) + ((3 + size) + 1);
    AloneAdds(c, w, 2 + HEADER_SIZE, (3 + size) + 1);
    AloneAdds(c, w1, 3 + size, 1);
    AloneOnce(c, w2);
    hide Alone;
  }

  lemma PayloadSmall(s: seq<byte>)
    requires |s| >= 2
    ensures PayloadSize(Load16(s, 0)) <= QUOTE_PAYLOAD
  {
  }

  lemma AloneOnce(c: Setup, w: World)
    requires |w.ring.buf| == Pow2(c.log2)
    ensures Alone(c, w, 1) == Next(c, w, ParseStep)
  {
    hide Next, Pow2;
  }

  lemma HeaderCopied(c: Setup, w: World) returns (w': World)
    requires R.Inv(c.log2, w.ring) && |w.ring.buf| == Pow2(c.log2) && |w.ring.consumed| <= |w.ring.accepted|
    requires w.task.Head? && w.ring.consumer.Waiting? && |Held(w.ring)| >= HEADER_SIZE
    ensures w' == Alone(c, w, 2 + HEADER_SIZE) && |w'.ring.buf| == Pow2(c.log2)
    ensures InPeek(c, w, w', HEADER_SIZE) && w'.ring.consumer.dst == Held(w.ring)[..HEADER_SIZE]
  {
    GapIsHeld(c, w.ring);
    var w1 := Next(c, w, ParseStep);
    assert w1 == w.(task := Peek(HEADER_SIZE));
    hide R.Inv, Next, Pow2;
    PeekCopies(c, w1, HEADER_SIZE);
    w' := Alone(c, w1, 1 + HEADER_SIZE);
  }

  lemma MessageCopied(c: Setup, w: World, size: nat) returns (w': World)
    requires InPeek(c, w, w, HEADER_SIZE) && |w.ring.buf| == Pow2(c.log2) && |w.ring.consumed| <= |w.ring.accepted|
    requires |w.ring.consumer.dst| == HEADER_SIZE && F.Scan(w.ring.consumer.dst).NeedMore?
    requires size == HEADER_SIZE + Max0(PayloadSize(Load16(w.ring.consumer.dst, 0))) + CHECKSUM_SIZE
    requires size <= |Held(w.ring)|
    ensures w' == Alone(c, w, 3 + size) && |w'.ring.buf| == Pow2(c.log2)
    ensures InPeek(c, w, w', size) && w'.ring.consumer.dst == Held(w.ring)[..size]
  {
    var w1 := Next(c, w, ParseStep);
    HeaderDecided(c, w);
    R.NextKeeps(c.log2, w.ring, R.Abandon);
    GapIsHeld(c, w1.ring);
    var w2 := Next(c, w1, ParseStep);
    assert w2 == w1.(task := Peek(size));
    hide R.Inv, Next, Pow2, F.Scan, Load16;
    PeekCopies(c, w2, size);
    w' := Alone(c, w2, 1 + size);
    assert Alone(c, w1, 2 + size) == w';
  }

  lemma HeaderDecided(c: Setup, w: World)
    requires InPeek(c, w, w, HEADER_SIZE) && |w.ring.buf| == Pow2(c.log2)
    requires |w.ring.consumer.dst| == HEADER_SIZE && F.Scan(w.ring.consumer.dst).NeedMore?
    ensures var size := HEADER_SIZE + Max0(PayloadSize(Load16(w.ring.consumer.dst, 0))) + CHECKSUM_SIZE;
      Next(c, w, ParseStep) == w.(ring := R.Next(Pow2(c.log2), w.ring, R.Abandon), task := Body(size))
      && R.Next(Pow2(c.log2), w.ring, R.Abandon) == w.ring.(consumer := R.Waiting)
  {
    hide F.Scan, R.Inv, Pow2, Load16;
  }

  /** Outside a peek the ring's consumer waits. */
  predicate Tidy(w: World) {
    w.task.Copy? || w.ring.consumer.Waiting?
  }

  lemma NextTidy(c: Setup, w: World, s: Step)
    requires R.Inv(c.log2, w.ring) && |w.ring.buf| == Pow2(c.log2) && Tidy(w)
    ensures Tidy(Next(c, w, s))
  {
    if s.ParseStep? && w.task.Copy? && w.ring.consumer.Peeking? && |w.ring.consumer.dst| >= w.ring.consumer.len {
      CopyIsComplete(c, w.ring);
    }
    hide Pow2, R.Inv, R.Index, F.Scan, F.Head, P.Apply, E.Next, L.Next, Load16, Gap, Advance, Concerns;
  }

  lemma {:induction false} RunTidy(c: Setup, w: World, steps: seq<Step>)
    requires Inv(c, w) && Tidy(w)
    ensures |w.ring.buf| == Pow2(c.log2) && Tidy(Run(c, w, steps))
    decreases |steps|
  {
    RingSize(c, w);
    if |steps| > 0 {
      NextTidy(c, w, steps[0]) by {
        hide Pow2, P.Inv, L.Inv, E.Inv;
      }
      NextKeeps(c, w, steps[0]);
      hide Inv, Next, Pow2;
      RunTidy(c, Next(c, w, steps[0]), steps[1..]);
    }
  }

  /** So in every run, whenever the parse thread is at the head of its loop and a frame, or a byte to skip,
      has been published, it acts on it within a hundred of its own steps. */
  lemma GetsOn(c: Setup, seq2s: seq<u32>, steps: seq<Step>) returns (n: nat)
    requires c.log2 <= 63
    requires var w := Run(c, Start(c, seq2s), steps);
      w.task.Head? && |w.ring.consumed| <= |w.ring.accepted| && !F.Scan(Held(w.ring)).NeedMore?
    ensures var w := Run(c, Start(c, seq2s), steps);
      && |w.ring.buf| == Pow2(c.log2) && n <= 100
      && ActedOnHead(w, Run(c, w, seq(n, _ => ParseStep)))
  {
    StartIsInv(c, seq2s);
    var start := Start(c, seq2s);
    assert Tidy(start);
    hide Inv, Run, Start, ActedOnHead, F.Scan;
    RunKeeps(c, start, steps);
    RunTidy(c, start, steps);
    n := ActsOnHead(c, Run(c, start, steps));
  }
}
