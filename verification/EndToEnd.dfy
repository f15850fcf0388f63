/** The whole path on one connection: frames emitted, queued, sent in whatever pieces the kernel
    takes, received in whatever pieces `recv` returns, parsed, and cached. */
module EndToEnd {
  import opened Protocol
  import opened Frames
  import F = Framing
  import P = Parsing
  import Q = SendQueue
  import T = Sequencing
  import C = Cache
  import Parser

  /** One connection.  `sent` (history) are the frames `send_to` accepted; `delivered` counts the
      bytes of the wire the client has received; `lossy` records a ring overflow. */
  datatype World = World(server: Q.Client, closed: bool, sent: seq<Frame>,
                         delivered: nat, client: P.Pipe, lossy: bool)

  datatype Step =
    | Emit(f: Frame, reply: Q.Reply)    // broadcast to this client
    | Drain(replies: seq<Q.Reply>)      // EPOLLOUT fired
    | Receive(n: nat)                   // recv of up to n bytes, and feed
    | Parse                             // process

  function Next(cap: nat, w: World, s: Step): World {
    match s
    case Emit(f, reply) =>
      if w.closed then w
      else
        var r := Q.SendTo(w.server, Encode(f), reply);
        if r.None? then w.(closed := true) else w.(server := r.value, sent := w.sent + [f])
    case Drain(replies) => if w.closed then w else w.(server := Q.FlushPending(w.server, replies))
    case Receive(n) =>
      if w.delivered > |w.server.wire| then w
      else
        var k := Min(n, |w.server.wire| - w.delivered);
        var data := w.server.wire[w.delivered..w.delivered + k];
        w.(delivered := w.delivered + k, client := P.Do(cap, w.client, P.Feed(data)),
           lossy := w.lossy || |w.client.buf| + k > cap)
    case Parse => w.(client := P.Do(cap, w.client, P.Process))
  }

  function Run(cap: nat, w: World, steps: seq<Step>): World
    decreases |steps|
  {
    if |steps| == 0 then w else Run(cap, Next(cap, w, steps[0]), steps[1..])
  }

  const CONNECTED := World(Q.NEW, false, [], 0, P.EMPTY, false)

  function Encoded(fs: seq<Frame>): (r: seq<seq<byte>>)
    ensures |r| == |fs|
  {
    seq(|fs|, i requires 0 <= i < |fs| => Encode(fs[i]))
  }

  ghost predicate Inv(w: World) {
    && Q.Inv(w.server)
    && w.server.accepted == Encoded(w.sent)
    && w.delivered <= |w.server.wire|
    && P.InStep(w.client)
    && (!w.lossy ==> w.client.accepted == w.server.wire[..w.delivered])
  }

  lemma WireOnlyGrows(c: Q.Client, data: seq<byte>, reply: Q.Reply)
    ensures var r := Q.SendTo(c, data, reply);
      r.Some? ==> c.wire <= r.value.wire && r.value.accepted == c.accepted + [data]
  {
  }

  lemma {:induction false} FlushGrows(c: Q.Client, replies: seq<Q.Reply>)
    ensures c.wire <= Q.Flush(c, replies).0.wire && Q.Flush(c, replies).0.accepted == c.accepted
    decreases |c.pending|
  {
    if |c.pending| > 0 && |replies| > 0 && replies[0].Sent? {
      var buf, rest := c.pending[0], c.pending[1..];
      if Min(replies[0].n, |buf|) == |buf| {
        FlushGrows(c.(pending := rest, pendingBytes := c.pendingBytes - |buf|, bytesSent := c.bytesSent + |buf|,
                      msgsSent := c.msgsSent + 1, wire := c.wire + buf), replies[1..]);
      }
    }
  }

  lemma NextKeeps(cap: nat, w: World, s: Step)
    requires Inv(w)
    ensures Inv(Next(cap, w, s))
  {
    hide Q.SendTo, Q.Flush, P.InStep, P.Do, Encode;
    match s
    case Emit(f, reply) =>
      Q.SendToKeeps(w.server, Encode(f), reply);
      WireOnlyGrows(w.server, Encode(f), reply);
      assert Encoded(w.sent + [f]) == Encoded(w.sent) + [Encode(f)];
    case Drain(replies) =>
      Q.FlushPendingKeeps(w.server, replies);
      FlushGrows(w.server, replies);
    case Receive(n) =>
      var k := Min(n, |w.server.wire| - w.delivered);
      FeedTakesAll(cap, w.client, w.server.wire[w.delivered..w.delivered + k]);
      P.DoKeepsInStep(cap, w.client, P.Feed(w.server.wire[w.delivered..w.delivered + k]));
      assert w.server.wire[..w.delivered] + w.server.wire[w.delivered..w.delivered + k]
          == w.server.wire[..w.delivered + k];
    case Parse =>
      P.DoKeepsInStep(cap, w.client, P.Process);
      ProcessAccepts(cap, w.client);
  }

  lemma FeedTakesAll(cap: nat, p: P.Pipe, data: seq<byte>)
    ensures |p.buf| + |data| <= cap ==> P.Do(cap, p, P.Feed(data)).accepted == p.accepted + data
  {
  }

  lemma ProcessAccepts(cap: nat, p: P.Pipe)
    ensures P.Do(cap, p, P.Process).accepted == p.accepted
  {
  }

  lemma {:induction false} RunKeeps(cap: nat, w: World, steps: seq<Step>)
    requires Inv(w)
    ensures Inv(Run(cap, w, steps))
    decreases |steps|
  {
    if |steps| > 0 {
      NextKeeps(cap, w, steps[0]);
      RunKeeps(cap, Next(cap, w, steps[0]), steps[1..]);
    }
  }

  // ---- Cutting the stream anywhere ---------------------------------------------------------

  lemma {:induction false} ConcatEncoded(fs: seq<Frame>)
    ensures Join(Encoded(fs)) == F.EncodeAll(fs)
    decreases |fs|
  {
    if |fs| > 0 {
      assert Encoded(fs)[1..] == Encoded(fs[1..]);
      ConcatEncoded(fs[1..]);
    }
  }

  /** How many frames lie wholly within the first `n` bytes of the stream. */
  function Whole(fs: seq<Frame>, n: nat): (k: nat)
    ensures k <= |fs|
  {
    if |fs| == 0 || n < fs[0].Size() then 0 else 1 + Whole(fs[1..], n - fs[0].Size())
  }

  /** A prefix of the stream is those frames and a proper prefix of the next one. */
  lemma {:induction false} CutAnywhere(fs: seq<Frame>, cut: seq<byte>)
    requires cut <= F.EncodeAll(fs)
    ensures var k := Whole(fs, |cut|);
      && |F.EncodeAll(fs[..k])| <= |cut|
      && cut[..|F.EncodeAll(fs[..k])|] == F.EncodeAll(fs[..k])
      && F.Unfinished(cut[|F.EncodeAll(fs[..k])|..])
    decreases |fs|
  {
    hide Encode;
    if |fs| == 0 {
      SomethingUnfinished();
    } else if |cut| < fs[0].Size() {
      assert fs[..0] == [];
      assert cut < Encode(fs[0]);
    } else {
      var n := fs[0].Size();
      CutAnywhere(fs[1..], cut[n..]);
      var k := Whole(fs[1..], |cut| - n);
      assert fs[..k + 1][1..] == fs[1..][..k] && fs[..k + 1][0] == fs[0];
      hide Whole;
      SplitTwice(cut, Encode(fs[0]), F.EncodeAll(fs[1..][..k]));
    }
  }

  lemma SplitTwice(cut: seq<byte>, a: seq<byte>, b: seq<byte>)
    requires |a| + |b| <= |cut| && cut[..|a|] == a && cut[|a|..][..|b|] == b
    ensures cut[..|a| + |b|] == a + b
    ensures cut[|a + b|..] == cut[|a|..][|b|..]
  {
  }

  lemma SomethingUnfinished()
    ensures F.Unfinished([])
  {
    var f := Heartbeat(0, 0, 0);
    assert [] < Encode(f);
  }

  // ---- The delivery theorems ---------------------------------------------------------------

  /** End to end: in every run without ring overflow, once the parser has looked at what it holds,
      it has accepted exactly the frames lying wholly in the bytes received, a prefix of those the
      server accepted, in order; the rest of the bytes is the start of the next frame. */
  lemma Delivery(cap: nat, steps: seq<Step>)
    ensures var w := Run(cap, CONNECTED, steps);
      var p := P.Do(cap, w.client, P.Process);
      !w.lossy ==>
        && w.delivered <= |w.server.wire|
        && w.server.wire <= F.EncodeAll(w.sent)
        && p.st == P.ApplyAll(P.INITIAL, F.Msgs(w.sent[..Whole(w.sent, w.delivered)]))
        && F.EncodeAll(w.sent[..Whole(w.sent, w.delivered)]) + p.buf == w.server.wire[..w.delivered]
        && F.Unfinished(p.buf)
  {
    hide Encode, F.Tokens, F.Left, P.ApplyAll;
    RunKeeps(cap, CONNECTED, steps) by {
      StartIsInv();
    }
    var w := Run(cap, CONNECTED, steps);
    if !w.lossy {
      ConcatEncoded(w.sent);
      var cut := w.server.wire[..w.delivered];
      WirePrefix(w);
      CutAnywhere(w.sent, cut);
      var fs := w.sent[..Whole(w.sent, w.delivered)];
      var part := cut[|F.EncodeAll(fs)|..];
      assert cut == F.EncodeAll(fs) + part;
      F.FramesComeBack(fs, part);
      ParseIsOneParse(cap, w.client);
    }
  }

  lemma StartIsInv()
    ensures Inv(CONNECTED)
  {
    assert Encoded([]) == [];
  }

  lemma WirePrefix(w: World)
    requires Inv(w)
    ensures w.server.wire <= Join(Encoded(w.sent))
  {
    assert w.server.wire + Join(w.server.pending) == Join(Encoded(w.sent));
  }

  lemma ParseIsOneParse(cap: nat, p: P.Pipe)
    requires P.InStep(p)
    ensures var q := P.Do(cap, p, P.Process);
      q.st == P.Parsed(P.INITIAL, p.accepted) && q.buf == F.Left(p.accepted)
  {
  }

  lemma {:induction false} WholeOfAll(fs: seq<Frame>)
    ensures Whole(fs, |F.EncodeAll(fs)|) == |fs|
    decreases |fs|
  {
    if |fs| > 0 {
      WholeOfAll(fs[1..]);
    }
  }

  /** When the queue is flushed and the wire read out, every accepted frame has come through. */
  lemma EverythingArrives(cap: nat, steps: seq<Step>)
    ensures var w := Run(cap, CONNECTED, steps);
      var p := P.Do(cap, w.client, P.Process);
      !w.lossy && w.server.pending == [] && w.delivered == |w.server.wire| ==>
        p.st == P.ApplyAll(P.INITIAL, F.Msgs(w.sent)) && p.buf == []
  {
    hide Encode, F.Tokens, F.Left, P.ApplyAll;
    var w := Run(cap, CONNECTED, steps);
    RunKeeps(cap, CONNECTED, steps) by {
      StartIsInv();
    }
    if !w.lossy && w.server.pending == [] && w.delivered == |w.server.wire| {
      Delivery(cap, steps);
      ConcatEncoded(w.sent);
      assert w.server.wire + [] == F.EncodeAll(w.sent);
      WholeOfAll(w.sent);
      assert w.sent[..|w.sent|] == w.sent;
    }
  }

  // ---- Catching up -------------------------------------------------------------------------

  lemma {:induction false} RunConcat(cap: nat, w: World, a: seq<Step>, b: seq<Step>)
    ensures Run(cap, w, a + b) == Run(cap, Run(cap, w, a), b)
    decreases |a|
  {
    hide Next;
    if |a| == 0 {
      assert a + b == b;
    } else {
      assert (a + b)[1..] == a[1..] + b;
      RunConcat(cap, Next(cap, w, a[0]), a[1..], b);
    }
  }

  /** The client alone: parse what is held, receive as much as then certainly fits. */
  function Pump(cap: nat, m: nat): seq<Step>
    requires cap >= MAX_MSG_SIZE
  {
    if m == 0 then [] else [Parse, Receive(cap - (MAX_MSG_SIZE - 1))] + Pump(cap, m - 1)
  }

  lemma PumpOnce(cap: nat, w: World)
    requires cap >= MAX_MSG_SIZE && !w.lossy && w.delivered <= |w.server.wire|
    ensures var w' := Next(cap, Next(cap, w, Parse), Receive(cap - (MAX_MSG_SIZE - 1)));
      && !w'.lossy && w'.server == w.server && w'.sent == w.sent
      && w'.delivered == w.delivered + Min(cap - (MAX_MSG_SIZE - 1), |w.server.wire| - w.delivered)
  {
    hide F.Tokens, P.ApplyAll;
  }

  /** Enough rounds read the wire out without dropping a byte. */
  lemma {:induction false} PumpReadsAll(cap: nat, w: World, m: nat)
    requires cap >= MAX_MSG_SIZE && !w.lossy && w.delivered <= |w.server.wire|
    requires m >= |w.server.wire| - w.delivered
    ensures var w' := Run(cap, w, Pump(cap, m));
      !w'.lossy && w'.server == w.server && w'.sent == w.sent && w'.delivered == |w.server.wire|
    decreases m
  {
    if m > 0 {
      PumpOnce(cap, w);
      hide Next;
      var r := Receive(cap - (MAX_MSG_SIZE - 1));
      var steps := Pump(cap, m);
      assert steps[0] == Parse && steps[1..] == [r] + Pump(cap, m - 1);
      assert ([r] + Pump(cap, m - 1))[1..] == Pump(cap, m - 1);
      PumpReadsAll(cap, Next(cap, Next(cap, w, Parse), r), m - 1);
    }
  }

  /** From every state a run can reach, as long as nothing was dropped and the server has not given the
      client up: if the kernel takes what is pending, and the client reads and parses, then every frame
      the server accepted has been parsed, in order, and nothing is left. */
  lemma CanCatchUp(cap: nat, steps: seq<Step>, replies: seq<Q.Reply>, m: nat)
    requires cap >= MAX_MSG_SIZE
    requires var w := Run(cap, CONNECTED, steps);
      && !w.lossy && !w.closed && |replies| >= |w.server.pending|
      && (forall i :: 0 <= i < |w.server.pending| ==> replies[i].Sent? && replies[i].n >= |w.server.pending[i]|)
      && m >= |F.EncodeAll(w.sent)|
    ensures var w := Run(cap, CONNECTED, steps);
      var w' := Run(cap, CONNECTED, (steps + [Drain(replies)]) + Pump(cap, m));
      var p := P.Do(cap, w'.client, P.Process);
      p.st == P.ApplyAll(P.INITIAL, F.Msgs(w.sent)) && p.buf == []
  {
    var w := Run(cap, CONNECTED, steps);
    RunKeeps(cap, CONNECTED, steps) by {
      StartIsInv();
    }
    Drained(cap, w, replies);
    hide Inv, P.Do, P.ApplyAll, F.Msgs, F.EncodeAll;
    var v := Next(cap, w, Drain(replies));
    OneStep(cap, w, Drain(replies));
    RunConcat(cap, CONNECTED, steps, [Drain(replies)]);
    RunConcat(cap, CONNECTED, steps + [Drain(replies)], Pump(cap, m));
    PumpReadsAll(cap, v, m);
    EverythingArrives(cap, (steps + [Drain(replies)]) + Pump(cap, m));
  }

  lemma OneStep(cap: nat, w: World, s: Step)
    ensures Run(cap, w, [s]) == Next(cap, w, s)
  {
    hide Next;
    assert [s][1..] == [];
  }

  lemma Drained(cap: nat, w: World, replies: seq<Q.Reply>)
    requires Inv(w) && !w.closed && |replies| >= |w.server.pending|
    requires forall i :: 0 <= i < |w.server.pending| ==>
      replies[i].Sent? && replies[i].n >= |w.server.pending[i]|
    ensures var v := Next(cap, w, Drain(replies));
      && v.server.pending == [] && v.lossy == w.lossy && v.sent == w.sent
      && v.delivered == w.delivered <= |v.server.wire| == |F.EncodeAll(w.sent)|
  {
    Q.FlushCompletes(w.server, replies);
    ConcatEncoded(w.sent);
    hide Q.Flush, P.InStep, Join, Encoded, F.EncodeAll;
  }

  /** No byte skipped and no checksum error; the callback saw the dispatchable frames in order. */
  lemma DeliveryIsClean(cap: nat, steps: seq<Step>)
    ensures var w := Run(cap, CONNECTED, steps);
      var p := P.Do(cap, w.client, P.Process);
      var fs := w.sent[..Whole(w.sent, w.delivered)];
      !w.lossy ==>
        && p.st.checksumErrors == 0
        && p.st.dispatched == P.Delivered(F.Msgs(fs))
        && P.Count(F.Tokens(w.client.accepted), P.IS_JUNK) == 0
  {
    hide Encode, F.Left, P.InStep, P.ApplyAll;
    Delivery(cap, steps);
    var w := Run(cap, CONNECTED, steps);
    if !w.lossy {
      var fs := w.sent[..Whole(w.sent, w.delivered)];
      P.CountersMean(P.INITIAL, F.Msgs(fs));
      NoJunk(fs);
      RunKeeps(cap, CONNECTED, steps) by {
        StartIsInv();
      }
      var p := P.Do(cap, w.client, P.Process);
      F.FramesComeBack(fs, p.buf);
    }
  }

  lemma {:induction false} NoJunk(fs: seq<Frame>)
    ensures P.Count(F.Msgs(fs), P.IS_JUNK) == 0 && P.Count(F.Msgs(fs), P.IS_BAD) == 0
    decreases |fs|
  {
    if |fs| > 0 {
      F.MsgsCons(fs);
      NoJunk(fs[1..]);
    }
  }

  /** When the frames carry consecutive emissions of `tick_loop`, from emission `j` on, the client
      counts exactly the faults injected after its first message, among what it has received. */
  lemma GapsEndToEnd(cap: nat, steps: seq<Step>, ops: seq<T.Op>, j: nat)
    requires j + |Run(cap, CONNECTED, steps).sent| <= |ops|
    requires T.Carries(Run(cap, CONNECTED, steps).sent,
                       T.Emissions(ops, 0)[j..j + |Run(cap, CONNECTED, steps).sent|])
    ensures var w := Run(cap, CONNECTED, steps);
      var k := Whole(w.sent, w.delivered);
      var st := P.Do(cap, w.client, P.Process).st;
      !w.lossy && k > 0 ==>
        st.gaps == T.Faults(T.Emissions(ops, 0)[j + 1..j + k]) && st.gapSize == 2 * st.gaps
  {
    hide Encode, P.InStep, P.ApplyAll, P.Do, T.Emissions, T.Faults, F.EncodeAll, F.Unfinished, F.Msgs, Whole, Run;
    Delivery(cap, steps);
    var w := Run(cap, CONNECTED, steps);
    var k := Whole(w.sent, w.delivered);
    if !w.lossy && k > 0 {
      var es := T.Emissions(ops, 0)[j..j + k];
      T.FramesTrackLikeNumbers(P.INITIAL, P.INITIAL, w.sent[..k], es);
      T.GapsSoFar(ops, j, k);
    }
  }

  // ---- The client's parse thread -----------------------------------------------------------

  lemma EmptyStream()
    ensures P.Parsed(P.INITIAL, []) == P.INITIAL && F.Left([]) == []
  {
  }

  /** Feeds the chunks and processes after each; what the parser dispatched then goes to the cache.
      Whatever the bytes, after every chunk each symbol has been updated by exactly the messages for it
      in one parse of everything the ring has accepted. */
  method ParseAndCache(parser: Parser.FeedParser, cache: C.SymbolCache, chunks: seq<seq<byte>>, price: u64 -> real)
      returns (ghost accepted: seq<byte>)
    requires parser.Valid() && cache.Valid() && parser.St() == P.INITIAL && parser.Buffered() == []
    requires forall k :: 0 <= k < |cache.history| ==> cache.history[k] == []
    requires {cache as object, cache.states, cache.seqs} !!
             {parser as object, parser.ring, parser.ring.buf, parser.scratch, parser.hdr}
    modifies parser, parser.ring, parser.ring.buf, parser.scratch, parser.hdr, cache, cache.states, cache.seqs
    ensures parser.Valid() && cache.Valid() && |cache.history| == |old(cache.history)|
    ensures parser.St() == P.Parsed(P.INITIAL, accepted) && parser.Buffered() == F.Left(accepted)
    ensures forall k :: 0 <= k < |cache.history| ==>
      cache.history[k] == C.Own(P.Delivered(F.Tokens(accepted)), k, price)
  {
    hide F.Tokens, F.Left, P.ApplyAll, C.Own, C.Replay;
    accepted := [];
    EmptyStream();
    DeliveredSoFar([], price);
    for i := 0 to |chunks|
      invariant parser.Valid() && cache.Valid() && |cache.history| == |old(cache.history)|
      invariant parser.St() == P.Parsed(P.INITIAL, accepted) && parser.Buffered() == F.Left(accepted)
      invariant forall k :: 0 <= k < |cache.history| ==>
        cache.history[k] == C.Own(P.Delivered(F.Tokens(accepted)), k, price)
    {
      var before := |parser.dispatched|;
      var n := parser.Feed(chunks[i]);
      var _ := parser.Process();
      NewDispatches(accepted, chunks[i][..n], price);
      accepted := accepted + chunks[i][..n];
      cache.OnMessages(parser.dispatched[before..], price);
    }
  }

  lemma DeliveredSoFar(bytes: seq<byte>, price: u64 -> real)
    ensures P.Parsed(P.INITIAL, bytes).dispatched == P.Delivered(F.Tokens(bytes))
    ensures bytes == [] ==> forall k: nat :: C.Own(P.Delivered(F.Tokens(bytes)), k, price) == []
  {
    P.CountersMean(P.INITIAL, F.Tokens(bytes));
  }

  /** Further bytes only add dispatches, all of them updates, and each symbol's own go on its list. */
  lemma NewDispatches(a: seq<byte>, b: seq<byte>, price: u64 -> real)
    ensures P.Parsed(P.Parsed(P.INITIAL, a), F.Left(a) + b) == P.Parsed(P.INITIAL, a + b)
    ensures F.Left(F.Left(a) + b) == F.Left(a + b)
    ensures var old', new' := P.Parsed(P.INITIAL, a).dispatched, P.Parsed(P.INITIAL, a + b).dispatched;
      && old' <= new'
      && (forall i :: 0 <= i < |new'| ==> !new'[i].Heartbeat?)
      && forall k: nat :: C.Own(P.Delivered(F.Tokens(a + b)), k, price)
           == C.Own(P.Delivered(F.Tokens(a)), k, price) + C.Own(new'[|old'|..], k, price)
  {
    hide F.Tokens, F.Left, P.ApplyAll, P.Delivered, C.Own;
    P.ParsedChunks(P.INITIAL, a, b);
    P.CountersMean(P.Parsed(P.INITIAL, a), F.Tokens(F.Left(a) + b));
    DeliveredSoFar(a, price);
    DeliveredSoFar(a + b, price);
    C.DispatchedAreUpdates(P.INITIAL, F.Tokens(a + b));
    var was, more := P.Parsed(P.INITIAL, a).dispatched, P.Delivered(F.Tokens(F.Left(a) + b));
    forall k: nat
      ensures C.Own(was + more, k, price) == C.Own(was, k, price) + C.Own(more, k, price)
    {
      C.OwnConcat(was, more, k, price);
    }
  }
}
