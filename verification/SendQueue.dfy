/** One server-side connection: the spill queue, `send_to`, `flush_queue` and the run invariant.
    The kernel's answers to `send` are parameters; `wire` and `accepted` are history. */
module SendQueue {
  import opened Protocol
  import S = Subscription

  const SLOW_CLIENT_DROP_BYTES := 64 * 1024 * 1024

  /** What `send` returned: a byte count (one above the length is read as the whole length),
      -1 with EAGAIN or EWOULDBLOCK, or -1 with another errno. */
  datatype Reply = Sent(n: nat) | Again | Failed

  datatype Client = Client(sub: S.Sub,
                           bytesSent: nat, msgsSent: nat, msgsDropped: nat,
                           pending: seq<seq<byte>>, pendingBytes: int,
                           epollout: bool,
                           wire: seq<byte>,            // every byte the kernel took, in order
                           accepted: seq<seq<byte>>)   // every message send_to returned true for

  datatype Option<T> = None | Some(value: T)

  const NEW := Client(S.FRESH, 0, 0, 0, [], 0, false, [], [])

  function Enqueue(c: Client, data: seq<byte>): Client {
    c.(pending := c.pending + [data], pendingBytes := c.pendingBytes + |data|)
  }

  /** `flush_queue`; false when data is left behind.  Running out of replies reads as EAGAIN. */
  function Flush(c: Client, replies: seq<Reply>): (r: (Client, bool))
    decreases |c.pending|
  {
    if |c.pending| == 0 then (c, true)
    else if |replies| == 0 || !replies[0].Sent? then (c, false)
    else
      var buf, rest := c.pending[0], c.pending[1..];
      var n := Min(replies[0].n, |buf|);
      if n == |buf| then
        Flush(c.(pending := rest, pendingBytes := c.pendingBytes - |buf|, bytesSent := c.bytesSent + |buf|,
                 msgsSent := c.msgsSent + 1, wire := c.wire + buf), replies[1..])
      else if n > 0 then
        (c.(pending := [buf[n..]] + rest, pendingBytes := c.pendingBytes - n, bytesSent := c.bytesSent + n,
            wire := c.wire + buf[..n]), false)
      else (c, false)
  }

  /** `flush_pending`: disarm EPOLLOUT once everything is out. */
  function FlushPending(c: Client, replies: seq<Reply>): Client {
    var (r, done) := Flush(c, replies);
    if done then r.(epollout := false) else r
  }

  /** `send_to`; None when the client is removed. */
  function SendTo(c: Client, data: seq<byte>, reply: Reply): Option<Client> {
    if |c.pending| > 0 then
      var q := Enqueue(c, data).(msgsDropped := c.msgsDropped + 1, accepted := c.accepted + [data]);
      if q.pendingBytes > SLOW_CLIENT_DROP_BYTES then None else Some(q)
    else
      match reply
      case Failed => None
      case Again =>
        Some(Enqueue(c, data).(epollout := true, msgsDropped := c.msgsDropped + 1,
                               accepted := c.accepted + [data]))
      case Sent(k) =>
        var n := Min(k, |data|);
        if n == |data| then
          Some(c.(bytesSent := c.bytesSent + |data|, msgsSent := c.msgsSent + 1,
                  wire := c.wire + data, accepted := c.accepted + [data]))
        else
          Some(Enqueue(c, data[n..]).(epollout := true, wire := c.wire + data[..n],
                                      accepted := c.accepted + [data]))
  }

  // ---- The invariant -----------------------------------------------------------------------

  /** Nothing accepted is lost or reordered, the byte and message counts agree with the queue, and
      the kernel will announce room exactly when there is something to flush. */
  ghost predicate Inv(c: Client) {
    && Booked(c)
    && (c.epollout <==> c.pending != [])
  }

  ghost predicate Booked(c: Client) {
    && c.wire + Join(c.pending) == Join(c.accepted)
    && c.pendingBytes == |Join(c.pending)|
    && c.msgsSent + |c.pending| == |c.accepted|
  }

  lemma {:induction false} JoinAppend(a: seq<seq<byte>>, b: seq<seq<byte>>)
    ensures Join(a + b) == Join(a) + Join(b)
    decreases |a|
  {
    if |a| == 0 {
      assert a + b == b;
    } else {
      assert (a + b)[1..] == a[1..] + b;
      JoinAppend(a[1..], b);
    }
  }

  lemma JoinOne(m: seq<byte>)
    ensures Join([m]) == m
  {
    assert Join([m][1..]) == [];
  }

  lemma QueuedBehind(wire: seq<byte>, held: seq<byte>, data: seq<byte>, n: nat)
    requires n <= |data| && (n > 0 ==> held == [])
    ensures (wire + data[..n]) + (held + data[n..]) == (wire + held) + data
  {
  }

  lemma EnqueueKeeps(c: Client, data: seq<byte>, n: nat)
    requires Inv(c) && n <= |data| && (n > 0 ==> c.pending == [])
    ensures Inv(Enqueue(c, data[n..]).(epollout := true, wire := c.wire + data[..n],
                                       accepted := c.accepted + [data]))
  {
    JoinAppend(c.pending, [data[n..]]);
    JoinOne(data[n..]);
    JoinAppend(c.accepted, [data]);
    JoinOne(data);
    assert c.pending == [] ==> Join(c.pending) == [];
    hide Join;
    QueuedBehind(c.wire, Join(c.pending), data, n);
  }

  lemma SendToKeeps(c: Client, data: seq<byte>, reply: Reply)
    requires Inv(c)
    ensures SendTo(c, data, reply).Some? ==> Inv(SendTo(c, data, reply).value)
  {
    var k := if |c.pending| > 0 || !reply.Sent? then 0 else Min(reply.n, |data|);
    EnqueueKeeps(c, data, k);
    assert data[0..] == data && c.wire + data[..0] == c.wire;
    if k == |data| {
      JoinAppend(c.accepted, [data]);
      JoinOne(data);
    }
  }

  lemma {:induction false} FlushKeeps(c: Client, replies: seq<Reply>)
    requires Booked(c)
    ensures var (r, done) := Flush(c, replies);
      && Booked(r) && r.pendingBytes <= c.pendingBytes
      && r.accepted == c.accepted && r.sub == c.sub && r.epollout == c.epollout
      && (done <==> r.pending == [])
    decreases |c.pending|
  {
    if |c.pending| > 0 && |replies| > 0 && replies[0].Sent? {
      var buf, rest := c.pending[0], c.pending[1..];
      var n := Min(replies[0].n, |buf|);
      if n == |buf| {
        MovedToWire(c.wire, buf, [], Join(rest));
        FlushKeeps(c.(pending := rest, pendingBytes := c.pendingBytes - |buf|, bytesSent := c.bytesSent + |buf|,
                      msgsSent := c.msgsSent + 1, wire := c.wire + buf), replies[1..]);
      } else if n > 0 {
        assert ([buf[n..]] + rest)[1..] == rest;
        MovedToWire(c.wire, buf[..n], buf[n..], Join(rest));
        assert buf == buf[..n] + buf[n..];
      }
    }
  }

  lemma MovedToWire(wire: seq<byte>, sent: seq<byte>, unsent: seq<byte>, rest: seq<byte>)
    ensures wire + ((sent + unsent) + rest) == (wire + sent) + (unsent + rest)
    ensures wire + (sent + rest) == (wire + sent) + rest
  {
  }

  lemma FlushPendingKeeps(c: Client, replies: seq<Reply>)
    requires Inv(c)
    ensures Inv(FlushPending(c, replies))
  {
    FlushKeeps(c, replies);
  }

  // ---- What a flush sends ------------------------------------------------------------------

  /** How many of the queued messages the kernel takes whole, one reply each, before it does not. */
  function TakenWhole(pending: seq<seq<byte>>, replies: seq<Reply>): (k: nat)
    ensures k <= |pending| && k <= |replies|
    ensures forall i :: 0 <= i < k ==> replies[i].Sent? && replies[i].n >= |pending[i]|
    ensures k < |pending| && k < |replies| ==> replies[k].Sent? ==> replies[k].n < |pending[k]|
  {
    if |pending| == 0 || |replies| == 0 || !replies[0].Sent? || replies[0].n < |pending[0]| then 0
    else
      var k := TakenWhole(pending[1..], replies[1..]);
      assert forall i :: 0 <= i < 1 + k ==> i > 0 ==> replies[i] == replies[1..][i - 1] && pending[i] == pending[1..][i - 1];
      1 + k
  }

  /** What it takes of the message after those. */
  function TakenThen(pending: seq<seq<byte>>, replies: seq<Reply>, k: nat): nat
    requires k <= |pending| && k <= |replies|
  {
    if k < |pending| && k < |replies| && replies[k].Sent? then Min(replies[k].n, |pending[k]|) else 0
  }

  /** From `c` to `r`: `k` messages and then `n` bytes of the next have moved from the queue to the wire,
      and the counters count them. */
  predicate Moved(c: Client, r: Client, k: nat, n: nat)
    requires k <= |c.pending| && (n > 0 ==> k < |c.pending| && n <= |c.pending[k]|)
  {
    && r.wire == c.wire + Join(c.pending[..k]) + (if n > 0 then c.pending[k][..n] else [])
    && r.pending == (if n > 0 then [c.pending[k][n..]] + c.pending[k + 1..] else c.pending[k..])
    && r.msgsSent == c.msgsSent + k && r.msgsDropped == c.msgsDropped
    && r.bytesSent == c.bytesSent + |Join(c.pending[..k])| + n
    && r.pendingBytes == c.pendingBytes - |Join(c.pending[..k])| - n
  }

  /** Exactly what the replies took has moved, and the flush is done if and only if that was everything. */
  lemma {:induction false} FlushSends(c: Client, replies: seq<Reply>)
    ensures var k := TakenWhole(c.pending, replies);
      && Moved(c, Flush(c, replies).0, k, TakenThen(c.pending, replies, k))
      && (Flush(c, replies).1 <==> k == |c.pending|)
    decreases |c.pending|
  {
    var k := TakenWhole(c.pending, replies);
    if k == 0 {
      FlushStops(c, replies);
    } else {
      hide Flush, TakenWhole, Moved, Join;
      FlushUnfold(c, replies);
      FlushSends(AfterFirst(c), replies[1..]);
      MovedOneMore(c, Flush(c, replies).0, k, TakenThen(c.pending, replies, k));
    }
  }

  lemma FlushStops(c: Client, replies: seq<Reply>)
    requires TakenWhole(c.pending, replies) == 0
    ensures Moved(c, Flush(c, replies).0, 0, TakenThen(c.pending, replies, 0))
    ensures Flush(c, replies).1 <==> 0 == |c.pending|
  {
    assert c.pending[..0] == [] && c.pending[0..] == c.pending;
    assert c.wire + [] + [] == c.wire;
  }

  lemma MovedOneMore(c: Client, r: Client, k: nat, n: nat)
    requires 0 < k <= |c.pending| && (n > 0 ==> k < |c.pending| && n <= |c.pending[k]|)
    requires Moved(AfterFirst(c), r, k - 1, n)
    ensures Moved(c, r, k, n)
  {
    FirstOfQueue(c.pending, k);
    hide Join;
    var part := if n > 0 then c.pending[k][..n] else [];
    FourParts(c.wire, c.pending[0], Join(c.pending[1..][..k - 1]), part);
  }

  function AfterFirst(c: Client): Client
    requires |c.pending| > 0
  {
    var buf := c.pending[0];
    c.(pending := c.pending[1..], pendingBytes := c.pendingBytes - |buf|, bytesSent := c.bytesSent + |buf|,
       msgsSent := c.msgsSent + 1, wire := c.wire + buf)
  }

  lemma FlushUnfold(c: Client, replies: seq<Reply>)
    requires TakenWhole(c.pending, replies) > 0
    ensures Flush(c, replies) == Flush(AfterFirst(c), replies[1..])
    ensures TakenWhole(c.pending, replies) == 1 + TakenWhole(c.pending[1..], replies[1..])
  {
  }

  lemma FirstOfQueue(msgs: seq<seq<byte>>, k: nat)
    requires 0 < k <= |msgs|
    ensures Join(msgs[..k]) == msgs[0] + Join(msgs[1..][..k - 1])
    ensures msgs[1..][k - 1..] == msgs[k..] && (k < |msgs| ==> msgs[1..][k..] == msgs[k + 1..])
  {
    assert msgs[..k][1..] == msgs[1..][..k - 1];
  }

  lemma FourParts(a: seq<byte>, b: seq<byte>, c: seq<byte>, d: seq<byte>)
    ensures a + b + c + d == a + (b + c) + d
  {
  }

  /** If the kernel takes every message whole, the queue is empty afterwards and all of it on the wire. */
  lemma FlushCompletes(c: Client, replies: seq<Reply>)
    requires |replies| >= |c.pending|
    requires forall i :: 0 <= i < |c.pending| ==> replies[i].Sent? && replies[i].n >= |c.pending[i]|
    ensures var (r, done) := Flush(c, replies);
      done && r.pending == [] && r.wire == c.wire + Join(c.pending) && r.msgsSent == c.msgsSent + |c.pending|
  {
    FlushSends(c, replies);
    var k := TakenWhole(c.pending, replies);
    hide Join;
    assert k == |c.pending| && c.pending[..k] == c.pending;
    assert c.wire + Join(c.pending) + [] == c.wire + Join(c.pending);
  }

  // ---- What a send does --------------------------------------------------------------------

  /** A backlogged client stays if and only if backlog and message together are at most 64 MB, an idle
      one if and only if the send does not fail. */
  lemma StaysIff(c: Client, data: seq<byte>, reply: Reply)
    requires Inv(c)
    ensures SendTo(c, data, reply).Some? <==>
      if c.pending != [] then |Join(c.pending)| + |data| <= 67108864 else !reply.Failed?
  {
  }

  /** What a client that stays has on the wire and in its queue: behind a backlog the message waits whole;
      otherwise what the kernel took is on the wire and the rest waits.  `msgs_dropped` counts the
      messages that had to wait whole, `bytes_sent` only messages that went out whole. */
  lemma SendToMeans(c: Client, data: seq<byte>, reply: Reply)
    requires SendTo(c, data, reply).Some?
    ensures var r := SendTo(c, data, reply).value;
      var whole := c.pending == [] && reply.Sent? && reply.n >= |data|;
      var taken := if c.pending == [] && reply.Sent? then Min(reply.n, |data|) else 0;
      && r.wire == c.wire + data[..taken]
      && r.pending == c.pending + (if whole then [] else [data[taken..]])
      && r.accepted == c.accepted + [data]
      && r.pendingBytes == c.pendingBytes + |data| - taken
      && r.msgsSent == c.msgsSent + (if whole then 1 else 0)
      && r.bytesSent == c.bytesSent + (if whole then |data| else 0)
      && r.msgsDropped == c.msgsDropped + (if c.pending != [] || reply.Again? then 1 else 0)
      && r.sub == c.sub
  {
    assert data[0..] == data && data[..|data|] == data && c.wire + data[..0] == c.wire;
    assert c.pending + [] == c.pending;
  }

  // ---- Every run ---------------------------------------------------------------------------

  datatype Op =
    | Send(data: seq<byte>, reply: Reply)
    | FlushQueue(replies: seq<Reply>)
    | Recv(data: seq<byte>)
    | Tick

  function Do(c: Option<Client>, op: Op): Option<Client> {
    if c.None? then None
    else
      match op
      case Send(data, reply) => if c.value.sub.phase.LIVE? then SendTo(c.value, data, reply) else c
      case FlushQueue(replies) => Some(FlushPending(c.value, replies))
      case Recv(data) => Some(c.value.(sub := S.Receive(c.value.sub, data)))
      case Tick => if c.value.pendingBytes > SLOW_CLIENT_DROP_BYTES then None else c
  }

  function DoAll(c: Option<Client>, ops: seq<Op>): Option<Client>
    decreases |ops|
  {
    if |ops| == 0 then c else DoAll(Do(c, ops[0]), ops[1..])
  }

  lemma {:induction false} RunKeeps(c: Option<Client>, ops: seq<Op>)
    requires c.Some? ==> Inv(c.value)
    ensures DoAll(c, ops).Some? ==> Inv(DoAll(c, ops).value)
    decreases |ops|
  {
    if |ops| > 0 {
      if c.Some? {
        match ops[0]
        case Send(data, reply) => SendToKeeps(c.value, data, reply);
        case FlushQueue(replies) => FlushPendingKeeps(c.value, replies);
        case _ =>
      }
      RunKeeps(Do(c, ops[0]), ops[1..]);
    }
  }

  /** Over every run of a connection that survives, whatever the kernel answers. */
  lemma QueueInvariant(ops: seq<Op>)
    ensures DoAll(Some(NEW), ops).Some? ==> Inv(DoAll(Some(NEW), ops).value)
  {
    RunKeeps(Some(NEW), ops);
  }

  /** What one call leaves over the limit: only the unsent part of a message that met an empty queue. */
  lemma BacklogAfterSend(c: Client, data: seq<byte>, reply: Reply)
    requires Inv(c) && SendTo(c, data, reply).Some?
    ensures var r := SendTo(c, data, reply).value;
      r.pendingBytes > SLOW_CLIENT_DROP_BYTES <==>
        c.pending == [] && !reply.Failed?
        && |data| - (if reply.Sent? then Min(reply.n, |data|) else 0) > SLOW_CLIENT_DROP_BYTES
  {
    if |c.pending| == 0 {
      assert c.pendingBytes == 0;
    }
  }

  ghost predicate SmallMessages(ops: seq<Op>) {
    forall i :: 0 <= i < |ops| && ops[i].Send? ==> |ops[i].data| <= SLOW_CLIENT_DROP_BYTES
  }

  lemma {:induction false} BacklogStaysSmall(c: Option<Client>, ops: seq<Op>)
    requires c.Some? ==> Inv(c.value) && c.value.pendingBytes <= SLOW_CLIENT_DROP_BYTES
    requires SmallMessages(ops)
    ensures DoAll(c, ops).Some? ==> DoAll(c, ops).value.pendingBytes <= SLOW_CLIENT_DROP_BYTES
    decreases |ops|
  {
    if |ops| > 0 {
      if c.Some? {
        match ops[0]
        case Send(data, reply) =>
          SendToKeeps(c.value, data, reply);
          if SendTo(c.value, data, reply).Some? {
            BacklogAfterSend(c.value, data, reply);
          }
        case FlushQueue(replies) =>
          FlushKeeps(c.value, replies);
          FlushPendingKeeps(c.value, replies);
        case _ =>
      }
      BacklogStaysSmall(Do(c, ops[0]), ops[1..]);
    }
  }

  /** With messages of at most 64 MB, `tick` finds no client to remove in any run. */
  lemma TickRemovesNobody(ops: seq<Op>)
    requires SmallMessages(ops)
    ensures Do(DoAll(Some(NEW), ops), Tick) == DoAll(Some(NEW), ops)
    ensures DoAll(Some(NEW), ops).Some? ==>
      DoAll(Some(NEW), ops).value.pendingBytes <= SLOW_CLIENT_DROP_BYTES
  {
    BacklogStaysSmall(Some(NEW), ops);
  }

  /** The bound on message size matters: a longer one that is blocked survives until `tick`. */
  lemma OversizedWaitsForTick(c: Client, data: seq<byte>)
    requires Inv(c) && c.sub.phase.LIVE? && c.pending == [] && |data| > SLOW_CLIENT_DROP_BYTES
    ensures var r := Do(Some(c), Send(data, Again));
      r.Some? && Do(r, Tick) == None
  {
    BacklogAfterSend(c, data, Again);
  }

  /** The lengths of the messages a run sends. */
  function SendBytes(ops: seq<Op>): nat {
    if |ops| == 0 then 0 else SendBytes(ops[1..]) + if ops[0].Send? then |ops[0].data| else 0
  }

  /** Over every run: a client whose sends never fail is not removed, as long as its backlog and all that
      is sent to it together are at most 64 MB. */
  lemma {:induction false} StaysInRun(c: Client, ops: seq<Op>)
    requires Inv(c) && c.pendingBytes + SendBytes(ops) <= 67108864
    requires forall i :: 0 <= i < |ops| && ops[i].Send? ==> !ops[i].reply.Failed?
    ensures DoAll(Some(c), ops).Some?
    decreases |ops|
  {
    if |ops| > 0 {
      OneOpStays(c, ops[0]);
      hide Inv, Do;
      StaysInRun(Do(Some(c), ops[0]).value, ops[1..]);
    }
  }

  lemma OneOpStays(c: Client, op: Op)
    requires Inv(c) && c.pendingBytes + (if op.Send? then |op.data| else 0) <= 67108864
    requires op.Send? ==> !op.reply.Failed?
    ensures var r := Do(Some(c), op);
      r.Some? && Inv(r.value) && r.value.pendingBytes <= c.pendingBytes + if op.Send? then |op.data| else 0
  {
    match op
    case Send(data, reply) =>
      StaysIff(c, data, reply);
      SendToKeeps(c, data, reply);
      if c.sub.phase.LIVE? {
        SendToMeans(c, data, reply);
      }
    case FlushQueue(replies) =>
      FlushKeeps(c, replies);
      FlushPendingKeeps(c, replies);
    case _ =>
  }

  /** A client is removed in one step of a run only by a failed send, by a message that its backlog makes
      too much, or by `tick` with too much pending. */
  lemma RemovedIff(c: Client, op: Op)
    requires Inv(c)
    ensures Do(Some(c), op).None? <==>
      || (op.Send? && c.sub.phase.LIVE? && c.pending == [] && op.reply.Failed?)
      || (op.Send? && c.sub.phase.LIVE? && c.pending != [] && |Join(c.pending)| + |op.data| > 67108864)
      || (op.Tick? && |Join(c.pending)| > 67108864)
  {
    if op.Send? {
      StaysIff(c, op.data, op.reply);
    }
  }
}
