/** The upstream subscription message: how the client encodes and sends it, and how the server
    assembles it from whatever chunks `recv` returns. */
module Subscription {
  import opened Protocol

  datatype Phase = ACCEPTED | SUBSCRIBED | LIVE

  /** The subscription part of `ClientState`. */
  datatype Sub = Sub(phase: Phase, symbols: seq<u16>, subscribeAll: bool, recvBuf: seq<byte>)

  const FRESH := Sub(ACCEPTED, [], true, [])

  /** The first `count` identifiers behind the three-byte head. */
  function Ids(buf: seq<byte>, count: nat): (ids: seq<u16>)
    requires 3 + 2 * count <= |buf|
    ensures |ids| == count
  {
    seq(count, i requires 0 <= i < count => Load16(buf, 3 + 2 * i))
  }

  function InRange(ids: seq<u16>): seq<u16> {
    if |ids| == 0 then []
    else InRange(ids[..|ids| - 1]) + if ids[|ids| - 1] < MAX_SYMBOLS then [ids[|ids| - 1]] else []
  }

  /** `on_recv`. */
  function Receive(s: Sub, data: seq<byte>): Sub {
    if s.phase.LIVE? then s
    else
      var buf := s.recvBuf + data;
      if |buf| < 3 then s.(recvBuf := buf)
      else if buf[0] != MSG_SUBSCRIBE then s.(phase := LIVE, subscribeAll := true, recvBuf := buf)
      else
        var count: nat := Load16(buf, 1);
        if |buf| < 3 + 2 * count then s.(recvBuf := buf)
        else Sub(LIVE, InRange(Ids(buf, count)), count == 0, [])
  }

  method OnRecv(s: Sub, data: seq<byte>) returns (r: Sub)
    ensures r == Receive(s, data)
  {
    r := s;
    if r.phase.LIVE? {
      return;
    }
    r := r.(recvBuf := r.recvBuf + data);
    if |r.recvBuf| < 3 {
      return;
    }
    if r.recvBuf[0] != MSG_SUBSCRIBE {
      r := r.(phase := LIVE, subscribeAll := true);
      return;
    }
    var count: nat := Load16(r.recvBuf, 1);
    if |r.recvBuf| < 3 + 2 * count {
      return;
    }
    var ids := Ids(r.recvBuf, count);
    var symbols: seq<u16> := [];
    var i := 0;
    while i < count
      invariant 0 <= i <= count
      invariant symbols == InRange(ids[..i])
    {
      var sym := Load16(r.recvBuf, 3 + i * 2);
      assert ids[..i + 1][..i] == ids[..i];
      if sym < MAX_SYMBOLS {
        symbols := symbols + [sym];
      }
      i := i + 1;
    }
    assert ids[..count] == ids;
    r := Sub(LIVE, symbols, count == 0, []);
  }

  // ---- Chunking ----------------------------------------------------------------------------

  function ReceiveAll(s: Sub, chunks: seq<seq<byte>>): Sub
    decreases |chunks|
  {
    if |chunks| == 0 then s else ReceiveAll(Receive(s, chunks[0]), chunks[1..])
  }

  /** What the server acts on afterwards. */
  predicate SameOutcome(a: Sub, b: Sub) {
    a.phase == b.phase && a.symbols == b.symbols && a.subscribeAll == b.subscribeAll
  }

  lemma SameIds(a: seq<byte>, b: seq<byte>, count: nat)
    requires 3 + 2 * count <= |a|
    ensures Ids(a + b, count) == Ids(a, count)
  {
    forall i | 0 <= i < count
      ensures Load16(a + b, 3 + 2 * i) == Load16(a, 3 + 2 * i)
    {
    }
  }

  /** Once the bytes decide, more bytes change nothing. */
  lemma DecidedStays(a: seq<byte>, b: seq<byte>)
    requires Receive(FRESH, a).phase.LIVE?
    ensures SameOutcome(Receive(FRESH, a + b), Receive(FRESH, a))
  {
    hide InRange, Join;
    assert FRESH.recvBuf + a == a && FRESH.recvBuf + (a + b) == a + b;
    assert (a + b)[0] == a[0];
    if a[0] == MSG_SUBSCRIBE {
      var count: nat := Load16(a, 1);
      assert Load16(a + b, 1) == count;
      SameIds(a, b, count);
    }
  }

  /** While undecided, only the bytes seen so far matter. */
  lemma UndecidedStep(seen: seq<byte>, c: seq<byte>)
    ensures var r := Receive(FRESH.(recvBuf := seen), c);
      r == Receive(FRESH, seen + c) && (r.phase.LIVE? || r == FRESH.(recvBuf := seen + c))
  {
    assert FRESH.recvBuf + (seen + c) == seen + c;
  }

  lemma {:induction false} ChunksFrom(s: Sub, seen: seq<byte>, chunks: seq<seq<byte>>)
    requires s == FRESH.(recvBuf := seen) || s.phase.LIVE?
    requires SameOutcome(s, Receive(FRESH, seen))
    ensures SameOutcome(ReceiveAll(s, chunks), Receive(FRESH, seen + Join(chunks)))
    decreases |chunks|
  {
    if |chunks| == 0 {
      assert seen + Join(chunks) == seen;
    } else {
      hide Receive;
      var c := chunks[0];
      assert seen + Join(chunks) == (seen + c) + Join(chunks[1..]);
      if s.phase.LIVE? {
        LiveIgnores(s, c);
        DecidedStays(seen, c);
      } else {
        UndecidedStep(seen, c);
      }
      ChunksFrom(Receive(s, c), seen + c, chunks[1..]);
    }
  }

  lemma LiveIgnores(s: Sub, c: seq<byte>)
    requires s.phase.LIVE?
    ensures Receive(s, c) == s
  {
  }

  /** For arbitrary bytes, phase, symbols and `subscribe_all` depend only on the concatenation. */
  lemma ChunksDoNotMatter(chunks: seq<seq<byte>>)
    ensures SameOutcome(ReceiveAll(FRESH, chunks), Receive(FRESH, Join(chunks)))
  {
    ChunksFrom(FRESH, [], chunks);
    assert [] + Join(chunks) == Join(chunks);
  }

  /** The list kept is the ids below 500, in order: it splits as the list of ids does. */
  lemma {:induction false} InRangeMeans(a: seq<u16>, b: seq<u16>)
    ensures InRange(a + b) == InRange(a) + InRange(b)
    ensures |a| == 1 ==> InRange(a) == if a[0] < 500 then a else []
    decreases |b|
  {
    if |b| == 0 {
      assert a + b == a;
    } else {
      assert (a + b)[..|a + b| - 1] == a + b[..|b| - 1];
      InRangeMeans(a, b[..|b| - 1]);
    }
    if |a| == 1 {
      assert a[..0] == [] && a == [a[0]];
    }
  }

  /** A client that starts with anything but a subscription is LIVE and gets everything as soon as three
      bytes are there, in whatever chunks; what it sent stays unused. */
  lemma NoSubscription(chunks: seq<seq<byte>>)
    requires |Join(chunks)| >= 3 && Join(chunks)[0] != 0xFF
    ensures var s := ReceiveAll(FRESH, chunks);
      s.phase == LIVE && s.subscribeAll && s.symbols == []
  {
    ChunksDoNotMatter(chunks);
    var all := Join(chunks);
    assert FRESH.recvBuf + all == all;
    hide ReceiveAll, Join, Ids;
  }

  /** With fewer than three bytes, or a subscription cut short, the client waits. */
  lemma IncompleteWaits(chunks: seq<seq<byte>>)
    requires var all := Join(chunks);
      |all| < 3 || (all[0] == 0xFF && |all| < 3 + 2 * (all[1] as int + 256 * all[2] as int))
    ensures var s := ReceiveAll(FRESH, chunks);
      s.phase == ACCEPTED && s.subscribeAll && s.symbols == []
  {
    ChunksDoNotMatter(chunks);
    var all := Join(chunks);
    assert FRESH.recvBuf + all == all;
    hide ReceiveAll, Join, Ids;
  }

  // ---- The client's side -------------------------------------------------------------------

  function IdBytes(ids: seq<u16>): (r: seq<byte>)
    ensures |r| == 2 * |ids|
  {
    if |ids| == 0 then [] else IdBytes(ids[..|ids| - 1]) + Bytes16(ids[|ids| - 1])
  }

  /** The message; the count is cast to sixteen bits. */
  function Request(ids: seq<u16>): (r: seq<byte>)
    ensures |r| == 3 + 2 * |ids|
  {
    [MSG_SUBSCRIBE] + Bytes16(|ids| % 0x1_0000) + IdBytes(ids)
  }

  /** Builds the buffer and loops on `send`; `replies` are its results, -1 for an error. */
  method SendSubscription(connected: bool, ids: seq<u16>, replies: seq<int>)
      returns (ok: bool, wire: seq<byte>)
    ensures wire <= Request(ids)
    ensures ok ==> wire == Request(ids)
    ensures !connected ==> !ok && wire == []
    ensures connected && |replies| >= 3 + 2 * |ids| && (forall k :: 0 <= k < |replies| ==> replies[k] > 0) ==> ok
  {
    wire := [];
    if !connected {
      return false, wire;
    }
    var total := 3 + 2 * |ids|;
    var buf: seq<byte> := [MSG_SUBSCRIBE] + Bytes16(|ids| % 0x1_0000);
    for i := 0 to |ids|
      invariant buf == [MSG_SUBSCRIBE] + Bytes16(|ids| % 0x1_0000) + IdBytes(ids[..i])
    {
      assert ids[..i + 1][..i] == ids[..i];
      buf := buf + Bytes16(ids[i]);
    }
    assert ids[..|ids|] == ids;
    var sent, k := 0, 0;
    while sent < total
      invariant 0 <= sent <= total && wire == buf[..sent]
      invariant k <= |replies| && ((forall j :: 0 <= j < |replies| ==> replies[j] > 0) ==> k <= sent)
      decreases |replies| - k, total - sent
    {
      if k >= |replies| || replies[k] <= 0 {
        return false, wire;
      }
      var n := if replies[k] <= total - sent then replies[k] else total - sent;
      wire := wire + buf[sent..sent + n];
      sent, k := sent + n, k + 1;
    }
    return true, wire;
  }

  lemma {:induction false} IdAt(ids: seq<u16>, i: nat)
    requires i < |ids|
    ensures IdBytes(ids)[2 * i..2 * i + 2] == Bytes16(ids[i])
    decreases |ids|
  {
    var init := ids[..|ids| - 1];
    if i < |ids| - 1 {
      IdAt(init, i);
      SliceOfPrefix(IdBytes(init), Bytes16(ids[|ids| - 1]), 2 * i, 2 * i + 2);
    }
  }

  lemma SliceOfPrefix<T>(a: seq<T>, b: seq<T>, lo: nat, hi: nat)
    requires lo <= hi <= |a|
    ensures (a + b)[lo..hi] == a[lo..hi]
  {
  }

  lemma IdsComeBack(ids: seq<u16>, count: nat)
    requires count <= |ids|
    ensures Ids(Request(ids), count) == ids[..count]
  {
    var r := Request(ids);
    forall i | 0 <= i < count
      ensures Load16(r, 3 + 2 * i) == ids[i]
    {
      IdAt(ids, i);
      SliceOfSlice(r, 3, |r|, 2 * i, 2 * i + 2);
      assert r[3..] == IdBytes(ids);
      Load16At(r, 3 + 2 * i, ids[i]);
    }
  }

  lemma HeadComesBack(ids: seq<u16>)
    ensures Request(ids)[0] == MSG_SUBSCRIBE
    ensures Load16(Request(ids), 1) == |ids| % 0x1_0000 <= |ids|
  {
    hide IdBytes;
    var r := Request(ids);
    assert r[1..3] == Bytes16(|ids| % 0x1_0000);
    Load16At(r, 1, |ids| % 0x1_0000);
  }

  /** Exactly what any id list subscribes to, over every chunking of the message: the ids below 500
      among the first |ids| mod 65536, in order; everything iff that count is zero. */
  lemma SubscriptionOutcome(ids: seq<u16>, chunks: seq<seq<byte>>)
    requires Join(chunks) == Request(ids)
    ensures var s := ReceiveAll(FRESH, chunks);
      && s.phase == LIVE
      && s.symbols == InRange(ids[..|ids| % 0x1_0000])
      && (s.subscribeAll <==> |ids| % 0x1_0000 == 0)
  {
    hide InRange, Join, ReceiveAll, Request, Load16, Ids;
    ChunksDoNotMatter(chunks);
    HeadComesBack(ids);
    IdsComeBack(ids, |ids| % 0x1_0000);
    var r := Request(ids);
    assert FRESH.recvBuf + r == r;
  }

  /** Everything the client asked for, and nothing else, is what the server will act on. */
  predicate Heard(s: Sub, ids: seq<u16>) {
    s.phase.LIVE? && s.symbols == InRange(ids) && (s.subscribeAll <==> ids == [])
  }

  /** The caller can check this before sending: no valid id lies beyond the sixteen-bit count. */
  predicate FitsCount(ids: seq<u16>) {
    var k := |ids| % 0x1_0000;
    (forall i :: k <= i < |ids| ==> ids[i] >= MAX_SYMBOLS) && (k == 0 ==> ids == [])
  }

  /** Round trip: the request is heard exactly when it fits the count. */
  lemma SubscriptionRoundTrip(ids: seq<u16>, chunks: seq<seq<byte>>)
    requires Join(chunks) == Request(ids)
    ensures Heard(ReceiveAll(FRESH, chunks), ids) <==> FitsCount(ids)
    ensures |ids| < 0x1_0000 ==> FitsCount(ids)
  {
    hide Receive, ReceiveAll, Request;
    SubscriptionOutcome(ids, chunks);
    InRangePrefix(ids, |ids| % 0x1_0000);
    if |ids| < 0x1_0000 {
      assert |ids| % 0x1_0000 == |ids|;
    }
  }

  /** A request that does not fit: 65536 times the symbol 0 is heard as a subscription to everything. */
  lemma FullCountIsMisheard(chunks: seq<seq<byte>>)
    requires Join(chunks) == Request(seq(0x1_0000, _ => 0))
    ensures var s := ReceiveAll(FRESH, chunks);
      s.subscribeAll && s.symbols == [] && !Heard(s, seq(0x1_0000, _ => 0))
  {
    hide Receive, ReceiveAll, Request, Join;
    SubscriptionOutcome(seq(0x1_0000, _ => 0), chunks);
  }

  /** Dropping a suffix keeps the filtered list iff the suffix holds nothing in range. */
  lemma {:induction false} InRangePrefix(ids: seq<u16>, n: nat)
    requires n <= |ids|
    ensures InRange(ids[..n]) <= InRange(ids)
    ensures InRange(ids[..n]) == InRange(ids) <==> forall i :: n <= i < |ids| ==> ids[i] >= MAX_SYMBOLS
    decreases |ids|
  {
    if n < |ids| {
      var init := ids[..|ids| - 1];
      InRangePrefix(init, n);
      assert init[..n] == ids[..n];
      assert forall i :: n <= i < |init| ==> init[i] == ids[i];
      if ids[|ids| - 1] < MAX_SYMBOLS {
        assert |InRange(ids)| == |InRange(init)| + 1;
      }
    } else {
      assert ids[..n] == ids;
    }
  }
}
