/** What `Parser::process` computes, as a function of the bytes alone: a lossless split of the
    stream into frames and skipped bytes, and a fold over the pieces. */
module Framing {
  import opened Protocol
  import opened Checksum
  import opened Frames

  // ---- Tokens ------------------------------------------------------------------------------

  datatype Token =
    | Junk(b: byte, badChecksum: bool)  // one byte skipped while looking for a frame
    | Msg(frame: Frame)                 // one frame accepted
  {
    function Bytes(): (r: seq<byte>)
      ensures 0 < |r| <= MAX_MSG_SIZE
    {
      match this
      case Junk(b, _) => [b]
      case Msg(f) => Encode(f)
    }
  }

  datatype Verdict = NeedMore | Skip(badChecksum: bool) | Take(size: nat)

  /** The decision at the head of the buffer. */
  function Scan(buf: seq<byte>): (v: Verdict)
    ensures v.Skip? ==> |buf| >= HEADER_SIZE
    ensures v.Take? ==> HEADER_SIZE < v.size <= |buf| && v.size <= MAX_MSG_SIZE
    ensures |buf| >= MAX_MSG_SIZE ==> !v.NeedMore?
  {
    if |buf| < HEADER_SIZE then NeedMore
    else
      var payload := PayloadSize(Load16(buf, 0));
      if payload < 0 then Skip(false)
      else
        var total := HEADER_SIZE + payload + CHECKSUM_SIZE;
        if |buf| < total then NeedMore
        else if !Verified(buf[..total]) then Skip(true)
        else Take(total)
  }

  /** The token at the head of the buffer, when there is one. */
  function Head(buf: seq<byte>): (t: Token)
    requires !Scan(buf).NeedMore?
  {
    match Scan(buf)
    case Skip(bad) => Junk(buf[0], bad)
    case Take(n) =>
      assert Load16(buf[..n], 0) == Load16(buf, 0);
      Msg(Decode(buf[..n]))
  }

  lemma HeadIsPrefix(buf: seq<byte>)
    requires !Scan(buf).NeedMore?
    ensures Head(buf).Bytes() <= buf
    ensures |Head(buf).Bytes()| == if Scan(buf).Skip? then 1 else Scan(buf).size
  {
    if Scan(buf).Take? {
      var s := buf[..Scan(buf).size];
      assert Load16(s, 0) == Load16(buf, 0);
      EncodeDecode(s);
    }
  }

  function Tokens(buf: seq<byte>): (ts: seq<Token>)
    decreases |buf|
  {
    if Scan(buf).NeedMore? then []
    else [Head(buf)] + Tokens(buf[HeadSize(buf)..])
  }

  /** Bytes consumed by the head token. */
  function HeadSize(buf: seq<byte>): (n: nat)
    requires !Scan(buf).NeedMore?
    ensures 0 < n <= |buf|
  {
    if Scan(buf).Skip? then 1 else Scan(buf).size
  }

  /** What stays in the buffer. */
  function Left(buf: seq<byte>): (rest: seq<byte>)
    ensures |rest| < MAX_MSG_SIZE && Scan(rest).NeedMore?
    decreases |buf|
  {
    if Scan(buf).NeedMore? then buf else Left(buf[HeadSize(buf)..])
  }

  function Flatten(ts: seq<Token>): seq<byte> {
    if |ts| == 0 then [] else ts[0].Bytes() + Flatten(ts[1..])
  }

  // ---- Laws of the tokeniser ---------------------------------------------------------------

  /** No byte is lost, repeated or reordered: the tokens and the rest spell the input. */
  lemma {:induction false} Lossless(buf: seq<byte>)
    ensures Flatten(Tokens(buf)) + Left(buf) == buf
    decreases |buf|
  {
    hide Scan, Head, HeadSize, Tokens, Left, Flatten;
    TokensUnfold(buf);
    if !Scan(buf).NeedMore? {
      var n := HeadSize(buf);
      var rest := buf[n..];
      HeadBytes(buf);
      FlattenCons(Head(buf), Tokens(rest));
      Lossless(rest);
      Assoc(buf[..n], Flatten(Tokens(rest)), Left(rest));
      assert buf == buf[..n] + rest;
    }
  }

  lemma TokensUnfold(buf: seq<byte>)
    ensures Scan(buf).NeedMore? ==> Flatten(Tokens(buf)) == [] && Left(buf) == buf
    ensures !Scan(buf).NeedMore? ==>
      && Tokens(buf) == [Head(buf)] + Tokens(buf[HeadSize(buf)..])
      && Left(buf) == Left(buf[HeadSize(buf)..])
  {
    hide Scan, Head, HeadSize;
  }

  lemma HeadBytes(buf: seq<byte>)
    requires !Scan(buf).NeedMore?
    ensures Head(buf).Bytes() == buf[..HeadSize(buf)]
  {
    HeadIsPrefix(buf);
  }

  lemma FlattenCons(t: Token, ts: seq<Token>)
    ensures Flatten([t] + ts) == t.Bytes() + Flatten(ts)
  {
    assert ([t] + ts)[1..] == ts;
  }

  /** More bytes behind a decided head never change the decision. */
  lemma ScanStable(a: seq<byte>, b: seq<byte>)
    requires !Scan(a).NeedMore?
    ensures Scan(a + b) == Scan(a)
    ensures Head(a + b) == Head(a)
    ensures HeadSize(a + b) == HeadSize(a)
  {
    assert Load16(a + b, 0) == Load16(a, 0);
    var total := HEADER_SIZE + PayloadSize(Load16(a, 0)) + CHECKSUM_SIZE;
    if HEADER_SIZE <= total <= |a| {
      assert (a + b)[..total] == a[..total];
    }
  }

  /** Chunking independence of the tokens: stop after `a`, go on with what is left and `b`. */
  lemma {:induction false} Chunking(a: seq<byte>, b: seq<byte>)
    ensures Tokens(a + b) == Tokens(a) + Tokens(Left(a) + b)
    ensures Left(a + b) == Left(Left(a) + b)
    decreases |a|
  {
    if !Scan(a).NeedMore? {
      var n := HeadSize(a);
      ScanStable(a, b);
      assert (a + b)[n..] == a[n..] + b;
      Chunking(a[n..], b);
    }
  }

  /** The parser takes a frame exactly when some frame's encoding stands at the head. */
  lemma TakesExactlyEncodings(buf: seq<byte>)
    ensures Scan(buf).Take? <==> exists f: Frame :: Encode(f) <= buf
    ensures Scan(buf).Take? ==> Encode(Head(buf).frame) <= buf
  {
    if Scan(buf).Take? {
      HeadIsPrefix(buf);
    }
    forall f: Frame | Encode(f) <= buf
      ensures Scan(buf).Take?
    {
      EncodedAtHead(f, buf[f.Size()..]);
      assert buf == Encode(f) + buf[f.Size()..];
    }
  }

  /** The two type bytes are those of a trade, a quote or a heartbeat. */
  predicate KnownType(buf: seq<byte>)
    requires |buf| >= 2
  {
    1 <= buf[0] <= 3 && buf[1] == 0
  }

  /** Sizes on the wire by the first type byte. */
  function SizeOf(b: byte): nat {
    if b == 1 then 32 else if b == 2 then 44 else 20
  }

  lemma TypeBytes(buf: seq<byte>)
    requires |buf| >= 2
    ensures PayloadSize(Load16(buf, 0)) >= 0 <==> KnownType(buf)
    ensures KnownType(buf) ==> HEADER_SIZE + PayloadSize(Load16(buf, 0)) + CHECKSUM_SIZE == SizeOf(buf[0])
  {
  }

  lemma VerifiedIffEncoding(s: seq<byte>)
    requires |s| >= HEADER_SIZE && KnownType(s) && |s| == SizeOf(s[0])
    ensures Verified(s) <==> exists f: Frame :: Encode(f) == s
  {
    TypeBytes(s);
    if Verified(s) {
      EncodeDecode(s);
    }
    forall f: Frame | Encode(f) == s
      ensures Verified(s)
    {
      DecodeEncode(f);
    }
  }

  /** What each verdict says about the bytes: unknown types are skipped, known types wait for their size,
      are taken when they are the encoding of a frame, and skipped as corrupt when they are not. */
  lemma ScanMeans(buf: seq<byte>)
    requires |buf| >= HEADER_SIZE
    ensures Scan(buf) == Skip(false) <==> !KnownType(buf)
    ensures Scan(buf).NeedMore? <==> KnownType(buf) && |buf| < SizeOf(buf[0])
    ensures Scan(buf) == Take(SizeOf(buf[0])) <==>
      KnownType(buf) && |buf| >= SizeOf(buf[0]) && exists f: Frame :: Encode(f) == buf[..SizeOf(buf[0])]
    ensures Scan(buf) == Skip(true) <==>
      KnownType(buf) && |buf| >= SizeOf(buf[0]) && !exists f: Frame :: Encode(f) == buf[..SizeOf(buf[0])]
  {
    TypeBytes(buf);
    if KnownType(buf) && |buf| >= SizeOf(buf[0]) {
      VerifiedIffEncoding(buf[..SizeOf(buf[0])]);
    }
    hide Load16, Verified, Encode;
  }

  lemma SameType(s: seq<byte>, t: seq<byte>)
    requires |s| >= 2 && |t| >= 2 && s[..2] == t[..2]
    ensures Load16(s, 0) == Load16(t, 0)
  {
    assert s[0] == s[..2][0] == t[0] && s[1] == s[..2][1] == t[1];
  }

  lemma WholeAtHead(t: seq<byte>, rest: seq<byte>)
    requires |t| >= HEADER_SIZE && PayloadSize(Load16(t, 0)) >= 0
    requires |t| == HEADER_SIZE + PayloadSize(Load16(t, 0)) + CHECKSUM_SIZE
    ensures Scan(t + rest) == if Verified(t) then Take(|t|) else Skip(true)
  {
    assert (t + rest)[..2] == t[..2];
    SameType(t + rest, t);
    hide Load16, Verified;
    assert (t + rest)[..|t|] == t;
  }

  lemma SizeIsType(f: Frame)
    ensures f.Size() == HEADER_SIZE + PayloadSize(f.Type()) + CHECKSUM_SIZE && PayloadSize(f.Type()) >= 0
    ensures f.Size() % 4 == 0
  {
  }

  lemma DamageRejected(s: seq<byte>, t: seq<byte>, p: nat)
    requires |s| >= HEADER_SIZE && |s| % 4 == 0 && Verified(s) && DifferOnlyInWindow(s, t, p) && s != t
    ensures !Verified(t)
  {
    hide Verified;
    BurstRejected(s, t, p);
  }

  /** A frame damaged within four consecutive bytes, its type left alone, is recognised as corrupt. */
  lemma DamagedAtHead(f: Frame, t: seq<byte>, p: nat, rest: seq<byte>)
    requires DifferOnlyInWindow(Encode(f), t, p) && t != Encode(f) && t[..2] == Encode(f)[..2]
    ensures Scan(t + rest) == Skip(true)
  {
    hide Encode, Decode, Verified, Load16, Scan, Frame.Type;
    SizeIsType(f);
    var s := Encode(f);
    DecodeEncode(f);
    SameType(s, t);
    DamageRejected(s, t, p);
    WholeAtHead(t, rest);
  }

  lemma EncodedAtHead(f: Frame, rest: seq<byte>)
    ensures var buf := Encode(f) + rest;
      Scan(buf) == Take(f.Size()) && Head(buf) == Msg(f) && buf[HeadSize(buf)..] == rest
  {
    var buf := Encode(f) + rest;
    DecodeEncode(f);
    assert Load16(buf, 0) == Load16(Encode(f), 0);
    assert buf[..f.Size()] == Encode(f);
  }

  function EncodeAll(fs: seq<Frame>): seq<byte> {
    if |fs| == 0 then [] else Encode(fs[0]) + EncodeAll(fs[1..])
  }

  function Msgs(fs: seq<Frame>): (ts: seq<Token>)
    ensures |ts| == |fs|
  {
    seq(|fs|, i requires 0 <= i < |fs| => Msg(fs[i]))
  }

  /** `part` is a proper prefix of some frame. */
  ghost predicate Unfinished(part: seq<byte>) {
    exists f: Frame :: part < Encode(f)
  }

  /** A frame cut short is never mistaken for anything: the parser waits. */
  lemma UnfinishedWaits(part: seq<byte>, f: Frame)
    requires part < Encode(f)
    ensures Scan(part).NeedMore?
  {
    if !Scan(part).NeedMore? {
      var rest := Encode(f)[|part|..];
      assert Encode(f) == part + rest == Encode(f) + [];
      EncodedAtHead(f, []);
      ScanStable(part, rest);
    }
  }

  lemma TokensOfEncoded(f: Frame, rest: seq<byte>)
    ensures Tokens(Encode(f) + rest) == [Msg(f)] + Tokens(rest)
    ensures Left(Encode(f) + rest) == Left(rest)
  {
    EncodedAtHead(f, rest);
  }

  lemma MsgsCons(fs: seq<Frame>)
    requires |fs| > 0
    ensures Msgs(fs) == [Msg(fs[0])] + Msgs(fs[1..])
  {
  }

  /** Frames in front of any bytes come back first, whole and in order. */
  lemma {:induction false} FramesFirst(fs: seq<Frame>, tail: seq<byte>)
    ensures Tokens(EncodeAll(fs) + tail) == Msgs(fs) + Tokens(tail)
    ensures Left(EncodeAll(fs) + tail) == Left(tail)
    decreases |fs|
  {
    if |fs| == 0 {
      assert EncodeAll(fs) + tail == tail;
    } else {
      var rest := EncodeAll(fs[1..]) + tail;
      Assoc(Encode(fs[0]), EncodeAll(fs[1..]), tail);
      TokensOfEncoded(fs[0], rest);
      FramesFirst(fs[1..], tail);
      MsgsCons(fs);
      Assoc([Msg(fs[0])], Msgs(fs[1..]), Tokens(tail));
    }
  }

  /** Framing round trip: a stream of frames, the last one possibly cut short, comes back as
      exactly those frames, with the cut frame left in the buffer and no byte skipped. */
  lemma FramesComeBack(fs: seq<Frame>, part: seq<byte>)
    requires Unfinished(part)
    ensures Tokens(EncodeAll(fs) + part) == Msgs(fs)
    ensures Left(EncodeAll(fs) + part) == part
  {
    var f: Frame :| part < Encode(f);
    UnfinishedWaits(part, f);
    FramesFirst(fs, part);
  }
}
