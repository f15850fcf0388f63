/** Messages as the tick generator emits them and as the parser reads them back.
    Prices are carried as the eight raw bytes of an IEEE double. */
module Frames {
  import opened Protocol
  import opened Checksum

  datatype Frame =
    | Trade(seqNum: u32, timestamp: u64, symbol: u16, price: u64, quantity: u32)
    | Quote(seqNum: u32, timestamp: u64, symbol: u16, bidPrice: u64, bidQty: u32, askPrice: u64, askQty: u32)
    | Heartbeat(seqNum: u32, timestamp: u64, symbol: u16)
  {
    function Type(): u16 {
      match this
      case Trade(_, _, _, _, _) => MSG_TRADE
      case Quote(_, _, _, _, _, _, _) => MSG_QUOTE
      case Heartbeat(_, _, _) => MSG_HEARTBEAT
    }

    function Payload(): (r: seq<byte>)
      ensures |r| == PayloadSize(Type())
    {
      match this
      case Trade(_, _, _, p, q) => Bytes64(p) + Bytes32(q)
      case Quote(_, _, _, bp, bq, ap, aq) => Bytes64(bp) + Bytes32(bq) + Bytes64(ap) + Bytes32(aq)
      case Heartbeat(_, _, _) => []
    }

    function Size(): nat {
      HEADER_SIZE + PayloadSize(Type()) + CHECKSUM_SIZE
    }
  }

  function HeaderBytes(f: Frame): (r: seq<byte>)
    ensures |r| == HEADER_SIZE
  {
    Bytes16(f.Type()) + Bytes32(f.seqNum) + Bytes64(f.timestamp) + Bytes16(f.symbol)
  }

  function Body(f: Frame): (r: seq<byte>)
    ensures |r| == f.Size() - CHECKSUM_SIZE
  {
    HeaderBytes(f) + f.Payload()
  }

  function Encode(f: Frame): (r: seq<byte>)
    ensures |r| == f.Size()
  {
    Body(f) + XorWords(Body(f)).Bytes()
  }

  /** Reads the fields of a message whose type is known and whose bytes are all there. */
  function Decode(s: seq<byte>): (f: Frame)
    requires |s| >= HEADER_SIZE && PayloadSize(Load16(s, 0)) >= 0
    requires |s| == HEADER_SIZE + PayloadSize(Load16(s, 0)) + CHECKSUM_SIZE
    ensures f.Type() == Load16(s, 0)
  {
    var t, n, ts, sym := Load16(s, 0), Load32(s, 2), Load64(s, 6), Load16(s, 14);
    if t == MSG_TRADE then Trade(n, ts, sym, Load64(s, 16), Load32(s, 24))
    else if t == MSG_QUOTE then Quote(n, ts, sym, Load64(s, 16), Load32(s, 24), Load64(s, 28), Load32(s, 36))
    else Heartbeat(n, ts, sym)
  }

  // ---- Encode and Decode are inverse -------------------------------------------------------

  lemma HeaderFields(f: Frame, s: seq<byte>)
    requires |s| >= HEADER_SIZE && s[..HEADER_SIZE] == HeaderBytes(f)
    ensures Load16(s, 0) == f.Type() && Load32(s, 2) == f.seqNum
    ensures Load64(s, 6) == f.timestamp && Load16(s, 14) == f.symbol
  {
    var h := HeaderBytes(f);
    assert h[0..2] == Bytes16(f.Type()) && h[2..6] == Bytes32(f.seqNum);
    assert h[6..14] == Bytes64(f.timestamp) && h[14..16] == Bytes16(f.symbol);
    assert s[0..2] == h[0..2] && s[2..6] == h[2..6] && s[6..14] == h[6..14] && s[14..16] == h[14..16];
    Load16At(s, 0, f.Type());
    Load32At(s, 2, f.seqNum);
    Load64At(s, 6, f.timestamp);
    Load16At(s, 14, f.symbol);
  }

  lemma TradeFields(f: Frame, s: seq<byte>)
    requires f.Trade? && |s| >= 28 && s[16..28] == f.Payload()
    ensures Load64(s, 16) == f.price && Load32(s, 24) == f.quantity
  {
    var p := f.Payload();
    assert p[0..8] == Bytes64(f.price) && p[8..12] == Bytes32(f.quantity);
    SliceOfSlice(s, 16, 28, 0, 8);
    SliceOfSlice(s, 16, 28, 8, 12);
    Load64At(s, 16, f.price);
    Load32At(s, 24, f.quantity);
  }

  lemma QuoteFields(f: Frame, s: seq<byte>)
    requires f.Quote? && |s| >= 40 && s[16..40] == f.Payload()
    ensures Load64(s, 16) == f.bidPrice && Load32(s, 24) == f.bidQty
    ensures Load64(s, 28) == f.askPrice && Load32(s, 36) == f.askQty
  {
    var p := f.Payload();
    assert p[0..8] == Bytes64(f.bidPrice) && p[8..12] == Bytes32(f.bidQty);
    assert p[12..20] == Bytes64(f.askPrice) && p[20..24] == Bytes32(f.askQty);
    SliceOfSlice(s, 16, 40, 0, 8);
    SliceOfSlice(s, 16, 40, 8, 12);
    SliceOfSlice(s, 16, 40, 12, 20);
    SliceOfSlice(s, 16, 40, 20, 24);
    Load64At(s, 16, f.bidPrice);
    Load32At(s, 24, f.bidQty);
    Load64At(s, 28, f.askPrice);
    Load32At(s, 36, f.askQty);
  }

  /** Every emitted message passes the checksum and decodes to itself. */
  lemma DecodeEncode(f: Frame)
    ensures var s := Encode(f);
      Load16(s, 0) == f.Type() && Verified(s) && Decode(s) == f
  {
    var s := Encode(f);
    SealedIsVerified(Body(f));
    assert s[..16] == HeaderBytes(f);
    HeaderFields(f, s);
    if f.Trade? {
      assert s[16..28] == f.Payload();
      TradeFields(f, s);
    } else if f.Quote? {
      assert s[16..40] == f.Payload();
      QuoteFields(f, s);
    }
  }

  lemma Rebuild16(s: seq<byte>, i: nat)
    requires i + 2 <= |s|
    ensures Bytes16(Load16(s, i)) == s[i..i + 2]
  {
  }

  lemma Rebuild32(s: seq<byte>, i: nat)
    requires i + 4 <= |s|
    ensures Bytes32(Load32(s, i)) == s[i..i + 4]
  {
    Rebuild16(s, i);
    Rebuild16(s, i + 2);
    var lo, hi := Load16(s, i), Load16(s, i + 2);
    assert Load32(s, i) % 0x1_0000 == lo && Load32(s, i) / 0x1_0000 == hi;
  }

  lemma Rebuild64(s: seq<byte>, i: nat)
    requires i + 8 <= |s|
    ensures Bytes64(Load64(s, i)) == s[i..i + 8]
  {
    Rebuild32(s, i);
    Rebuild32(s, i + 4);
    var lo, hi := Load32(s, i), Load32(s, i + 4);
    assert Load64(s, i) % 0x1_0000_0000 == lo && Load64(s, i) / 0x1_0000_0000 == hi;
  }

  lemma RebuildHeader(s: seq<byte>, f: Frame)
    requires |s| >= 16 && f.Type() == Load16(s, 0) && f.seqNum == Load32(s, 2)
    requires f.timestamp == Load64(s, 6) && f.symbol == Load16(s, 14)
    ensures HeaderBytes(f) == s[..16]
  {
    Rebuild16(s, 0);
    Rebuild32(s, 2);
    Rebuild64(s, 6);
    Rebuild16(s, 14);
    assert s[..16] == s[0..2] + s[2..6] + s[6..14] + s[14..16];
  }

  lemma RebuildPayload(s: seq<byte>)
    requires |s| >= HEADER_SIZE && PayloadSize(Load16(s, 0)) >= 0
    requires |s| == HEADER_SIZE + PayloadSize(Load16(s, 0)) + CHECKSUM_SIZE
    ensures Decode(s).Payload() == s[16..|s| - 4]
  {
    if Load16(s, 0) == MSG_TRADE {
      Rebuild64(s, 16);
      Rebuild32(s, 24);
      assert s[16..28] == s[16..24] + s[24..28];
    } else if Load16(s, 0) == MSG_QUOTE {
      Rebuild64(s, 16);
      Rebuild32(s, 24);
      Rebuild64(s, 28);
      Rebuild32(s, 36);
      assert s[16..40] == s[16..24] + s[24..28] + s[28..36] + s[36..40];
    }
  }

  lemma RebuildBody(s: seq<byte>)
    requires |s| >= HEADER_SIZE && PayloadSize(Load16(s, 0)) >= 0
    requires |s| == HEADER_SIZE + PayloadSize(Load16(s, 0)) + CHECKSUM_SIZE
    ensures Body(Decode(s)) == s[..|s| - 4]
  {
    RebuildHeader(s, Decode(s));
    RebuildPayload(s);
    assert s[..|s| - 4] == s[..16] + s[16..|s| - 4];
  }

  /** Bytes of a known type and the right length that pass the checksum are the encoding of what
      they decode to: acceptance is exactly "some frame encodes to this". */
  lemma EncodeDecode(s: seq<byte>)
    requires |s| >= HEADER_SIZE && PayloadSize(Load16(s, 0)) >= 0
    requires |s| == HEADER_SIZE + PayloadSize(Load16(s, 0)) + CHECKSUM_SIZE
    requires Verified(s)
    ensures Encode(Decode(s)) == s
  {
    RebuildBody(s);
    VerifiedIsSealed(s);
  }

  // ---- Where the bytes are -----------------------------------------------------------------

  /** The number in `width` bytes from `at` on, the lowest byte first. */
  function Little(s: seq<byte>, at: nat, width: nat): nat
    requires at + width <= |s|
    decreases width
  {
    if width == 0 then 0 else s[at] as int + 256 * Little(s, at + 1, width - 1)
  }

  lemma LittleLoads(s: seq<byte>, at: nat)
    ensures at + 2 <= |s| ==> Load16(s, at) == Little(s, at, 2)
    ensures at + 4 <= |s| ==> Load32(s, at) == Little(s, at, 4)
    ensures at + 8 <= |s| ==> Load64(s, at) == Little(s, at, 8)
  {
    if at + 2 <= |s| {
      LittleSplit(s, at, 2, 0);
    }
    if at + 4 <= |s| {
      LittleSplit(s, at, 2, 2);
    }
    if at + 8 <= |s| {
      LittleSplit(s, at, 4, 4);
      LittleSplit(s, at, 2, 2);
      LittleSplit(s, at + 4, 2, 2);
    }
  }

  lemma LittleSplit(s: seq<byte>, at: nat, low: nat, high: nat)
    requires (low == 2 || low == 4) && at + low + high <= |s|
    ensures Little(s, at, low + high)
         == Little(s, at, low) + (if low == 2 then 0x1_0000 else 0x1_0000_0000) * Little(s, at + low, high)
    ensures Little(s, at, 2) == s[at] as int + 256 * s[at + 1] as int
  {
    LittleStep(s, at, low + high);
    LittleStep(s, at + 1, low + high - 1);
    LittleStep(s, at, low);
    LittleStep(s, at + 1, low - 1);
    LittleStep(s, at, 2);
    LittleStep(s, at + 1, 1);
    if low == 4 {
      LittleStep(s, at + 2, high + 2);
      LittleStep(s, at + 3, high + 1);
      LittleStep(s, at + 2, 2);
      LittleStep(s, at + 3, 1);
    }
    hide Little;
  }

  lemma LittleStep(s: seq<byte>, at: nat, width: nat)
    requires width > 0 && at + width <= |s|
    ensures Little(s, at, width) == s[at] as int + 256 * Little(s, at + 1, width - 1)
    ensures Little(s, at + width, 0) == 0
  {
  }

  /** The wire format: the type, then each field where it stands and in how many bytes, little-endian. */
  lemma WireFormat(f: Frame)
    ensures var s := Encode(f);
      && s[0] == (if f.Trade? then 1 else if f.Quote? then 2 else 3) && s[1] == 0
      && Little(s, 2, 4) == f.seqNum && Little(s, 6, 8) == f.timestamp && Little(s, 14, 2) == f.symbol
      && (f.Trade? ==> |s| == 32 && Little(s, 16, 8) == f.price && Little(s, 24, 4) == f.quantity)
      && (f.Quote? ==> |s| == 44 && Little(s, 16, 8) == f.bidPrice && Little(s, 24, 4) == f.bidQty
                       && Little(s, 28, 8) == f.askPrice && Little(s, 36, 4) == f.askQty)
      && (f.Heartbeat? ==> |s| == 20)
  {
    DecodeEncode(f);
    hide Encode, Decode, Little, Load16, Load32, Load64, Verified;
    var s := Encode(f);
    TypeFirst(s);
    HeaderIsLittle(s);
    PayloadIsLittle(s);
  }

  lemma TypeFirst(s: seq<byte>)
    requires |s| >= 2 && Load16(s, 0) <= 3
    ensures s[0] == Load16(s, 0) && s[1] == 0
  {
  }

  /** What `Decode` reads of the header. */
  lemma HeaderIsLittle(s: seq<byte>)
    requires |s| >= HEADER_SIZE && PayloadSize(Load16(s, 0)) >= 0
    requires |s| == HEADER_SIZE + PayloadSize(Load16(s, 0)) + CHECKSUM_SIZE
    ensures var f := Decode(s);
      Little(s, 2, 4) == f.seqNum && Little(s, 6, 8) == f.timestamp && Little(s, 14, 2) == f.symbol
  {
    hide Little, Load32, Load64, Load16;
    LittleLoads(s, 2);
    LittleLoads(s, 6);
    LittleLoads(s, 14);
  }

  lemma PayloadIsLittle(s: seq<byte>)
    requires |s| >= HEADER_SIZE && PayloadSize(Load16(s, 0)) >= 0
    requires |s| == HEADER_SIZE + PayloadSize(Load16(s, 0)) + CHECKSUM_SIZE
    ensures var f := Decode(s);
      && (f.Trade? ==> |s| == 32 && Little(s, 16, 8) == f.price && Little(s, 24, 4) == f.quantity)
      && (f.Quote? ==> |s| == 44 && Little(s, 16, 8) == f.bidPrice && Little(s, 24, 4) == f.bidQty
                       && Little(s, 28, 8) == f.askPrice && Little(s, 36, 4) == f.askQty)
      && (f.Heartbeat? ==> |s| == 20)
  {
    hide Little, Load32, Load64, Load16;
    LittleLoads(s, 16);
    if |s| >= 32 {
      LittleLoads(s, 24);
    }
    if |s| == 44 {
      LittleLoads(s, 28);
      LittleLoads(s, 36);
    }
  }

  // ---- The emitters ------------------------------------------------------------------------

  /** Fills the message struct and seals it in place. */
  method FillAndSeal(header: seq<byte>, payload: seq<byte>) returns (msg: array<byte>)
    ensures fresh(msg) && msg[..] == header + payload + XorWords(header + payload).Bytes()
  {
    var n := |header| + |payload|;
    msg := new byte[n + CHECKSUM_SIZE](_ => 0);
    PatchedTwice(msg[..], header, payload);
    hide Patched, XorWords;
    Memcpy(msg, 0, header);
    Memcpy(msg, |header|, payload);
    assert msg[..n] == header + payload;
    SetChecksum(msg, n + CHECKSUM_SIZE);
    assert msg[..n + 4] == msg[..];
  }

  /** `emit_trade`, `emit_quote` and `generate_heartbeat`. */
  method Emit(f: Frame) returns (msg: array<byte>)
    ensures fresh(msg) && msg[..] == Encode(f)
  {
    msg := FillAndSeal(HeaderBytes(f), f.Payload());
  }
}
