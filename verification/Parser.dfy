/** `Parser`: the loop over the ring, proved against the fold over tokens. */
module Parser {
  import opened Protocol
  import opened Checksum
  import opened Frames
  import opened Framing
  import P = Parsing
  import R = RingBuffer

  class FeedParser {
    const ring: R.ByteRing
    const scratch: array<byte>
    const hdr: array<byte>
    var expectedSeq: u32
    var seqInitialized: bool
    var msgsParsed: nat
    var checksumErrors: nat
    var sequenceGaps: nat
    var totalGapSize: nat
    var dispatched: seq<Frame>  // the calls of the callback, in order

    ghost predicate Valid()
      reads this, ring
    {
      ring.Valid() && scratch.Length == MAX_MSG_SIZE + 4 && hdr.Length == HEADER_SIZE
      && scratch != ring.buf && hdr != ring.buf && hdr != scratch
    }

    ghost function St(): P.State
      reads this
    {
      P.State(seqInitialized, expectedSeq, msgsParsed, checksumErrors, sequenceGaps, totalGapSize, dispatched)
    }

    ghost function Buffered(): seq<byte>
      reads this, ring, ring.buf
      requires Valid()
    {
      ring.Contents()
    }

    constructor (ring: R.ByteRing)
      requires ring.Valid() && ring.Contents() == []
      ensures Valid() && this.ring == ring && St() == P.INITIAL
      ensures fresh(scratch) && fresh(hdr)
    {
      this.ring := ring;
      scratch := new byte[MAX_MSG_SIZE + 4](_ => 0);
      hdr := new byte[HEADER_SIZE](_ => 0);
      expectedSeq, seqInitialized := 0, false;
      msgsParsed, checksumErrors, sequenceGaps, totalGapSize, dispatched := 0, 0, 0, 0, [];
    }

    /** Copies the bytes into the ring; what does not fit is dropped. */
    method Feed(data: seq<byte>) returns (written: nat)
      requires Valid()
      modifies ring, ring.buf
      ensures Valid() && St() == old(St())
      ensures written == Min(|data|, ring.buf.Length - |old(Buffered())|)
      ensures Buffered() == old(Buffered()) + data[..written]
    {
      written := ring.Write(data);
    }

    /** The end of the loop body: sequence accounting and dispatch of an accepted message. */
    method Accept(f: Frame) returns (counted: bool)
      requires Valid()
      modifies this
      ensures Valid() && St() == P.Apply(old(St()), Msg(f))
      ensures counted <==> f.Heartbeat? || P.Dispatchable(f)
    {
      if seqInitialized {
        if f.seqNum != expectedSeq {
          if f.seqNum > expectedSeq {
            var gap := f.seqNum - expectedSeq;
            sequenceGaps := sequenceGaps + 1;
            totalGapSize := totalGapSize + gap;
          }
        }
      } else {
        seqInitialized := true;
      }
      expectedSeq := (f.seqNum + 1) % SEQ_WRAP;
      if f.symbol >= MAX_SYMBOLS && f.Type() != MSG_HEARTBEAT {
        return false;
      }
      msgsParsed := msgsParsed + 1;
      if f.Type() != MSG_HEARTBEAT {
        dispatched := dispatched + [f];
      }
      return true;
    }

    /** One pass of the loop body with at least a header in the ring. */
    method ProcessOne() returns (more: bool, counted: nat)
      requires Valid()
      modifies this, ring`readPos, scratch, hdr
      ensures Valid()
      ensures more == !Scan(old(Buffered())).NeedMore?
      ensures !more ==> Buffered() == old(Buffered()) && St() == old(St()) && counted == 0
      ensures more ==> Buffered() == old(Buffered())[HeadSize(old(Buffered()))..]
      ensures more ==> St() == P.Apply(old(St()), Head(old(Buffered())))
      ensures St().parsed == old(St()).parsed + counted
    {
      hide Decode, Verified, Tokens, Left, P.ApplyAll, R.RingRead, R.ByteRing.Held;
      ghost var buf := Buffered();
      counted := 0;
      var held := ring.Readable();
      if held < HEADER_SIZE {
        return false, 0;
      }
      var _ := ring.Peek(hdr, HEADER_SIZE);
      var msgType := Load16(hdr[..], 0);
      assert hdr[..] == buf[..HEADER_SIZE];
      var payloadSize := PayloadSize(msgType);
      if payloadSize < 0 {
        ring.Consume(1);
        return true, 0;
      }
      var totalSize := HEADER_SIZE + payloadSize + CHECKSUM_SIZE;
      held := ring.Readable();
      if held < totalSize {
        return false, 0;
      }
      var _ := ring.Peek(scratch, totalSize);
      assert scratch[..totalSize] == buf[..totalSize];
      var ok := VerifyChecksum(scratch, totalSize);
      if !ok {
        checksumErrors := checksumErrors + 1;
        ring.Consume(1);
        return true, 0;
      }
      ring.Consume(totalSize);
      assert Load16(scratch[..totalSize], 0) == msgType;
      var c := Accept(Decode(scratch[..totalSize]));
      return true, if c then 1 else 0;
    }

    /** Drains the ring: afterwards the state is the fold over all tokens that were buffered, and
        only what cannot be decided yet stays. */
    method Process() returns (count: nat)
      requires Valid()
      modifies this, ring`readPos, scratch, hdr
      ensures Valid()
      ensures St() == P.Parsed(old(St()), old(Buffered()))
      ensures Buffered() == Left(old(Buffered()))
      ensures St().parsed == old(St()).parsed + count
      ensures checksumErrors == old(checksumErrors) + P.CorruptHeads(old(Buffered()))
    {
      P.ChecksumErrorsMean(St(), Buffered());
      hide P.CorruptHeads;
      count := 0;
      var more := true;
      while more
        invariant Valid()
        invariant P.Parsed(St(), Buffered()) == P.Parsed(old(St()), old(Buffered()))
        invariant Left(Buffered()) == Left(old(Buffered()))
        invariant St().parsed == old(St()).parsed + count
        invariant !more ==> Scan(Buffered()).NeedMore?
        decreases |Buffered()|, more
      {
        var c;
        more, c := ProcessOne();
        count := count + c;
      }
    }

    method ResetStats()
      requires Valid()
      modifies this, ring
      ensures Valid() && St() == P.INITIAL.(dispatched := old(dispatched)) && Buffered() == []
    {
      msgsParsed, checksumErrors, sequenceGaps, totalGapSize := 0, 0, 0, 0;
      seqInitialized, expectedSeq := false, 0;
      ring.Reset();
    }
  }
}
