/** Bitwise XOR of naturals, by its digits in base two, and the laws the checksum rests on. */
module Bits {
  predicate Odd(a: nat) {
    a % 2 == 1
  }

  function Xor(a: nat, b: nat): nat
    decreases a + b
  {
    if a + b == 0 then 0 else 2 * Xor(a / 2, b / 2) + if Odd(a) != Odd(b) then 1 else 0
  }

  /** Halving and the low digit go through XOR. */
  lemma Digit(a: nat, b: nat)
    ensures Xor(a, b) / 2 == Xor(a / 2, b / 2)
    ensures Odd(Xor(a, b)) == (Odd(a) != Odd(b))
  {
  }

  lemma SameDigits(x: nat, y: nat)
    requires x / 2 == y / 2 && Odd(x) == Odd(y)
    ensures x == y
  {
  }

  lemma {:induction false} XorBelow(a: nat, b: nat, bound: nat)
    requires a < bound && b < bound && bound in {1, 2, 4, 8, 16, 32, 64, 128, 256}
    ensures Xor(a, b) < bound
  {
    if bound > 1 {
      XorBelow(a / 2, b / 2, bound / 2);
    }
  }

  lemma {:induction false} XorAssoc(a: nat, b: nat, c: nat)
    ensures Xor(Xor(a, b), c) == Xor(a, Xor(b, c))
    decreases a + b + c
  {
    if a + b + c > 0 {
      XorAssoc(a / 2, b / 2, c / 2);
      Digit(a, b);
      Digit(b, c);
      Digit(Xor(a, b), c);
      Digit(a, Xor(b, c));
      SameDigits(Xor(Xor(a, b), c), Xor(a, Xor(b, c)));
    }
  }

  lemma {:induction false} XorComm(a: nat, b: nat)
    ensures Xor(a, b) == Xor(b, a)
    decreases a + b
  {
    if a + b > 0 {
      XorComm(a / 2, b / 2);
    }
  }

  lemma {:induction false} XorUnit(a: nat)
    ensures Xor(a, 0) == a == Xor(0, a)
  {
    if a > 0 {
      XorUnit(a / 2);
    }
  }

  lemma {:induction false} XorZeroIffEqual(a: nat, b: nat)
    ensures Xor(a, b) == 0 <==> a == b
    decreases a + b
  {
    if a + b > 0 {
      XorZeroIffEqual(a / 2, b / 2);
      Digit(a, b);
    }
  }

  lemma XorCancel(a: nat, b: nat, c: nat)
    requires Xor(a, b) == Xor(a, c)
    ensures b == c
  {
    XorAssoc(a, a, b);
    XorAssoc(a, a, c);
    XorZeroIffEqual(a, a);
    XorUnit(b);
    XorUnit(c);
  }
}

/** The wire format: message types, sizes and little-endian fields. */
module Protocol {
  type byte = x: int | 0 <= x < 0x100
  type u16 = x: int | 0 <= x < 0x1_0000
  type u32 = x: int | 0 <= x < 0x1_0000_0000
  type u64 = x: int | 0 <= x < 0x1_0000_0000_0000_0000

  /** Where 32-bit sequence numbers and counters wrap. */
  const SEQ_WRAP := 0x1_0000_0000

  const MSG_TRADE := 1
  const MSG_QUOTE := 2
  const MSG_HEARTBEAT := 3
  const MSG_SUBSCRIBE := 0xFF
  const MAX_SYMBOLS := 500
  const HEADER_SIZE := 16
  const CHECKSUM_SIZE := 4
  const TRADE_PAYLOAD := 12
  const QUOTE_PAYLOAD := 24
  const MAX_MSG_SIZE := 44

  /** Payload bytes that follow the header; -1 for an unknown type. */
  function PayloadSize(msgType: u16): int {
    if msgType == MSG_TRADE then TRADE_PAYLOAD
    else if msgType == MSG_QUOTE then QUOTE_PAYLOAD
    else if msgType == MSG_HEARTBEAT then 0
    else -1
  }

  function Min(a: nat, b: nat): nat {
    if a <= b then a else b
  }

  function Join(chunks: seq<seq<byte>>): seq<byte> {
    if |chunks| == 0 then [] else chunks[0] + Join(chunks[1..])
  }

  function Bytes16(x: u16): (r: seq<byte>)
    ensures |r| == 2
  {
    [x % 0x100, x / 0x100]
  }

  function Bytes32(x: u32): (r: seq<byte>)
    ensures |r| == 4
  {
    Bytes16(x % 0x1_0000) + Bytes16(x / 0x1_0000)
  }

  function Bytes64(x: u64): (r: seq<byte>)
    ensures |r| == 8
  {
    Bytes32(x % 0x1_0000_0000) + Bytes32(x / 0x1_0000_0000)
  }

  function Load16(s: seq<byte>, i: nat): u16
    requires i + 2 <= |s|
  {
    s[i] as int + 0x100 * s[i + 1] as int
  }

  function Load32(s: seq<byte>, i: nat): u32
    requires i + 4 <= |s|
  {
    Load16(s, i) as int + 0x1_0000 * Load16(s, i + 2) as int
  }

  function Load64(s: seq<byte>, i: nat): u64
    requires i + 8 <= |s|
  {
    Load32(s, i) as int + 0x1_0000_0000 * Load32(s, i + 4) as int
  }

  lemma Assoc<T>(a: seq<T>, b: seq<T>, c: seq<T>)
    ensures (a + b) + c == a + (b + c)
  {
  }

  lemma SliceOfSlice<T>(s: seq<T>, lo: nat, hi: nat, a: nat, b: nat)
    requires a <= b && lo + b <= hi <= |s|
    ensures s[lo..hi][a..b] == s[lo + a..lo + b]
  {
    var x, y := s[lo..hi][a..b], s[lo + a..lo + b];
    assert |x| == |y| && forall i :: 0 <= i < |x| ==> x[i] == y[i];
  }

  lemma Load16At(s: seq<byte>, i: nat, x: u16)
    requires i + 2 <= |s| && s[i..i + 2] == Bytes16(x)
    ensures Load16(s, i) == x
  {
    assert s[i..i + 2][0] == s[i] && s[i..i + 2][1] == s[i + 1];
  }

  lemma Load32At(s: seq<byte>, i: nat, x: u32)
    requires i + 4 <= |s| && s[i..i + 4] == Bytes32(x)
    ensures Load32(s, i) == x
  {
    assert s[i..i + 2] == s[i..i + 4][..2] && s[i + 2..i + 4] == s[i..i + 4][2..];
    Load16At(s, i, x % 0x1_0000);
    Load16At(s, i + 2, x / 0x1_0000);
  }

  lemma Load64At(s: seq<byte>, i: nat, x: u64)
    requires i + 8 <= |s| && s[i..i + 8] == Bytes64(x)
    ensures Load64(s, i) == x
  {
    assert s[i..i + 4] == s[i..i + 8][..4] && s[i + 4..i + 8] == s[i..i + 8][4..];
    Load32At(s, i, x % 0x1_0000_0000);
    Load32At(s, i + 4, x / 0x1_0000_0000);
  }

  // ---- Bytes in memory ---------------------------------------------------------------------

  /** What `memcpy` leaves behind. */
  function Patched(s: seq<byte>, at: nat, src: seq<byte>): (t: seq<byte>)
    requires at + |src| <= |s|
    ensures |t| == |s|
  {
    s[..at] + src + s[at + |src|..]
  }

  lemma PatchedAt(s: seq<byte>, at: nat, src: seq<byte>, i: nat)
    requires at + |src| <= |s| && i < |s|
    ensures Patched(s, at, src)[i] == if at <= i < at + |src| then src[i - at] else s[i]
  {
  }

  lemma PatchedOnce(s: seq<byte>, a: seq<byte>)
    requires |a| <= |s|
    ensures Patched(s, 0, a) == a + s[|a|..]
  {
  }

  /** Two copies in a row, the second where the first ends. */
  lemma PatchedTwice(s: seq<byte>, a: seq<byte>, b: seq<byte>)
    requires |a| + |b| <= |s|
    ensures Patched(Patched(s, 0, a), |a|, b) == a + b + s[|a| + |b|..]
  {
  }

  method Memcpy(dst: array<byte>, at: nat, src: seq<byte>)
    requires at + |src| <= dst.Length
    modifies dst
    ensures dst[..] == Patched(old(dst[..]), at, src)
  {
    forall i | 0 <= i < |src| {
      dst[at + i] := src[i];
    }
  }
}
