/** The XOR checksum: what it accepts, and which corruptions it cannot miss. */
module Checksum {
  import Bits
  import opened Protocol

  function XorByte(x: byte, y: byte): byte {
    Bits.XorBelow(x, y, 256);
    Bits.Xor(x, y)
  }

  /** A 32-bit word as its four bytes in memory: copying one is copying bytes, and XOR acts lane
      by lane, so the byte order of the machine does not matter. */
  datatype Lanes = Lanes(b0: byte, b1: byte, b2: byte, b3: byte) {
    function Xor(w: Lanes): Lanes {
      Lanes(XorByte(b0, w.b0), XorByte(b1, w.b1), XorByte(b2, w.b2), XorByte(b3, w.b3))
    }

    function Bytes(): (r: seq<byte>)
      ensures |r| == 4
    {
      [b0, b1, b2, b3]
    }
  }

  const ZERO := Lanes(0, 0, 0, 0)

  function WordAt(s: seq<byte>, i: nat): Lanes
    requires i + 4 <= |s|
  {
    Lanes(s[i], s[i + 1], s[i + 2], s[i + 3])
  }

  /** XOR of the words of `s`, a short tail being padded with zero bytes. */
  function XorWords(s: seq<byte>): Lanes {
    if |s| == 0 then ZERO
    else if |s| < 4 then TailWord(s)
    else WordAt(s, 0).Xor(XorWords(s[4..]))
  }

  function TailWord(s: seq<byte>): Lanes
    requires 0 < |s| < 4
  {
    Lanes(s[0], if 1 < |s| then s[1] else 0, if 2 < |s| then s[2] else 0, 0)
  }

  /** `verify_checksum` on the whole frame `s`. */
  predicate Verified(s: seq<byte>)
    requires |s| >= CHECKSUM_SIZE
  {
    XorWords(s[..|s| - 4]) == WordAt(s, |s| - 4)
  }

  // ---- Laws of XOR -------------------------------------------------------------------------

  lemma XorAssoc(x: Lanes, y: Lanes, z: Lanes)
    ensures x.Xor(y).Xor(z) == x.Xor(y.Xor(z))
  {
    Bits.XorAssoc(x.b0, y.b0, z.b0); Bits.XorAssoc(x.b1, y.b1, z.b1);
    Bits.XorAssoc(x.b2, y.b2, z.b2); Bits.XorAssoc(x.b3, y.b3, z.b3);
  }

  lemma XorUnit(x: Lanes)
    ensures ZERO.Xor(x) == x == x.Xor(ZERO)
  {
    Bits.XorUnit(x.b0); Bits.XorUnit(x.b1); Bits.XorUnit(x.b2); Bits.XorUnit(x.b3);
  }

  lemma XorZeroIffEqual(x: Lanes, y: Lanes)
    ensures x.Xor(y) == ZERO <==> x == y
  {
    Bits.XorZeroIffEqual(x.b0, y.b0); Bits.XorZeroIffEqual(x.b1, y.b1);
    Bits.XorZeroIffEqual(x.b2, y.b2); Bits.XorZeroIffEqual(x.b3, y.b3);
  }

  lemma XorCancel(x: Lanes, y: Lanes, z: Lanes)
    requires x.Xor(y) == x.Xor(z)
    ensures y == z
  {
    Bits.XorCancel(x.b0, y.b0, z.b0); Bits.XorCancel(x.b1, y.b1, z.b1);
    Bits.XorCancel(x.b2, y.b2, z.b2); Bits.XorCancel(x.b3, y.b3, z.b3);
  }

  lemma XorComm(x: Lanes, y: Lanes)
    ensures x.Xor(y) == y.Xor(x)
  {
    Bits.XorComm(x.b0, y.b0); Bits.XorComm(x.b1, y.b1);
    Bits.XorComm(x.b2, y.b2); Bits.XorComm(x.b3, y.b3);
  }

  lemma {:induction false} XorWordsSplit(a: seq<byte>, b: seq<byte>)
    requires |a| % 4 == 0
    ensures XorWords(a + b) == XorWords(a).Xor(XorWords(b))
  {
    if |a| == 0 {
      assert a + b == b;
      XorUnit(XorWords(b));
    } else {
      XorWordsSplit(a[4..], b);
      assert (a + b)[4..] == a[4..] + b;
      XorAssoc(WordAt(a, 0), XorWords(a[4..]), XorWords(b));
    }
  }

  /** Trailing bytes count as a word filled up with zeros. */
  lemma {:induction false} TailIsPadded(s: seq<byte>, zeros: seq<byte>)
    requires |zeros| < 4 && (|s| + |zeros|) % 4 == 0 && forall i :: 0 <= i < |zeros| ==> zeros[i] == 0
    ensures XorWords(s + zeros) == XorWords(s)
    decreases |s|
  {
    if |s| >= 4 {
      TailIsPadded(s[4..], zeros);
      assert (s + zeros)[4..] == s[4..] + zeros;
    } else if |s| > 0 {
      XorOfOneWord(s + zeros);
    }
  }

  lemma XorOfOneWord(s: seq<byte>)
    requires |s| == 4
    ensures XorWords(s) == WordAt(s, 0)
  {
    XorUnit(WordAt(s, 0));
  }

  // ---- What the checksum accepts -----------------------------------------------------------

  lemma XorZeroParts(body: seq<byte>, tail: seq<byte>)
    requires |body| % 4 == 0 && |tail| == 4
    ensures XorWords(body + tail) == ZERO <==> XorWords(body) == WordAt(tail, 0)
  {
    XorOfOneWord(tail);
    hide XorWords, Lanes.Xor;
    XorWordsSplit(body, tail);
    XorZeroIffEqual(XorWords(body), WordAt(tail, 0));
  }

  lemma LastWordApart(s: seq<byte>)
    requires |s| >= 4
    ensures s == s[..|s| - 4] + s[|s| - 4..]
    ensures WordAt(s[|s| - 4..], 0) == WordAt(s, |s| - 4)
  {
  }

  /** On a size that is a positive multiple of four the test is: all the words XOR to zero. */
  lemma VerifiedIffXorZero(s: seq<byte>)
    requires |s| >= 4 && |s| % 4 == 0
    ensures Verified(s) <==> XorWords(s) == ZERO
  {
    hide XorWords, WordAt;
    LastWordApart(s);
    XorZeroParts(s[..|s| - 4], s[|s| - 4..]);
  }

  /** A body followed by its checksum is accepted, whatever the body's length. */
  lemma SealedIsVerified(body: seq<byte>)
    ensures Verified(body + XorWords(body).Bytes())
  {
    var s := body + XorWords(body).Bytes();
    assert s[..|s| - 4] == body;
  }

  /** An accepted frame is its body sealed again. */
  lemma VerifiedIsSealed(s: seq<byte>)
    requires |s| >= 4 && Verified(s)
    ensures s == s[..|s| - 4] + XorWords(s[..|s| - 4]).Bytes()
  {
    assert WordAt(s, |s| - 4).Bytes() == s[|s| - 4..];
  }

  /** `s` and `t` differ at most inside the window of four bytes that starts at `p`. */
  ghost predicate DifferOnlyInWindow(s: seq<byte>, t: seq<byte>, p: nat) {
    |s| == |t| && forall i :: 0 <= i < |s| && !(p <= i < p + 4) ==> s[i] == t[i]
  }

  /** Two adjacent words hold the window: equal XORs force equal bytes, because no two bytes of
      the window share a lane. */
  lemma TwoWordsWindow(s1: Lanes, s2: Lanes, t1: Lanes, t2: Lanes, r: nat)
    requires s1.Xor(s2) == t1.Xor(t2)
    requires r > 0 ==> s1.b0 == t1.b0
    requires r > 1 ==> s1.b1 == t1.b1
    requires r > 2 ==> s1.b2 == t1.b2
    requires r < 4 && s2.b3 == t2.b3
    requires r < 3 ==> s2.b2 == t2.b2
    requires r < 2 ==> s2.b1 == t2.b1
    requires r < 1 ==> s2.b0 == t2.b0
    ensures s1 == t1 && s2 == t2
  {
    LaneWindow(s1.b0, s2.b0, t1.b0, t2.b0);
    LaneWindow(s1.b1, s2.b1, t1.b1, t2.b1);
    LaneWindow(s1.b2, s2.b2, t1.b2, t2.b2);
    LaneWindow(s1.b3, s2.b3, t1.b3, t2.b3);
  }

  lemma LaneWindow(a: byte, b: byte, c: byte, d: byte)
    requires XorByte(a, b) == XorByte(c, d) && (a == c || b == d)
    ensures a == c && b == d
  {
    if a == c {
      Bits.XorCancel(a, b, d);
    } else {
      Bits.XorComm(a, b);
      Bits.XorComm(c, b);
      Bits.XorCancel(b, a, c);
    }
  }

  lemma XorAround(a: seq<byte>, m: seq<byte>, c: seq<byte>)
    requires |a| % 4 == 0 && |m| % 4 == 0
    ensures XorWords(a + m + c) == XorWords(a).Xor(XorWords(m).Xor(XorWords(c)))
  {
    hide XorWords, Lanes.Xor;
    assert a + m + c == a + (m + c);
    XorWordsSplit(a, m + c);
    XorWordsSplit(m, c);
  }

  /** Equal surroundings cancel. */
  lemma CancelAround(a: seq<byte>, m: seq<byte>, m': seq<byte>, c: seq<byte>)
    requires |a| % 4 == 0 && |m| % 4 == 0 && |m'| % 4 == 0
    requires XorWords(a + m + c) == XorWords(a + m' + c)
    ensures XorWords(m) == XorWords(m')
  {
    hide XorWords, Lanes.Xor;
    XorAround(a, m, c);
    XorAround(a, m', c);
    XorCancel(XorWords(a), XorWords(m).Xor(XorWords(c)), XorWords(m').Xor(XorWords(c)));
    XorComm(XorWords(m), XorWords(c));
    XorComm(XorWords(m'), XorWords(c));
    XorCancel(XorWords(c), XorWords(m), XorWords(m'));
  }

  lemma XorOfTwoWords(s: seq<byte>)
    requires |s| == 8
    ensures XorWords(s) == WordAt(s, 0).Xor(WordAt(s, 4))
  {
    hide XorWords, Lanes.Xor;
    assert s == s[..4] + s[4..];
    XorWordsSplit(s[..4], s[4..]);
    XorOfOneWord(s[..4]);
    XorOfOneWord(s[4..]);
  }

  lemma TwoWordsPreserveXor(m: seq<byte>, m': seq<byte>, r: nat)
    requires |m| == |m'| == 8 && r < 4 && DifferOnlyInWindow(m, m', r) && XorWords(m) == XorWords(m')
    ensures m == m'
  {
    hide XorWords, Lanes.Xor;
    XorOfTwoWords(m);
    XorOfTwoWords(m');
    TwoWordsWindow(WordAt(m, 0), WordAt(m, 4), WordAt(m', 0), WordAt(m', 4), r);
  }

  lemma OneWordPreservesXor(m: seq<byte>, m': seq<byte>)
    requires |m| == |m'| == 4 && XorWords(m) == XorWords(m')
    ensures m == m'
  {
    XorOfOneWord(m);
    XorOfOneWord(m');
  }

  lemma SliceOfWindow(s: seq<byte>, t: seq<byte>, p: nat, k: nat, e: nat)
    requires DifferOnlyInWindow(s, t, p) && k <= p <= e <= |s|
    ensures DifferOnlyInWindow(s[k..e], t[k..e], p - k)
  {
  }

  lemma WindowPreservesXor(s: seq<byte>, t: seq<byte>, p: nat, k: nat, e: nat)
    requires k <= p < k + 4 && (e == k + 8 || e == k + 4 == |s|) && e <= |s| && k % 4 == 0
    requires DifferOnlyInWindow(s, t, p) && XorWords(s) == XorWords(t)
    ensures s == t
  {
    Surround(s, t, k, e);
    SliceOfWindow(s, t, p, k, e);
    var m, m' := s[k..e], t[k..e];
    if e == k + 8 {
      TwoWordsPreserveXor(m, m', p - k);
    } else {
      OneWordPreservesXor(m, m');
    }
    SameInside(s, t, k, e);
  }

  /** Sequences that agree outside `[k, e)` and have equal XOR have equal XOR inside it. */
  lemma Surround(s: seq<byte>, t: seq<byte>, k: nat, e: nat)
    requires k <= e <= |s| == |t| && k % 4 == 0 && (e - k) % 4 == 0
    requires forall i :: 0 <= i < |s| && !(k <= i < e) ==> s[i] == t[i]
    requires XorWords(s) == XorWords(t)
    ensures XorWords(s[k..e]) == XorWords(t[k..e])
  {
    hide XorWords;
    ThreeParts(s, k, e);
    ThreeParts(t, k, e);
    assert t[..k] == s[..k];
    assert t[e..] == s[e..];
    CancelAround(s[..k], s[k..e], t[k..e], s[e..]);
  }

  lemma ThreeParts(s: seq<byte>, k: nat, e: nat)
    requires k <= e <= |s|
    ensures s == s[..k] + s[k..e] + s[e..]
  {
  }

  lemma SameInside(s: seq<byte>, t: seq<byte>, k: nat, e: nat)
    requires k <= e <= |s| == |t| && s[k..e] == t[k..e]
    requires forall i :: 0 <= i < |s| && !(k <= i < e) ==> s[i] == t[i]
    ensures s == t
  {
    forall i | k <= i < e
      ensures s[i] == t[i]
    {
      assert s[i] == s[k..e][i - k] && t[i] == t[k..e][i - k];
    }
  }

  /** The aligned slice, one or two words long, that holds the window starting at `p`. */
  lemma Alignment(p: nat, n: nat) returns (k: nat, e: nat)
    requires p < n && n % 4 == 0
    ensures k % 4 == 0 && k <= p < k + 4 && e <= n && (e == k + 8 || e == k + 4 == n)
  {
    k := p / 4 * 4;
    e := if k + 8 <= n then k + 8 else k + 4;
  }

  lemma SameXorSameBytes(s: seq<byte>, t: seq<byte>, p: nat)
    requires |s| % 4 == 0 && DifferOnlyInWindow(s, t, p) && XorWords(s) == XorWords(t)
    ensures s == t
  {
    if p < |s| {
      var k, e := Alignment(p, |s|);
      WindowPreservesXor(s, t, p, k, e);
    }
  }

  /** Every non-empty change confined to four consecutive bytes of an accepted frame is rejected,
      also when the window lies across the border between payload and checksum. */
  lemma BurstRejected(s: seq<byte>, t: seq<byte>, p: nat)
    requires |s| >= 4 && |s| % 4 == 0 && Verified(s)
    requires DifferOnlyInWindow(s, t, p) && s != t
    ensures !Verified(t)
  {
    VerifiedIffXorZero(s);
    VerifiedIffXorZero(t);
    if Verified(t) {
      SameXorSameBytes(s, t, p);
    }
  }

  /** Five bytes are too many: exchanging the first bytes of two neighbouring words goes unnoticed. */
  lemma FiveByteBurstMayPass(a: byte, b: byte)
    requires a != b
    ensures var s, t := [a, 0, 0, 0, b, 0, 0, 0], [b, 0, 0, 0, a, 0, 0, 0];
      s != t && Verified(s + XorWords(s).Bytes()) && Verified(t + XorWords(s).Bytes())
  {
    var s, t: seq<byte> := [a, 0, 0, 0, b, 0, 0, 0], [b, 0, 0, 0, a, 0, 0, 0];
    XorOfTwoWords(s);
    XorOfTwoWords(t);
    Bits.XorComm(a, b);
    SealedIsVerified(s);
    SealedIsVerified(t);
    assert s[0] != t[0];
  }

  // ---- The loops ---------------------------------------------------------------------------

  /** One turn of the loop: a word moves from the rest of the data into the accumulator. */
  lemma XorWordsStep(s: seq<byte>, i: nat, acc: Lanes)
    requires i + 4 <= |s|
    ensures acc.Xor(WordAt(s, i)).Xor(XorWords(s[i + 4..])) == acc.Xor(XorWords(s[i..]))
  {
    hide Lanes.Xor;
    assert s[i..][4..] == s[i + 4..];
    XorAssoc(acc, WordAt(s, i), XorWords(s[i + 4..]));
  }

  /** The words before `i` are in `acc`; fewer than four bytes are left. */
  lemma XorWordsEnd(s: seq<byte>, i: nat, acc: Lanes)
    requires i <= |s| < i + 4
    ensures acc.Xor(XorWords(s[i..])) == if i == |s| then acc else acc.Xor(TailWord(s[i..]))
  {
    XorUnit(acc);
  }

  method ComputeChecksum(data: array<byte>, len: nat) returns (xorVal: Lanes)
    requires len <= data.Length
    ensures xorVal == XorWords(data[..len])
  {
    hide Lanes.Xor, XorWords;
    xorVal := ZERO;
    var i := 0;
    ghost var s := data[..len];
    XorUnit(XorWords(s));
    assert s[0..] == s;
    while i + 3 < len
      invariant i % 4 == 0 && i <= len
      invariant xorVal.Xor(XorWords(s[i..])) == XorWords(s)
    {
      XorWordsStep(s, i, xorVal);
      xorVal := xorVal.Xor(Lanes(data[i], data[i + 1], data[i + 2], data[i + 3]));
      i := i + 4;
    }
    XorWordsEnd(s, i, xorVal);
    var rem := len % 4;
    if rem != 0 {
      xorVal := xorVal.Xor(Lanes(data[i],
                                 if rem > 1 then data[i + 1] else 0,
                                 if rem > 2 then data[i + 2] else 0,
                                 0));
    }
  }

  method SetChecksum(msg: array<byte>, size: nat)
    requires CHECKSUM_SIZE <= size <= msg.Length
    modifies msg
    ensures msg[..size] == old(msg[..size - 4]) + XorWords(old(msg[..size - 4])).Bytes()
    ensures msg[size..] == old(msg[size..])
    ensures Verified(msg[..size])
  {
    ghost var body := msg[..size - 4];
    var cs := ComputeChecksum(msg, size - 4);
    msg[size - 4], msg[size - 3], msg[size - 2], msg[size - 1] := cs.b0, cs.b1, cs.b2, cs.b3;
    assert msg[..size] == body + XorWords(body).Bytes();
    SealedIsVerified(body);
  }

  method VerifyChecksum(msg: array<byte>, size: nat) returns (ok: bool)
    requires CHECKSUM_SIZE <= size <= msg.Length
    ensures ok == Verified(msg[..size])
  {
    var expected := ComputeChecksum(msg, size - 4);
    var actual := Lanes(msg[size - 4], msg[size - 3], msg[size - 2], msg[size - 1]);
    assert msg[..size][..size - 4] == msg[..size - 4];
    ok := expected == actual;
  }
}
