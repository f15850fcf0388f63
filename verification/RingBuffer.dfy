/** `ByteRingBuffer`: a byte stream through a power-of-two array with 64-bit wrapping positions. */
module RingBuffer {
  import opened Protocol
  import opened Modular

  /** The `n` bytes of a ring that start at position `from`. */
  ghost function RingRead(bytes: seq<byte>, from: nat, n: nat): (r: seq<byte>)
    requires |bytes| > 0
    ensures |r| == n
  {
    seq(n, i requires 0 <= i < n => bytes[Slot(from + i, |bytes|)])
  }

  /** Writing behind the held bytes appends to them and leaves them alone. */
  lemma WriteExtends(before: seq<byte>, after: seq<byte>, r: nat, held: nat, src: seq<byte>)
    requires |before| == |after| > 0 && held + |src| <= |after|
    requires forall j :: 0 <= j < |src| ==> after[Slot(r + held + j, |after|)] == src[j]
    requires forall m :: r + held + |src| <= m < r + held + |after| ==> after[Slot(m, |after|)] == before[Slot(m, |after|)]
    ensures RingRead(after, r, held + |src|) == RingRead(before, r, held) + src
  {
    hide Slot;
    var c := |after|;
    var x, y := RingRead(after, r, held + |src|), RingRead(before, r, held) + src;
    forall i | 0 <= i < held + |src|
      ensures x[i] == y[i]
    {
      if i < held {
        FullTurn(r + i, c);
        assert after[Slot(r + i + c, c)] == before[Slot(r + i + c, c)];
      } else {
        assert after[Slot(r + held + (i - held), c)] == src[i - held];
      }
    }
  }

  /** The same, for a write position that differs from the true one by whole turns. */
  lemma Appended(before: seq<byte>, after: seq<byte>, w: nat, r: nat, held: nat, src: seq<byte>)
    requires |before| == |after| > 0 && held + |src| <= |after|
    requires Slot(w, |after|) == Slot(r + held, |after|)
    requires forall j :: 0 <= j < |src| ==> after[Slot(w + j, |after|)] == src[j]
    requires forall m :: w + |src| <= m < w + |after| ==> after[Slot(m, |after|)] == before[Slot(m, |after|)]
    ensures RingRead(after, r, held + |src|) == RingRead(before, r, held) + src
  {
    hide Slot;
    var c := |after|;
    forall j | 0 <= j < |src|
      ensures after[Slot(r + held + j, c)] == src[j]
    {
      SameBaseSameSlots(w, r + held, j, c);
    }
    forall m | r + held + |src| <= m < r + held + c
      ensures after[Slot(m, c)] == before[Slot(m, c)]
    {
      var j := m - (r + held);
      SameBaseSameSlots(w, r + held, j, c);
      assert after[Slot(w + j, c)] == before[Slot(w + j, c)];
    }
    WriteExtends(before, after, r, held, src);
  }

  /** The stretches of the array that hold the first `n` bytes from position `r` on. */
  lemma ReadStretches(bytes: seq<byte>, r: nat, n: nat)
    requires 0 < |bytes| && n <= |bytes|
    ensures var base, tail := Slot(r, |bytes|), |bytes| - Slot(r, |bytes|);
      RingRead(bytes, r, n)
      == if n <= tail then bytes[base..base + n] else bytes[base..] + bytes[..n - tail]
  {
    hide Slot;
    forall i | 0 <= i < n
      ensures RingRead(bytes, r, n)[i] == bytes[Slot(r + i, |bytes|)]
      ensures Slot(r + i, |bytes|)
        == if Slot(r, |bytes|) + i < |bytes| then Slot(r, |bytes|) + i else Slot(r, |bytes|) + i - |bytes|
    {
      SlotPlus(r, i, |bytes|);
    }
  }

  lemma ReadPrefix(bytes: seq<byte>, r: nat, held: nat, n: nat)
    requires 0 < |bytes| && n <= held
    ensures RingRead(bytes, r, n) == RingRead(bytes, r, held)[..n]
  {
  }

  lemma ReadSuffix(bytes: seq<byte>, r: nat, held: nat, n: nat, k: nat)
    requires k <= 63 && |bytes| == Pow2(k) && n <= held <= |bytes|
    ensures RingRead(bytes, Advance(r, n), held - n) == RingRead(bytes, r, held)[n..]
  {
    hide Slot, Pow2, Advance;
    var x, y := RingRead(bytes, Advance(r, n), held - n), RingRead(bytes, r, held)[n..];
    forall i | 0 <= i < held - n
      ensures x[i] == y[i]
    {
      SlotAdvanced(r, n, i, k);
    }
  }

  lemma SlotAdvanced(r: nat, n: nat, i: nat, k: nat)
    requires k <= 63 && i < Pow2(k)
    ensures Slot(Advance(r, n) + i, Pow2(k)) == Slot(r + (n + i), Pow2(k))
  {
    SlotFromWrapped(r + n, i, k);
    hide Slot, Pow2;
    assert (r + n) + i == r + (n + i);
  }

  /** A ring after `src` was copied in at `base`, wrapping round its end at most once. */
  function Spliced(before: seq<byte>, base: nat, src: seq<byte>): (after: seq<byte>)
    requires base < |before| && |src| <= |before|
    ensures |after| == |before|
  {
    var tail := |before| - base;
    if |src| <= tail then Patched(before, base, src)
    else Patched(Patched(before, base, src[..tail]), 0, src[tail..])
  }

  lemma SplicedAt(before: seq<byte>, base: nat, src: seq<byte>, i: nat)
    requires base < |before| && |src| <= |before| && i < |before|
    ensures var at := if base + i < |before| then base + i else base + i - |before|;
      Spliced(before, base, src)[at] == if i < |src| then src[i] else before[at]
  {
    hide Patched;
    var c := |before|;
    var at, tail := if base + i < c then base + i else base + i - c, c - base;
    if |src| <= tail {
      PatchedAt(before, base, src, at);
    } else {
      PatchedAt(before, base, src[..tail], at);
      PatchedAt(Patched(before, base, src[..tail]), 0, src[tail..], at);
    }
  }

  /** Splicing at the slot of `w` writes `src` to the slots from `w` on and nothing else. */
  lemma SplicedSlots(before: seq<byte>, w: nat, src: seq<byte>)
    requires |src| <= |before| && 0 < |before|
    ensures var after := Spliced(before, Slot(w, |before|), src);
      && (forall j :: 0 <= j < |src| ==> after[Slot(w + j, |after|)] == src[j])
      && (forall m :: w + |src| <= m < w + |after| ==> after[Slot(m, |after|)] == before[Slot(m, |after|)])
  {
    hide Slot, Spliced;
    var c, base := |before|, Slot(w, |before|);
    var after := Spliced(before, base, src);
    forall j | 0 <= j < |src|
      ensures after[Slot(w + j, c)] == src[j]
    {
      SlotPlus(w, j, c);
      SplicedAt(before, base, src, j);
    }
    forall m | w + |src| <= m < w + c
      ensures after[Slot(m, c)] == before[Slot(m, c)]
    {
      SlotPlus(w, m - w, c);
      SplicedAt(before, base, src, m - w);
    }
  }

  class ByteRing {
    const buf: array<byte>
    ghost const log2: nat
    var writePos: u64
    var readPos: u64

    /** The distance of the positions in 64-bit arithmetic. */
    function Held(): nat
      reads this
    {
      Gap(writePos, readPos)
    }

    ghost predicate Valid()
      reads this
    {
      log2 <= 63 && buf.Length == Pow2(log2) && Held() <= buf.Length < WRAP
    }

    ghost function Contents(): (s: seq<byte>)
      reads this, buf
      requires Valid()
      ensures |s| == Held()
    {
      RingRead(buf[..], readPos, Held())
    }

    constructor (capacity: nat, ghost log2: nat)
      requires log2 <= 63 && capacity == Pow2(log2)
      ensures Valid() && fresh(buf) && buf.Length == capacity && Contents() == []
    {
      BelowWrap(log2);
      this.log2 := log2;
      buf := new byte[capacity](_ => 0);
      writePos, readPos := 0, 0;
    }

    method Readable() returns (n: nat)
      requires Valid()
      ensures n == |Contents()|
    {
      n := Gap(writePos, readPos);
    }

    method Writable() returns (n: nat)
      requires Valid()
      ensures n == buf.Length - |Contents()|
    {
      n := buf.Length - Gap(writePos, readPos);
    }

    /** The one or two `memcpy` calls of `write`. */
    method CopyIn(src: seq<byte>)
      requires Valid() && |src| <= buf.Length
      modifies buf
      ensures buf[..] == Spliced(old(buf[..]), Slot(writePos, buf.Length), src)
    {
      hide Slot, And, Pow2, Gap, Patched;
      var c, n := buf.Length, |src|;
      var wp := And(writePos, c - 1);
      MaskIsSlot(writePos, log2);
      var tail := c - wp;
      if n <= tail {
        Memcpy(buf, wp, src);
      } else {
        Memcpy(buf, wp, src[..tail]);
        Memcpy(buf, 0, src[tail..]);
      }
    }

    /** Appends as much of `src` as fits. */
    method Write(src: seq<byte>) returns (n: nat)
      requires Valid()
      modifies this`writePos, buf
      ensures Valid()
      ensures n == Min(|src|, buf.Length - old(|Contents()|))
      ensures Contents() == old(Contents()) + src[..n]
    {
      hide Slot, And, Pow2, Gap, Advance, Spliced;
      ghost var before, held := buf[..], Held();
      var avail := Writable();
      n := Min(|src|, avail);
      if n == 0 {
        return;
      }
      CopyIn(src[..n]);
      SplicedSlots(before, writePos, src[..n]);
      PositionsAgree();
      Appended(before, buf[..], writePos, readPos, held, src[..n]);
      GapGrows(writePos, readPos, n);
      writePos := Advance(writePos, n);
    }

    /** The write position uses the slot just behind the held bytes. */
    lemma PositionsAgree()
      requires Valid()
      ensures Slot(writePos, buf.Length) == Slot(readPos + Held(), buf.Length)
    {
      GapBridges(writePos, readPos);
      SlotSurvivesWrap(readPos + Held(), log2);
    }

    /** Copies up to `len` bytes from the front without consuming them. */
    method Peek(dst: array<byte>, len: nat) returns (n: nat)
      requires Valid() && len <= dst.Length && dst != buf
      modifies dst
      ensures n == Min(len, |Contents()|)
      ensures dst[..n] == Contents()[..n]
      ensures dst[n..] == old(dst[n..])
    {
      hide Slot, And, Pow2, Gap, Patched, RingRead;
      var avail := Readable();
      n := Min(len, avail);
      if n == 0 {
        return;
      }
      var c := buf.Length;
      var rp := And(readPos, c - 1);
      MaskIsSlot(readPos, log2);
      ReadStretches(buf[..], readPos, n);
      ReadPrefix(buf[..], readPos, Held(), n);
      var tail := c - rp;
      ghost var was := dst[..];
      if n <= tail {
        PatchedOnce(was, buf[rp..rp + n]);
        Memcpy(dst, 0, buf[rp..rp + n]);
      } else {
        PatchedTwice(was, buf[rp..], buf[..n - tail]);
        Memcpy(dst, 0, buf[rp..]);
        Memcpy(dst, tail, buf[..n - tail]);
      }
    }

    /** Advances the read position; the caller has peeked at `n` bytes. */
    method Consume(n: nat)
      requires Valid() && n <= |Contents()|
      modifies this`readPos
      ensures Valid()
      ensures Contents() == old(Contents())[n..]
    {
      hide Slot, And, Pow2, Gap, Advance;
      ReadSuffix(buf[..], readPos, Held(), n, log2);
      GapShrinks(writePos, readPos, n);
      readPos := Advance(readPos, n);
    }

    method Read(dst: array<byte>, len: nat) returns (n: nat)
      requires Valid() && len <= dst.Length && dst != buf
      modifies this`readPos, dst
      ensures Valid()
      ensures n == Min(len, old(|Contents()|))
      ensures dst[..n] + Contents() == old(Contents()) && dst[n..] == old(dst[n..])
    {
      n := Peek(dst, len);
      Consume(n);
    }

    method Reset()
      requires Valid()
      modifies this
      ensures Valid() && Contents() == []
    {
      readPos, writePos := 0, 0;
    }
  }
}
