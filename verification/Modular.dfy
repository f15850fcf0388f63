/** Positions modulo a capacity and modulo 2^64, and the masks that compute them. */
module Modular {
  import Bits

  const WRAP := 0x1_0000_0000_0000_0000

  function Pow2(k: nat): (p: nat)
    ensures p > 0
  {
    if k == 0 then 1 else 2 * Pow2(k - 1)
  }

  /** Bitwise AND, digit by digit. */
  function And(a: nat, b: nat): nat {
    if a == 0 || b == 0 then 0
    else 2 * And(a / 2, b / 2) + if Bits.Odd(a) && Bits.Odd(b) then 1 else 0
  }

  /** `x & (capacity - 1)` is `x % capacity` for a power of two. */
  lemma {:induction false} MaskIsMod(x: nat, k: nat)
    ensures And(x, Pow2(k) - 1) == x % Pow2(k)
    decreases k
  {
    if k > 0 {
      var p, h := Pow2(k - 1), x / 2;
      assert Pow2(k) == 2 * p && 2 * p - 1 == 2 * (p - 1) + 1;
      hide And, Pow2;
      MaskIsMod(h, k - 1);
      HalfRemainder(x, p);
    }
  }

  lemma HalfRemainder(x: nat, p: nat)
    requires p > 0 && And(x / 2, p - 1) == x / 2 % p
    ensures And(x, 2 * (p - 1) + 1) == x % (2 * p)
  {
    hide And;
    ModDouble(x, p);
    AndDouble(x, p - 1);
  }

  lemma AndDouble(x: nat, m: nat)
    ensures And(x, 2 * m + 1) == 2 * And(x / 2, m) + x % 2
  {
    assert (2 * m + 1) / 2 == m && Bits.Odd(2 * m + 1);
  }

  lemma ModDouble(x: nat, p: nat)
    requires p > 0
    ensures x % (2 * p) == 2 * (x / 2 % p) + x % 2
  {
    var h := x / 2;
    var q, r := h / p, h % p;
    DivMod(h, p);
    assert x == 2 * h + x % 2;
    assert h == p * q + r;
    assert x == (2 * p) * q + (2 * r + x % 2) by {
      assert (2 * p) * q == 2 * (p * q);
    }
    ModUnique(x, 2 * p, q, 2 * r + x % 2);
  }

  lemma DivMod(a: nat, c: nat)
    requires c > 0
    ensures a == c * (a / c) + a % c
  {
  }

  lemma ModUnique(a: nat, c: nat, q: nat, r: nat)
    requires c > 0 && r < c && a == c * q + r
    ensures a % c == r
  {
    var t := a / c;
    DivMod(a, c);
    if q < t {
      MulStep(c, q, t);
    } else if t < q {
      MulStep(c, t, q);
    }
  }

  lemma Distribute(c: int, x: int, y: int)
    ensures c * (x + y) == c * x + c * y
  {
  }

  lemma {:induction false} MulStep(c: nat, x: nat, y: nat)
    requires x < y
    ensures c * x + c <= c * y
    decreases y
  {
    Distribute(c, y - 1, 1);
    if x < y - 1 {
      MulStep(c, x, y - 1);
    }
  }

  ghost predicate IsPower(c: nat) {
    exists k: nat :: c == Pow2(k)
  }

  lemma OddIsNoPower(h: nat)
    requires h > 0
    ensures !IsPower(2 * h + 1)
  {
    forall k: nat
      ensures 2 * h + 1 != Pow2(k)
    {
      if k > 0 {
        assert Pow2(k) == 2 * Pow2(k - 1);
      }
    }
  }

  lemma DoublePower(h: nat)
    ensures IsPower(2 * h) <==> IsPower(h)
  {
    if IsPower(h) {
      var k: nat :| h == Pow2(k);
      assert 2 * h == Pow2(k + 1);
    }
    forall k: nat | 2 * h == Pow2(k)
      ensures IsPower(h)
    {
      assert k > 0 && h == Pow2(k - 1);
    }
  }

  lemma AndBelowOdd(h: nat)
    requires h > 0
    ensures And(2 * h + 1, 2 * h) == 2 * h
  {
    assert (2 * h + 1) / 2 == h && (2 * h) / 2 == h && !Bits.Odd(2 * h);
    AndSelf(h);
  }

  lemma AndBelowEven(h: nat)
    requires h > 0
    ensures And(2 * h, 2 * h - 1) == 2 * And(h, h - 1)
  {
    assert (2 * h) / 2 == h && (2 * h - 1) / 2 == h - 1 && !Bits.Odd(2 * h);
  }

  /** The compile-time test `(c & (c - 1)) == 0` accepts zero and the powers of two only. */
  lemma {:induction false} PowerOfTwoTest(c: nat)
    requires c > 0
    ensures And(c, c - 1) == 0 <==> IsPower(c)
    decreases c
  {
    var h := c / 2;
    if c == 1 {
      assert c == Pow2(0);
    } else if Bits.Odd(c) {
      assert c == 2 * h + 1;
      hide And, IsPower;
      AndBelowOdd(h);
      OddIsNoPower(h);
    } else {
      assert c == 2 * h;
      hide And, IsPower;
      PowerOfTwoTest(h);
      AndBelowEven(h);
      DoublePower(h);
    }
  }

  lemma {:induction false} AndSelf(a: nat)
    ensures And(a, a) == a
  {
    if a > 0 {
      AndSelf(a / 2);
    }
  }

  lemma {:induction false} Pow2Sum(a: nat, b: nat)
    ensures Pow2(a + b) == Pow2(a) * Pow2(b)
    decreases a
  {
    if a > 0 {
      assert Pow2(a) == 2 * Pow2(a - 1) && Pow2(a + b) == 2 * Pow2(a + b - 1);
      Pow2Sum(a - 1, b);
      hide Pow2;
      MulAssoc(2, Pow2(a - 1), Pow2(b));
    }
  }

  lemma Wrap()
    ensures Pow2(64) == WRAP
  {
    assert Pow2(4) == 16;
    Pow2Sum(4, 4);
    assert Pow2(8) == 0x100;
    Pow2Sum(8, 8);
    assert Pow2(16) == 0x1_0000;
    Pow2Sum(16, 16);
    assert Pow2(32) == 0x1_0000_0000;
    Pow2Sum(32, 32);
  }

  lemma {:induction false} Pow2Grows(a: nat, b: nat)
    requires a < b
    ensures Pow2(a) < Pow2(b)
    decreases b
  {
    if a < b - 1 {
      Pow2Grows(a, b - 1);
    }
  }

  lemma BelowWrap(k: nat)
    requires k <= 63
    ensures Pow2(k) < WRAP
  {
    Pow2Grows(k, 64);
    Wrap();
  }

  lemma MulAssoc(c: nat, q: nat, t: nat)
    ensures (c * q) * t == c * (q * t)
  {
  }

  lemma NestedRemainder(a: nat, c: nat, q: nat, t: nat, u: nat, v: nat)
    requires v < c && a == (c * q) * t + (c * u + v)
    ensures a % c == v
  {
    MulAssoc(c, q, t);
    Distribute(c, q * t, u);
    ModUnique(a, c, q * t + u, v);
  }

  lemma DivModParts(a: nat, c: nat) returns (q: nat, r: nat)
    requires c > 0
    ensures q == a / c && r == a % c && r < c && a == c * q + r
  {
    q, r := a / c, a % c;
    DivMod(a, c);
  }

  lemma ProductPositive(c: nat, q: nat)
    requires c > 0 && q > 0
    ensures c * q > 0
  {
  }

  /** A position reduced modulo `c * q` keeps its residue modulo `c`. */
  lemma ModOfMod(a: nat, c: nat, q: nat)
    requires c > 0 && q > 0
    ensures c * q > 0 && (a % (c * q)) % c == a % c
  {
    ProductPositive(c, q);
    var t, r := DivModParts(a, c * q);
    var u, v := DivModParts(r, c);
    NestedRemainder(a, c, q, t, u, v);
  }

  /** The slot that position `p` uses in a buffer of `c` slots. */
  function Slot(p: nat, c: nat): (s: nat)
    requires c > 0
    ensures s < c
  {
    p % c
  }

  lemma MaskIsSlot(x: nat, k: nat)
    ensures And(x, Pow2(k) - 1) == Slot(x, Pow2(k))
  {
    MaskIsMod(x, k);
  }

  /** A power-of-two capacity divides 2^64, so slots survive the wrap of the position. */
  lemma SlotSurvivesWrap(a: nat, k: nat)
    requires k <= 64
    ensures Slot(a % WRAP, Pow2(k)) == Slot(a, Pow2(k))
  {
    Wrap();
    Pow2Sum(k, 64 - k);
    ModOfMod(a, Pow2(k), Pow2(64 - k));
  }

  lemma SameRemainderFarApart(c: nat, q: nat, q': nat, r: nat)
    requires c * q + r < c * q' + r
    ensures c * q + c <= c * q'
  {
    if q' < q {
      MulStep(c, q', q);
    }
    MulStep(c, q, q');
  }

  lemma SameSlotFarApart(a: nat, b: nat, c: nat)
    requires c > 0 && a < b
    ensures Slot(a, c) == Slot(b, c) ==> a + c <= b
  {
    var q, r := DivModParts(a, c);
    var q', r' := DivModParts(b, c);
    if r == r' {
      SameRemainderFarApart(c, q, q', r);
    }
  }

  /** Fewer than `c` apart, two positions use different slots. */
  lemma DifferentSlots(a: nat, b: nat, c: nat)
    requires a < b < a + c
    ensures Slot(a, c) != Slot(b, c)
  {
    SameSlotFarApart(a, b, c);
  }

  /** Moving `j` slots on is an addition with at most one wrap. */
  lemma SlotPlus(p: nat, j: nat, c: nat)
    requires c > 0 && j < c
    ensures Slot(p + j, c) == if Slot(p, c) + j < c then Slot(p, c) + j else Slot(p, c) + j - c
  {
    var q, r := DivModParts(p, c);
    SlotPlusParts(p, j, c, q, r);
  }

  lemma SlotPlusParts(p: nat, j: nat, c: nat, q: nat, r: nat)
    requires j < c && r < c && p == c * q + r
    ensures Slot(p + j, c) == if r + j < c then r + j else r + j - c
  {
    if r + j < c {
      ModUnique(p + j, c, q, r + j);
    } else {
      Distribute(c, q, 1);
      ModUnique(p + j, c, q + 1, r + j - c);
    }
  }

  /** Only the slot of the base matters for the slots after it. */
  lemma SameBaseSameSlots(p: nat, p': nat, j: nat, c: nat)
    requires c > 0 && j < c && Slot(p, c) == Slot(p', c)
    ensures Slot(p + j, c) == Slot(p' + j, c)
  {
    SlotPlus(p, j, c);
    SlotPlus(p', j, c);
  }

  /** Slots counted from a wrapped position are those counted from the true one. */
  lemma SlotFromWrapped(a: nat, j: nat, k: nat)
    requires k <= 64 && j < Pow2(k)
    ensures Slot(a % WRAP + j, Pow2(k)) == Slot(a + j, Pow2(k))
  {
    SlotSurvivesWrap(a, k);
    SameBaseSameSlots(a % WRAP, a, j, Pow2(k));
  }

  lemma FullTurn(p: nat, c: nat)
    requires c > 0
    ensures Slot(p + c, c) == Slot(p, c)
  {
    var q, r := DivModParts(p, c);
    Distribute(c, q, 1);
    ModUnique(p + c, c, q + 1, r);
  }

  // ---- 64-bit positions --------------------------------------------------------------------

  /** The distance of two positions in 64-bit arithmetic. */
  function Gap(w: nat, r: nat): (d: nat)
    ensures d < WRAP
  {
    (w - r) % WRAP
  }

  /** `fetch_add` on a 64-bit position. */
  function Advance(p: nat, n: nat): (q: nat)
    ensures q < WRAP
  {
    (p + n) % WRAP
  }

  lemma AdvanceWraps(t: nat, n: nat)
    ensures Advance(t % WRAP, n) == (t + n) % WRAP
  {
    var q, r := DivModParts(t, WRAP);
    var q', r' := DivModParts(r + n, WRAP);
    ModUnique(t + n, WRAP, q + q', r');
  }

  /** The 64-bit difference of two wrapped positions is the true distance. */
  lemma WrappedDistance(w: nat, r: nat)
    requires r <= w < r + WRAP
    ensures Gap(w % WRAP, r % WRAP) == w - r
  {
    var q, x := DivModParts(w, WRAP);
    var q', y := DivModParts(r, WRAP);
    assert q == q' || q == q' + 1;
  }

  /** Advancing the reader's position to the front of the gap meets the writer's. */
  lemma GapBridges(w: nat, r: nat)
    requires w < WRAP && r < WRAP
    ensures Advance(r, Gap(w, r)) == w
  {
  }

  lemma GapGrows(w: nat, r: nat, n: nat)
    requires w < WRAP && r < WRAP && Gap(w, r) + n < WRAP
    ensures Gap(Advance(w, n), r) == Gap(w, r) + n
  {
  }

  lemma GapShrinks(w: nat, r: nat, n: nat)
    requires w < WRAP && r < WRAP && n <= Gap(w, r)
    ensures Gap(w, Advance(r, n)) == Gap(w, r) - n
  {
  }
}
