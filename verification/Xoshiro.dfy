/** The pseudo-random generator: SplitMix64 seeding, the xoshiro256++ step, and the jump that separates
    parallel streams.  Words are `bv64`, so shifts drop bits and sums and products wrap exactly as the
    source's `uint64_t` does.  Lemmas about bits speak of single words; what is proved about states and
    runs hides the bits and uses only those lemmas. */
module Xoshiro {
  datatype State = State(s0: bv64, s1: bv64, s2: bv64, s3: bv64)

  const ZERO := State(0, 0, 0, 0)

  function Xor(x: bv64, y: bv64): bv64 { x ^ y }

  function Shl17(x: bv64): bv64 { x << 17 }

  function Rotl23(x: bv64): bv64 { (x << 23) | (x >> 41) }

  function Rotl45(x: bv64): bv64 { (x << 45) | (x >> 19) }

  /** The state as a vector over GF(2): addition is XOR, word by word. */
  function Add(x: State, y: State): State {
    State(Xor(x.s0, y.s0), Xor(x.s1, y.s1), Xor(x.s2, y.s2), Xor(x.s3, y.s3))
  }

  function Plus(x: bv64, y: bv64): bv64 { x + y }

  function Output(s: State): bv64 { Plus(Rotl23(Plus(s.s0, s.s3)), s.s0) }

  function Next(s: State): State {
    State(Xor(s.s0, Xor(s.s3, s.s1)),
          Xor(s.s1, Xor(s.s2, s.s0)),
          Xor(Xor(s.s2, s.s0), Shl17(s.s1)),
          Rotl45(Xor(s.s3, s.s1)))
  }

  /** The state after `n` calls of `next`. */
  function Nexts(s: State, n: nat): State
    decreases n
  {
    if n == 0 then s else Nexts(Next(s), n - 1)
  }

  // ---- Facts about single words ------------------------------------------------------------

  lemma XorUnits(x: bv64, y: bv64)
    ensures Xor(x, x) == 0 && Xor(x, 0) == x && Xor(0, x) == x
    ensures Xor(x, y) == Xor(y, x)
  {
  }

  lemma XorAssoc(x: bv64, y: bv64, z: bv64)
    ensures Xor(Xor(x, y), z) == Xor(x, Xor(y, z))
  {
    calc {
      Xor(Xor(x, y), z);
      Xor(x ^ y, z);
      (x ^ y) ^ z;
      x ^ (y ^ z);
      Xor(x, y ^ z);
      Xor(x, Xor(y, z));
    }
  }

  lemma XorRegroups(a: bv64, b: bv64, c: bv64, d: bv64)
    ensures Xor(Xor(a, b), Xor(c, d)) == Xor(Xor(a, c), Xor(b, d))
  {
    hide Xor;
    XorAssoc(a, b, Xor(c, d));
    XorAssoc(b, c, d);
    XorUnits(b, c);
    XorAssoc(c, b, d);
    XorAssoc(a, c, Xor(b, d));
  }

  lemma XorCancels(a: bv64, b: bv64, c: bv64)
    ensures Xor(Xor(a, b), b) == a
    ensures Xor(Xor(a, b), a) == b
    ensures Xor(Xor(a, b), Xor(b, c)) == Xor(a, c)
  {
    hide Xor;
    XorUnits(a, b);
    XorUnits(b, a);
    XorAssoc(a, b, b);
    XorAssoc(b, a, a);
    XorAssoc(Xor(a, b), b, c);
  }

  lemma ShiftIsLinear(x: bv64, y: bv64)
    ensures Shl17(Xor(x, y)) == Xor(Shl17(x), Shl17(y))
  {
  }

  lemma RotateIsLinear(x: bv64, y: bv64)
    ensures Rotl45(Xor(x, y)) == Xor(Rotl45(x), Rotl45(y))
  {
  }

  function Rotr45(x: bv64): bv64 { (x >> 45) | (x << 19) }

  lemma RotateBack(x: bv64)
    ensures Rotr45(Rotl45(x)) == x
  {
  }

  lemma FourShiftsVanish(x: bv64)
    ensures Shl17(Shl17(Shl17(Shl17(x)))) == 0
  {
  }

  /** Undoes `x ^ (x << 17)`. */
  function Unshift(y: bv64): bv64 {
    Xor(Xor(y, Shl17(y)), Xor(Shl17(Shl17(y)), Shl17(Shl17(Shl17(y)))))
  }

  lemma UnshiftUndoes(x: bv64)
    ensures Unshift(Xor(x, Shl17(x))) == x
  {
    hide Xor, Shl17;
    var b := Shl17(x);
    var c := Shl17(b);
    var d := Shl17(c);
    ShiftIsLinear(x, b);
    ShiftIsLinear(b, c);
    ShiftIsLinear(c, d);
    FourShiftsVanish(x);
    XorUnits(d, 0);
    XorCancels(x, b, c);
    XorCancels(c, d, 0);
    XorCancels(x, c, 0);
  }

  // ---- The step is linear and invertible ---------------------------------------------------

  /** The step distributes over XOR of states. */
  lemma NextIsLinear(x: State, y: State)
    ensures Next(Add(x, y)) == Add(Next(x), Next(y))
  {
    hide Xor, Shl17, Rotl45;
    XorRegroups(x.s3, y.s3, x.s1, y.s1);
    XorRegroups(x.s0, y.s0, Xor(x.s3, x.s1), Xor(y.s3, y.s1));
    XorRegroups(x.s2, y.s2, x.s0, y.s0);
    XorRegroups(x.s1, y.s1, Xor(x.s2, x.s0), Xor(y.s2, y.s0));
    ShiftIsLinear(x.s1, y.s1);
    XorRegroups(Xor(x.s2, x.s0), Xor(y.s2, y.s0), Shl17(x.s1), Shl17(y.s1));
    RotateIsLinear(Xor(x.s3, x.s1), Xor(y.s3, y.s1));
  }

  function Rotr23(x: bv64): bv64 { (x >> 23) | (x << 41) }

  lemma RotateBack23(x: bv64)
    ensures Rotr23(Rotl23(x)) == x
  {
  }

  function Minus(x: bv64, y: bv64): bv64 { x - y }

  lemma MinusUndoes(x: bv64, y: bv64)
    ensures Minus(Plus(x, y), y) == x
    ensures Minus(Plus(x, y), x) == y
  {
    calc {
      Minus(Plus(x, y), y);
      Minus(x + y, y);
      (x + y) - y;
      x;
    }
    calc {
      Minus(Plus(x, y), x);
      Minus(x + y, x);
      (x + y) - x;
      y;
    }
  }

  /** The first word and the number drawn determine the fourth word: the scrambler loses no bit. */
  lemma OutputIsReversible(s: State)
    ensures Minus(Rotr23(Minus(Output(s), s.s0)), s.s0) == s.s3
  {
    hide Plus, Minus, Rotl23, Rotr23;
    MinusUndoes(Rotl23(Plus(s.s0, s.s3)), s.s0);
    RotateBack23(Plus(s.s0, s.s3));
    MinusUndoes(s.s0, s.s3);
  }

  lemma ZeroIsFixed()
    ensures Next(ZERO) == ZERO
  {
  }

  /** The state before the last `next`. */
  function Back(s: State): State {
    var d := Rotr45(s.s3);
    var s0 := Xor(s.s0, d);
    var s1 := Unshift(Xor(s.s1, s.s2));
    State(s0, s1, Xor(Xor(s.s1, s1), s0), Xor(d, s1))
  }

  /** The step can be undone, so no two states have the same successor. */
  lemma BackUndoesNext(s: State)
    ensures Back(Next(s)) == s
  {
    hide Xor, Shl17, Rotl45, Rotr45, Unshift;
    var d := Xor(s.s3, s.s1);
    var e := Xor(s.s2, s.s0);
    RotateBack(d);
    XorCancels(s.s0, d, 0);
    XorCancels(s.s1, e, Shl17(s.s1));
    UnshiftUndoes(s.s1);
    XorCancels(s.s2, s.s0, 0);
    XorCancels(s.s3, s.s1, 0);
  }

  /** Any number of calls keeps different states different. */
  lemma {:induction false} NextsInjective(x: State, y: State, n: nat)
    requires x != y
    ensures Nexts(x, n) != Nexts(y, n)
    decreases n
  {
    hide Next, Back;
    if n > 0 {
      BackUndoesNext(x);
      BackUndoesNext(y);
      NextsInjective(Next(x), Next(y), n - 1);
    }
  }

  lemma {:induction false} ZeroStays(n: nat)
    ensures Nexts(ZERO, n) == ZERO
    decreases n
  {
    ZeroIsFixed();
    hide Next;
    if n > 0 {
      ZeroStays(n - 1);
    }
  }

  /** The all-zero state is reached from itself only. */
  lemma NeverAllZero(s: State, n: nat)
    ensures Nexts(s, n) == ZERO <==> s == ZERO
  {
    ZeroStays(n);
    if s != ZERO {
      NextsInjective(s, ZERO, n);
    }
  }

  // ---- Seeding -----------------------------------------------------------------------------

  function Shr27(x: bv64): bv64 { x >> 27 }
  function Shr30(x: bv64): bv64 { x >> 30 }
  function Shr31(x: bv64): bv64 { x >> 31 }

  datatype Amount = By27 | By30 | By31

  function Shr(x: bv64, k: Amount): bv64 {
    match k
    case By27 => Shr27(x)
    case By30 => Shr30(x)
    case By31 => Shr31(x)
  }

  lemma Shr27IsLinear(x: bv64, y: bv64)
    ensures Shr27(Xor(x, y)) == Xor(Shr27(x), Shr27(y))
  {
    calc {
      Shr27(Xor(x, y));
      Shr27(x ^ y);
      (x ^ y) >> 27;
      (x >> 27) ^ (y >> 27);
      Xor(x >> 27, y >> 27);
      Xor(Shr27(x), Shr27(y));
    }
  }

  lemma Shr30IsLinear(x: bv64, y: bv64)
    ensures Shr30(Xor(x, y)) == Xor(Shr30(x), Shr30(y))
  {
    calc {
      Shr30(Xor(x, y));
      Shr30(x ^ y);
      (x ^ y) >> 30;
      (x >> 30) ^ (y >> 30);
      Xor(x >> 30, y >> 30);
      Xor(Shr30(x), Shr30(y));
    }
  }

  lemma Shr31IsLinear(x: bv64, y: bv64)
    ensures Shr31(Xor(x, y)) == Xor(Shr31(x), Shr31(y))
  {
    calc {
      Shr31(Xor(x, y));
      Shr31(x ^ y);
      (x ^ y) >> 31;
      (x >> 31) ^ (y >> 31);
      Xor(x >> 31, y >> 31);
      Xor(Shr31(x), Shr31(y));
    }
  }

  lemma ThreeShiftsVanish27(x: bv64)
    ensures Shr27(Shr27(Shr27(x))) == 0
  {
    calc {
      Shr27(Shr27(Shr27(x)));
      Shr27(Shr27(x >> 27));
      Shr27((x >> 27) >> 27);
      ((x >> 27) >> 27) >> 27;
      0;
    }
  }

  lemma ThreeShiftsVanish30(x: bv64)
    ensures Shr30(Shr30(Shr30(x))) == 0
  {
    calc {
      Shr30(Shr30(Shr30(x)));
      Shr30(Shr30(x >> 30));
      Shr30((x >> 30) >> 30);
      ((x >> 30) >> 30) >> 30;
      0;
    }
  }

  lemma ThreeShiftsVanish31(x: bv64)
    ensures Shr31(Shr31(Shr31(x))) == 0
  {
    calc {
      Shr31(Shr31(Shr31(x)));
      Shr31(Shr31(x >> 31));
      Shr31((x >> 31) >> 31);
      ((x >> 31) >> 31) >> 31;
      0;
    }
  }

  lemma ShrFacts(x: bv64, y: bv64, k: Amount)
    ensures Shr(Xor(x, y), k) == Xor(Shr(x, k), Shr(y, k))
    ensures Shr(Shr(Shr(x, k), k), k) == 0
  {
    hide Xor, Shr27, Shr30, Shr31;
    match k
    case By27 => Shr27IsLinear(x, y); ThreeShiftsVanish27(x);
    case By30 => Shr30IsLinear(x, y); ThreeShiftsVanish30(x);
    case By31 => Shr31IsLinear(x, y); ThreeShiftsVanish31(x);
  }

  function Fold(z: bv64, k: Amount): bv64 { Xor(z, Shr(z, k)) }

  function Unfold(y: bv64, k: Amount): bv64 { Xor(Xor(y, Shr(y, k)), Shr(Shr(y, k), k)) }

  lemma UnfoldUndoes(z: bv64, k: Amount)
    ensures Unfold(Fold(z, k), k) == z
  {
    hide Xor, Shr;
    var b := Shr(z, k);
    var c := Shr(b, k);
    ShrFacts(z, b, k);
    ShrFacts(b, c, k);
    XorUnits(c, 0);
    XorCancels(z, b, c);
    XorCancels(z, c, 0);
  }

  function Times1(z: bv64): bv64 { z * 0xbf58476d1ce4e5b9 }
  function Times2(z: bv64): bv64 { z * 0x94d049bb133111eb }
  function Untimes1(z: bv64): bv64 { z * 0x96de1b173f119089 }
  function Untimes2(z: bv64): bv64 { z * 0x319642b2d24d8ec3 }

  lemma OddFactorsDivideOut(z: bv64)
    ensures Untimes1(Times1(z)) == z
    ensures Untimes2(Times2(z)) == z
  {
    calc {
      Untimes1(Times1(z));
      Untimes1(z * 0xbf58476d1ce4e5b9);
      (z * 0xbf58476d1ce4e5b9) * 0x96de1b173f119089;
      z;
    }
    calc {
      Untimes2(Times2(z));
      Untimes2(z * 0x94d049bb133111eb);
      (z * 0x94d049bb133111eb) * 0x319642b2d24d8ec3;
      z;
    }
  }

  /** SplitMix64's mixing of one counter value. */
  function Scramble(x: bv64): bv64 {
    Fold(Times2(Fold(Times1(Fold(x, By30)), By27)), By31)
  }

  function Unscramble(y: bv64): bv64 {
    Unfold(Untimes1(Unfold(Untimes2(Unfold(y, By31)), By27)), By30)
  }

  /** SplitMix64's mixing can be undone, so it never maps two counters to one word. */
  lemma UnscrambleUndoes(x: bv64)
    ensures Unscramble(Scramble(x)) == x
  {
    hide Fold, Unfold, Times1, Times2, Untimes1, Untimes2;
    var a := Fold(x, By30);
    var b := Fold(Times1(a), By27);
    UnfoldUndoes(x, By30);
    OddFactorsDivideOut(a);
    UnfoldUndoes(Times1(a), By27);
    OddFactorsDivideOut(b);
    UnfoldUndoes(Times2(b), By31);
  }

  /** SplitMix64's counter moves by the golden ratio before each output. */
  function Tick(x: bv64): bv64 { x + 0x9e3779b97f4a7c15 }

  /** The constructor's state: four consecutive outputs of SplitMix64. */
  function Seeded(seed: bv64): State {
    var c1 := Tick(seed);
    var c2 := Tick(c1);
    var c3 := Tick(c2);
    State(Scramble(c1), Scramble(c2), Scramble(c3), Scramble(Tick(c3)))
  }

  lemma CountersDiffer(x: bv64)
    ensures Tick(x) != x
    ensures Tick(Tick(x)) != x
    ensures Tick(Tick(Tick(x))) != x
  {
  }

  lemma TickInjective(x: bv64, y: bv64)
    requires Tick(x) == Tick(y)
    ensures x == y
  {
  }

  lemma ScrambleInjective(x: bv64, y: bv64)
    requires x != y
    ensures Scramble(x) != Scramble(y)
  {
    hide Scramble, Unscramble;
    UnscrambleUndoes(x);
    UnscrambleUndoes(y);
  }

  /** The four words of a fresh generator are pairwise different, whatever the seed. */
  lemma SeedWordsDiffer(seed: bv64)
    ensures var s := Seeded(seed);
            s.s0 != s.s1 && s.s0 != s.s2 && s.s0 != s.s3
            && s.s1 != s.s2 && s.s1 != s.s3 && s.s2 != s.s3
  {
    hide Tick, Scramble;
    var c1 := Tick(seed);
    var c2 := Tick(c1);
    var c3 := Tick(c2);
    CountersDiffer(c1);
    CountersDiffer(c2);
    CountersDiffer(c3);
    ScrambleInjective(c1, c2);
    ScrambleInjective(c1, c3);
    ScrambleInjective(c1, Tick(c3));
    ScrambleInjective(c2, c3);
    ScrambleInjective(c2, Tick(c3));
    ScrambleInjective(c3, Tick(c3));
  }

  /** No seed leads to the all-zero state, however many numbers are drawn. */
  lemma SeededNeverAllZero(seed: bv64, n: nat)
    ensures Nexts(Seeded(seed), n) != ZERO
  {
    hide Seeded, Nexts;
    SeedWordsDiffer(seed);
    NeverAllZero(Seeded(seed), n);
  }

  /** Different seeds are in different states after the same number of draws. */
  lemma SeedsStayApart(x: bv64, y: bv64, n: nat)
    requires x != y
    ensures Nexts(Seeded(x), n) != Nexts(Seeded(y), n)
  {
    hide Nexts, Scramble, Tick;
    if Tick(x) == Tick(y) {
      TickInjective(x, y);
    }
    ScrambleInjective(Tick(x), Tick(y));
    NextsInjective(Seeded(x), Seeded(y), n);
  }

  // ---- The jump ----------------------------------------------------------------------------

  /** The XOR of the states at which the tap is set, one step per tap. */
  function Select(taps: seq<bool>, s: State): State {
    if taps == [] then ZERO
    else Add(if taps[0] then s else ZERO, Select(taps[1..], Next(s)))
  }

  function JumpWord(i: nat): bv64 {
    if i == 0 then 0x180ec6d33cfd0aba
    else if i == 1 then 0xd5a61266f0c9392c
    else if i == 2 then 0xa9582618e03fc9aa
    else 0x39abdc4529b1661c
  }

  predicate Tap(i: nat, b: nat)
    requires b < 64
  {
    JumpWord(i) & (1 << b) != 0
  }

  function Taps(): (r: seq<bool>)
    ensures |r| == 256
  {
    seq(256, k requires 0 <= k => Tap(k / 64, k % 64))
  }

  function Jumped(s: State): State { Select(Taps(), s) }

  lemma AddLaws(x: State, y: State, z: State)
    ensures Add(x, ZERO) == x && Add(ZERO, x) == x
    ensures Add(Add(x, y), z) == Add(x, Add(y, z))
  {
    hide Xor;
    XorUnits(x.s0, 0); XorUnits(x.s1, 0); XorUnits(x.s2, 0); XorUnits(x.s3, 0);
    XorAssoc(x.s0, y.s0, z.s0); XorAssoc(x.s1, y.s1, z.s1);
    XorAssoc(x.s2, y.s2, z.s2); XorAssoc(x.s3, y.s3, z.s3);
  }

  /** Whatever the taps, selecting commutes with the step, by linearity. */
  lemma {:induction false} SelectCommutesWithNext(taps: seq<bool>, s: State)
    ensures Select(taps, Next(s)) == Next(Select(taps, s))
  {
    ZeroIsFixed();
    hide Next, Add;
    if taps != [] {
      SelectCommutesWithNext(taps[1..], Next(s));
      NextIsLinear(if taps[0] then s else ZERO, Select(taps[1..], Next(s)));
    }
  }

  lemma {:induction false} SelectCommutesWithNexts(taps: seq<bool>, s: State, n: nat)
    ensures Select(taps, Nexts(s, n)) == Nexts(Select(taps, s), n)
    decreases n
  {
    hide Next, Select;
    if n > 0 {
      SelectCommutesWithNexts(taps, Next(s), n - 1);
      SelectCommutesWithNext(taps, s);
    }
  }

  /** Jumping first or drawing first makes no difference to the state reached. */
  lemma JumpCommutesWithNexts(s: State, n: nat)
    ensures Jumped(Nexts(s, n)) == Nexts(Jumped(s), n)
  {
    hide Next, Nexts, Select, Taps;
    SelectCommutesWithNexts(Taps(), s, n);
  }

  /** One more tap at the end selects the state reached after the taps before it. */
  lemma {:induction false} SelectSnoc(taps: seq<bool>, tap: bool, s: State)
    ensures Select(taps + [tap], s)
         == Add(Select(taps, s), if tap then Nexts(s, |taps|) else ZERO)
  {
    hide Next, Add;
    var last := if tap then Nexts(s, |taps|) else ZERO;
    if taps == [] {
      assert [tap][1..] == [];
      AddLaws(last, ZERO, ZERO);
    } else {
      assert (taps + [tap])[1..] == taps[1..] + [tap];
      SelectSnoc(taps[1..], tap, Next(s));
      AddLaws(if taps[0] then s else ZERO, Select(taps[1..], Next(s)), last);
    }
  }

  lemma {:induction false} NextsSnoc(s: State, n: nat)
    ensures Nexts(s, n + 1) == Next(Nexts(s, n))
    decreases n
  {
    hide Next;
    if n > 0 {
      NextsSnoc(Next(s), n - 1);
    }
  }

  lemma OneMoreTap(done: seq<bool>, tap: bool, s: State)
    ensures Select(done + [tap], s)
         == if tap then Add(Select(done, s), Nexts(s, |done|)) else Select(done, s)
    ensures Nexts(s, |done| + 1) == Next(Nexts(s, |done|))
  {
    hide Next, Add, Select, Nexts;
    NextsSnoc(s, |done|);
    SelectSnoc(done, tap, s);
    AddLaws(Select(done, s), ZERO, ZERO);
  }

  lemma StartOfRun(s: State)
    ensures Nexts(s, 0) == s && Select([], s) == ZERO
  {
  }

  lemma TapAt(i: nat, b: nat)
    requires i < 4 && b < 64
    ensures Taps()[..64 * i + b] + [Tap(i, b)] == Taps()[..64 * i + b + 1]
  {
    assert (64 * i + b) / 64 == i && (64 * i + b) % 64 == b;
    hide Tap;
  }

  // ---- Reference values --------------------------------------------------------------------

  function Draws(s: State, n: nat): (r: seq<bv64>)
    ensures |r| == n
    decreases n
  {
    if n == 0 then [] else [Output(s)] + Draws(Next(s), n - 1)
  }

  lemma ReferenceStep1()
    ensures Output(State(1, 2, 3, 4)) == 41943041
    ensures Next(State(1, 2, 3, 4)) == State(7, 0, 0x40002, 0xc00000000000)
  {
  }

  lemma ReferenceStep2()
    ensures Output(State(7, 0, 0x40002, 0xc00000000000)) == 58720359
    ensures Next(State(7, 0, 0x40002, 0xc00000000000)) == State(0xc00000000007, 0x40005, 0x40005, 0x18000000)
  {
  }

  lemma ReferenceStep3()
    ensures Output(State(0xc00000000007, 0x40005, 0x40005, 0x18000000)) == 3588806011781223
    ensures Next(State(0xc00000000007, 0x40005, 0x40005, 0x18000000)) == State(0xc00018040002, 0xc00000000007, 0xc008000e0002, 0x8000a00000000300)
  {
  }

  lemma ReferenceStep4()
    ensures Output(State(0xc00018040002, 0xc00000000007, 0xc008000e0002, 0x8000a00000000300)) == 3591011842654386
    ensures Next(State(0xc00018040002, 0xc00000000007, 0xc008000e0002, 0x8000a00000000300)) == State(0x8000a00018040305, 0xc008180a0007, 0x8000000818040000, 0x60f0000c000000)
  {
  }

  lemma ReferenceStep5()
    ensures Output(State(0x8000a00018040305, 0xc008180a0007, 0x8000000818040000, 0x60f0000c000000)) == 9228616714210784205
    ensures Next(State(0x8000a00018040305, 0xc008180a0007, 0x8000000818040000, 0x60f0000c000000)) == State(0x806090080c0e0302, 0x6000180a0302, 0x8010901c000e0305, 0x4000e00c06010281)
  {
  }

  lemma ReferenceStep6()
    ensures Output(State(0x806090080c0e0302, 0x6000180a0302, 0x8010901c000e0305, 0x4000e00c06010281)) == 9973669472204895162
    ensures Next(State(0x806090080c0e0302, 0x6000180a0302, 0x8010901c000e0305, 0x4000e00c06010281)) == State(0xc060100412050281, 0x706014140a0305, 0xc07030000a040007, 0x60306800100183c1)
  {
  }

  /** The first six numbers from the state 1, 2, 3, 4 are those of the published generator. */
  lemma ReferenceDraws()
    ensures Draws(State(1, 2, 3, 4), 6)
         == [41943041, 58720359, 3588806011781223,
             3591011842654386, 9228616714210784205, 9973669472204895162]
  {
    ReferenceStep1();
    ReferenceStep2();
    ReferenceStep3();
    ReferenceStep4();
    ReferenceStep5();
    ReferenceStep6();
    hide Next, Output, Draws;
    DrawsUnfold(State(1, 2, 3, 4), 6);
    DrawsUnfold(State(7, 0, 0x40002, 0xc00000000000), 5);
    DrawsUnfold(State(0xc00000000007, 0x40005, 0x40005, 0x18000000), 4);
    DrawsUnfold(State(0xc00018040002, 0xc00000000007, 0xc008000e0002, 0x8000a00000000300), 3);
    DrawsUnfold(State(0x8000a00018040305, 0xc008180a0007, 0x8000000818040000, 0x60f0000c000000), 2);
    DrawsUnfold(State(0x806090080c0e0302, 0x6000180a0302, 0x8010901c000e0305, 0x4000e00c06010281), 1);
    NoDraws(State(0xc060100412050281, 0x706014140a0305, 0xc07030000a040007, 0x60306800100183c1));
  }

  lemma DrawsUnfold(s: State, n: nat)
    requires n > 0
    ensures Draws(s, n) == [Output(s)] + Draws(Next(s), n - 1)
  {
    hide Next, Output;
  }

  lemma NoDraws(s: State)
    ensures Draws(s, 0) == []
  {
  }

  lemma ReferenceSeed1()
    ensures Tick(1234567) == 0x9e3779b97f5d529c && Scramble(0x9e3779b97f5d529c) == 6457827717110365317
  {
  }

  lemma ReferenceSeed2()
    ensures Tick(0x9e3779b97f5d529c) == 0x3c6ef372fea7ceb1 && Scramble(0x3c6ef372fea7ceb1) == 3203168211198807973
  {
  }

  lemma ReferenceSeed3()
    ensures Tick(0x3c6ef372fea7ceb1) == 0xdaa66d2c7df24ac6 && Scramble(0xdaa66d2c7df24ac6) == 9817491932198370423
  {
  }

  lemma ReferenceSeed4()
    ensures Tick(0xdaa66d2c7df24ac6) == 0x78dde6e5fd3cc6db && Scramble(0x78dde6e5fd3cc6db) == 4593380528125082431
  {
  }

  /** The state seeded with 1234567 is the first four numbers of the published SplitMix64. */
  lemma ReferenceSeed()
    ensures Seeded(1234567)
         == State(6457827717110365317, 3203168211198807973,
                  9817491932198370423, 4593380528125082431)
  {
    ReferenceSeed1();
    ReferenceSeed2();
    ReferenceSeed3();
    ReferenceSeed4();
    hide Tick, Scramble;
  }

  /** Tap `b` is the digit of weight 2^b: values at both ends of each word, which a word read from the
      other end would not give. */
  lemma ReferenceTaps()
    ensures !Tap(0, 0) && Tap(0, 1) && !Tap(0, 2) && Tap(0, 60) && !Tap(0, 62) && !Tap(0, 63)
    ensures !Tap(1, 1) && Tap(1, 2) && !Tap(1, 61) && Tap(1, 62) && Tap(1, 63)
    ensures !Tap(2, 0) && Tap(2, 1) && !Tap(2, 62) && Tap(2, 63)
    ensures !Tap(3, 0) && !Tap(3, 1) && Tap(3, 2) && Tap(3, 61) && !Tap(3, 62)
  {
  }

  // ---- The generator object ----------------------------------------------------------------

  class Xoshiro256pp {
    const words: array<bv64>

    ghost predicate Valid() reads this { words.Length == 4 }

    function Value(): State
      requires Valid()
      reads this, words
    {
      State(words[0], words[1], words[2], words[3])
    }

    constructor (seed: bv64)
      ensures Valid() && fresh(words)
      ensures Value() == Seeded(seed)
    {
      words := new bv64[4];
      new;
      hide Scramble, Tick;
      var x, z0 := SplitMix(seed);
      var z1, z2, z3;
      x, z1 := SplitMix(x);
      x, z2 := SplitMix(x);
      x, z3 := SplitMix(x);
      assert State(z0, z1, z2, z3) == Seeded(seed);
      hide Seeded;
      Store(State(z0, z1, z2, z3));
    }

    method Store(s: State)
      requires Valid()
      modifies words
      ensures Value() == s
    {
      words[0], words[1], words[2], words[3] := s.s0, s.s1, s.s2, s.s3;
    }

    /** Draws one number and moves the four words one step on. */
    method Draw() returns (result: bv64)
      requires Valid()
      modifies words
      ensures Value() == Next(old(Value()))
      ensures result == Output(old(Value()))
    {
      hide Xor, Shl17, Rotl45, Rotl23, Plus;
      result := Plus(Rotl23(Plus(words[0], words[3])), words[0]);
      var t := Shl17(words[1]);
      words[2] := Xor(words[2], words[0]);
      words[3] := Xor(words[3], words[1]);
      words[1] := Xor(words[1], words[2]);
      words[0] := Xor(words[0], words[3]);
      words[2] := Xor(words[2], t);
      words[3] := Rotl45(words[3]);
    }

    /** Replaces the state by the XOR of the states at the tapped steps. */
    method Jump()
      requires Valid()
      modifies words
      ensures Value() == Jumped(old(Value()))
    {
      hide Next, Add, Select, Nexts, Tap, Taps, Output;
      ghost var start := Value();
      ghost var done := [];
      var acc := ZERO;
      StartOfRun(start);
      for i := 0 to 4
        invariant |Taps()| == 256 && |done| == 64 * i && done == Taps()[..64 * i]
        invariant Value() == Nexts(start, 64 * i)
        invariant acc == Select(done, start)
      {
        for b := 0 to 64
          invariant |done| == 64 * i + b && done == Taps()[..64 * i + b]
          invariant Value() == Nexts(start, 64 * i + b)
          invariant acc == Select(done, start)
        {
          TapAt(i, b);
          OneMoreTap(done, Tap(i, b), start);
          done := done + [Tap(i, b)];
          if Tap(i, b) {
            acc := Add(acc, Value());
          }
          var _ := Draw();
        }
      }
      assert Taps()[..256] == Taps();
      Store(acc);
    }
  }

  /** One output of SplitMix64 and the counter it leaves behind. */
  method SplitMix(x: bv64) returns (counter: bv64, z: bv64)
    ensures counter == Tick(x)
    ensures z == Scramble(counter)
  {
    hide Shr, Xor, Times1, Times2, Tick;
    counter := Tick(x);
    z := counter;
    z := Times1(Xor(z, Shr(z, By30)));
    z := Times2(Xor(z, Shr(z, By27)));
    z := Xor(z, Shr(z, By31));
  }
}
