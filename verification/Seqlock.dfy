/** The seqlock of one cache entry: a writer storing field by field between two bumps of the
    counter, and any number of readers running the retry loop, sequentially consistent. */
module Seqlock {
  import opened Protocol
  import C = Cache

  const FIELDS := 9

  /** Copies field `k` of `src` into `dst`. */
  function CopyField(k: nat, dst: C.MarketState, src: C.MarketState): C.MarketState {
    match k
    case 0 => dst.(bestBid := src.bestBid)
    case 1 => dst.(bestAsk := src.bestAsk)
    case 2 => dst.(bidQuantity := src.bidQuantity)
    case 3 => dst.(askQuantity := src.askQuantity)
    case 4 => dst.(lastUpdateTime := src.lastUpdateTime)
    case 5 => dst.(updateCount := src.updateCount)
    case 6 => dst.(openPrice := src.openPrice)
    case 7 => dst.(lastTradedPrice := src.lastTradedPrice)
    case 8 => dst.(lastTradedQuantity := src.lastTradedQuantity)
    case _ => dst
  }

  /** The fields an update stores, in program order; `openPrice` only while it is zero. */
  function Stores(s: C.MarketState, u: C.Update): (ks: seq<nat>) {
    (if u.QuoteUpdate? then [0, 1, 2, 3, 4, 5] else [7, 8, 4, 5]) + (if s.openPrice == 0.0 then [6] else [])
  }

  /** One store. */
  function StoreField(k: nat, s: C.MarketState, u: C.Update): C.MarketState {
    if k == 4 then s.(lastUpdateTime := u.time)
    else if k == 5 then s.(updateCount := s.updateCount + 1)
    else if k == 6 then s.(openPrice := u.Reference())
    else
      match u
      case QuoteUpdate(bid, bidQty, ask, askQty, _) =>
        if k == 0 then s.(bestBid := bid)
        else if k == 1 then s.(bestAsk := ask)
        else if k == 2 then s.(bidQuantity := bidQty)
        else if k == 3 then s.(askQuantity := askQty)
        else s
      case TradeUpdate(price, qty, _) =>
        if k == 7 then s.(lastTradedPrice := price)
        else if k == 8 then s.(lastTradedQuantity := qty)
        else s
  }

  datatype Writer =
    | Idle
    | Writing(update: C.Update, todo: seq<nat>)  // between the two bumps

  datatype Pc =
    | Top                     // about to load seq1
    | Copying(done: set<nat>) // seq1 was even
    | Test                    // the `while` condition
    | Returned

  /** A reader in `get_snapshot`.  History: `loaded` records whether `seq2` was loaded in this
      iteration, `start` and `finish` how many bumps had happened when `seq1` and `seq2` were. */
  datatype Reader = Reader(pc: Pc, seq1: u32, seq2: u32, s: C.MarketState,
                           loaded: bool, start: nat, finish: nat)

  /** History: `bumps` counts the stores to the counter, `updates` lists the completed updates. */
  datatype Entry = Entry(sq: u32, state: C.MarketState, writer: Writer, readers: seq<Reader>,
                         bumps: nat, updates: seq<C.Update>)

  datatype Step =
    | Begin(u: C.Update)           // seqlock_write_begin
    | Store                        // the next field
    | End                          // seqlock_write_end
    | LoadSeq1(r: nat)
    | CopyOne(r: nat, field: nat)  // one field of `s = e.state`, in any order
    | LoadSeq2(r: nat)
    | TestLoop(r: nat)

  function Bumped(e: Entry): Entry {
    e.(sq := (e.sq as int + 1) % SEQ_WRAP, bumps := e.bumps + 1)
  }

  predicate AllCopied(done: set<nat>) {
    forall k: nat :: k < FIELDS ==> k in done
  }

  function NextReader(e: Entry, r: Reader, a: Step): Reader {
    match a
    case LoadSeq1(_) =>
      if !r.pc.Top? then r
      else if e.sq % 2 == 1 then
        // `continue` jumps to the loop test, where seq2 is whatever it was
        r.(seq1 := e.sq, pc := Test, loaded := false, start := e.bumps)
      else r.(seq1 := e.sq, pc := Copying({}), start := e.bumps)
    case CopyOne(_, k) =>
      if r.pc.Copying? && k < FIELDS
      then r.(s := CopyField(k, r.s, e.state), pc := Copying(r.pc.done + {k})) else r
    case LoadSeq2(_) =>
      if r.pc.Copying? && AllCopied(r.pc.done)
      then r.(seq2 := e.sq, pc := Test, loaded := true, finish := e.bumps) else r
    case TestLoop(_) =>
      if r.pc.Test? then r.(pc := if r.seq1 != r.seq2 then Top else Returned) else r
    case _ => r
  }

  function Next(e: Entry, a: Step): Entry {
    match a
    case Begin(u) =>
      if e.writer.Idle? then Bumped(e.(writer := Writing(u, Stores(e.state, u)))) else e
    case Store =>
      if e.writer.Writing? && |e.writer.todo| > 0
      then e.(state := StoreField(e.writer.todo[0], e.state, e.writer.update),
              writer := Writing(e.writer.update, e.writer.todo[1..]))
      else e
    case End =>
      if e.writer.Writing? && |e.writer.todo| == 0
      then Bumped(e.(writer := Idle, updates := e.updates + [e.writer.update])) else e
    case _ =>
      if a.r < |e.readers| then e.(readers := e.readers[a.r := NextReader(e, e.readers[a.r], a)]) else e
  }

  function Run(e: Entry, steps: seq<Step>): (r: Entry)
    ensures |r.readers| == |e.readers|
    decreases |steps|
  {
    if |steps| == 0 then e else Run(Next(e, steps[0]), steps[1..])
  }

  /** A reader at the start of a call; `seq2` is uninitialised, so any value. */
  function Calling(seq2: u32): Reader {
    Reader(Top, 0, seq2, C.BLANK, false, 0, 0)
  }

  function Start(seq2s: seq<u32>): Entry {
    Entry(0, C.BLANK, Idle, seq(|seq2s|, i requires 0 <= i < |seq2s| => Calling(seq2s[i])), 0, [])
  }

  // ---- The invariant -----------------------------------------------------------------------

  /** Field `k` is the same in both. */
  predicate Same(k: nat, a: C.MarketState, b: C.MarketState) {
    CopyField(k, a, b) == a
  }

  ghost predicate WriterInv(e: Entry) {
    var before := C.Replay(e.updates);
    && e.sq == e.bumps % SEQ_WRAP
    && e.bumps == 2 * |e.updates| + (if e.writer.Idle? then 0 else 1)
    && match e.writer
       case Idle => e.state == before
       case Writing(u, todo) =>
         && (forall i, j :: 0 <= i < j < |todo| ==> todo[i] != todo[j])
         && (forall i :: 0 <= i < |todo| ==> todo[i] in Stores(before, u))
         && forall k: nat :: k < FIELDS ==> Same(k, e.state, if k in todo then before else C.Step(before, u))
  }

  ghost predicate ReaderInv(e: Entry, r: Reader) {
    && r.start <= e.bumps
    && (!r.pc.Top? ==> r.seq1 == r.start % SEQ_WRAP)
    && (r.pc.Copying? ==> r.start % 2 == 0)
    && (r.pc.Copying? && r.start == e.bumps ==>
          forall k: nat :: k < FIELDS && k in r.pc.done ==> Same(k, r.s, e.state))
    && (r.pc.Test? || r.pc.Returned? ==> (r.loaded <==> r.start % 2 == 0))
    && ((r.pc.Test? || r.pc.Returned?) && r.loaded ==>
          && r.seq2 == r.finish % SEQ_WRAP && r.start <= r.finish <= e.bumps
          && (r.start == r.finish ==> r.start / 2 <= |e.updates| && r.s == C.Replay(e.updates[..r.start / 2])))
    && (r.pc.Returned? ==> r.seq1 == r.seq2)
  }

  ghost predicate Inv(e: Entry) {
    WriterInv(e) && forall i :: 0 <= i < |e.readers| ==> ReaderInv(e, e.readers[i])
  }

  lemma AllSameIsEqual(a: C.MarketState, b: C.MarketState)
    requires forall k: nat :: k < FIELDS ==> Same(k, a, b)
    ensures a == b
  {
    assert Same(0, a, b) && Same(1, a, b) && Same(2, a, b) && Same(3, a, b) && Same(4, a, b);
    assert Same(5, a, b) && Same(6, a, b) && Same(7, a, b) && Same(8, a, b);
  }

  /** Fields an update does not store it does not change. */
  lemma UntouchedFields(s: C.MarketState, u: C.Update, k: nat)
    requires k < FIELDS && k !in Stores(s, u)
    ensures Same(k, s, C.Step(s, u))
  {
    assert forall x :: x in [0, 1, 2, 3, 4, 5] <==> 0 <= x <= 5;
    assert forall x :: x in [7, 8, 4, 5] <==> x == 7 || x == 8 || x == 4 || x == 5;
  }

  /** A store brings its own field to the target and leaves the others as they were. */
  lemma StoreReaches(before: C.MarketState, s: C.MarketState, u: C.Update, f: nat)
    requires f in Stores(before, u) && Same(f, s, before)
    ensures var s' := StoreField(f, s, u);
      Same(f, s', C.Step(before, u))
      && forall k: nat, t: C.MarketState :: k < FIELDS && k != f ==> Same(k, s', t) == Same(k, s, t)
  {
    assert f in [0, 1, 2, 3, 4, 5, 6, 7, 8];
  }

  lemma StoresAreFields(s: C.MarketState, u: C.Update, k: nat)
    requires k in Stores(s, u)
    ensures k < FIELDS
  {
    assert k in [0, 1, 2, 3, 4, 5, 6, 7, 8];
  }

  lemma StoreKeeps(e: Entry)
    requires WriterInv(e)
    ensures WriterInv(Next(e, Store))
  {
    if e.writer.Writing? && |e.writer.todo| > 0 {
      var before, u, todo := C.Replay(e.updates), e.writer.update, e.writer.todo;
      var f, rest := todo[0], todo[1..];
      hide StoreField, Same, Stores, C.Step, C.Replay;
      assert f in todo && f in Stores(before, u);
      StoresAreFields(before, u, f);
      StoreReaches(before, e.state, u, f);
      var s' := StoreField(f, e.state, u);
      forall k: nat | k < FIELDS
        ensures Same(k, s', if k in rest then before else C.Step(before, u))
      {
        if k == f {
          assert f !in rest;
        } else {
          assert k in todo <==> k in rest;
        }
      }
    }
  }

  lemma BeginKeeps(e: Entry, u: C.Update)
    requires WriterInv(e)
    ensures WriterInv(Next(e, Begin(u)))
  {
    if e.writer.Idle? {
      var before := e.state;
      forall k: nat | k < FIELDS
        ensures Same(k, before, if k in Stores(before, u) then before else C.Step(before, u))
      {
        if k !in Stores(before, u) {
          UntouchedFields(before, u, k);
        }
      }
      DistinctStores(before, u);
    }
  }

  lemma DistinctStores(s: C.MarketState, u: C.Update)
    ensures var ks := Stores(s, u);
      forall i, j :: 0 <= i < j < |ks| ==> ks[i] != ks[j]
  {
  }

  lemma EndKeeps(e: Entry)
    requires WriterInv(e)
    ensures WriterInv(Next(e, End))
  {
    if e.writer.Writing? && |e.writer.todo| == 0 {
      var u := e.writer.update;
      var target := C.Step(C.Replay(e.updates), u);
      forall k: nat | k < FIELDS
        ensures Same(k, e.state, target)
      {
        assert k !in e.writer.todo;
      }
      AllSameIsEqual(e.state, C.Step(C.Replay(e.updates), u));
      assert (e.updates + [u])[..|e.updates|] == e.updates;
    }
  }

  /** What a writer step may do, as far as a reader can tell. */
  ghost predicate WriterMoved(e: Entry, e': Entry) {
    && e.readers == e'.readers
    && e.updates <= e'.updates && e.bumps <= e'.bumps
    && (e.bumps == e'.bumps && e.bumps % 2 == 0 ==> e.state == e'.state)
  }

  lemma ReaderUnharmed(e: Entry, e': Entry, r: Reader)
    requires WriterMoved(e, e') && ReaderInv(e, r)
    ensures ReaderInv(e', r)
  {
    if (r.pc.Test? || r.pc.Returned?) && r.loaded && r.start == r.finish {
      assert e'.updates[..r.start / 2] == e.updates[..r.start / 2];
    }
  }

  /** Copying field `k` settles it and spoils no other field. */
  lemma CopyFieldSettles(k: nat, dst: C.MarketState, src: C.MarketState)
    requires k < FIELDS
    ensures Same(k, CopyField(k, dst, src), src)
    ensures forall j: nat :: j < FIELDS && j != k ==> Same(j, CopyField(k, dst, src), src) == Same(j, dst, src)
  {
  }

  lemma ReaderStepKeeps(e: Entry, r: Reader, a: Step)
    requires WriterInv(e) && ReaderInv(e, r)
    ensures ReaderInv(e, NextReader(e, r, a))
  {
    match a
    case LoadSeq1(_) =>
      Parity(e.bumps);
    case CopyOne(_, k) =>
      if r.pc.Copying? && k < FIELDS {
        CopyFieldSettles(k, r.s, e.state);
      }
    case LoadSeq2(_) =>
      if r.pc.Copying? && AllCopied(r.pc.done) && r.start == e.bumps {
        AllSameIsEqual(r.s, e.state);
        assert e.updates[..|e.updates|] == e.updates;
      }
    case _ =>
  }

  lemma Parity(n: nat)
    ensures (n % SEQ_WRAP) % 2 == n % 2
  {
  }

  lemma WriterStepMoves(e: Entry, a: Step)
    requires WriterInv(e) && (a.Begin? || a.Store? || a.End?)
    ensures WriterMoved(e, Next(e, a))
  {
  }

  lemma NextKeeps(e: Entry, a: Step)
    requires Inv(e)
    ensures Inv(Next(e, a))
  {
    hide WriterInv, ReaderInv, WriterMoved, NextReader;
    match a {
      case Begin(u) => BeginKeeps(e, u); WriterStepMoves(e, a);
      case Store => StoreKeeps(e); WriterStepMoves(e, a);
      case End => EndKeeps(e); WriterStepMoves(e, a);
      case _ =>
        ReadersAreInvisible(e, a);
        if a.r < |e.readers| {
          ReaderStepKeeps(e, e.readers[a.r], a);
        }
    }
    var e' := Next(e, a);
    forall i | 0 <= i < |e'.readers|
      ensures ReaderInv(e', e'.readers[i])
    {
      if a.Begin? || a.Store? || a.End? {
        SameReaders(e, a);
        ReaderUnharmed(e, e', e.readers[i]);
      } else if a.r < |e.readers| {
        ReaderInvFrame(e, e', e'.readers[i]);
      }
    }
  }

  lemma SameReaders(e: Entry, a: Step)
    requires a.Begin? || a.Store? || a.End?
    ensures Next(e, a).readers == e.readers
  {
  }

  lemma ReadersAreInvisible(e: Entry, a: Step)
    requires WriterInv(e) && !(a.Begin? || a.Store? || a.End?)
    ensures WriterInv(Next(e, a))
  {
  }

  lemma ReaderInvFrame(e: Entry, e': Entry, r: Reader)
    requires ReaderInv(e, r) && e'.bumps == e.bumps && e'.state == e.state && e'.updates == e.updates
    ensures ReaderInv(e', r)
  {
  }

  lemma {:induction false} RunKeeps(e: Entry, steps: seq<Step>)
    requires Inv(e)
    ensures Inv(Run(e, steps))
    decreases |steps|
  {
    if |steps| > 0 {
      NextKeeps(e, steps[0]);
      RunKeeps(Next(e, steps[0]), steps[1..]);
    }
  }

  // ---- What readers get --------------------------------------------------------------------

  lemma SameCounterSameTime(start: nat, finish: nat)
    requires start <= finish < start + SEQ_WRAP && start % SEQ_WRAP == finish % SEQ_WRAP
    ensures start == finish
  {
  }

  lemma EvenExit(e: Entry, i: nat)
    requires Inv(e) && i < |e.readers|
    ensures var r := e.readers[i];
      r.pc.Returned? && r.seq1 % 2 == 0 ==>
        && r.loaded
        && (r.finish - r.start < SEQ_WRAP ==>
              r.start / 2 <= |e.updates| && r.s == C.Replay(e.updates[..r.start / 2]))
  {
    var r := e.readers[i];
    assert ReaderInv(e, r);
    if r.pc.Returned? && r.seq1 % 2 == 0 {
      Parity(r.start);
      if r.finish - r.start < SEQ_WRAP {
        SameCounterSameTime(r.start, r.finish);
      }
    }
  }

  /** In every interleaving, a snapshot returned with an even `seq1` was copied between two equal
      loads of the counter, and with fewer than 2^31 writes during the copy it is exactly the state
      published when `seq1` was loaded: the replay of a prefix of the updates, never a mix. */
  lemma EvenExitIsPublished(seq2s: seq<u32>, steps: seq<Step>, i: nat)
    requires i < |Run(Start(seq2s), steps).readers|
    ensures var e := Run(Start(seq2s), steps);
      var r := e.readers[i];
      r.pc.Returned? && r.seq1 % 2 == 0 ==>
        && r.loaded
        && (r.finish - r.start < SEQ_WRAP ==>
              r.start / 2 <= |e.updates| && r.s == C.Replay(e.updates[..r.start / 2]))
  {
    StartIsInv(seq2s);
    RunKeeps(Start(seq2s), steps);
    EvenExit(Run(Start(seq2s), steps), i);
  }

  /** The other exits are those where `continue` met a `seq2` left over from before. */
  lemma OddExitIsStale(seq2s: seq<u32>, steps: seq<Step>, i: nat)
    requires i < |Run(Start(seq2s), steps).readers|
    ensures var r := Run(Start(seq2s), steps).readers[i];
      r.pc.Returned? ==> (r.seq1 % 2 == 1 <==> !r.loaded)
  {
    StartIsInv(seq2s);
    RunKeeps(Start(seq2s), steps);
    var e := Run(Start(seq2s), steps);
    assert ReaderInv(e, e.readers[i]);
    Parity(e.readers[i].start);
  }

  lemma StartIsInv(seq2s: seq<u32>)
    ensures Inv(Start(seq2s))
  {
  }

  // ---- Nothing keeps a writer or an undisturbed reader from finishing ----------------------

  /** The copy of the fields from `k` on by reader `i`. */
  function CopyFrom(i: nat, k: nat): seq<Step>
    decreases FIELDS - k
  {
    if k >= FIELDS then [] else [CopyOne(i, k)] + CopyFrom(i, k + 1)
  }

  lemma {:induction false} CopyRest(e: Entry, i: nat, k: nat)
    requires i < |e.readers| && e.readers[i].pc.Copying? && k <= FIELDS
    requires forall j: nat :: j < k ==> j in e.readers[i].pc.done && Same(j, e.readers[i].s, e.state)
    ensures var e' := Run(e, CopyFrom(i, k));
      |e'.readers| == |e.readers| && e'.readers[i].pc.Copying? && AllCopied(e'.readers[i].pc.done)
      && e' == e.(readers := e.readers[i := e.readers[i].(s := e.state, pc := e'.readers[i].pc)])
    decreases FIELDS - k
  {
    var r := e.readers[i];
    if k == FIELDS {
      AllSameIsEqual(r.s, e.state);
      assert e.readers[i := r] == e.readers;
    } else {
      CopyFieldSettles(k, r.s, e.state);
      var n := Next(e, CopyOne(i, k));
      assert n.readers[i] == NextReader(e, r, CopyOne(i, k));
      CopyRest(n, i, k + 1);
      assert CopyFrom(i, k)[1..] == CopyFrom(i, k + 1);
    }
  }

  function ReadAlone(i: nat): seq<Step> {
    [LoadSeq1(i)] + (CopyFrom(i, 0) + [LoadSeq2(i), TestLoop(i)])
  }

  /** With the writer idle, a reader left alone needs one pass, and gets the replay of all updates. */
  lemma ReaderCompletes(e: Entry, i: nat)
    requires Inv(e) && i < |e.readers| && e.readers[i].pc.Top? && e.writer.Idle?
    ensures var r := Run(e, ReadAlone(i)).readers[i];
      r.pc.Returned? && r.seq1 % 2 == 0 && r.loaded && r.s == C.Replay(e.updates)
  {
    IdleIsEven(e);
    hide Inv, C.Replay, Next;
    ReadBegins(e, i);
    var e1 := Next(e, LoadSeq1(i));
    OneStep(e, LoadSeq1(i));
    RunConcat(e, [LoadSeq1(i)], CopyFrom(i, 0) + [LoadSeq2(i), TestLoop(i)]);
    RunConcat(e1, CopyFrom(i, 0), [LoadSeq2(i), TestLoop(i)]);
    CopyRest(e1, i, 0);
    var e2 := Run(e1, CopyFrom(i, 0));
    ReadEnds(e2, i);
    hide Run, CopyFrom;
  }

  lemma ReadBegins(e: Entry, i: nat)
    requires i < |e.readers| && e.readers[i].pc.Top? && e.sq % 2 == 0
    ensures var e' := Next(e, LoadSeq1(i));
      && |e'.readers| == |e.readers| && e'.readers[i].pc == Copying({}) && e'.readers[i].seq1 == e.sq
      && e'.sq == e.sq && e'.state == e.state
  {
  }

  lemma ReadEnds(e: Entry, i: nat)
    requires i < |e.readers| && e.readers[i].pc.Copying? && AllCopied(e.readers[i].pc.done)
    requires e.readers[i].seq1 == e.sq
    ensures var r := Run(e, [LoadSeq2(i), TestLoop(i)]).readers[i];
      r.pc.Returned? && r.seq1 == e.sq && r.loaded && r.s == e.readers[i].s
  {
    TwoSteps(e, LoadSeq2(i), TestLoop(i));
    hide Run, AllCopied;
    var m := Next(e, LoadSeq2(i));
    assert m.readers[i] == NextReader(e, e.readers[i], LoadSeq2(i));
  }

  lemma IdleIsEven(e: Entry)
    requires Inv(e) && e.writer.Idle?
    ensures e.sq % 2 == 0 && e.state == C.Replay(e.updates)
  {
    Parity(e.bumps);
    hide C.Replay, ReaderInv;
  }

  function WriteAlone(s: C.MarketState, u: C.Update): seq<Step> {
    [Begin(u)] + (seq(|Stores(s, u)|, _ => Store) + [End])
  }

  lemma {:induction false} StoresEnd(e: Entry, n: nat)
    requires e.writer.Writing? && |e.writer.todo| == n
    ensures var e' := Run(e, seq(n, _ => Store));
      e'.writer == Writing(e.writer.update, []) && e'.updates == e.updates && e'.readers == e.readers
    decreases n
  {
    hide StoreField;
    if n > 0 {
      assert seq(n, _ => Store)[1..] == seq(n - 1, _ => Store);
      StoresEnd(Next(e, Store), n - 1);
    }
  }

  /** An update left alone completes: the entry is idle again, with that update published. */
  lemma WriterCompletes(e: Entry, u: C.Update)
    requires Inv(e) && e.writer.Idle?
    ensures var e' := Run(e, WriteAlone(e.state, u));
      e'.writer.Idle? && e'.updates == e.updates + [u] && e'.state == C.Replay(e.updates + [u])
      && e'.sq == (e.sq as int + 2) % SEQ_WRAP
  {
    var e1 := Next(e, Begin(u));
    var n := |Stores(e.state, u)|;
    var stores := seq(n, _ => Store);
    OneStep(e, Begin(u));
    RunConcat(e, [Begin(u)], stores + [End]);
    RunConcat(e1, stores, [End]);
    StoresEnd(e1, n);
    var e2 := Run(e1, stores);
    OneStep(e2, End);
    RunKeeps(e, WriteAlone(e.state, u));
    var e' := Run(e, WriteAlone(e.state, u));
    assert e' == Next(e2, End);
    TwoBumps(|e.updates|);
    hide Run, C.Replay, ReaderInv, Stores, StoreField;
  }

  lemma TwoBumps(n: nat)
    ensures (2 * (n + 1)) % SEQ_WRAP == ((2 * n) % SEQ_WRAP + 2) % SEQ_WRAP
  {
  }

  lemma OneStep(e: Entry, a: Step)
    ensures Run(e, [a]) == Next(e, a)
  {
    hide Next;
    assert [a][1..] == [];
  }

  lemma {:induction false} RunConcat(e: Entry, a: seq<Step>, b: seq<Step>)
    ensures Run(e, a + b) == Run(Run(e, a), b)
    decreases |a|
  {
    if |a| == 0 {
      assert a + b == b;
    } else {
      assert (a + b)[1..] == a[1..] + b;
      RunConcat(Next(e, a[0]), a[1..], b);
    }
  }

  lemma TwoSteps(e: Entry, a: Step, b: Step)
    ensures Run(e, [a, b]) == Next(Next(e, a), b)
  {
    assert [a, b][1..] == [b] && [b][1..] == [];
    assert Run(Next(e, a), [b]) == Next(Next(e, a), b);
  }

  // ---- A run that returns a mix ------------------------------------------------------------

  /** First iteration: an even `seq1`, then the writer bumps and stores the bid. */
  lemma MixBegins(seq2: u32, u: C.Update)
    requires u.QuoteUpdate?
    ensures var e := Run(Start([seq2]), [LoadSeq1(0), Begin(u)] + [Store]);
      && e.readers == [Calling(seq2).(pc := Copying({}))] && e.sq == 1
      && e.state == C.BLANK.(bestBid := u.bid) && e.updates == []
      && e.writer.Writing? && e.writer.update == u
  {
    var e0 := Start([seq2]);
    assert e0.readers == [Calling(seq2)];
    TwoSteps(e0, LoadSeq1(0), Begin(u));
    RunConcat(e0, [LoadSeq1(0), Begin(u)], [Store]);
    var e1 := Run(e0, [LoadSeq1(0), Begin(u)]);
    assert e1.writer.todo == [0, 1, 2, 3, 4, 5, 6];
    assert [Store][1..] == [];
    assert Run(e1, [Store]) == Next(e1, Store);
  }

  /** After the copy: `seq2` differs, so the loop goes round; then `seq1` equals the old `seq2`. */
  lemma MixEnds(e: Entry)
    requires |e.readers| == 1 && e.sq == 1
    requires e.readers[0].pc.Copying? && AllCopied(e.readers[0].pc.done) && e.readers[0].seq1 == 0
    ensures var e' := Run(e, [LoadSeq2(0), TestLoop(0)] + [LoadSeq1(0), TestLoop(0)]);
      && |e'.readers| == 1 && e'.readers[0].pc.Returned? && e'.readers[0].s == e.readers[0].s
      && e'.updates == e.updates && e'.writer == e.writer
  {
    TwoSteps(e, LoadSeq2(0), TestLoop(0));
    var m := Run(e, [LoadSeq2(0), TestLoop(0)]);
    TwoSteps(m, LoadSeq1(0), TestLoop(0));
    RunConcat(e, [LoadSeq2(0), TestLoop(0)], [LoadSeq1(0), TestLoop(0)]);
  }

  function MixSteps(u: C.Update): seq<Step> {
    ([LoadSeq1(0), Begin(u)] + [Store]) + (CopyFrom(0, 0) + ([LoadSeq2(0), TestLoop(0)] + [LoadSeq1(0), TestLoop(0)]))
  }

  /** The retry loop can exit through `continue`: for any first quote with a non-zero bid, and
      whatever `seq2` held, this run returns the new bid over otherwise blank fields, which is
      neither the state before the update nor the one after it. */
  lemma StaleExitReturnsMix(seq2: u32, u: C.Update)
    requires u.QuoteUpdate? && u.bid != 0.0
    ensures var e := Run(Start([seq2]), MixSteps(u));
      && |e.readers| == 1 && e.readers[0].pc.Returned?
      && e.updates == [] && e.writer.Writing? && e.writer.update == u
      && e.readers[0].s == C.BLANK.(bestBid := u.bid)
      && e.readers[0].s != C.Replay([]) && e.readers[0].s != C.Replay([u])
  {
    hide Run, Next, CopyFrom, Start;
    var first, last := [LoadSeq1(0), Begin(u)] + [Store], [LoadSeq2(0), TestLoop(0)] + [LoadSeq1(0), TestLoop(0)];
    RunConcat(Start([seq2]), first, CopyFrom(0, 0) + last);
    MixBegins(seq2, u);
    var e2 := Run(Start([seq2]), first);
    RunConcat(e2, CopyFrom(0, 0), last);
    CopyRest(e2, 0, 0);
    MixEnds(Run(e2, CopyFrom(0, 0)));
    C.ReplayMeans([u]);
    C.ReplayMeans([]);
  }
}
