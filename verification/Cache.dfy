/** `SymbolCache` as its one writer sees it, and its agreement with a per-symbol replay.
    Prices are reals here; `price` maps the eight bytes on the wire to one. */
module Cache {
  import opened Protocol
  import opened Frames
  import P = Parsing

  datatype MarketState = MarketState(bestBid: real, bestAsk: real, bidQuantity: u32, askQuantity: u32,
                                     lastTradedPrice: real, lastTradedQuantity: u32,
                                     lastUpdateTime: u64, updateCount: nat, openPrice: real)

  const BLANK := MarketState(0.0, 0.0, 0, 0, 0.0, 0, 0, 0, 0.0)

  datatype Update =
    | QuoteUpdate(bid: real, bidQty: u32, ask: real, askQty: u32, time: u64)
    | TradeUpdate(price: real, qty: u32, time: u64)
  {
    /** The price an update offers as the opening price. */
    function Reference(): real {
      match this
      case QuoteUpdate(b, _, a, _, _) => (b + a) * 0.5
      case TradeUpdate(p, _, _) => p
    }
  }

  /** The state an update leaves behind. */
  function Step(s: MarketState, u: Update): MarketState {
    var counted := s.(lastUpdateTime := u.time, updateCount := s.updateCount + 1,
                      openPrice := if s.openPrice == 0.0 then u.Reference() else s.openPrice);
    match u
    case QuoteUpdate(b, bq, a, aq, _) =>
      counted.(bestBid := b, bestAsk := a, bidQuantity := bq, askQuantity := aq)
    case TradeUpdate(p, q, _) =>
      counted.(lastTradedPrice := p, lastTradedQuantity := q)
  }

  function Replay(us: seq<Update>): MarketState {
    if |us| == 0 then BLANK else Step(Replay(us[..|us| - 1]), us[|us| - 1])
  }

  function UpdateOf(f: Frame, price: u64 -> real): Update
    requires !f.Heartbeat?
  {
    if f.Quote? then QuoteUpdate(price(f.bidPrice), f.bidQty, price(f.askPrice), f.askQty, f.timestamp)
    else TradeUpdate(price(f.price), f.quantity, f.timestamp)
  }

  /** The updates one symbol receives from a list of messages. */
  function Own(fs: seq<Frame>, symbol: nat, price: u64 -> real): seq<Update> {
    if |fs| == 0 then []
    else
      var init, f := Own(fs[..|fs| - 1], symbol, price), fs[|fs| - 1];
      if !f.Heartbeat? && f.symbol == symbol then init + [UpdateOf(f, price)] else init
  }

  /** One half of a write section: the counter goes odd, then even again, also across the wrap. */
  function Bump(s: u32): u32 {
    (s as int + 1) % SEQ_WRAP
  }

  /** A further update of one symbol; symbols out of range are ignored. */
  ghost function Logged(history: seq<seq<Update>>, symbol: nat, u: Update): (r: seq<seq<Update>>)
    ensures |r| == |history|
  {
    if symbol < |history| then history[symbol := history[symbol] + [u]] else history
  }

  class SymbolCache {
    const states: array<MarketState>
    const seqs: array<u32>
    ghost var history: seq<seq<Update>>  // the updates of each symbol since construction

    /** Between calls every sequence counter is even, and every state is the replay of its updates. */
    ghost predicate Valid()
      reads this, states, seqs
    {
      && seqs.Length == states.Length == |history|
      && (forall i :: 0 <= i < seqs.Length ==> seqs[i] % 2 == 0)
      && forall i :: 0 <= i < states.Length ==> states[i] == Replay(history[i])
    }

    constructor (numSymbols: nat)
      ensures Valid() && fresh(states) && fresh(seqs)
      ensures |history| == numSymbols && forall k :: 0 <= k < numSymbols ==> history[k] == []
    {
      states := new MarketState[numSymbols](_ => BLANK);
      seqs := new u32[numSymbols](_ => 0);
      history := seq(numSymbols, _ => []);
    }

    /** The stores between the two bumps of the counter, field by field. */
    method StoreQuote(symbol: u16, bid: real, bidQty: u32, ask: real, askQty: u32, ts: u64)
      requires symbol < states.Length == seqs.Length
      modifies states, seqs
      ensures states[..] == old(states[..])[symbol := Step(old(states[symbol]), QuoteUpdate(bid, bidQty, ask, askQty, ts))]
      ensures seqs[..] == old(seqs[..])[symbol := Bump(Bump(old(seqs[symbol])))]
    {
      seqs[symbol] := Bump(seqs[symbol]);
      states[symbol] := states[symbol].(bestBid := bid);
      states[symbol] := states[symbol].(bestAsk := ask);
      states[symbol] := states[symbol].(bidQuantity := bidQty);
      states[symbol] := states[symbol].(askQuantity := askQty);
      states[symbol] := states[symbol].(lastUpdateTime := ts);
      states[symbol] := states[symbol].(updateCount := states[symbol].updateCount + 1);
      if states[symbol].openPrice == 0.0 {
        states[symbol] := states[symbol].(openPrice := (bid + ask) * 0.5);
      }
      seqs[symbol] := Bump(seqs[symbol]);
    }

    method UpdateQuote(symbol: u16, bid: real, bidQty: u32, ask: real, askQty: u32, ts: u64)
      requires Valid()
      modifies this, states, seqs
      ensures Valid()
      ensures history == Logged(old(history), symbol, QuoteUpdate(bid, bidQty, ask, askQty, ts))
      ensures forall k :: 0 <= k < seqs.Length ==>
        seqs[k] == if k == symbol then (old(seqs[k]) as int + 2) % 0x1_0000_0000 else old(seqs[k])
    {
      if symbol >= states.Length {
        return;
      }
      hide Replay, Bump, Step;
      ReplaySnoc(history[symbol], QuoteUpdate(bid, bidQty, ask, askQty, ts));
      BumpedTwice(seqs[symbol]);
      StoreQuote(symbol, bid, bidQty, ask, askQty, ts);
      assert forall k :: 0 <= k < states.Length ==> states[k] == states[..][k] && seqs[k] == seqs[..][k];
      history := Logged(history, symbol, QuoteUpdate(bid, bidQty, ask, askQty, ts));
    }

    /** The stores between the two bumps of the counter, field by field. */
    method StoreTrade(symbol: u16, price: real, qty: u32, ts: u64)
      requires symbol < states.Length == seqs.Length
      modifies states, seqs
      ensures states[..] == old(states[..])[symbol := Step(old(states[symbol]), TradeUpdate(price, qty, ts))]
      ensures seqs[..] == old(seqs[..])[symbol := Bump(Bump(old(seqs[symbol])))]
    {
      seqs[symbol] := Bump(seqs[symbol]);
      states[symbol] := states[symbol].(lastTradedPrice := price);
      states[symbol] := states[symbol].(lastTradedQuantity := qty);
      states[symbol] := states[symbol].(lastUpdateTime := ts);
      states[symbol] := states[symbol].(updateCount := states[symbol].updateCount + 1);
      if states[symbol].openPrice == 0.0 {
        states[symbol] := states[symbol].(openPrice := price);
      }
      seqs[symbol] := Bump(seqs[symbol]);
    }

    method UpdateTrade(symbol: u16, price: real, qty: u32, ts: u64)
      requires Valid()
      modifies this, states, seqs
      ensures Valid()
      ensures history == Logged(old(history), symbol, TradeUpdate(price, qty, ts))
      ensures forall k :: 0 <= k < seqs.Length ==>
        seqs[k] == if k == symbol then (old(seqs[k]) as int + 2) % 0x1_0000_0000 else old(seqs[k])
    {
      if symbol >= states.Length {
        return;
      }
      hide Replay, Bump, Step;
      ReplaySnoc(history[symbol], TradeUpdate(price, qty, ts));
      BumpedTwice(seqs[symbol]);
      StoreTrade(symbol, price, qty, ts);
      assert forall k :: 0 <= k < states.Length ==> states[k] == states[..][k] && seqs[k] == seqs[..][k];
      history := Logged(history, symbol, TradeUpdate(price, qty, ts));
    }

    /** The retry loop with no writer at work: whatever `seq2` holds at first, it ends, and returns the
        replay of all the updates of the symbol since construction, the blank state out of range. */
    method GetSnapshot(symbol: u16, uninitialised: u32) returns (s: MarketState)
      requires Valid()
      ensures s == Replay(if symbol < |history| then history[symbol] else [])
    {
      if symbol >= states.Length {
        return BLANK;
      }
      s := BLANK;
      var seq1, seq2 := 0, uninitialised;
      var again := true;
      while again
        invariant !again ==> s == states[symbol]
        decreases again
      {
        seq1 := seqs[symbol];
        if seq1 % 2 == 0 {
          s := states[symbol];
          seq2 := seqs[symbol];
        }
        again := seq1 != seq2;
      }
    }

    /** The parser callback. */
    method OnMessage(f: Frame, price: u64 -> real)
      requires Valid() && !f.Heartbeat?
      modifies this, states, seqs
      ensures Valid()
      ensures history == Logged(old(history), f.symbol, UpdateOf(f, price))
      ensures f.symbol < states.Length ==> Shows(states[f.symbol], f, price)
    {
      if f.symbol < |history| {
        MessageShows(history[f.symbol], f, price);
      }
      hide Shows, Replay;
      if f.Quote? {
        UpdateQuote(f.symbol, price(f.bidPrice), f.bidQty, price(f.askPrice), f.askQty, f.timestamp);
      } else {
        UpdateTrade(f.symbol, price(f.price), f.quantity, f.timestamp);
      }
    }

    /** The callback over messages the parser dispatched: each symbol is updated by its own messages,
        in order, the others having no influence. */
    method OnMessages(fs: seq<Frame>, price: u64 -> real)
      requires Valid() && forall i :: 0 <= i < |fs| ==> !fs[i].Heartbeat?
      modifies this, states, seqs
      ensures Valid() && |history| == |old(history)|
      ensures forall k :: 0 <= k < |history| ==> history[k] == old(history)[k] + Own(fs, k, price)
    {
      hide Replay;
      ghost var was := history;
      for i := 0 to |fs|
        invariant Valid() && |history| == |was|
        invariant forall k :: 0 <= k < |history| ==> history[k] == was[k] + Own(fs[..i], k, price)
      {
        assert fs[..i + 1][..i] == fs[..i];
        OnMessage(fs[i], price);
      }
      assert fs[..|fs|] == fs;
    }
  }

  /** The state shows the message: its side of the market, and its time. */
  predicate Shows(s: MarketState, f: Frame, price: u64 -> real) {
    match f
    case Quote(_, ts, _, bp, bq, ap, aq) =>
      && s.bestBid == price(bp) && s.bidQuantity == bq && s.bestAsk == price(ap) && s.askQuantity == aq
      && s.lastUpdateTime == ts
    case Trade(_, ts, _, p, q) =>
      s.lastTradedPrice == price(p) && s.lastTradedQuantity == q && s.lastUpdateTime == ts
    case Heartbeat(_, _, _) => true
  }

  /** After any history, one more message shows. */
  lemma MessageShows(us: seq<Update>, f: Frame, price: u64 -> real)
    requires !f.Heartbeat?
    ensures Shows(Replay(us + [UpdateOf(f, price)]), f, price)
  {
    ReplaySnoc(us, UpdateOf(f, price));
    hide Replay;
  }

  lemma BumpedTwice(s: u32)
    requires s % 2 == 0
    ensures Bump(Bump(s)) % 2 == 0 && Bump(Bump(s)) == (s as int + 2) % 0x1_0000_0000
  {
  }

  lemma ReplaySnoc(us: seq<Update>, u: Update)
    ensures Replay(us + [u]) == Step(Replay(us), u)
  {
    assert (us + [u])[..|us|] == us;
  }

  lemma {:induction false} OwnConcat(a: seq<Frame>, b: seq<Frame>, symbol: nat, price: u64 -> real)
    ensures Own(a + b, symbol, price) == Own(a, symbol, price) + Own(b, symbol, price)
    decreases |b|
  {
    if |b| == 0 {
      assert a + b == a;
    } else {
      assert (a + b)[..|a + b| - 1] == a + b[..|b| - 1];
      OwnConcat(a, b[..|b| - 1], symbol, price);
    }
  }

  // ---- What a replay holds -----------------------------------------------------------------

  /** Index of the last update of the wanted kind, -1 when there is none. */
  function Last(us: seq<Update>, quote: bool): (i: int)
    ensures -1 <= i < |us|
    ensures i >= 0 ==> us[i].QuoteUpdate? == quote
    ensures forall j :: i < j < |us| ==> us[j].QuoteUpdate? != quote
  {
    if |us| == 0 then -1
    else if us[|us| - 1].QuoteUpdate? == quote then |us| - 1
    else Last(us[..|us| - 1], quote)
  }

  function FirstNonZero(us: seq<Update>): (p: real) {
    if |us| == 0 then 0.0
    else if us[0].Reference() != 0.0 then us[0].Reference()
    else FirstNonZero(us[1..])
  }

  lemma {:induction false} FirstNonZeroSnoc(us: seq<Update>, u: Update)
    ensures FirstNonZero(us + [u]) == if FirstNonZero(us) != 0.0 then FirstNonZero(us) else u.Reference()
    decreases |us|
  {
    if |us| == 0 {
      assert FirstNonZero([u][1..]) == 0.0;
    } else {
      assert (us + [u])[1..] == us[1..] + [u];
      FirstNonZeroSnoc(us[1..], u);
    }
  }

  /** The count is the number of updates, the opening price the first non-zero reference price, the
      quote side that of the last quote, the trade side that of the last trade. */
  lemma {:induction false} ReplayMeans(us: seq<Update>)
    ensures var s := Replay(us);
      && s.updateCount == |us|
      && s.openPrice == FirstNonZero(us)
      && s.lastUpdateTime == (if |us| == 0 then 0 else us[|us| - 1].time)
      && (var q := Last(us, true);
          if q < 0 then s.bestBid == s.bestAsk == 0.0 && s.bidQuantity == s.askQuantity == 0
          else s.bestBid == us[q].bid && s.bestAsk == us[q].ask
               && s.bidQuantity == us[q].bidQty && s.askQuantity == us[q].askQty)
      && (var t := Last(us, false);
          if t < 0 then s.lastTradedPrice == 0.0 && s.lastTradedQuantity == 0
          else s.lastTradedPrice == us[t].price && s.lastTradedQuantity == us[t].qty)
    decreases |us|
  {
    if |us| > 0 {
      var init, u := us[..|us| - 1], us[|us| - 1];
      ReplayMeans(init);
      FirstNonZeroSnoc(init, u);
      hide FirstNonZero;
      assert us == init + [u];
    }
  }

  /** Once set, the opening price never changes. */
  lemma {:induction false} OpenPriceIsFixed(us: seq<Update>, more: seq<Update>)
    requires Replay(us).openPrice != 0.0
    ensures Replay(us + more).openPrice == Replay(us).openPrice
    decreases |more|
  {
    if |more| == 0 {
      assert us + more == us;
    } else {
      var init := more[..|more| - 1];
      var all := us + more;
      assert all[..|all| - 1] == us + init;
      OpenPriceIsFixed(us, init);
      assert Replay(all) == Step(Replay(us + init), all[|all| - 1]);
    }
  }

  // ---- What a snapshot shows of the messages -----------------------------------------------

  predicate IsQuoteFor(f: Frame, symbol: nat) {
    f.Quote? && f.symbol == symbol
  }

  predicate IsTradeFor(f: Frame, symbol: nat) {
    f.Trade? && f.symbol == symbol
  }

  lemma OwnSnoc(fs: seq<Frame>, symbol: nat, price: u64 -> real)
    requires |fs| > 0
    ensures var s, f := Replay(Own(fs[..|fs| - 1], symbol, price)), fs[|fs| - 1];
      Replay(Own(fs, symbol, price))
      == if IsQuoteFor(f, symbol) then
           Step(s, QuoteUpdate(price(f.bidPrice), f.bidQty, price(f.askPrice), f.askQty, f.timestamp))
         else if IsTradeFor(f, symbol) then
           Step(s, TradeUpdate(price(f.price), f.quantity, f.timestamp))
         else s
  {
    var init, f := fs[..|fs| - 1], fs[|fs| - 1];
    if IsQuoteFor(f, symbol) || IsTradeFor(f, symbol) {
      ReplaySnoc(Own(init, symbol, price), UpdateOf(f, price));
    }
    hide Replay, Step;
  }

  /** Bid and ask of a symbol are those of the last quote message for it. */
  lemma {:induction false} LastQuoteShows(fs: seq<Frame>, symbol: nat, price: u64 -> real, i: nat)
    requires i < |fs| && IsQuoteFor(fs[i], symbol)
    requires forall j :: i < j < |fs| ==> !IsQuoteFor(fs[j], symbol)
    ensures var s := Replay(Own(fs, symbol, price));
      && s.bestBid == price(fs[i].bidPrice) && s.bidQuantity == fs[i].bidQty
      && s.bestAsk == price(fs[i].askPrice) && s.askQuantity == fs[i].askQty
    decreases |fs|
  {
    OwnSnoc(fs, symbol, price);
    hide Replay, Own;
    if i < |fs| - 1 {
      LastQuoteShows(fs[..|fs| - 1], symbol, price, i);
    }
  }

  /** Last price and quantity of a symbol are those of the last trade message for it. */
  lemma {:induction false} LastTradeShows(fs: seq<Frame>, symbol: nat, price: u64 -> real, i: nat)
    requires i < |fs| && IsTradeFor(fs[i], symbol)
    requires forall j :: i < j < |fs| ==> !IsTradeFor(fs[j], symbol)
    ensures var s := Replay(Own(fs, symbol, price));
      s.lastTradedPrice == price(fs[i].price) && s.lastTradedQuantity == fs[i].quantity
    decreases |fs|
  {
    OwnSnoc(fs, symbol, price);
    hide Replay, Own;
    if i < |fs| - 1 {
      LastTradeShows(fs[..|fs| - 1], symbol, price, i);
    }
  }

  /** The time is that of the last message for the symbol, whichever it was. */
  lemma {:induction false} LastTimeShows(fs: seq<Frame>, symbol: nat, price: u64 -> real, i: nat)
    requires i < |fs| && (IsQuoteFor(fs[i], symbol) || IsTradeFor(fs[i], symbol))
    requires forall j :: i < j < |fs| ==> !IsQuoteFor(fs[j], symbol) && !IsTradeFor(fs[j], symbol)
    ensures Replay(Own(fs, symbol, price)).lastUpdateTime == fs[i].timestamp
    decreases |fs|
  {
    OwnSnoc(fs, symbol, price);
    hide Replay, Own;
    if i < |fs| - 1 {
      LastTimeShows(fs[..|fs| - 1], symbol, price, i);
    }
  }

  /** The mid of a quote, the price of a trade. */
  function OpeningOffer(f: Frame, price: u64 -> real): real
    requires !f.Heartbeat?
  {
    if f.Quote? then (price(f.bidPrice) + price(f.askPrice)) / 2.0 else price(f.price)
  }

  /** The opening price is what the first message for the symbol with a non-zero offer offers. */
  lemma {:induction false} FirstOfferShows(fs: seq<Frame>, symbol: nat, price: u64 -> real, i: nat)
    requires i < |fs| && (IsQuoteFor(fs[i], symbol) || IsTradeFor(fs[i], symbol))
    requires OpeningOffer(fs[i], price) != 0.0
    requires forall j :: 0 <= j < i && (IsQuoteFor(fs[j], symbol) || IsTradeFor(fs[j], symbol)) ==>
      OpeningOffer(fs[j], price) == 0.0
    ensures Replay(Own(fs, symbol, price)).openPrice == OpeningOffer(fs[i], price)
    decreases |fs|
  {
    OwnSnoc(fs, symbol, price);
    var init := fs[..|fs| - 1];
    if i < |fs| - 1 {
      hide Replay, Own;
      FirstOfferShows(init, symbol, price, i);
    } else {
      NoOfferYet(init, symbol, price);
    }
  }

  lemma {:induction false} NoOfferYet(fs: seq<Frame>, symbol: nat, price: u64 -> real)
    requires forall j :: 0 <= j < |fs| && (IsQuoteFor(fs[j], symbol) || IsTradeFor(fs[j], symbol)) ==>
      OpeningOffer(fs[j], price) == 0.0
    ensures Replay(Own(fs, symbol, price)).openPrice == 0.0
    decreases |fs|
  {
    if |fs| > 0 {
      OwnSnoc(fs, symbol, price);
      hide Replay, Own;
      NoOfferYet(fs[..|fs| - 1], symbol, price);
    }
  }

  predicate AllDispatchable(fs: seq<Frame>) {
    forall i :: 0 <= i < |fs| ==> P.Dispatchable(fs[i])
  }

  /** What the parser hands over never includes a heartbeat or an invalid symbol, so the callback
      can take all of it. */
  lemma {:induction false} DispatchedAreUpdates(st: P.State, ts: seq<P.Framing.Token>)
    requires AllDispatchable(st.dispatched)
    ensures AllDispatchable(P.ApplyAll(st, ts).dispatched)
    decreases |ts|
  {
    if |ts| > 0 {
      var next := P.Apply(st, ts[0]);
      assert AllDispatchable(next.dispatched);
      DispatchedAreUpdates(next, ts[1..]);
    }
  }
}
