/** The reconnect protocol between the network thread and the reconnect thread, one access to a
    shared variable per step. */
module Reconnect {
  import opened Modular

  const BASE_MS := 100
  const MAX_MS := 30000
  const MAX_ATTEMPT := 20
  const JITTER_MS := 100

  /** The backoff before jitter of attempt number `a`, counted from zero. */
  function Delay(a: nat): nat {
    var d := BASE_MS * Pow2(if a < 8 then a else 8);
    if d < MAX_MS then d else MAX_MS
  }

  class ReconnectPolicy {
    var attempt: nat

    constructor ()
      ensures attempt == 0
    {
      attempt := 0;
    }

    method NextDelayMs(random: nat) returns (delay: nat)
      modifies this
      ensures attempt == old(attempt) + 1
      ensures delay == Delay(old(attempt)) + random % JITTER_MS
      ensures delay < MAX_MS + JITTER_MS
    {
      var shift := if attempt < 8 then attempt else 8;
      var scaled := BASE_MS * Pow2(shift);
      delay := if scaled < MAX_MS then scaled else MAX_MS;
      delay := delay + random % JITTER_MS;
      attempt := attempt + 1;
    }

    method Reset()
      modifies this
      ensures attempt == 0
    {
      attempt := 0;
    }

    predicate GiveUp()
      reads this
    {
      attempt >= MAX_ATTEMPT
    }
  }

  /** The backoff starts at 100 ms, doubles with each attempt, and stays at 25600 ms from the ninth on: the
      limit of 30000 ms is never what bounds it. */
  lemma DelayDoubles(a: nat)
    ensures Delay(0) == 100
    ensures a < 8 ==> Delay(a + 1) == 2 * Delay(a)
    ensures a >= 8 ==> Delay(a) == 25600
    ensures Delay(a) <= 25600
  {
    assert Pow2(4) == 16 && Pow2(8) == 256;
    if a < 8 {
      assert Pow2(a + 1) == 2 * Pow2(a);
      if a < 7 {
        Pow2Grows(a + 1, 8);
      }
    }
  }

  // ---- The two threads ---------------------------------------------------------------------

  /** Where control returns to in `network_loop`. */
  datatype Back = ToHead | ToEvents

  datatype Net =
    | Head                  // while (running_)
    | Events                // in the event list, or about to wait
    | Read                  // eventfd drained, before reconnect_pending_.exchange(false)
    | Connecting(b: Back)   // inside do_connect, before its outcome
    | Connected(b: Back)    // connected_ stored, policy not yet reset
    | Refused(b: Back)      // do_connect returned false, pending not yet stored
    | Lost(b: Back)         // connected_.exchange(false) was true, running_ not yet loaded
    | Flagging(b: Back)     // running_ was true, pending not yet stored
    | Waking(b: Back)       // pending stored, eventfd not yet written
    | NetDone

  datatype Rec =
    | Poll                  // while (running_)
    | PollPending           // running_ was true, before reconnect_pending_ is loaded
    | Checking              // pending was true, before give_up
    | GivingUp              // attempts exhausted, running_ not yet cleared
    | Counting              // before next_delay_ms loads attempt_
    | Delaying(a: nat)      // attempt_ loaded as a, not yet stored back
    | Sleeping              // before running_ is tested again
    | Signalling            // before the eventfd is written
    | RecDone

  /** `backoff` is history: milliseconds slept since the policy was last reset by a connect. */
  datatype World = World(running: bool, connected: bool, pending: bool, signal: bool, attempt: nat,
                         net: Net, rec: Rec, backoff: nat)

  const START := World(true, false, false, false, 0, Connecting(ToHead), Poll, 0)

  datatype Step =
    | NetStep                // the next access, where only one thing can happen
    | Outcome(ok: bool)      // connect() succeeds or fails
    | Disconnect             // error, hang-up or end of stream: on_disconnect
    | EndOfEvents            // no event left
    | Timeout                // heartbeat timeout: on_disconnect
    | EpollError
    | RecStep(random: nat)
    | UserStop               // stop(): running_ false, eventfd written

  function Return(b: Back): Net {
    if b.ToHead? then Head else Events
  }

  function NextNet(w: World): World {
    match w.net
    case Head => w.(net := if w.running then Events else NetDone)
    case Events => if w.signal then w.(signal := false, net := Read) else w
    case Read => if w.pending then w.(pending := false, net := Connecting(ToEvents)) else w.(net := Events)
    case Connecting(_) => w
    case Connected(b) => w.(attempt := 0, backoff := 0, net := Return(b))
    case Refused(b) => w.(pending := true, net := Return(b))
    case Lost(b) => w.(net := if w.running then Flagging(b) else Return(b))
    case Flagging(b) => w.(pending := true, net := Waking(b))
    case Waking(b) => w.(signal := true, net := Return(b))
    case NetDone => w
  }

  function NextRec(w: World, random: nat): World {
    match w.rec
    case Poll => w.(rec := if w.running then PollPending else RecDone)
    case PollPending => w.(rec := if w.pending then Checking else Poll)
    case Checking => w.(rec := if w.attempt >= MAX_ATTEMPT then GivingUp else Counting)
    case GivingUp => w.(running := false, rec := RecDone)
    case Counting => w.(rec := Delaying(w.attempt))
    case Delaying(a) =>
      w.(attempt := a + 1, backoff := w.backoff + Delay(a) + random % JITTER_MS, rec := Sleeping)
    case Sleeping => w.(rec := if w.running then Signalling else RecDone)
    case Signalling => w.(signal := true, rec := Poll)
    case RecDone => w
  }

  /** `on_disconnect` up to its exchange. */
  function OnDisconnect(w: World, b: Back): World {
    if w.connected then w.(connected := false, net := Lost(b)) else w.(net := Return(b))
  }

  function Next(w: World, s: Step): World {
    match s
    case NetStep => NextNet(w)
    case Outcome(ok) =>
      if !w.net.Connecting? then w
      else if ok then w.(connected := true, net := Connected(w.net.b))
      else w.(net := Refused(w.net.b))
    case Disconnect => if w.net.Events? then OnDisconnect(w, ToEvents) else w
    case EndOfEvents => if w.net.Events? then w.(net := Head) else w
    case Timeout => if w.net.Events? && w.connected then OnDisconnect(w, ToHead) else w
    case EpollError => if w.net.Events? then w.(net := NetDone) else w
    case RecStep(random) => NextRec(w, random)
    case UserStop => w.(running := false, signal := true)
  }

  function Run(w: World, steps: seq<Step>): World
    decreases |steps|
  {
    if |steps| == 0 then w else Run(Next(w, steps[0]), steps[1..])
  }

  // ---- The invariant -----------------------------------------------------------------------

  /** The most that `k` attempts can have slept. */
  function Budget(k: nat): nat {
    if k == 0 then 0 else Budget(k - 1) + Delay(k - 1) + (JITTER_MS - 1)
  }

  /** Between losing the connection (or clearing the flag) and saying so. */
  predicate Unannounced(n: Net) {
    n.Connecting? || n.Refused? || n.Lost? || n.Flagging?
  }

  ghost predicate Inv(w: World) {
    && !(w.connected && w.pending)
    && (Unannounced(w.net) ==> !w.connected && !w.pending)
    && (w.net.Connected? ==> w.connected)
    && (w.net.Waking? ==> w.pending)
    && (!Unannounced(w.net) && !w.net.NetDone? ==> w.connected || w.pending || !w.running)
    && w.attempt <= MAX_ATTEMPT
    && w.backoff <= Budget(w.attempt)
    && (w.rec.Counting? ==> w.attempt < MAX_ATTEMPT)
    && (w.rec.Delaying? ==> w.rec.a < MAX_ATTEMPT && w.backoff <= Budget(w.rec.a))
    && (w.rec.GivingUp? ==> w.attempt <= MAX_ATTEMPT)
  }

  lemma {:induction false} BudgetGrows(a: nat, b: nat)
    requires a <= b
    ensures Budget(a) <= Budget(b)
    decreases b
  {
    if a < b {
      BudgetGrows(a, b - 1);
    }
  }

  lemma NetKeeps(w: World)
    requires Inv(w)
    ensures Inv(NextNet(w))
  {
    hide Delay, Pow2;
  }

  lemma RecKeeps(w: World, random: nat)
    requires Inv(w)
    ensures Inv(NextRec(w, random))
  {
    hide Delay, Pow2, Budget;
    if w.rec.Delaying? {
      BudgetStep(w.rec.a, random);
    }
  }

  lemma BudgetStep(a: nat, random: nat)
    ensures Budget(a) + Delay(a) + random % JITTER_MS <= Budget(a + 1)
  {
  }

  lemma NextKeeps(w: World, s: Step)
    requires Inv(w)
    ensures Inv(Next(w, s))
  {
    hide NextNet, NextRec, Delay, Pow2, Budget;
    match s
    case NetStep => NetKeeps(w);
    case RecStep(random) => RecKeeps(w, random);
    case _ =>
  }

  lemma {:induction false} RunKeeps(w: World, steps: seq<Step>)
    requires Inv(w)
    ensures Inv(Run(w, steps))
    decreases |steps|
  {
    if |steps| > 0 {
      NextKeeps(w, steps[0]);
      RunKeeps(Next(w, steps[0]), steps[1..]);
    }
  }

  lemma FullBudget()
    ensures Budget(MAX_ATTEMPT) == 334680
  {
    assert Pow2(4) == 16 && Pow2(8) == 256;
    assert Budget(4) == 1896;
    assert Delay(4) == 1600 && Delay(5) == 3200 && Delay(6) == 6400 && Delay(7) == 12800;
    assert Budget(8) == 26292;
    assert forall a :: 8 <= a ==> Delay(a) == 25600;
    assert Budget(12) == 26292 + 4 * 25699;
    assert Budget(16) == 26292 + 8 * 25699;
    assert Budget(20) == 26292 + 12 * 25699;
  }

  /** In every interleaving: `do_connect` is entered only without a connection; the connection and
      the pending flag are never both up; at the head of the network loop a running, disconnected
      client has the flag up; attempts stop at twenty; and the backoff since the last reset by a
      connect stays within the budget of the schedule. */
  lemma ProtocolInvariant(steps: seq<Step>)
    ensures var w := Run(START, steps);
      && (w.net.Connecting? ==> !w.connected)
      && !(w.connected && w.pending)
      && (w.net.Head? && w.running && !w.connected ==> w.pending)
      && w.attempt <= MAX_ATTEMPT
      && w.backoff <= 334680
  {
    RunKeeps(START, steps);
    BudgetGrows(Run(START, steps).attempt, MAX_ATTEMPT);
    FullBudget();
  }

  /** Stopping is final, whoever stops. */
  lemma {:induction false} StopIsFinal(w: World, steps: seq<Step>)
    requires !w.running
    ensures !Run(w, steps).running
    decreases |steps|
  {
    if |steps| > 0 {
      StopIsFinal(Next(w, steps[0]), steps[1..]);
    }
  }

  // ---- After a stop ------------------------------------------------------------------------

  /** Steps the reconnect thread can still take once `running_` is false. */
  function StepsLeft(r: Rec): nat {
    match r
    case PollPending => 5
    case Checking => 4
    case Counting => 3
    case Delaying(_) => 2
    case Sleeping => 1
    case Signalling => 2
    case Poll => 1
    case GivingUp => 1
    case RecDone => 0
  }

  lemma OneStepLess(w: World, s: Step)
    requires !w.running
    ensures !Next(w, s).running
    ensures !s.RecStep? ==> Next(w, s).rec == w.rec
    ensures s.RecStep? ==>
      StepsLeft(Next(w, s).rec) <= if w.rec.RecDone? then 0 else StepsLeft(w.rec) - 1
  {
    hide Delay;
  }

  /** After a stop, by the user or by giving up, the reconnect thread ends within five of its own steps,
      whatever the other thread does in between. */
  lemma {:induction false} ReconnectThreadEnds(w: World, steps: seq<Step>)
    requires !w.running && RecSteps(steps) >= StepsLeft(w.rec)
    ensures Run(w, steps).rec.RecDone?
    decreases |steps|
  {
    if |steps| > 0 {
      OneStepLess(w, steps[0]);
      hide Next;
      ReconnectThreadEnds(Next(w, steps[0]), steps[1..]);
    }
  }

  /** Wherever the user's stop falls in a run, nothing is running afterwards. */
  lemma UserStopStops(w: World, before: seq<Step>, after: seq<Step>)
    ensures !Run(w, before + ([UserStop] + after)).running
  {
    hide NextNet, NextRec;
    RunConcat(w, before, [UserStop] + after);
    var v := Run(w, before);
    assert ([UserStop] + after)[1..] == after;
    StopIsFinal(Next(v, UserStop), after);
  }

  /** Stopped, the network thread leaves its loop at the next look at `running_`, for good. */
  lemma {:induction false} NetworkThreadEnds(w: World, steps: seq<Step>)
    requires !w.running && (w.net.NetDone? || (w.net.Head? && NetStep in steps))
    ensures Run(w, steps).net.NetDone?
    decreases |steps|
  {
    if |steps| > 0 {
      hide Delay;
      NetworkThreadEnds(Next(w, steps[0]), steps[1..]);
    }
  }

  // ---- While the connection stays up -------------------------------------------------------

  /** The connection is up before and after every step. */
  predicate StaysUp(w: World, steps: seq<Step>)
    decreases |steps|
  {
    w.connected && (|steps| > 0 ==> StaysUp(Next(w, steps[0]), steps[1..]))
  }

  function RecSteps(steps: seq<Step>): nat {
    if |steps| == 0 then 0 else RecSteps(steps[1..]) + if steps[0].RecStep? then 1 else 0
  }

  /** The reconnect thread has seen the flag and has not yet stored the attempt count. */
  predicate CountingAttempt(r: Rec) {
    r.Checking? || r.Counting? || r.Delaying?
  }

  /** Its steps from there until the count is stored. */
  function Remaining(r: Rec): nat
    requires CountingAttempt(r)
  {
    if r.Checking? then 3 else if r.Counting? then 2 else 1
  }

  /** With the policy reset behind it, the network thread does not touch the policy while the
      connection is up, and the flag is down. */
  predicate Settled(w: World) {
    w.connected && !w.pending && !w.net.Connected? && !Unannounced(w.net)
  }

  lemma SettledStays(w: World, s: Step)
    requires Inv(w) && Settled(w) && Next(w, s).connected
    ensures Settled(Next(w, s))
    ensures !s.RecStep? ==> Next(w, s).attempt == w.attempt && Next(w, s).rec == w.rec
    ensures s.RecStep? ==> Next(w, s) == NextRec(w, s.random)
  {
    hide Delay;
    NextKeeps(w, s);
  }

  lemma ResetSettles(w: World)
    requires Inv(w) && w.net.Connected?
    ensures Inv(Next(w, NetStep)) && Settled(Next(w, NetStep))
    ensures Next(w, NetStep).attempt == 0 && Next(w, NetStep).rec == w.rec
  {
    NextKeeps(w, NetStep);
  }

  lemma {:induction false} AttemptStays(w: World, steps: seq<Step>)
    requires Inv(w) && Settled(w) && StaysUp(w, steps) && !CountingAttempt(w.rec)
    ensures Run(w, steps).attempt == w.attempt
    decreases |steps|
  {
    hide Inv, Delay;
    if |steps| > 0 {
      NextKeeps(w, steps[0]);
      SettledStays(w, steps[0]);
      AttemptStays(Next(w, steps[0]), steps[1..]);
    }
  }

  lemma {:induction false} CountComesThrough(w: World, steps: seq<Step>)
    requires Inv(w) && Settled(w) && StaysUp(w, steps) && CountingAttempt(w.rec) && w.attempt == 0
    ensures Run(w, steps).attempt == 0 <==> RecSteps(steps) < Remaining(w.rec)
    decreases |steps|
  {
    hide Inv, Delay;
    if |steps| > 0 {
      var next := Next(w, steps[0]);
      NextKeeps(w, steps[0]);
      SettledStays(w, steps[0]);
      if steps[0].RecStep? && w.rec.Delaying? {
        AttemptStays(next, steps[1..]);
      } else {
        CountComesThrough(next, steps[1..]);
      }
    }
  }

  /** The count that `do_connect` sets to zero, in every interleaving for as long as the connection
      stays up: it is zero unless the reconnect thread was in the middle of counting an attempt and
      has since come to its store, which is not ordered with the reset. */
  lemma ResetSticksIff(w: World, steps: seq<Step>)
    requires Inv(w) && w.net.Connected? && StaysUp(Next(w, NetStep), steps)
    ensures Run(Next(w, NetStep), steps).attempt == 0
      <==> !(CountingAttempt(w.rec) && RecSteps(steps) >= Remaining(w.rec))
  {
    hide Inv, Settled, Run;
    ResetSettles(w);
    if CountingAttempt(w.rec) {
      CountComesThrough(Next(w, NetStep), steps);
    } else {
      AttemptStays(Next(w, NetStep), steps);
    }
  }

  /** The reconnect thread is not about to give up. */
  predicate Persisting(w: World) {
    !w.rec.GivingUp? && (w.rec.Checking? ==> w.attempt < MAX_ATTEMPT)
  }

  lemma {:induction false} RunningStays(w: World, steps: seq<Step>)
    requires Inv(w) && Settled(w) && StaysUp(w, steps) && UserStop !in steps && w.running && Persisting(w)
    ensures Run(w, steps).running
    decreases |steps|
  {
    hide Inv, Delay;
    if |steps| > 0 {
      NextKeeps(w, steps[0]);
      SettledStays(w, steps[0]);
      RunningStays(Next(w, steps[0]), steps[1..]);
    }
  }

  lemma {:induction false} GivingUpStops(w: World, steps: seq<Step>)
    requires Inv(w) && Settled(w) && StaysUp(w, steps) && UserStop !in steps && w.running && w.rec.GivingUp?
    ensures Run(w, steps).running <==> RecSteps(steps) == 0
    decreases |steps|
  {
    hide Inv, Delay;
    if |steps| > 0 {
      var next := Next(w, steps[0]);
      NextKeeps(w, steps[0]);
      SettledStays(w, steps[0]);
      if steps[0].RecStep? {
        StopIsFinal(next, steps[1..]);
      } else {
        GivingUpStops(next, steps[1..]);
      }
    }
  }

  /** A client that has connected stops by itself, in any interleaving that keeps the connection up,
      if and only if the reconnect thread had already decided to give up when the policy was reset,
      and has since taken a step. */
  lemma StopsWhileConnectedIff(w: World, steps: seq<Step>)
    requires Inv(w) && w.net.Connected? && w.running && StaysUp(Next(w, NetStep), steps) && UserStop !in steps
    ensures !Run(Next(w, NetStep), steps).running <==> w.rec.GivingUp? && RecSteps(steps) >= 1
  {
    ResetSettles(w);
    assert Next(w, NetStep).running;
    hide Inv, Settled, Run;
    if w.rec.GivingUp? {
      GivingUpStops(Next(w, NetStep), steps);
    } else {
      RunningStays(Next(w, NetStep), steps);
    }
  }

  // ---- Runs in which that happens ----------------------------------------------------------

  lemma StepAt(w: World, steps: seq<Step>, i: nat)
    requires i < |steps|
    ensures Run(w, steps[i..]) == Run(Next(w, steps[i]), steps[i + 1..])
  {
    assert steps[i..][1..] == steps[i + 1..];
  }

  lemma NoSteps(w: World, steps: seq<Step>)
    ensures Run(w, steps[|steps|..]) == w
  {
  }

  lemma {:induction false} RunConcat(w: World, a: seq<Step>, b: seq<Step>)
    ensures Run(w, a + b) == Run(Run(w, a), b)
    decreases |a|
  {
    hide Next;
    if |a| == 0 {
      assert a + b == b;
    } else {
      assert (a + b)[1..] == a[1..] + b;
      RunConcat(Next(w, a[0]), a[1..], b);
    }
  }

  /** Disconnected, with the flag up and `k` attempts counted; the network thread stays at its head. */
  function Waiting(signal: bool, k: nat, rec: Rec, backoff: nat): World {
    World(true, false, true, signal, k, Head, rec, backoff)
  }

  lemma FirstConnectFails()
    ensures Run(START, [Outcome(false), NetStep]) == Waiting(false, 0, Poll, 0)
  {
    var steps := [Outcome(false), NetStep];
    assert steps[0..] == steps;
    StepAt(START, steps, 0);
    StepAt(START.(net := Refused(ToHead)), steps, 1);
    NoSteps(Waiting(false, 0, Poll, 0), steps);
  }

  /** The seven steps from one look at `running_` to the next, with an attempt counted. */
  function Round(random: nat): seq<Step> {
    seq(7, _ => RecStep(random))
  }

  lemma OneRound(signal: bool, k: nat, backoff: nat, random: nat)
    requires k < MAX_ATTEMPT
    ensures Run(Waiting(signal, k, Poll, backoff), Round(random))
         == Waiting(true, k + 1, Poll, backoff + Delay(k) + random % JITTER_MS)
  {
    hide Delay, Run;
    var steps, more := Round(random), backoff + Delay(k) + random % JITTER_MS;
    assert steps[0..] == steps;
    StepAt(Waiting(signal, k, Poll, backoff), steps, 0);
    StepAt(Waiting(signal, k, PollPending, backoff), steps, 1);
    StepAt(Waiting(signal, k, Checking, backoff), steps, 2);
    StepAt(Waiting(signal, k, Counting, backoff), steps, 3);
    StepAt(Waiting(signal, k, Delaying(k), backoff), steps, 4);
    StepAt(Waiting(signal, k + 1, Sleeping, more), steps, 5);
    StepAt(Waiting(signal, k + 1, Signalling, more), steps, 6);
    NoSteps(Waiting(true, k + 1, Poll, more), steps);
  }

  function Rounds(k: nat, random: nat): seq<Step> {
    if k == 0 then [] else Rounds(k - 1, random) + Round(random)
  }

  function Slept(k: nat, random: nat): nat {
    if k == 0 then 0 else Slept(k - 1, random) + Delay(k - 1) + random % JITTER_MS
  }

  lemma {:induction false} AfterRounds(k: nat, random: nat)
    requires k <= MAX_ATTEMPT
    ensures Run(Waiting(false, 0, Poll, 0), Rounds(k, random)) == Waiting(k > 0, k, Poll, Slept(k, random))
    decreases k
  {
    if k == 0 {
      NoSteps(Waiting(false, 0, Poll, 0), []);
    } else {
      AfterRounds(k - 1, random);
      hide Run, Delay, Round;
      RunConcat(Waiting(false, 0, Poll, 0), Rounds(k - 1, random), Round(random));
      OneRound(k > 1, k - 1, Slept(k - 1, random), random);
    }
  }

  /** The network thread takes the signal, connects and resets the policy. */
  const RECONNECTS := [NetStep, NetStep, NetStep, Outcome(true), NetStep]

  lemma Reconnects(k: nat, rec: Rec, backoff: nat)
    ensures Run(Waiting(true, k, rec, backoff), RECONNECTS) == World(true, true, false, false, 0, Events, rec, 0)
  {
    hide Run;
    var w := Waiting(true, k, rec, backoff);
    assert RECONNECTS[0..] == RECONNECTS;
    StepAt(w, RECONNECTS, 0);
    StepAt(w.(net := Events), RECONNECTS, 1);
    StepAt(w.(signal := false, net := Read), RECONNECTS, 2);
    StepAt(w.(signal := false, pending := false, net := Connecting(ToEvents)), RECONNECTS, 3);
    StepAt(w.(signal := false, pending := false, connected := true, net := Connected(ToEvents)), RECONNECTS, 4);
    NoSteps(World(true, true, false, false, 0, Events, rec, 0), RECONNECTS);
  }

  /** From `k` counted attempts, `more` steps of the reconnect thread, then a successful connect, then
      one more step of the reconnect thread. */
  function Overlap(k: nat, more: nat, random: nat): seq<Step> {
    ([Outcome(false), NetStep] + Rounds(k, random)) + (seq(more, _ => RecStep(random)) + (RECONNECTS + [RecStep(random)]))
  }

  lemma OverlapRuns(k: nat, more: nat, random: nat, rec: Rec)
    requires 0 < k <= MAX_ATTEMPT
    requires Run(Waiting(true, k, Poll, Slept(k, random)), seq(more, _ => RecStep(random)))
          == Waiting(true, k, rec, Slept(k, random))
    ensures Run(START, Overlap(k, more, random))
         == NextRec(World(true, true, false, false, 0, Events, rec, 0), random)
  {
    hide Run, Delay, Slept, Rounds, NextRec;
    var last := [RecStep(random)];
    FirstConnectFails();
    AfterRounds(k, random);
    RunConcat(START, [Outcome(false), NetStep], Rounds(k, random));
    var middle := seq(more, _ => RecStep(random));
    RunConcat(START, [Outcome(false), NetStep] + Rounds(k, random), middle + (RECONNECTS + last));
    RunConcat(Waiting(true, k, Poll, Slept(k, random)), middle, RECONNECTS + last);
    RunConcat(Waiting(true, k, rec, Slept(k, random)), RECONNECTS, last);
    Reconnects(k, rec, Slept(k, random));
    var up := World(true, true, false, false, 0, Events, rec, 0);
    assert last[0..] == last;
    StepAt(up, last, 0);
    NoSteps(Next(up, last[0]), last);
  }

  /** A reset can be lost: one refused connect, one delay, and the second connect succeeds while the
      second attempt is being counted. */
  lemma ResetMayBeLost(random: nat)
    ensures var w := Run(START, Overlap(1, 4, random));
      w.connected && w.net.Events? && w.attempt == 2
  {
    hide Run, Delay;
    var steps, b := seq(4, _ => RecStep(random)), Slept(1, random);
    assert steps[0..] == steps;
    StepAt(Waiting(true, 1, Poll, b), steps, 0);
    StepAt(Waiting(true, 1, PollPending, b), steps, 1);
    StepAt(Waiting(true, 1, Checking, b), steps, 2);
    StepAt(Waiting(true, 1, Counting, b), steps, 3);
    NoSteps(Waiting(true, 1, Delaying(1), b), steps);
    OverlapRuns(1, 4, random, Delaying(1));
  }

  /** A client can stop itself while connected: twenty attempts counted, the reconnect thread gives
      up, and a last connect succeeds before it says so. */
  lemma MayStopWhileConnected(random: nat)
    ensures var w := Run(START, Overlap(MAX_ATTEMPT, 3, random));
      w.connected && w.net.Events? && !w.running
  {
    hide Run, Delay, Slept;
    var steps, b := seq(3, _ => RecStep(random)), Slept(MAX_ATTEMPT, random);
    assert steps[0..] == steps;
    StepAt(Waiting(true, MAX_ATTEMPT, Poll, b), steps, 0);
    StepAt(Waiting(true, MAX_ATTEMPT, PollPending, b), steps, 1);
    StepAt(Waiting(true, MAX_ATTEMPT, Checking, b), steps, 2);
    NoSteps(Waiting(true, MAX_ATTEMPT, GivingUp, b), steps);
    OverlapRuns(MAX_ATTEMPT, 3, random, GivingUp);
  }
}
