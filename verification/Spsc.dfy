/** `SPSCQueue`: the object queue, as a class and as two racing threads. */
module Spsc {
  import opened Protocol
  import opened Modular

  // ---- Sequentially ------------------------------------------------------------------------

  /** The items from `head` to `tail`, round the end of the array if need be. */
  function Between<T>(slots: seq<T>, head: nat, tail: nat): (s: seq<T>)
    requires head < |slots| && tail < |slots|
    ensures |s| == if head <= tail then tail - head else tail + |slots| - head
  {
    if head <= tail then slots[head..tail] else slots[head..] + slots[..tail]
  }

  function After(p: nat, c: nat): nat {
    if p + 1 == c then 0 else p + 1
  }

  lemma BetweenPushed<T>(slots: seq<T>, head: nat, tail: nat, item: T)
    requires head < |slots| && tail < |slots| && After(tail, |slots|) != head
    ensures Between(slots[tail := item], head, After(tail, |slots|)) == Between(slots, head, tail) + [item]
  {
    var c, after := |slots|, slots[tail := item];
    if tail + 1 == c {
      assert after[head..] == slots[head..tail] + [item];
    } else if head <= tail {
      assert after[head..tail + 1] == slots[head..tail] + [item];
    } else {
      assert after[head..] == slots[head..];
      assert after[..tail + 1] == slots[..tail] + [item];
    }
  }

  lemma BetweenPopped<T>(slots: seq<T>, head: nat, tail: nat)
    requires head < |slots| && tail < |slots| && head != tail
    ensures [slots[head]] + Between(slots, After(head, |slots|), tail) == Between(slots, head, tail)
  {
    var x := [slots[head]];
    if head < tail {
      assert slots[head..tail] == x + slots[head + 1..tail];
    } else if head + 1 == |slots| {
      assert slots[head..] == x && slots[0..tail] == slots[..tail];
    } else {
      var rest, front := slots[head + 1..], slots[..tail];
      assert slots[head..] == x + rest;
      Assoc(x, rest, front);
    }
  }

  class SPSCQueue<T(0)> {
    const slots: array<T>
    ghost const log2: nat
    var head: nat
    var tail: nat

    ghost predicate Valid()
      reads this
    {
      slots.Length == Pow2(log2) && head < slots.Length && tail < slots.Length
    }

    ghost function Contents(): (s: seq<T>)
      reads this, slots
      requires Valid()
      ensures |s| < slots.Length
    {
      Between(slots[..], head, tail)
    }

    constructor (capacity: nat, ghost log2: nat)
      requires capacity == Pow2(log2)
      ensures Valid() && fresh(slots) && slots.Length == capacity && Contents() == []
    {
      this.log2 := log2;
      slots := new T[capacity];
      head, tail := 0, 0;
    }

    lemma MaskWraps(p: nat)
      requires Valid() && p < slots.Length
      ensures And(p + 1, slots.Length - 1) == After(p, slots.Length)
    {
      hide Slot;
      MaskIsSlot(p + 1, log2);
      if p + 1 == slots.Length {
        FullTurn(0, p + 1);
        SlotOfSmall(0, p + 1);
      } else {
        SlotOfSmall(p + 1, slots.Length);
      }
    }

    method Push(item: T) returns (ok: bool)
      requires Valid()
      modifies this`tail, slots
      ensures Valid()
      ensures ok <==> |old(Contents())| < slots.Length - 1
      ensures Contents() == old(Contents()) + if ok then [item] else []
    {
      MaskWraps(tail);
      hide And, Pow2, Between;
      var next := And(tail + 1, slots.Length - 1);
      if next == head {
        return false;
      }
      BetweenPushed(slots[..], head, tail, item);
      slots[tail] := item;
      tail := next;
      return true;
    }

    method Pop(default: T) returns (ok: bool, item: T)
      requires Valid()
      modifies this`head
      ensures Valid()
      ensures ok <==> old(Contents()) != []
      ensures ok ==> [item] + Contents() == old(Contents())
      ensures !ok ==> item == default && Contents() == old(Contents())
    {
      if head == tail {
        return false, default;
      }
      MaskWraps(head);
      BetweenPopped(slots[..], head, tail);
      hide And, Pow2, Between;
      item := slots[head];
      head := And(head + 1, slots.Length - 1);
      ok := true;
    }

    method Empty() returns (b: bool)
      requires Valid()
      ensures b <==> Contents() == []
    {
      b := head == tail;
    }
  }

  // ---- One pusher, one popper --------------------------------------------------------------

  datatype Pusher<T> =
    | PushReady
    | Checked(item: T)   // head was loaded and there is room
    | Written(item: T)   // the slot is written, tail not yet stored

  datatype Popper<T> =
    | PopReady
    | Seen               // tail was loaded and there is an item
    | Taken(item: T)     // the slot is read, head not yet stored

  /** `pushed` and `popped` are history: the items of completed calls. */
  datatype Queue<T> = Queue(slots: seq<T>, head: nat, tail: nat, pusher: Pusher<T>, popper: Popper<T>,
                            pushed: seq<T>, popped: seq<T>)

  datatype Step<T> = BeginPush(item: T) | WriteSlot | StoreTail | BeginPop | ReadSlot | StoreHead

  function Next<T>(c: nat, q: Queue<T>, a: Step<T>): Queue<T>
    requires c > 0
  {
    match a
    case BeginPush(item) =>
      if q.pusher.PushReady? && And(q.tail + 1, c - 1) != q.head then q.(pusher := Checked(item)) else q
    case WriteSlot =>
      if q.pusher.Checked? && q.tail < |q.slots|
      then q.(slots := q.slots[q.tail := q.pusher.item], pusher := Written(q.pusher.item)) else q
    case StoreTail =>
      if q.pusher.Written?
      then q.(tail := And(q.tail + 1, c - 1), pusher := PushReady, pushed := q.pushed + [q.pusher.item]) else q
    case BeginPop => if q.popper.PopReady? && q.head != q.tail then q.(popper := Seen) else q
    case ReadSlot =>
      if q.popper.Seen? && q.head < |q.slots| then q.(popper := Taken(q.slots[q.head])) else q
    case StoreHead =>
      if q.popper.Taken?
      then q.(head := And(q.head + 1, c - 1), popper := PopReady, popped := q.popped + [q.popper.item]) else q
  }

  function Run<T>(c: nat, q: Queue<T>, steps: seq<Step<T>>): Queue<T>
    requires c > 0
    decreases |steps|
  {
    if |steps| == 0 then q else Run(c, Next(c, q, steps[0]), steps[1..])
  }

  function Start<T>(c: nat, blank: T): Queue<T> {
    Queue(seq(c, _ => blank), 0, 0, PushReady, PopReady, [], [])
  }

  ghost predicate Inv<T>(k: nat, q: Queue<T>) {
    var c, w, r := Pow2(k), |q.pushed|, |q.popped|;
    && |q.slots| == c
    && q.tail == Slot(w, c) && q.head == Slot(r, c)
    && r <= w < r + c
    && q.popped == q.pushed[..r]
    && (forall p: nat :: r <= p < w ==> q.slots[Slot(p, c)] == q.pushed[p])
    && (!q.pusher.PushReady? ==> w + 1 < r + c)
    && (q.pusher.Written? ==> q.slots[Slot(w, c)] == q.pusher.item)
    && (!q.popper.PopReady? ==> r < w)
    && (q.popper.Taken? ==> q.popper.item == q.pushed[r])
  }

  /** `(p + 1) & MASK` is the slot of the next position. */
  lemma NextSlot(p: nat, k: nat)
    ensures And(Slot(p, Pow2(k)) + 1, Pow2(k) - 1) == Slot(p + 1, Pow2(k))
  {
    var c := Pow2(k);
    MaskIsSlot(Slot(p, c) + 1, k);
    if c > 1 {
      SlotPlus(p, 1, c);
      if Slot(p, c) + 1 < c {
        SlotOfSmall(Slot(p, c) + 1, c);
      } else {
        FullTurn(0, c);
        SlotOfSmall(0, c);
      }
    }
  }

  lemma SlotOfSmall(p: nat, c: nat)
    requires p < c
    ensures Slot(p, c) == p
  {
  }

  lemma SameSlot(r: nat, w: nat, c: nat)
    requires r <= w <= r + c && c > 0
    ensures Slot(w, c) == Slot(r, c) <==> w == r || w == r + c
  {
    FullTurn(r, c);
    if r < w < r + c {
      DifferentSlots(r, w, c);
    }
  }

  lemma NextKeeps<T>(k: nat, q: Queue<T>, a: Step<T>)
    requires Inv(k, q)
    ensures Inv(k, Next(Pow2(k), q, a))
  {
    hide Slot, And, Pow2;
    var c, w, r := Pow2(k), |q.pushed|, |q.popped|;
    NextSlot(w, k);
    NextSlot(r, k);
    SameSlot(r, w, c);
    SameSlot(r, w + 1, c);
    if a.WriteSlot? && q.pusher.Checked? {
      forall p: nat | r <= p < w
        ensures Slot(p, c) != Slot(w, c)
      {
        DifferentSlots(p, w, c);
      }
    }
  }

  lemma {:induction false} RunKeeps<T>(k: nat, q: Queue<T>, steps: seq<Step<T>>)
    requires Inv(k, q)
    ensures Inv(k, Run(Pow2(k), q, steps))
    decreases |steps|
  {
    if |steps| > 0 {
      NextKeeps(k, q, steps[0]);
      RunKeeps(k, Next(Pow2(k), q, steps[0]), steps[1..]);
    }
  }

  /** The items between head and tail. */
  ghost function Held<T>(q: Queue<T>, n: nat): seq<T>
    requires |q.slots| > 0
  {
    seq(n, i requires 0 <= i < n => q.slots[Slot(q.head + i, |q.slots|)])
  }

  /** In every interleaving: popped items, then held items, are the pushed items; at most
      capacity - 1 are held; an attempt finds the queue full exactly at that number, and empty
      exactly at zero. */
  lemma FifoInEveryRun<T>(k: nat, blank: T, steps: seq<Step<T>>)
    ensures var c := Pow2(k);
      var q := Run(c, Start(c, blank), steps);
      && |q.slots| == c && |q.popped| <= |q.pushed| <= |q.popped| + (c - 1)
      && q.popped + Held(q, |q.pushed| - |q.popped|) == q.pushed
      && (And(q.tail + 1, c - 1) == q.head <==> |q.pushed| - |q.popped| == c - 1)
      && (q.head == q.tail <==> |q.pushed| == |q.popped|)
  {
    hide Slot, And, Pow2, Run, Start;
    StartIsInv(k, blank);
    RunKeeps(k, Start(Pow2(k), blank), steps);
    HeldItems(k, Run(Pow2(k), Start(Pow2(k), blank), steps));
  }

  lemma StartIsInv<T>(k: nat, blank: T)
    ensures Inv(k, Start(Pow2(k), blank))
  {
    SlotOfSmall(0, Pow2(k));
  }

  lemma HeldItems<T>(k: nat, q: Queue<T>)
    requires Inv(k, q)
    ensures var c := Pow2(k);
      && q.popped + Held(q, |q.pushed| - |q.popped|) == q.pushed
      && (And(q.tail + 1, c - 1) == q.head <==> |q.pushed| - |q.popped| == c - 1)
      && (q.head == q.tail <==> |q.pushed| == |q.popped|)
  {
    hide Slot, And, Pow2;
    var c, w, r := Pow2(k), |q.pushed|, |q.popped|;
    NextSlot(w, k);
    SameSlot(r, w, c);
    SameSlot(r, w + 1, c);
    var held := Held(q, w - r);
    forall i | 0 <= i < w - r
      ensures held[i] == q.pushed[r + i]
    {
      SlotOfSmall(q.head, c);
      SameBaseSameSlots(q.head, r, i, c);
    }
    assert q.pushed[..r] + held == q.pushed;
  }

  /** While the pusher may be writing a slot and the popper reading one, they are different slots. */
  lemma SlotsNeverShared<T>(k: nat, blank: T, steps: seq<Step<T>>)
    ensures var q := Run(Pow2(k), Start(Pow2(k), blank), steps);
      !q.pusher.PushReady? && !q.popper.PopReady? ==> q.tail != q.head
  {
    StartIsInv(k, blank);
    RunKeeps(k, Start(Pow2(k), blank), steps);
    var q := Run(Pow2(k), Start(Pow2(k), blank), steps);
    if !q.pusher.PushReady? && !q.popper.PopReady? {
      SameSlot(|q.popped|, |q.pushed|, Pow2(k));
    }
  }

  lemma ThreeSteps<T>(c: nat, q: Queue<T>, a: Step<T>, b: Step<T>, d: Step<T>)
    requires c > 0
    ensures Run(c, q, [a, b, d]) == Next(c, Next(c, Next(c, q, a), b), d)
  {
    hide Next;
    assert [a, b, d][1..] == [b, d] && [b, d][1..] == [d] && [d][1..] == [];
    var q1 := Next(c, q, a);
    var q2 := Next(c, q1, b);
    assert Run(c, q2, [d]) == Next(c, q2, d);
    assert Run(c, q1, [b, d]) == Run(c, q2, [d]);
  }

  /** A push that finds room completes in three steps, and the item is behind the others. */
  lemma PushCompletes<T>(k: nat, q: Queue<T>, item: T)
    requires Inv(k, q) && q.pusher.PushReady? && |q.pushed| - |q.popped| < Pow2(k) - 1
    ensures Run(Pow2(k), q, [BeginPush(item), WriteSlot, StoreTail]).pushed == q.pushed + [item]
  {
    var c, w, r := Pow2(k), |q.pushed|, |q.popped|;
    NextSlot(w, k);
    SameSlot(r, w + 1, c);
    ThreeSteps(c, q, BeginPush(item), WriteSlot, StoreTail);
    hide Slot, And, Pow2, Run;
  }

  /** A pop that finds an item completes in three steps, and takes the oldest. */
  lemma PopCompletes<T>(k: nat, q: Queue<T>)
    requires Inv(k, q) && q.popper.PopReady? && |q.popped| < |q.pushed|
    ensures Run(Pow2(k), q, [BeginPop, ReadSlot, StoreHead]).popped == q.popped + [q.pushed[|q.popped|]]
  {
    var c, w, r := Pow2(k), |q.pushed|, |q.popped|;
    SameSlot(r, w, c);
    ThreeSteps(c, q, BeginPop, ReadSlot, StoreHead);
    hide Slot, And, Pow2, Run;
    assert q.slots[Slot(r, c)] == q.pushed[r];
  }
}
