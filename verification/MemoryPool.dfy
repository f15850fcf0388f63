/** `MemoryPool`: N slots, the free ones threaded into a list through their `next` fields.
    A pointer is the index of its node, -1 the null pointer. */
module MemoryPool {

  /** Following `next` from `head` visits the nodes `list`, no node twice, and ends in null: the
      list is acyclic. */
  ghost predicate Chain(next: seq<int>, head: int, list: seq<int>)
    decreases |list|
  {
    if |list| == 0 then head == -1
    else head == list[0] && 0 <= head < |next| && head !in list[1..] && Chain(next, next[head], list[1..])
  }

  lemma {:induction false} ChainElsewhere(next: seq<int>, head: int, list: seq<int>, p: int, x: int)
    requires Chain(next, head, list) && 0 <= p < |next| && p !in list
    ensures Chain(next[p := x], head, list)
    decreases |list|
  {
    if |list| > 0 {
      assert p != list[0];
      ChainElsewhere(next, next[head], list[1..], p, x);
    }
  }

  /** Linking a node that is not on the list in front of it. */
  lemma ChainPush(next: seq<int>, head: int, list: seq<int>, p: int)
    requires Chain(next, head, list) && 0 <= p < |next| && p !in list
    ensures Chain(next[p := head], p, [p] + list)
  {
    ChainElsewhere(next, head, list, p, head);
    assert ([p] + list)[1..] == list;
  }

  lemma {:induction false} ChainInRange(next: seq<int>, head: int, list: seq<int>, i: nat)
    requires Chain(next, head, list) && i < |list|
    ensures 0 <= list[i] < |next| && list[i] !in list[i + 1..]
    decreases |list|
  {
    if i > 0 {
      ChainInRange(next, next[head], list[1..], i - 1);
      assert list[1..][i..] == list[i + 1..];
    }
  }

  class Pool {
    const next: array<int>
    var freeList: int
    var inUse: int
    ghost var free: seq<int>  // the nodes on the free list, first to last

    ghost predicate Valid()
      reads this, next
    {
      Chain(next[..], freeList, free) && inUse + |free| == next.Length
    }

    /** The node is handed out. */
    ghost predicate Out(p: int)
      reads this
    {
      0 <= p < next.Length && p !in free
    }

    constructor (n: nat)
      ensures Valid() && fresh(next) && next.Length == n
      ensures forall p :: !Out(p)
    {
      next := new int[n](_ => -1);
      freeList, inUse := -1, 0;
      free := [];
      new;
      for i := 0 to n
        invariant Chain(next[..], freeList, free) && |free| == i && inUse == 0
        invariant forall p :: p in free <==> 0 <= p < i
        modifies this, next
      {
        ChainPush(next[..], freeList, free, i);
        ghost var linked := next[..][i := freeList];
        next[i] := freeList;
        assert next[..] == linked;
        freeList := i;
        free := [i] + free;
      }
    }

    /** Null exactly when all N nodes are out; otherwise the node freed last, which nobody holds. */
    method Alloc() returns (p: int)
      requires Valid()
      modifies this
      ensures Valid()
      ensures p == -1 <==> old(inUse) == next.Length
      ensures p == -1 ==> inUse == old(inUse) && free == old(free)
      ensures p != -1 ==> !old(Out(p)) && Out(p) && inUse == old(inUse) + 1 && [p] + free == old(free)
      ensures forall q :: q != p ==> Out(q) == old(Out(q))
    {
      if freeList == -1 {
        return -1;
      }
      p := freeList;
      freeList := next[p];
      inUse := inUse + 1;
      free := free[1..];
      assert old(free) == [p] + free;
    }

    /** The node goes to the front of the list; null is ignored. */
    method Free(p: int)
      requires Valid() && (p == -1 || Out(p))
      modifies this, next
      ensures Valid()
      ensures p == -1 ==> inUse == old(inUse) && free == old(free)
      ensures p != -1 ==> !Out(p) && inUse == old(inUse) - 1 && free == [p] + old(free)
      ensures forall q :: q != p ==> Out(q) == old(Out(q))
    {
      if p == -1 {
        return;
      }
      ChainPush(next[..], freeList, free, p);
      ghost var linked := next[..][p := freeList];
      next[p] := freeList;
      assert next[..] == linked;
      freeList := p;
      inUse := inUse - 1;
      free := [p] + free;
    }
  }

  datatype Op = Alloc | Free(slot: nat)  // free one of the pointers held

  /** Over every sequence of allocations and of frees of held pointers: the pointers held are
      distinct nodes, exactly the ones off the free list, and as many as `in_use_` says. */
  method Exercise(pool: Pool, ops: seq<Op>) returns (held: seq<int>)
    requires pool.Valid() && pool.inUse == 0 && forall p :: !pool.Out(p)
    modifies pool, pool.next
    ensures pool.Valid()
    ensures |held| == pool.inUse <= pool.next.Length
    ensures forall i, j :: 0 <= i < j < |held| ==> held[i] != held[j]
    ensures forall p :: p in held <==> pool.Out(p)
  {
    held := [];
    for k := 0 to |ops|
      invariant pool.Valid() && |held| == pool.inUse
      invariant forall i, j :: 0 <= i < j < |held| ==> held[i] != held[j]
      invariant forall p :: p in held <==> pool.Out(p)
    {
      match ops[k] {
        case Alloc =>
          var p := pool.Alloc();
          if p != -1 {
            held := held + [p];
          }
        case Free(slot) =>
          if slot < |held| {
            var p := held[slot];
            assert p in held;
            pool.Free(p);
            held := Without(held, slot);
          }
      }
    }
  }

  function Without(s: seq<int>, k: nat): (r: seq<int>)
    requires k < |s| && forall i, j :: 0 <= i < j < |s| ==> s[i] != s[j]
    ensures |r| == |s| - 1
    ensures forall i, j :: 0 <= i < j < |r| ==> r[i] != r[j]
    ensures forall q :: q in r <==> q in s && q != s[k]
  {
    var r := s[..k] + s[k + 1..];
    assert forall i :: 0 <= i < |s| && i != k ==> s[i] == r[if i < k then i else i - 1];
    r
  }
}
