/** `ClientManager`: the table of connections.  Each method steps the clients it names by the
    functions of SendQueue, leaves the others alone, and keeps every client's invariant. */
module ClientManager {
  import opened Protocol
  import S = Subscription
  import Q = SendQueue

  /** `order` is an iteration order of the table: every fd once. */
  ghost predicate Iterates(order: seq<int>, clients: map<int, Q.Client>) {
    (forall i :: 0 <= i < |order| ==> order[i] in clients) && (forall fd <- clients :: fd in order)
    && forall i, j :: 0 <= i < j < |order| ==> order[i] != order[j]
  }

  class Manager {
    var clients: map<int, Q.Client>

    ghost predicate Valid()
      reads this
    {
      forall fd <- clients :: Q.Inv(clients[fd])
    }

    constructor ()
      ensures Valid() && clients == map[]
    {
      clients := map[];
    }

    /** `emplace`: an fd already in the table keeps its state. */
    method AddClient(fd: int)
      requires Valid()
      modifies this
      ensures Valid()
      ensures clients == if fd in old(clients) then old(clients) else old(clients)[fd := Q.NEW]
    {
      if fd !in clients {
        clients := clients[fd := Q.NEW];
      }
    }

    method RemoveClient(fd: int)
      requires Valid()
      modifies this
      ensures Valid()
      ensures clients == old(clients) - {fd}
    {
      clients := clients - {fd};
    }

    /** The loop of `flush_queue` over the client's queue. */
    method FlushQueue(c: Q.Client, replies: seq<Q.Reply>) returns (cs: Q.Client, done: bool)
      ensures (cs, done) == Q.Flush(c, replies)
      ensures var k := Q.TakenWhole(c.pending, replies);
        Q.Moved(c, cs, k, Q.TakenThen(c.pending, replies, k)) && (done <==> k == |c.pending|)
    {
      Q.FlushSends(c, replies);
      hide Q.Moved, Q.TakenWhole, Q.TakenThen;
      cs := c;
      var k := 0;
      while |cs.pending| > 0
        invariant k <= |replies|
        invariant Q.Flush(cs, replies[k..]) == Q.Flush(c, replies)
        decreases |cs.pending|
      {
        if k == |replies| || !replies[k].Sent? {
          return cs, false;
        }
        var buf := cs.pending[0];
        var sent := Min(replies[k].n, |buf|);
        if sent == |buf| {
          cs := cs.(pendingBytes := cs.pendingBytes - |buf|, bytesSent := cs.bytesSent + |buf|,
                    msgsSent := cs.msgsSent + 1, pending := cs.pending[1..], wire := cs.wire + buf);
        } else if sent > 0 {
          cs := cs.(pendingBytes := cs.pendingBytes - sent, bytesSent := cs.bytesSent + sent,
                    pending := [buf[sent..]] + cs.pending[1..], wire := cs.wire + buf[..sent]);
          return cs, false;
        } else {
          return cs, false;
        }
        k := k + 1;
      }
      return cs, true;
    }

    /** A backlog and the message together fit the limit; without a backlog, the send does not fail. */
    ghost predicate Stays(c: Q.Client, data: seq<byte>, reply: Q.Reply) {
      if c.pending != [] then |Join(c.pending)| + |data| <= 64 * 1024 * 1024 else !reply.Failed?
    }

    /** False when the client is unknown or was dropped. */
    method SendTo(fd: int, data: seq<byte>, reply: Q.Reply) returns (ok: bool)
      requires Valid()
      modifies this
      ensures Valid()
      ensures ok <==> fd in old(clients) && Q.SendTo(old(clients)[fd], data, reply).Some?
      ensures ok ==> clients == old(clients)[fd := Q.SendTo(old(clients)[fd], data, reply).value]
      ensures !ok ==> clients == old(clients) - {fd}
      ensures ok <==> fd in old(clients) && Stays(old(clients)[fd], data, reply)
    {
      if fd !in clients {
        return false;
      }
      var cs := clients[fd];
      Q.SendToKeeps(cs, data, reply);
      Q.StaysIff(cs, data, reply);
      if |cs.pending| > 0 {
        cs := Q.Enqueue(cs, data);
        cs := cs.(msgsDropped := cs.msgsDropped + 1, accepted := cs.accepted + [data]);
        if cs.pendingBytes > Q.SLOW_CLIENT_DROP_BYTES {
          RemoveClient(fd);
          return false;
        }
        clients := clients[fd := cs];
        return true;
      }
      match reply {
        case Failed =>
          RemoveClient(fd);
          return false;
        case Again =>
          cs := Q.Enqueue(cs, data);
          clients := clients[fd := cs.(epollout := true, msgsDropped := cs.msgsDropped + 1,
                                       accepted := cs.accepted + [data])];
          return true;
        case Sent(k) =>
          var sent := Min(k, |data|);
          cs := cs.(wire := cs.wire + data[..sent], accepted := cs.accepted + [data]);
          if sent == |data| {
            assert data[..sent] == data;
            clients := clients[fd := cs.(bytesSent := cs.bytesSent + |data|, msgsSent := cs.msgsSent + 1)];
          } else {
            clients := clients[fd := Q.Enqueue(cs, data[sent..]).(epollout := true)];
          }
          return true;
      }
    }

    /** What a broadcast makes of one client; clients that are not live are skipped. */
    ghost function Broadcasted(c: Q.Client, data: seq<byte>, reply: Q.Reply): Q.Option<Q.Client> {
      Q.Do(Q.Some(c), Q.Send(data, reply))
    }

    lemma SendIsForTheLive(c: Q.Client, data: seq<byte>, reply: Q.Reply)
      ensures Broadcasted(c, data, reply)
        == if c.sub.phase.LIVE? then Q.SendTo(c, data, reply) else Q.Some(c)
    {
      hide Q.SendTo;
    }

    /** Every live client is sent the message once, in the given order; a client that fails goes away
        without touching the others. */
    method Broadcast(order: seq<int>, data: seq<byte>, replies: int -> Q.Reply)
      requires Valid() && Iterates(order, clients)
      modifies this
      ensures Valid()
      ensures forall fd :: fd in clients <==>
        fd in old(clients) && Broadcasted(old(clients)[fd], data, replies(fd)).Some?
      ensures forall fd <- clients :: clients[fd] == Broadcasted(old(clients)[fd], data, replies(fd)).value
    {
      hide Q.Inv, Q.SendTo, Q.Do, Broadcasted;
      ghost var was := clients;
      for i := 0 to |order|
        invariant Valid()
        invariant forall fd :: fd in order[i..] ==> fd in clients && clients[fd] == was[fd]
        invariant forall fd :: fd in order[..i] ==>
          (fd in clients <==> Broadcasted(was[fd], data, replies(fd)).Some?)
        invariant forall fd :: fd in clients ==> fd in was
        invariant forall fd :: fd in order[..i] && fd in clients ==>
          clients[fd] == Broadcasted(was[fd], data, replies(fd)).value
      {
        var fd := order[i];
        assert order[i..] == [fd] + order[i + 1..] && order[..i + 1] == order[..i] + [fd];
        assert fd !in order[i + 1..] && fd !in order[..i];
        SendIsForTheLive(was[fd], data, replies(fd));
        if clients[fd].sub.phase.LIVE? {
          var _ := SendTo(fd, data, replies(fd));
        }
      }
      assert order[..|order|] == order;
    }

    method FlushPending(fd: int, replies: seq<Q.Reply>)
      requires Valid()
      modifies this
      ensures Valid()
      ensures clients == if fd in old(clients)
                         then old(clients)[fd := Q.FlushPending(old(clients)[fd], replies)]
                         else old(clients)
    {
      if fd !in clients {
        return;
      }
      Q.FlushPendingKeeps(clients[fd], replies);
      var cs, done := FlushQueue(clients[fd], replies);
      if done {
        cs := cs.(epollout := false);
      }
      clients := clients[fd := cs];
    }

    method OnRecv(fd: int, data: seq<byte>)
      requires Valid()
      modifies this
      ensures Valid()
      ensures clients == if fd in old(clients)
                         then old(clients)[fd := old(clients)[fd].(sub := S.Receive(old(clients)[fd].sub, data))]
                         else old(clients)
    {
      if fd !in clients {
        return;
      }
      var sub := S.OnRecv(clients[fd].sub, data);
      clients := clients[fd := clients[fd].(sub := sub)];
    }

    /** Collects the clients over the limit, then removes them. */
    method Tick(order: seq<int>)
      requires Valid() && Iterates(order, clients)
      modifies this
      ensures Valid()
      ensures forall fd :: fd in clients <==>
        fd in old(clients) && Q.Do(Q.Some(old(clients)[fd]), Q.Tick).Some?
      ensures forall fd <- clients :: clients[fd] == old(clients)[fd]
    {
      hide Q.Inv;
      ghost var was := clients;
      var toRemove: seq<int> := [];
      for i := 0 to |order|
        invariant clients == was
        invariant forall fd :: fd in toRemove <==>
          fd in order[..i] && fd in was && was[fd].pendingBytes > Q.SLOW_CLIENT_DROP_BYTES
      {
        assert order[..i + 1] == order[..i] + [order[i]];
        if clients[order[i]].pendingBytes > Q.SLOW_CLIENT_DROP_BYTES {
          toRemove := toRemove + [order[i]];
        }
      }
      assert order[..|order|] == order;
      for i := 0 to |toRemove|
        invariant Valid()
        invariant forall fd :: fd in clients <==> fd in was && fd !in toRemove[..i]
        invariant forall fd <- clients :: clients[fd] == was[fd]
      {
        assert toRemove[..i + 1] == toRemove[..i] + [toRemove[i]];
        RemoveClient(toRemove[i]);
      }
      assert toRemove[..|toRemove|] == toRemove;
    }
  }
}
