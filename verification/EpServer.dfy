/** The event handlers, and what they keep over every run: each connection's bytes are framed
    in order into the packets given to the pool, and every packet's reply is accounted for. */
module EpServer {
  import opened Bytes
  import opened Framing
  import opened Options
  import opened SendQueue
  import opened Server
  import Pack

  class EpServer {
    const handler: Handler
    const kernel: Kernel
    const rhpr: RecvHelper
    const queue: Queue
    var connTable: set<ConnId>
    ghost var seen: set<ConnId>       // every connection ever accepted
    var pending: seq<Work>            // in the pool, not yet processed
    ghost var dispatched: seq<Work>   // everything ever given to the pool
    ghost var pushed: seq<Entry>      // everything ever given to the send queue
    ghost var sent: seq<Entry>        // everything written to a socket
    ghost var removed: seq<Entry>     // everything dropped with its connection

    // -------------------------------------------------------------- invariants

    ghost predicate Connections()
      reads this, kernel, rhpr
    {
      Connected(connTable, connTable, seen, kernel.conns, rhpr.dataMap, dispatched, sent)
    }

    ghost predicate OtherConnections(c: ConnId)
      reads this, kernel, rhpr
    {
      Connected(connTable - {c}, connTable, seen, kernel.conns, rhpr.dataMap, dispatched, sent)
    }

    /** Every packet given to the pool is still there or its reply was pushed, once; every reply
        pushed is queued, sent or was removed with its connection. */
    ghost predicate Replies()
      reads this, queue
    {
      && AssertionHolds(pending)
      && Settled(handler, dispatched, pending, pushed)
      && Conserved(pushed, sent, queue.list, removed)
      && AllSound(queue.list) && AllSound(sent)
    }

    /** Nothing is removed but with its connection. */
    ghost predicate Gone()
      reads this
    {
      forall i :: 0 <= i < |removed| ==> removed[i].connId in seen - connTable
    }

    ghost predicate Valid()
      reads this, kernel, rhpr, queue
    {
      Connections() && Replies() && Gone()
    }

    /** End to end, in every state the steps can reach, for a live connection: the replies owed for
        the packets in the bytes received are, packet by packet, still in the pool, queued, or on the
        wire, where they parse back with nothing left over. */
    lemma EndToEnd(c: ConnId, f: Data)
      requires Valid() && c in connTable
      ensures c in kernel.conns
      ensures var k := kernel.conns[c];
        && Rest(k.wire) == []
        && Owed(handler, Frames(k.received), f)
           == Copies(k.wire, f) + Queued(queue.list, c, f) + RepliesOf(handler, pending, c, f)
    {
      EndToEndEver(c, f);
      NotRemoved(removed, c, f);
    }

    /** For a connection that is gone some of them may have been removed with it. */
    lemma EndToEndEver(c: ConnId, f: Data)
      requires Valid() && c in seen
      ensures c in kernel.conns
      ensures var k := kernel.conns[c];
        && Rest(k.wire) == []
        && Owed(handler, Frames(k.received), f)
           == Copies(k.wire, f) + Queued(queue.list, c, f) + Queued(removed, c, f)
            + RepliesOf(handler, pending, c, f)
    {
      StreamParses(sent, c, f);
      RepliesAreOwed(handler, dispatched, c, f);
    }

    /** On a live connection no more packets with a message number and certain data are sent than were
        received with this number and are answered with these data; and just as many when nothing of
        the connection is in the pool or queued. Every packet sent has the version of the protocol. */
    lemma RepliesOnWire(c: ConnId, msgId: int, data: Data)
      requires Valid() && c in connTable
      ensures c in kernel.conns
      ensures var k := kernel.conns[c];
        var sends, owes := Carrying(Frames(k.wire), msgId, data), Answered(handler, Frames(k.received), msgId, data);
        && sends <= owes
        && (PacketsOf(pending, c) == [] && Only(queue.list, c) == [] ==> sends == owes)
      ensures forall f :: f in Frames(kernel.conns[c].wire) ==> IsFrame(f) && Version(f) == PACK_VERSION
    {
      hide Frames, Rest, Connections, Replies, Gone, Packet;
      EndToEnd(c, []);
      var k := kernel.conns[c];
      FramesRebuild(k.wire);
      FramesRebuild(k.received);
      forall f | f in Frames(k.wire) ensures Version(f) == PACK_VERSION {
        EndToEnd(c, f);
        OwedVersion(handler, Frames(k.received), f);
      }
      if 0 <= msgId < 0x1_0000_0000 && |data| < 0x1_0000_0000 {
        var f := Packet(msgId, data);
        EndToEnd(c, f);
        CarryingIs(Frames(k.wire), msgId, data);
        AnsweredIsOwed(handler, Frames(k.received), msgId, data);
        NothingWaits(handler, pending, queue.list, c, f);
      } else {
        NoneCarries(Frames(k.wire), msgId, data);
        NoneAnswered(handler, Frames(k.received), msgId, data);
      }
    }

    // -------------------------------------------------------------- start and accept

    constructor (proc: Handler)
      ensures Valid() && connTable == {} && seen == {} && pending == [] && handler == proc && kernel.conns == map[]
      ensures fresh(kernel) && fresh(rhpr) && fresh(queue)
    {
      handler := proc;
      kernel := new Kernel();
      rhpr := new RecvHelper();
      queue := new Queue();
      connTable, pending, seen := {}, [], {};
      dispatched, pushed, sent, removed := [], [], [], [];
    }

    /** A peer connects; nothing has been received or sent yet. */
    method Connect(c: ConnId)
      requires Valid() && c !in kernel.conns
      modifies kernel`conns
      ensures Valid() && kernel.conns == old(kernel.conns)[c := Conn([], [], false, [], 0)]
    {
      NothingSeen(seen, kernel.conns, dispatched, sent, c);
      kernel.conns := kernel.conns[c := Conn([], [], false, [], 0)];
    }

    /** A peer sends more bytes, within the packet limit of the protocol. */
    method Arrive(c: ConnId, bytes: Data)
      requires Valid() && c in kernel.conns
      requires var k := kernel.conns[c]; !k.hungUp && Bounded(k.received + (k.inFlight + bytes))
      modifies kernel`conns
      ensures Valid()
      ensures var k := old(kernel.conns)[c]; kernel.conns == old(kernel.conns)[c := k.(inFlight := k.inFlight + bytes)]
    {
      hide Bounded, Frames, Rest, PacketsOf, Stream, Settled, Conserved, AllSound, AssertionHolds;
      var k := kernel.conns[c];
      assert [] + (k.inFlight + bytes) == k.inFlight + bytes;
      kernel.conns := kernel.conns[c := k.(inFlight := k.inFlight + bytes)];
    }

    /** A peer closes its side. */
    method HangUp(c: ConnId)
      requires Valid() && c in kernel.conns
      modifies kernel`conns
      ensures Valid() && kernel.conns == old(kernel.conns)[c := old(kernel.conns)[c].(hungUp := true)]
    {
      hide Frames, Rest, Bounded, PacketsOf, Stream;
      kernel.conns := kernel.conns[c := kernel.conns[c].(hungUp := true)];
    }

    /** Sends on a connection will report that they would block this often. */
    method Congest(c: ConnId, times: nat)
      requires Valid() && c in kernel.conns
      modifies kernel`conns
      ensures Valid() && kernel.conns == old(kernel.conns)[c := old(kernel.conns)[c].(stalls := times)]
    {
      hide Frames, Rest, Bounded, PacketsOf, Stream;
      kernel.conns := kernel.conns[c := kernel.conns[c].(stalls := times)];
    }

    /** A connection gets a number that none had before, and goes into the table. */
    method Accept(c: ConnId)
      requires Valid() && c in kernel.conns && c !in seen
      modifies this`connTable, this`seen
      ensures Valid() && connTable == old(connTable) + {c} && seen == old(seen) + {c}
    {
      hide Bounded;
      var k := kernel.conns[c];
      assert k.received + k.inFlight == k.inFlight;
      connTable, seen := connTable + {c}, seen + {c};
    }

    // -------------------------------------------------------------- receiving

    /** Parses packet after packet off the front of the buffer and hands each to the pool. */
    method Drain(c: ConnId, buf: array<Byte>, len: nat) returns (left: nat)
      requires len <= buf.Length && Bounded(buf[..len])
      modifies this`pending, buf
      ensures left <= len && left < NET_REMAIN_CACHE_SIZE && buf[..left] == Rest(old(buf[..len]))
      ensures pending == old(pending) + WorksFor(c, Frames(old(buf[..len])))
    {
      hide Frames, Rest, Bounded;
      ghost var all := Frames(buf[..len]);
      ghost var taken := [];
      var packLen, pack;
      packLen, pack, left := Pack.NextPack(buf, len);
      while packLen != 0
        invariant left <= len && packLen == |pack| && Bounded(buf[..left])
        invariant Rest(buf[..left]) == Rest(old(buf[..len]))
        invariant packLen == 0 ==> taken == all && Rest(buf[..left]) == buf[..left]
        invariant packLen != 0 ==> taken + [pack] + Frames(buf[..left]) == all
        invariant pending == old(pending) + WorksFor(c, taken)
        decreases left, packLen
      {
        WorksForAppend(c, taken, [pack]);
        taken := taken + [pack];
        pending := pending + [Work(c, packLen, pack)];
        packLen, pack, left := Pack.NextPack(buf, left);
      }
      BoundedRest(buf[..left]);
    }

    /** Parsing, counted from the start of the event: `packets` are the packets handed over so
        far, `pool` is what the pool held before. */
    method Parse(c: ConnId, recvBuff: array<Byte>, len: nat,
                 ghost pool: seq<Work>, ghost before: seq<Data>, ghost packets: seq<Data>)
      returns (left: nat, ghost packets': seq<Data>)
      requires len <= recvBuff.Length && Bounded(recvBuff[..len])
      requires pending == pool + WorksFor(c, packets)
      modifies this`pending, recvBuff
      ensures pending == pool + WorksFor(c, packets')
      ensures before + packets' == before + packets + Frames(old(recvBuff[..len]))
      ensures left <= len && left < NET_REMAIN_CACHE_SIZE
      ensures recvBuff[..left] == Rest(old(recvBuff[..len]))
    {
      hide Frames, Rest, Bounded;
      packets' := packets + Frames(recvBuff[..len]);
      WorksForAppend(c, packets, Frames(recvBuff[..len]));
      left := Drain(c, recvBuff, len);
    }

    /** The first `len` bytes of the buffer are what is received but not yet parsed, behind the
        packets `done`. */
    ghost predicate Unparsed(k: Conn, recvBuff: array<Byte>, len: nat, done: seq<Data>)
      reads recvBuff
    {
      && len <= recvBuff.Length && Bounded(recvBuff[..len])
      && Frames(k.received) == done + Frames(recvBuff[..len])
      && Rest(k.received) == Rest(recvBuff[..len])
    }

    /** One receive behind the `cacheSize` bytes of tail already in the buffer. It asks for at
        least one byte, so a result of 0 means that the peer has closed. */
    method TakeMore(c: ConnId, recvBuff: array<Byte>, cacheSize: nat) returns (err: int)
      requires c in kernel.conns
      requires recvBuff.Length == NET_RECV_BUFF_SIZE && cacheSize < NET_REMAIN_CACHE_SIZE
      requires var k := kernel.conns[c];
        recvBuff[..cacheSize] == Rest(k.received) && Bounded(k.received + k.inFlight)
      modifies recvBuff, kernel
      ensures var k := old(kernel.conns)[c];
        && -1 <= err <= NET_RECV_SIZE_LIMIT - cacheSize && err <= |k.inFlight|
        && (err == 0 ==> Ended(k))
        && Reported(old(kernel.results), kernel.results, c, err)
        && (err <= 0 ==> kernel.conns == old(kernel.conns) && recvBuff[..cacheSize] == Rest(k.received))
        && (err > 0 ==>
             && kernel.conns == old(kernel.conns)[c := Took(k, err)]
             && Unparsed(Took(k, err), recvBuff, cacheSize + err, Frames(k.received)))
    {
      hide Frames, Rest, Bounded;
      ghost var k := kernel.conns[c];
      err := kernel.Recv(c, recvBuff, cacheSize, NET_RECV_SIZE_LIMIT - cacheSize);
      assert recvBuff[..cacheSize] == Rest(k.received);
      if err > 0 {
        Arrived(k.received, k.inFlight, err);
        assert recvBuff[..cacheSize + err] == recvBuff[..cacheSize] + recvBuff[cacheSize..cacheSize + err];
        assert recvBuff[..cacheSize + err] == Rest(k.received) + k.inFlight[..err];
      }
    }

    /** Puts the tail kept from the event before in front of the bytes just received. */
    method Prepend(c: ConnId, recvBuff: array<Byte>, len: nat) returns (total: nat)
      requires recvBuff.Length == NET_RECV_BUFF_SIZE && len <= NET_RECV_SIZE_LIMIT
      requires |Tail(rhpr.dataMap, c)| < NET_REMAIN_CACHE_SIZE
      modifies recvBuff, rhpr
      ensures total == |Tail(old(rhpr.dataMap), c)| + len <= NET_RECV_BUFF_SIZE
      ensures recvBuff[..total] == Tail(old(rhpr.dataMap), c) + old(recvBuff[..len])
      ensures rhpr.dataMap == old(rhpr.dataMap) - {c}
    {
      hide Frames, Rest, Bounded;
      var cacheBuf := new Byte[NET_REMAIN_CACHE_SIZE];
      var result, cacheSize := rhpr.Find(c, cacheBuf, NET_REMAIN_CACHE_SIZE);
      assert result == 0 || cacheSize == -1;
      total := len;
      if result == 0 {
        MoveUp(recvBuff, len, cacheBuf[..cacheSize]);
        total := len + cacheSize;
      } else {
        assert [] + recvBuff[..len] == recvBuff[..len];
      }
      rhpr.Remove(c);
    }

    /** Makes room for `cached` at the front of the buffer and copies it there. */
    static method MoveUp(recvBuff: array<Byte>, len: nat, cached: Data)
      requires |cached| + len <= recvBuff.Length
      modifies recvBuff
      ensures recvBuff[..|cached| + len] == cached + old(recvBuff[..len])
    {
      hide Frames, Rest, Bounded;
      var n := |cached|;
      ghost var front := recvBuff[..len];
      Memmove(recvBuff, n, 0, len);
      ghost var moved := recvBuff[..];
      assert moved[n..n + len] == front;
      Memcpy(recvBuff, 0, cached);
      ghost var now := recvBuff[..];
      assert now[0..n] == cached;
      assert now[n..n + len] == moved[n..n + len];
      assert recvBuff[..n + len] == now[0..n] + now[n..n + len];
    }

    /** Keeps the tail for the next event. There is never an older one in the way. */
    method Keep(c: ConnId, recvBuff: array<Byte>, cacheSize: nat)
      requires cacheSize <= recvBuff.Length && c !in rhpr.dataMap
      modifies rhpr
      ensures rhpr.dataMap - {c} == old(rhpr.dataMap) - {c}
      ensures Tail(rhpr.dataMap, c) == recvBuff[..cacheSize]
      ensures c in rhpr.dataMap ==> rhpr.dataMap[c] != []
    {
      if cacheSize != 0 {
        var ret := rhpr.Insert(c, recvBuff[..cacheSize]);
        assert ret == 0;
      }
    }

    /** Reads one connection until it would block or has ended. The packets completed on the
        way, in order, are what it adds to the pool. */
    method Receive(c: ConnId) returns (err: int, ghost packets: seq<Data>)
      requires c in kernel.conns && Cached(kernel.conns[c], rhpr.dataMap, c)
      modifies this`pending, kernel, rhpr
      ensures err == -1 || err == 0
      ensures pending == old(pending) + WorksFor(c, packets)
      ensures Progress(old(kernel.conns), kernel.conns, c)
      ensures Frames(kernel.conns[c].received) == Frames(old(kernel.conns)[c].received) + packets
      ensures err == -1 ==> Cached(kernel.conns[c], rhpr.dataMap, c)
      ensures err == 0 ==> Ended(kernel.conns[c])
      ensures Reported(old(kernel.results), kernel.results, c, err)
      ensures rhpr.dataMap - {c} == old(rhpr.dataMap) - {c}
    {
      hide Frames, Rest, Bounded;
      var recvBuff := new Byte[NET_RECV_BUFF_SIZE];
      ghost var k := kernel.conns[c];
      err := kernel.Recv(c, recvBuff, 0, NET_RECV_SIZE_LIMIT);
      if err <= 0 {
        return err, [];
      }
      Arrived(k.received, k.inFlight, err);
      BoundedRest(k.received);
      assert recvBuff[..err] == recvBuff[0..0 + err];
      err := Prepend(c, recvBuff, err);
      err, packets := Reassemble(c, recvBuff, err, Frames(k.received));
    }

    /** The loop of the receive handler: parse what is there, keep the tail at the front of the
        buffer, receive more behind it. `before` are the packets of earlier events. */
    method Reassemble(c: ConnId, recvBuff: array<Byte>, got: nat, ghost before: seq<Data>)
      returns (err: int, ghost packets: seq<Data>)
      requires 0 < got && recvBuff.Length == NET_RECV_BUFF_SIZE && c !in rhpr.dataMap
      requires c in kernel.conns && Unparsed(kernel.conns[c], recvBuff, got, before)
      requires Bounded(kernel.conns[c].received + kernel.conns[c].inFlight)
      modifies this`pending, kernel, rhpr, recvBuff
      ensures err == -1 || err == 0
      ensures pending == old(pending) + WorksFor(c, packets)
      ensures Progress(old(kernel.conns), kernel.conns, c)
      ensures Frames(kernel.conns[c].received) == before + packets
      ensures err == -1 ==> Cached(kernel.conns[c], rhpr.dataMap, c)
      ensures err == 0 ==> Ended(kernel.conns[c])
      ensures Reported(old(kernel.results), kernel.results, c, err)
      ensures rhpr.dataMap - {c} == old(rhpr.dataMap) - {c}
    {
      hide Frames, Rest, Bounded;
      var cacheSize := 0;
      ghost var pool := pending;
      err, packets := got, [];
      while err > 0
        invariant 0 <= cacheSize < NET_REMAIN_CACHE_SIZE && err >= -1
        invariant Progress(old(kernel.conns), kernel.conns, c)
        invariant err > 0 ==> cacheSize + err <= NET_RECV_BUFF_SIZE
        invariant err > 0 ==> Unparsed(kernel.conns[c], recvBuff, cacheSize + err, before + packets)
        invariant err <= 0 ==> Frames(kernel.conns[c].received) == before + packets
        invariant err <= 0 ==> recvBuff[..cacheSize] == Rest(kernel.conns[c].received)
        invariant err == 0 ==> Ended(kernel.conns[c])
        invariant old(kernel.results) <= kernel.results
        invariant err <= 0 ==> Reported(old(kernel.results), kernel.results, c, err)
        invariant pending == pool + WorksFor(c, packets)
        invariant rhpr.dataMap == old(rhpr.dataMap)
        decreases |kernel.conns[c].inFlight|, err > 0
      {
        err, cacheSize, packets := Round(c, recvBuff, err + cacheSize, pool, before, packets);
      }
      if err == -1 {
        Keep(c, recvBuff, cacheSize);
      }
    }

    /** One turn of the loop: parse, then receive behind the tail. */
    method Round(c: ConnId, recvBuff: array<Byte>, len: nat,
                 ghost pool: seq<Work>, ghost before: seq<Data>, ghost packets: seq<Data>)
      returns (err: int, cacheSize: nat, ghost packets': seq<Data>)
      requires recvBuff.Length == NET_RECV_BUFF_SIZE && c in kernel.conns
      requires Unparsed(kernel.conns[c], recvBuff, len, before + packets)
      requires Bounded(kernel.conns[c].received + kernel.conns[c].inFlight)
      requires pending == pool + WorksFor(c, packets)
      modifies this`pending, kernel, recvBuff
      ensures pending == pool + WorksFor(c, packets')
      ensures cacheSize < NET_REMAIN_CACHE_SIZE && -1 <= err
      ensures Progress(old(kernel.conns), kernel.conns, c)
      ensures err > 0 ==>
        && cacheSize + err <= NET_RECV_BUFF_SIZE
        && |kernel.conns[c].inFlight| < |old(kernel.conns)[c].inFlight|
        && Unparsed(kernel.conns[c], recvBuff, cacheSize + err, before + packets')
      ensures err <= 0 ==>
        && kernel.conns == old(kernel.conns)
        && Frames(kernel.conns[c].received) == before + packets'
        && recvBuff[..cacheSize] == Rest(kernel.conns[c].received)
      ensures Reported(old(kernel.results), kernel.results, c, err)
      ensures err == 0 ==> Ended(kernel.conns[c])
    {
      hide Frames, Rest, Bounded;
      cacheSize, packets' := Parse(c, recvBuff, len, pool, before, packets);
      err := TakeMore(c, recvBuff, cacheSize);
    }

    /** The receive event of a connection: it reads until there is no more to be had for now, or
        until the peer has closed. Only then the connection goes, with what is queued for it. */
    method HandleEpollin(c: ConnId)
      requires Valid()
      modifies this`connTable, this`pending, this`dispatched, this`removed, kernel, rhpr, queue
      ensures Valid()
      ensures c !in old(connTable) ==>
        && connTable == old(connTable) && dispatched == old(dispatched) && kernel.conns == old(kernel.conns)
        && queue.list == old(queue.list) && removed == old(removed)
      ensures c in old(connTable) ==>
        && Progress(old(kernel.conns), kernel.conns, c)
        && PacketsOf(dispatched, c) == Frames(kernel.conns[c].received)
      ensures c in old(connTable) ==>
        || (Reported(old(kernel.results), kernel.results, c, -1)
            && connTable == old(connTable) && queue.list == old(queue.list) && removed == old(removed))
        || (Reported(old(kernel.results), kernel.results, c, 0) && Ended(kernel.conns[c])
            && connTable == old(connTable) - {c} && queue.list == Without(old(queue.list), c)
            && removed == old(removed) + Only(old(queue.list), c))
      ensures forall d :: d != c ==> PacketsOf(dispatched, d) == PacketsOf(old(dispatched), d)
    {
      hide Frames, Rest, Bounded;
      if c in connTable {
        var err := ReceiveEvent(c);
        if err == 0 {
          Close(c);
        }
      }
    }

    method ReceiveEvent(c: ConnId) returns (err: int)
      requires Valid() && c in connTable
      modifies this`pending, this`dispatched, kernel, rhpr
      ensures Replies() && OtherConnections(c) && Gone()
      ensures err == -1 || err == 0
      ensures err == -1 ==> Connections()
      ensures Progress(old(kernel.conns), kernel.conns, c)
      ensures err == 0 ==> Ended(kernel.conns[c])
      ensures Reported(old(kernel.results), kernel.results, c, err)
      ensures PacketsOf(dispatched, c) == Frames(kernel.conns[c].received)
      ensures forall d :: d != c ==> PacketsOf(dispatched, d) == PacketsOf(old(dispatched), d)
    {
      hide Frames, Rest, Bounded, PacketsOf, RepliesOf, WorksFor, Queued, Stream, Settled, Conserved, Cached;
      ghost var pool, log, earlier := pending, dispatched, Frames(kernel.conns[c].received);
      ghost var conns, kept := kernel.conns, rhpr.dataMap;
      ghost var packets;
      err, packets := Receive(c);
      FramesRebuild(kernel.conns[c].received);
      AllFramesSuffix(earlier, packets);
      Dispatch(c, packets, pool);
      OthersReceive(connTable, seen, conns, kernel.conns, kept, rhpr.dataMap, log, dispatched, sent, c);
      if err == -1 {
        Rejoin(connTable, seen, kernel.conns, rhpr.dataMap, dispatched, sent, c);
      }
    }

    /** Writes down what a receive has added to the pool. */
    ghost method Dispatch(c: ConnId, packets: seq<Data>, pool: seq<Work>)
      requires AllFrames(packets) && pending == pool + WorksFor(c, packets)
      requires AssertionHolds(pool) && Settled(handler, dispatched, pool, pushed)
      modifies this`dispatched
      ensures AssertionHolds(pending) && Settled(handler, dispatched, pending, pushed)
      ensures PacketsOf(dispatched, c) == PacketsOf(old(dispatched), c) + packets
      ensures forall d :: d != c ==> PacketsOf(dispatched, d) == PacketsOf(old(dispatched), d)
    {
      var log, works := dispatched, WorksFor(c, packets);
      SettledByPending(handler, log, pool, pushed, works);
      WorksForHold(c, packets);
      forall d: ConnId
        ensures PacketsOf(log + works, d) == PacketsOf(log, d) + (if c == d then packets else [])
      {
        PacketsAppend(log, works, d);
        PacketsOfWorks(c, packets, d);
      }
      dispatched := log + works;
    }

    /** The peer has closed: forget what is queued for it, the connection and its tail. */
    method Close(c: ConnId)
      requires Replies() && OtherConnections(c) && Gone() && c in connTable
      modifies this`connTable, this`removed, rhpr, queue
      ensures Valid() && connTable == old(connTable) - {c} && rhpr.dataMap == old(rhpr.dataMap) - {c}
      ensures queue.list == Without(old(queue.list), c) && removed == old(removed) + Only(old(queue.list), c)
    {
      OnlyConserved(pushed, sent, queue.list, removed, c);
      CloseKeeps(connTable, seen, kernel.conns, rhpr.dataMap, dispatched, sent, c);
      removed := removed + Only(queue.list, c);
      queue.RemoveAllByConnId(c);
      connTable := connTable - {c};
      rhpr.Remove(c);
    }

    /** The send thread finds that a connection cannot be watched any more: it forgets what is queued
        and the connection. The tail that is kept for it stays where it is. */
    method GiveUp(c: ConnId)
      requires Valid() && c in connTable
      modifies this`connTable, this`removed, queue
      ensures Valid() && connTable == old(connTable) - {c}
      ensures queue.list == Without(old(queue.list), c) && removed == old(removed) + Only(old(queue.list), c)
    {
      OnlyConserved(pushed, sent, queue.list, removed, c);
      removed := removed + Only(queue.list, c);
      queue.RemoveAllByConnId(c);
      connTable := connTable - {c};
    }

    // -------------------------------------------------------------- working

    /** A worker takes any pending packet: the length assertion holds, and its reply, if the
        handler gives one, is built in place and queued. */
    method WorkProc(i: nat)
      requires Valid() && i < |pending|
      modifies this`pending, this`pushed, queue
      ensures Valid() && pending == old(pending)[..i] + old(pending)[i + 1..]
      ensures var w := old(pending)[i];
        if handler(Payload(w.data)).None? then pushed == old(pushed)
        else exists f :: Answers(handler, w.data, f) && pushed == old(pushed) + [Entry(w.connId, f)]
    {
      ReplyAnswers(handler, pending[i].data);
      var w := pending[i];
      assert w in pending;
      assert Total(w.data) == w.size;
      ghost var all, before := pending, pushed;
      pending := pending[..i] + pending[i + 1..];
      var reply := handler(Payload(w.data));
      if reply.Some? {
        Answer(w, reply.value);
      } else {
        assert pushed == before + [];
      }
      SettledByWorker(handler, dispatched, all, pending, i, before);
    }

    method Answer(w: Work, reply: Data)
      requires IsFrame(w.data) && handler(Payload(w.data)) == Some(reply)
      requires Conserved(pushed, sent, queue.list, removed) && AllSound(queue.list)
      modifies this`pushed, queue
      ensures pushed == old(pushed) + EntriesFor(w.connId, ReplyTo(handler, w.data))
      ensures exists f :: Answers(handler, w.data, f) && pushed == old(pushed) + [Entry(w.connId, f)]
      ensures Conserved(pushed, sent, queue.list, removed) && AllSound(queue.list)
    {
      hide Frames, Rest, Bounded, RepliesOf, Queued, Conserved, AllSound, Packet;
      ReplyAnswers(handler, w.data);
      var outData := new Byte[NET_PACK_SIZE_LIMIT];
      Memcpy(outData, 0, reply);
      assert outData[..|reply|] == outData[0..0 + |reply|];
      var msgId := MsgId(w.data);
      var outLen := Pack.CreatePack(outData, |reply|, msgId);
      var pack := outData[..outLen];
      PacketRoundTrip(msgId, reply);
      PushConserved(pushed, sent, queue.list, removed, w.connId, pack);
      queue.Push(w.connId, pack);
      pushed := pushed + [Entry(w.connId, pack)];
    }

    // -------------------------------------------------------------- sending

    /** The send event of a connection: takes its first entry and writes all of it, however the
        kernel cuts it up. */
    method HandleEpollout(c: ConnId)
      requires Valid()
      modifies this`sent, kernel`conns, queue
      ensures Valid()
      ensures var q, i := old(queue.list), FirstOf(old(queue.list), c);
        if c in connTable && i < |q| then
          && Wrote(old(kernel.conns), kernel.conns, c, q[i].data)
          && queue.list == q[..i] + q[i + 1..] && sent == old(sent) + [q[i]]
        else
          kernel.conns == old(kernel.conns) && queue.list == q && sent == old(sent)
    {
      hide Frames, Rest, Bounded;
      if c !in connTable {
        return;
      }
      ghost var log, conns := sent, kernel.conns;
      var sendBuf := new Byte[NET_SEND_BUFF_SIZE];
      var ret, bufLen := TakeFirst(c, sendBuf);
      if ret == -1 {
        return;
      }
      WriteAll(c, sendBuf, bufLen);
      SendKeeps(connTable, seen, conns, kernel.conns, rhpr.dataMap, dispatched, log, c, sendBuf[..bufLen]);
    }

    /** Takes the first entry of a connection, which always fits, out of the queue. */
    method TakeFirst(c: ConnId, sendBuf: array<Byte>) returns (ret: int, bufLen: nat)
      requires Replies() && sendBuf.Length == NET_SEND_BUFF_SIZE
      modifies this`sent, queue, sendBuf
      ensures Replies()
      ensures var q, i := old(queue.list), FirstOf(old(queue.list), c);
        if i == |q| then ret == -1 && queue.list == q && sent == old(sent)
        else
          && ret == 0 && 0 < bufLen <= sendBuf.Length && Entry(c, sendBuf[..bufLen]) == q[i]
          && queue.list == q[..i] + q[i + 1..] && sent == old(sent) + [q[i]]
    {
      ghost var q := queue.list;
      ghost var i := FirstOf(q, c);
      assert i < |q| ==> Sound(q[i]);
      ret, bufLen := queue.PopFirst(c, sendBuf, NET_SEND_BUFF_SIZE);
      if ret == 0 {
        PopConserved(pushed, sent, q, removed, c, q[i], queue.list);
        SoundWithoutOne(q, sent, i);
        sent := sent + [q[i]];
      }
    }

    method WriteAll(c: ConnId, buf: array<Byte>, len: nat)
      requires c in kernel.conns && 0 < len <= buf.Length
      modifies kernel`conns
      ensures Wrote(old(kernel.conns), kernel.conns, c, buf[..len])
    {
      var ptr, bufLen := 0, len;
      while true
        invariant 0 < bufLen && ptr + bufLen == len && ptr >= 0
        invariant Wrote(old(kernel.conns), kernel.conns, c, buf[..ptr])
        decreases bufLen, kernel.conns[c].stalls
      {
        var sendLen := kernel.Send(c, buf, ptr, bufLen);
        if sendLen != -1 {
          assert buf[..ptr + sendLen] == buf[..ptr] + buf[ptr..ptr + sendLen];
          bufLen := bufLen - sendLen;
          ptr := ptr + sendLen;
        }
        if bufLen <= 0 {
          break;
        }
      }
    }
  }

  // ---------------------------------------------------------------- connections

  function Tail(dataMap: map<ConnId, Data>, c: ConnId): Data {
    if c in dataMap then dataMap[c] else []
  }

  /** The peer has closed and everything it sent has been received. */
  predicate Ended(k: Conn) {
    k.hungUp && k.inFlight == []
  }

  /** What is kept for a connection is the incomplete tail of what it has received. */
  ghost predicate Cached(k: Conn, dataMap: map<ConnId, Data>, c: ConnId) {
    && Tail(dataMap, c) == Rest(k.received)
    && (c in dataMap ==> dataMap[c] != [])
    && Bounded(k.received + k.inFlight)
  }

  /** Every connection ever accepted has had exactly the packets of what it received given to the
      pool, and exactly its log of sent entries put on the wire; of the live ones, those in `good`
      keep the incomplete tail. The others have not received or sent anything. */
  ghost predicate Connected(good: set<ConnId>, table: set<ConnId>, seen: set<ConnId>, conns: map<ConnId, Conn>,
                            dataMap: map<ConnId, Data>, dispatched: seq<Work>, sent: seq<Entry>)
  {
    && table <= seen <= conns.Keys && dataMap.Keys <= seen
    && (forall c :: c in seen ==>
          PacketsOf(dispatched, c) == Frames(conns[c].received) && conns[c].wire == Stream(sent, c))
    && (forall c :: c in good && c in conns ==> Cached(conns[c], dataMap, c))
    && (forall c :: c !in seen ==> PacketsOf(dispatched, c) == [] && Stream(sent, c) == [])
    && (forall c :: c in conns && c !in seen ==>
          conns[c].received == [] && conns[c].wire == [] && Bounded(conns[c].inFlight))
  }

  /** Receiving on one connection: nothing is lost between flight and reception. */
  ghost predicate Progress(conns: map<ConnId, Conn>, conns': map<ConnId, Conn>, c: ConnId) {
    && c in conns && conns'.Keys == conns.Keys
    && (forall d :: d in conns && d != c ==> conns'[d] == conns[d])
    && conns'[c].received + conns'[c].inFlight == conns[c].received + conns[c].inFlight
    && |conns'[c].inFlight| <= |conns[c].inFlight|
    && conns'[c].wire == conns[c].wire
  }

  /** Sending on one connection. */
  ghost predicate Wrote(conns: map<ConnId, Conn>, conns': map<ConnId, Conn>, c: ConnId, data: Data) {
    && c in conns && conns'.Keys == conns.Keys
    && (forall d :: d in conns && d != c ==> conns'[d] == conns[d])
    && conns'[c].received == conns[c].received && conns'[c].inFlight == conns[c].inFlight
    && conns'[c].wire == conns[c].wire + data
  }

  lemma OthersReceive(table: set<ConnId>, seen: set<ConnId>, conns: map<ConnId, Conn>, conns': map<ConnId, Conn>,
                      dataMap: map<ConnId, Data>, dataMap': map<ConnId, Data>,
                      dispatched: seq<Work>, dispatched': seq<Work>, sent: seq<Entry>, c: ConnId)
    requires Connected(table, table, seen, conns, dataMap, dispatched, sent) && c in table
    requires Progress(conns, conns', c) && dataMap' - {c} == dataMap - {c}
    requires PacketsOf(dispatched', c) == Frames(conns'[c].received)
    requires forall d :: d != c ==> PacketsOf(dispatched', d) == PacketsOf(dispatched, d)
    ensures Connected(table - {c}, table, seen, conns', dataMap', dispatched', sent)
  {
    SameElsewhere(dataMap, dataMap', c);
    forall d | d in table && d != c
      ensures Cached(conns'[d], dataMap', d)
    {
      assert Tail(dataMap', d) == Tail(dataMap, d);
    }
  }

  lemma Rejoin(table: set<ConnId>, seen: set<ConnId>, conns: map<ConnId, Conn>, dataMap: map<ConnId, Data>,
               dispatched: seq<Work>, sent: seq<Entry>, c: ConnId)
    requires Connected(table - {c}, table, seen, conns, dataMap, dispatched, sent) && c in table
    requires Cached(conns[c], dataMap, c)
    ensures Connected(table, table, seen, conns, dataMap, dispatched, sent)
  {
  }

  lemma CloseKeeps(table: set<ConnId>, seen: set<ConnId>, conns: map<ConnId, Conn>, dataMap: map<ConnId, Data>,
                   dispatched: seq<Work>, sent: seq<Entry>, c: ConnId)
    requires Connected(table - {c}, table, seen, conns, dataMap, dispatched, sent)
    ensures Connected(table - {c}, table - {c}, seen, conns, dataMap - {c}, dispatched, sent)
  {
    forall d | d in table && d != c && d in conns
      ensures Cached(conns[d], dataMap - {c}, d)
    {
      assert Tail(dataMap - {c}, d) == Tail(dataMap, d);
    }
  }

  lemma SendKeeps(table: set<ConnId>, seen: set<ConnId>, conns: map<ConnId, Conn>, conns': map<ConnId, Conn>,
                  dataMap: map<ConnId, Data>, dispatched: seq<Work>, sent: seq<Entry>, c: ConnId, data: Data)
    requires Connected(table, table, seen, conns, dataMap, dispatched, sent) && Wrote(conns, conns', c, data) && c in table
    ensures Connected(table, table, seen, conns', dataMap, dispatched, sent + [Entry(c, data)])
  {
    hide Frames, Rest, Bounded, PacketsOf, Stream;
    forall d: ConnId
      ensures Stream(sent + [Entry(c, data)], d) == Stream(sent, d) + (if c == d then data else [])
    {
      StreamOne(sent, Entry(c, data), d);
      assert Stream(sent, d) + [] == Stream(sent, d);
    }
  }

  lemma NothingSeen(seen: set<ConnId>, conns: map<ConnId, Conn>, dispatched: seq<Work>, sent: seq<Entry>, c: ConnId)
    requires seen <= conns.Keys && c !in conns
    ensures c !in seen && Bounded([])
  {
  }

  /** What is removed is another connection's. */
  lemma {:induction false} NotRemoved(removed: seq<Entry>, c: ConnId, f: Data)
    requires forall i :: 0 <= i < |removed| ==> removed[i].connId != c
    ensures Queued(removed, c, f) == 0
  {
    if removed != [] {
      NotRemoved(removed[1..], c, f);
    }
  }

  lemma AllFramesSuffix(fs: seq<Data>, gs: seq<Data>)
    requires AllFrames(fs + gs)
    ensures AllFrames(gs)
  {
    forall k | 0 <= k < |gs| ensures IsFrame(gs[k]) {
      assert gs[k] == (fs + gs)[|fs| + k];
    }
  }

  lemma SameElsewhere<K, V>(m: map<K, V>, m': map<K, V>, k: K)
    requires m - {k} == m' - {k}
    ensures forall j :: j != k ==> (j in m <==> j in m')
    ensures forall j :: j != k && j in m ==> m[j] == m'[j]
  {
    forall j | j != k
      ensures j in m <==> j in m'
      ensures j in m ==> m[j] == m'[j]
    {
      assert j in m - {k} <==> j in m;
      assert j in m' - {k} <==> j in m';
      if j in m {
        assert (m - {k})[j] == (m' - {k})[j];
      }
    }
  }

  // ---------------------------------------------------------------- accounting

  /** How often packet `f` is owed as a reply to a list of packets. */
  function Owed(handler: Handler, packets: seq<Data>, f: Data): nat {
    if packets == [] then 0 else multiset(ReplyTo(handler, packets[0]))[f] + Owed(handler, packets[1..], f)
  }

  /** What is owed has the version of the protocol. */
  lemma {:induction false} OwedVersion(handler: Handler, packets: seq<Data>, f: Data)
    requires AllFrames(packets) && IsFrame(f)
    ensures Version(f) != PACK_VERSION ==> Owed(handler, packets, f) == 0
  {
    hide Packet;
    if packets != [] {
      OwedVersion(handler, packets[1..], f);
      ReplyAnswers(handler, packets[0]);
    }
  }

  lemma {:induction false} AnsweredIsOwed(handler: Handler, packets: seq<Data>, msgId: int, data: Data)
    requires AllFrames(packets) && 0 <= msgId < 0x1_0000_0000 && |data| < 0x1_0000_0000
    ensures Answered(handler, packets, msgId, data) == Owed(handler, packets, Packet(msgId, data))
  {
    hide Packet;
    if packets != [] {
      var p := packets[0];
      AnsweredIsOwed(handler, packets[1..], msgId, data);
      PacketRoundTrip(msgId, data);
      ReplyAnswers(handler, p);
      var fs := ReplyTo(handler, p);
      if fs != [] {
        assert fs == [fs[0]];
        PacketOfFields(fs[0]);
      }
    }
  }

  lemma {:induction false} CarryingIs(fs: seq<Data>, msgId: int, data: Data)
    requires 0 <= msgId < 0x1_0000_0000 && |data| < 0x1_0000_0000
    requires forall f :: f in fs ==> IsFrame(f) && Version(f) == PACK_VERSION
    ensures Carrying(fs, msgId, data) == multiset(fs)[Packet(msgId, data)]
  {
    hide Packet;
    if fs != [] {
      CarryingIs(fs[1..], msgId, data);
      PacketRoundTrip(msgId, data);
      PacketOfFields(fs[0]);
      assert fs == [fs[0]] + fs[1..];
    }
  }

  lemma {:induction false} NoneCarries(fs: seq<Data>, msgId: int, data: Data)
    requires AllFrames(fs) && !(0 <= msgId < 0x1_0000_0000 && |data| < 0x1_0000_0000)
    ensures Carrying(fs, msgId, data) == 0
  {
    if fs != [] {
      NoneCarries(fs[1..], msgId, data);
      assert |Payload(fs[0])| < 0x1_0000_0000;
    }
  }

  lemma {:induction false} NoneAnswered(handler: Handler, fs: seq<Data>, msgId: int, data: Data)
    requires AllFrames(fs) && !(0 <= msgId < 0x1_0000_0000 && |data| < 0x1_0000_0000)
    ensures Answered(handler, fs, msgId, data) == 0
  {
    if fs != [] {
      NoneAnswered(handler, fs[1..], msgId, data);
    }
  }

  /** With nothing of a connection in the pool or queued no reply of it waits there. */
  lemma NothingWaits(handler: Handler, pending: seq<Work>, queued: seq<Entry>, c: ConnId, f: Data)
    ensures PacketsOf(pending, c) == [] ==> RepliesOf(handler, pending, c, f) == 0
    ensures Only(queued, c) == [] ==> Queued(queued, c, f) == 0
  {
    RepliesAreOwed(handler, pending, c, f);
    NoneQueued(queued, c, f);
  }

  lemma {:induction false} NoneQueued(queued: seq<Entry>, c: ConnId, f: Data)
    ensures Only(queued, c) == [] ==> Queued(queued, c, f) == 0
  {
    if queued != [] {
      NoneQueued(queued[1..], c, f);
    }
  }

  lemma {:induction false} RepliesAreOwed(handler: Handler, log: seq<Work>, c: ConnId, f: Data)
    ensures RepliesOf(handler, log, c, f) == Owed(handler, PacketsOf(log, c), f)
  {
    if log != [] {
      RepliesAreOwed(handler, log[1..], c, f);
      if log[0].connId == c {
        assert PacketsOf(log, c)[1..] == PacketsOf(log[1..], c);
      } else {
        assert PacketsOf(log, c) == PacketsOf(log[1..], c);
      }
    }
  }

  ghost predicate Settled(handler: Handler, dispatched: seq<Work>, pending: seq<Work>, pushed: seq<Entry>) {
    forall c: ConnId, f: Data ::
      RepliesOf(handler, dispatched, c, f) == RepliesOf(handler, pending, c, f) + Queued(pushed, c, f)
  }

  ghost predicate Conserved(pushed: seq<Entry>, sent: seq<Entry>, queued: seq<Entry>, removed: seq<Entry>) {
    forall c: ConnId, f: Data ::
      Queued(pushed, c, f) == Queued(sent, c, f) + Queued(queued, c, f) + Queued(removed, c, f)
  }

  /** The work items of a connection's packets. */
  function WorksFor(c: ConnId, packets: seq<Data>): seq<Work> {
    if packets == [] then [] else [Work(c, |packets[0]|, packets[0])] + WorksFor(c, packets[1..])
  }

  lemma {:induction false} WorksForAppend(c: ConnId, ps: seq<Data>, qs: seq<Data>)
    ensures WorksFor(c, ps + qs) == WorksFor(c, ps) + WorksFor(c, qs)
  {
    if ps == [] {
      assert ps + qs == qs;
    } else {
      assert (ps + qs)[1..] == ps[1..] + qs;
      WorksForAppend(c, ps[1..], qs);
    }
  }

  lemma {:induction false} PacketsOfWorks(c: ConnId, packets: seq<Data>, d: ConnId)
    ensures PacketsOf(WorksFor(c, packets), d) == if c == d then packets else []
  {
    if packets != [] {
      PacketsOfWorks(c, packets[1..], d);
      assert WorksFor(c, packets)[1..] == WorksFor(c, packets[1..]);
    }
  }

  lemma {:induction false} WorksForHold(c: ConnId, packets: seq<Data>)
    requires AllFrames(packets)
    ensures AssertionHolds(WorksFor(c, packets))
  {
    if packets != [] {
      WorksForHold(c, packets[1..]);
    }
  }

  lemma SettledByPending(handler: Handler, dispatched: seq<Work>, pending: seq<Work>, pushed: seq<Entry>, works: seq<Work>)
    requires Settled(handler, dispatched, pending, pushed)
    ensures Settled(handler, dispatched + works, pending + works, pushed)
  {
    forall c: ConnId, f: Data
      ensures RepliesOf(handler, dispatched + works, c, f)
           == RepliesOf(handler, pending + works, c, f) + Queued(pushed, c, f)
    {
      RepliesAppend(handler, dispatched, works, c, f);
      RepliesAppend(handler, pending, works, c, f);
    }
  }

  lemma SettledByWorker(handler: Handler, dispatched: seq<Work>, pending: seq<Work>, left: seq<Work>, i: nat,
                        pushed: seq<Entry>)
    requires Settled(handler, dispatched, pending, pushed)
    requires i < |pending| && left == pending[..i] + pending[i + 1..] && IsFrame(pending[i].data)
    ensures Settled(handler, dispatched, left,
                    pushed + EntriesFor(pending[i].connId, ReplyTo(handler, pending[i].data)))
  {
    var w := pending[i];
    var pushed' := pushed + EntriesFor(w.connId, ReplyTo(handler, w.data));
    forall c: ConnId, f: Data
      ensures RepliesOf(handler, dispatched, c, f) == RepliesOf(handler, left, c, f) + Queued(pushed', c, f)
    {
      RepliesOfRemoved(handler, pending, i, c, f);
      RepliesQueued(handler, pushed, w, c, f);
    }
  }

  lemma QueuedOne(q: seq<Entry>, c: ConnId, g: Data, d: ConnId, f: Data)
    requires IsFrame(g)
    ensures Queued(q + [Entry(c, g)], d, f) == Queued(q, d, f) + (if c == d then multiset{g}[f] else 0)
  {
    QueuedAppend(q, [Entry(c, g)], d, f);
    assert [Entry(c, g)][1..] == [];
    FrameIsSound(c, g);
  }

  lemma StreamOne(q: seq<Entry>, e: Entry, d: ConnId)
    ensures Stream(q + [e], d) == Stream(q, d) + (if e.connId == d then e.data else [])
  {
    StreamAppend(q, [e], d);
    assert [e][1..] == [];
  }

  function EntriesFor(c: ConnId, packets: seq<Data>): seq<Entry>
    requires |packets| <= 1
  {
    if packets == [] then [] else [Entry(c, packets[0])]
  }

  lemma RepliesQueued(handler: Handler, before: seq<Entry>, w: Work, c: ConnId, f: Data)
    requires IsFrame(w.data)
    ensures Queued(before + EntriesFor(w.connId, ReplyTo(handler, w.data)), c, f)
         == Queued(before, c, f) + RepliesOf(handler, [w], c, f)
  {
    var packets := ReplyTo(handler, w.data);
    assert [w][1..] == [];
    if packets == [] {
      assert before + [] == before;
    } else {
      PacketRoundTrip(MsgId(w.data), handler(Payload(w.data)).value);
      QueuedOne(before, w.connId, packets[0], c, f);
      assert packets == [packets[0]];
    }
  }

  lemma FrameIsSound(c: ConnId, f: Data)
    requires IsFrame(f)
    ensures Frames(f) == [f]
    ensures |f| <= NET_SEND_BUFF_SIZE ==> Sound(Entry(c, f))
  {
    assert f[..|f|] == f && f[|f|..] == [];
  }

  lemma PushConserved(pushed: seq<Entry>, sent: seq<Entry>, queued: seq<Entry>, removed: seq<Entry>, c: ConnId, g: Data)
    requires Conserved(pushed, sent, queued, removed)
    requires AllSound(queued) && IsFrame(g) && |g| <= NET_SEND_BUFF_SIZE
    ensures Conserved(pushed + [Entry(c, g)], sent, Pushed(queued, c, g), removed)
    ensures AllSound(Pushed(queued, c, g))
  {
    FrameIsSound(c, g);
    var pushed', queued' := pushed + [Entry(c, g)], Pushed(queued, c, g);
    forall d: ConnId, f: Data
      ensures Queued(pushed', d, f) == Queued(sent, d, f) + Queued(queued', d, f) + Queued(removed, d, f)
    {
      QueuedOne(pushed, c, g, d, f);
      PushKeepsPackets(queued, c, g, d, f);
    }
    PushKeepsPackets(queued, c, g, c, g);
  }

  lemma PopConserved(pushed: seq<Entry>, sent: seq<Entry>, queued: seq<Entry>, removed: seq<Entry>, c: ConnId,
                     e: Entry, left: seq<Entry>)
    requires Conserved(pushed, sent, queued, removed) && FirstOf(queued, c) < |queued|
    requires var i := FirstOf(queued, c); e == queued[i] && left == queued[..i] + queued[i + 1..]
    ensures Conserved(pushed, sent + [e], left, removed)
  {
    forall d: ConnId, f: Data
      ensures Queued(pushed, d, f) == Queued(sent + [e], d, f) + Queued(left, d, f) + Queued(removed, d, f)
    {
      PopKeepsPackets(queued, c, d, f);
      QueuedAppend(sent, [e], d, f);
      assert [e][1..] == [];
    }
  }

  lemma OnlyConserved(pushed: seq<Entry>, sent: seq<Entry>, queued: seq<Entry>, removed: seq<Entry>, c: ConnId)
    requires Conserved(pushed, sent, queued, removed) && AllSound(queued)
    ensures Conserved(pushed, sent, Without(queued, c), removed + Only(queued, c))
    ensures AllSound(Without(queued, c))
  {
    forall d: ConnId, f: Data
      ensures Queued(pushed, d, f)
           == Queued(sent, d, f) + Queued(Without(queued, c), d, f) + Queued(removed + Only(queued, c), d, f)
    {
      OnlyAndWithout(queued, c, d, f);
      QueuedAppend(removed, Only(queued, c), d, f);
    }
    WithoutIsSound(queued, c);
  }

  /** The parts of a queue around one entry keep what every entry keeps. */
  lemma SoundWithoutOne(queued: seq<Entry>, sent: seq<Entry>, i: nat)
    requires AllSound(queued) && AllSound(sent) && i < |queued|
    ensures AllSound(queued[..i] + queued[i + 1..]) && AllSound(sent + [queued[i]])
  {
  }

  /** What a receive of `n` bytes means for the framing. */
  lemma Arrived(received: Data, inFlight: Data, n: nat)
    requires Bounded(received + inFlight) && n <= |inFlight|
    ensures var t := inFlight[..n];
      && Frames(received + t) == Frames(received) + Frames(Rest(received) + t)
      && Rest(received + t) == Rest(Rest(received) + t)
      && Bounded(Rest(received) + t) && Bounded(received)
      && (received + t) + inFlight[n..] == received + inFlight
  {
    var t := inFlight[..n];
    assert (received + t) + inFlight[n..] == received + inFlight;
    BoundedPrefix(received + t, inFlight[n..]);
    BoundedPrefix(received, t);
    FramesAppend(received, t);
  }
}
