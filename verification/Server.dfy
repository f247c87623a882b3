/** The server between its sockets and its workers: reassembly of received bytes into packets,
    the work handed to the pool, the replies queued and sent.

    Kernel and scheduler are nondeterministic: a receive hands over any non-empty part of what
    is in flight or reports that it would block, a send takes any non-empty prefix or reports
    that it would block, the pool runs any pending item next. */
module Server {
  import opened Bytes
  import opened Framing
  import opened SendQueue
  import opened Options

  /** A packet handed to the thread pool: `size` is what the length assertion compares. */
  datatype Work = Work(connId: ConnId, size: nat, data: Data)

  /** One connection as the kernel sees it: bytes sent by the peer and not yet received, bytes
      received so far, whether the peer has closed its side, bytes taken for sending, and how
      often a send will still report that it would block. */
  datatype Conn = Conn(inFlight: Data, received: Data, hungUp: bool, wire: Data, stalls: nat)

  class Kernel {
    var conns: map<ConnId, Conn>
    ghost var results: seq<(ConnId, int)>    // what every receive so far has returned

    constructor ()
      ensures conns == map[] && results == []
    {
      conns := map[];
      results := [];
    }

    method Recv(c: ConnId, buf: array<Byte>, at: nat, max: nat) returns (n: int)
      requires c in conns && at + max <= buf.Length
      modifies this, buf
      ensures results == old(results) + [(c, n)]
      ensures var k := old(conns)[c];
        && -1 <= n <= max && n <= |k.inFlight|
        && (n == 0 ==> max == 0 || (k.hungUp && k.inFlight == []))
        && (n <= 0 ==> conns == old(conns) && buf[..] == old(buf[..]))
        && (n > 0 ==>
             && conns == old(conns)[c := Took(k, n)]
             && buf[at..at + n] == k.inFlight[..n]
             && forall i :: 0 <= i < at ==> buf[i] == old(buf[i]))
    {
      var k := conns[c];
      if max == 0 {
        n := 0;
      } else if k.inFlight == [] {
        n := if k.hungUp then 0 else -1;
      } else {
        n :| -1 <= n <= max && n <= |k.inFlight| && n != 0;
        if n > 0 {
          Memcpy(buf, at, k.inFlight[..n]);
          conns := conns[c := Took(k, n)];
        }
      }
      results := results + [(c, n)];
    }

    method Send(c: ConnId, buf: array<Byte>, at: nat, len: nat) returns (n: int)
      requires c in conns && at + len <= buf.Length && len > 0
      modifies this`conns
      ensures n == -1 || 0 < n <= len
      ensures var k := old(conns)[c];
        if n == -1 then k.stalls > 0 && conns == old(conns)[c := k.(stalls := k.stalls - 1)]
        else conns == old(conns)[c := k.(wire := k.wire + buf[at..at + n])]
    {
      var k := conns[c];
      if k.stalls > 0 {
        if * {
          conns := conns[c := k.(stalls := k.stalls - 1)];
          return -1;
        }
      }
      n :| 0 < n <= len;
      conns := conns[c := k.(wire := k.wire + buf[at..at + n])];
    }
  }

  function Took(k: Conn, n: nat): Conn
    requires n <= |k.inFlight|
  {
    k.(received := k.received + k.inFlight[..n], inFlight := k.inFlight[n..])
  }

  /** The last receive was one of this connection and returned `n`. */
  ghost predicate Reported(before: seq<(ConnId, int)>, after: seq<(ConnId, int)>, c: ConnId, n: int) {
    |before| < |after| && before <= after && after[|after| - 1] == (c, n)
  }

  /** The incomplete tails, kept between two events of a connection. */
  class RecvHelper {
    var dataMap: map<ConnId, Data>

    constructor ()
      ensures dataMap == map[]
    {
      dataMap := map[];
    }

    method Insert(id: ConnId, data: Data) returns (ret: int)
      modifies this
      ensures id in old(dataMap) ==> ret == -1 && dataMap == old(dataMap)
      ensures id !in old(dataMap) ==> ret == 0 && dataMap == old(dataMap)[id := data]
    {
      if id in dataMap {
        return -1;
      }
      dataMap := dataMap[id := data];
      ret := 0;
    }

    /** Copies the tail out. The length is reported also when it does not fit. */
    method Find(id: ConnId, buf: array<Byte>, len: int) returns (ret: int, len': int)
      requires 0 <= len <= buf.Length
      modifies buf
      ensures id !in dataMap ==> ret == -1 && len' == -1
      ensures id in dataMap ==> len' == |dataMap[id]|
      ensures id in dataMap && |dataMap[id]| > len ==> ret == -1
      ensures id in dataMap && |dataMap[id]| <= len ==> ret == 0 && buf[..len'] == dataMap[id]
    {
      if id !in dataMap {
        return -1, -1;
      }
      if |dataMap[id]| > len {
        ret := -1;
      } else {
        Memcpy(buf, 0, dataMap[id]);
        assert buf[..|dataMap[id]|] == buf[0..0 + |dataMap[id]|];
        ret := 0;
      }
      len' := |dataMap[id]|;
    }

    method Remove(id: ConnId)
      modifies this
      ensures dataMap == old(dataMap) - {id}
    {
      dataMap := dataMap - {id};
    }
  }

  // ---------------------------------------------------------------- logs

  /** The application's message handler: data in, reply data or a refusal out. A reply has to
      leave room for its header in the buffer it is built in. */
  type Handler = h: Data -> Option<Data> | ReplyFits(h) witness NoReply

  ghost predicate ReplyFits(h: Data -> Option<Data>) {
    forall p: Data :: h(p).Some? ==> HEADER_SIZE + |h(p).value| <= NET_PACK_SIZE_LIMIT
  }

  function NoReply(data: Data): Option<Data> {
    None
  }

  /** The reply to a packet carries the message number of the packet. */
  function ReplyTo(handler: Handler, pack: Data): (r: seq<Data>)
    ensures |r| <= 1
  {
    if |pack| < HEADER_SIZE then []
    else
      match handler(Payload(pack))
      case None => []
      case Some(reply) => [Packet(MsgId(pack), reply)]
  }

  /** A packet is an answer to another: it carries its message number and what the handler gave for
      its data. */
  predicate Answers(handler: Handler, pack: Data, f: Data) {
    && IsFrame(f) && IsFrame(pack) && Version(f) == PACK_VERSION && MsgId(f) == MsgId(pack)
    && handler(Payload(pack)) == Some(Payload(f))
  }

  lemma ReplyAnswers(handler: Handler, pack: Data)
    requires IsFrame(pack)
    ensures var reply := handler(Payload(pack)); var fs := ReplyTo(handler, pack);
      if reply.None? then fs == [] else |fs| == 1 && Answers(handler, pack, fs[0])
  {
    hide Packet;
    if handler(Payload(pack)).Some? {
      PacketRoundTrip(MsgId(pack), handler(Payload(pack)).value);
    }
  }

  /** How many packets of a list have this message number and this data. */
  function Carrying(fs: seq<Data>, msgId: int, data: Data): nat {
    if fs == [] then 0
    else
      (if |fs[0]| >= HEADER_SIZE && MsgId(fs[0]) == msgId && Payload(fs[0]) == data then 1 else 0)
      + Carrying(fs[1..], msgId, data)
  }

  /** How many packets of a list have this message number and are answered with this data. */
  function Answered(handler: Handler, fs: seq<Data>, msgId: int, data: Data): nat {
    if fs == [] then 0
    else
      (if |fs[0]| >= HEADER_SIZE && MsgId(fs[0]) == msgId && handler(Payload(fs[0])) == Some(data) then 1 else 0)
      + Answered(handler, fs[1..], msgId, data)
  }

  /** The packets of one connection in a log of work, in order. */
  function PacketsOf(log: seq<Work>, c: ConnId): seq<Data> {
    if log == [] then []
    else (if log[0].connId == c then [log[0].data] else []) + PacketsOf(log[1..], c)
  }

  /** How often packet `f` is owed as a reply for a log of work. */
  function RepliesOf(handler: Handler, log: seq<Work>, c: ConnId, f: Data): nat {
    if log == [] then 0
    else
      (if log[0].connId == c then multiset(ReplyTo(handler, log[0].data))[f] else 0)
      + RepliesOf(handler, log[1..], c, f)
  }

  ghost predicate AssertionHolds(log: seq<Work>) {
    forall w :: w in log ==> IsFrame(w.data) && w.size == |w.data|
  }

  lemma {:induction false} PacketsAppend(p: seq<Work>, q: seq<Work>, c: ConnId)
    ensures PacketsOf(p + q, c) == PacketsOf(p, c) + PacketsOf(q, c)
  {
    if p == [] {
      assert p + q == q;
    } else {
      assert (p + q)[1..] == p[1..] + q;
      PacketsAppend(p[1..], q, c);
    }
  }

  lemma {:induction false} RepliesAppend(handler: Handler, p: seq<Work>, q: seq<Work>, c: ConnId, f: Data)
    ensures RepliesOf(handler, p + q, c, f) == RepliesOf(handler, p, c, f) + RepliesOf(handler, q, c, f)
  {
    if p == [] {
      assert p + q == q;
    } else {
      assert (p + q)[1..] == p[1..] + q;
      RepliesAppend(handler, p[1..], q, c, f);
    }
  }

  /** Taking any item out of the pool settles exactly its own reply. */
  lemma RepliesOfRemoved(handler: Handler, log: seq<Work>, i: nat, c: ConnId, f: Data)
    requires i < |log|
    ensures RepliesOf(handler, log, c, f)
         == RepliesOf(handler, log[..i] + log[i + 1..], c, f) + RepliesOf(handler, [log[i]], c, f)
  {
    assert log == log[..i] + ([log[i]] + log[i + 1..]);
    RepliesAppend(handler, log[..i], [log[i]] + log[i + 1..], c, f);
    RepliesAppend(handler, [log[i]], log[i + 1..], c, f);
    RepliesAppend(handler, log[..i], log[i + 1..], c, f);
  }

  /** Whole packets written one entry after the other parse back into exactly those packets. */
  lemma {:induction false} StreamParses(log: seq<Entry>, c: ConnId, f: Data)
    requires AllSound(log)
    ensures Rest(Stream(log, c)) == []
    ensures Copies(Stream(log, c), f) == Queued(log, c, f)
  {
    if log != [] {
      StreamParses(log[1..], c, f);
      if log[0].connId == c {
        FramesAppend(log[0].data, Stream(log[1..], c));
        assert [] + Stream(log[1..], c) == Stream(log[1..], c);
      } else {
        assert [] + Stream(log[1..], c) == Stream(log[1..], c);
      }
    }
  }

  /** The entries of one connection, in order. */
  function Only(q: seq<Entry>, c: ConnId): (r: seq<Entry>)
    ensures forall i :: 0 <= i < |r| ==> r[i].connId == c
  {
    if q == [] then [] else (if q[0].connId == c then [q[0]] else []) + Only(q[1..], c)
  }

  lemma {:induction false} OnlyAndWithout(q: seq<Entry>, c: ConnId, d: ConnId, f: Data)
    ensures Queued(Only(q, c), d, f) + Queued(Without(q, c), d, f) == Queued(q, d, f)
  {
    if q != [] {
      OnlyAndWithout(q[1..], c, d, f);
      QueuedAppend(if q[0].connId == c then [q[0]] else [], Only(q[1..], c), d, f);
      QueuedAppend(if q[0].connId == c then [] else [q[0]], Without(q[1..], c), d, f);
      assert [q[0]][1..] == [];
    }
  }
}
