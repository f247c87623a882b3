/** The queue of coalesced replies and the short-send loop. */
module SendQueue {
  import opened Bytes
  import opened Framing

  type ConnId = nat

  /** One entry: bytes still to be sent to one connection. */
  datatype Entry = Entry(connId: ConnId, data: Data)

  // ---------------------------------------------------------------- what the operations mean

  predicate Merges(q: seq<Entry>, c: ConnId, data: Data) {
    q != [] && q[0].connId == c && |q[0].data| + |data| < NET_SEND_BUFF_SIZE
  }

  function Pushed(q: seq<Entry>, c: ConnId, data: Data): seq<Entry> {
    if Merges(q, c, data) then [Entry(c, q[0].data + data)] + q[1..] else q + [Entry(c, data)]
  }

  function FirstOf(q: seq<Entry>, c: ConnId): (i: nat)
    ensures i <= |q|
    ensures i < |q| ==> q[i].connId == c
    ensures forall j :: 0 <= j < i ==> q[j].connId != c
  {
    if q == [] then 0 else if q[0].connId == c then 0 else 1 + FirstOf(q[1..], c)
  }

  function Without(q: seq<Entry>, c: ConnId): seq<Entry> {
    if q == [] then [] else (if q[0].connId == c then [] else [q[0]]) + Without(q[1..], c)
  }

  /** All bytes queued for a connection, in queue order. */
  function Stream(q: seq<Entry>, c: ConnId): Data {
    if q == [] then [] else (if q[0].connId == c then q[0].data else []) + Stream(q[1..], c)
  }

  /** How often packet `f` is queued for a connection. */
  function Queued(q: seq<Entry>, c: ConnId, f: Data): nat {
    if q == [] then 0
    else (if q[0].connId == c then Copies(q[0].data, f) else 0) + Queued(q[1..], c, f)
  }

  /** How often packet `f` occurs in a stream. */
  function Copies(s: Data, f: Data): nat {
    multiset(Frames(s))[f]
  }

  /** Whole packets only, and no more than one send buffer holds. */
  predicate Sound(e: Entry) {
    Rest(e.data) == [] && 0 < |e.data| <= NET_SEND_BUFF_SIZE
  }

  ghost predicate AllSound(q: seq<Entry>) {
    forall i :: 0 <= i < |q| ==> Sound(q[i])
  }

  // ---------------------------------------------------------------- lemmas

  lemma {:induction false} StreamAppend(p: seq<Entry>, q: seq<Entry>, c: ConnId)
    ensures Stream(p + q, c) == Stream(p, c) + Stream(q, c)
  {
    if p == [] {
      assert p + q == q;
    } else {
      assert (p + q)[1..] == p[1..] + q;
      StreamAppend(p[1..], q, c);
    }
  }

  lemma {:induction false} QueuedAppend(p: seq<Entry>, q: seq<Entry>, c: ConnId, f: Data)
    ensures Queued(p + q, c, f) == Queued(p, c, f) + Queued(q, c, f)
  {
    if p == [] {
      assert p + q == q;
    } else {
      assert (p + q)[1..] == p[1..] + q;
      QueuedAppend(p[1..], q, c, f);
    }
  }

  /** A push adds exactly the pushed packets, to the pushed connection only, and leaves every
      entry a concatenation of whole packets of one connection. */
  lemma PushKeepsPackets(q: seq<Entry>, c: ConnId, data: Data, d: ConnId, f: Data)
    requires AllSound(q) && Sound(Entry(c, data))
    ensures AllSound(Pushed(q, c, data))
    ensures Queued(Pushed(q, c, data), d, f) == Queued(q, d, f) + (if c == d then Copies(data, f) else 0)
  {
    if Merges(q, c, data) {
      FramesAppend(q[0].data, data);
      assert Rest(q[0].data) + data == data;
      assert Pushed(q, c, data)[1..] == q[1..];
    } else {
      QueuedAppend(q, [Entry(c, data)], d, f);
    }
  }

  /** What a pop takes out is exactly one entry's packets. */
  lemma {:induction false} PopKeepsPackets(q: seq<Entry>, c: ConnId, d: ConnId, f: Data)
    requires FirstOf(q, c) < |q|
    ensures var i := FirstOf(q, c);
            Queued(q, d, f) == Queued(q[..i] + q[i + 1..], d, f) + (if c == d then Copies(q[i].data, f) else 0)
  {
    var i := FirstOf(q, c);
    assert q == q[..i] + [q[i]] + q[i + 1..];
    QueuedAppend(q[..i], [q[i]], d, f);
    QueuedAppend(q[..i] + [q[i]], q[i + 1..], d, f);
    QueuedAppend(q[..i], q[i + 1..], d, f);
  }

  /** Removing a connection takes all of its packets and nobody else's. */
  lemma {:induction false} WithoutKeepsPackets(q: seq<Entry>, c: ConnId, d: ConnId, f: Data)
    ensures Queued(Without(q, c), d, f) == if c == d then 0 else Queued(q, d, f)
  {
    if q != [] {
      WithoutKeepsPackets(q[1..], c, d, f);
      var head := if q[0].connId == c then [] else [q[0]];
      QueuedAppend(head, Without(q[1..], c), d, f);
      assert [q[0]][1..] == [];
    }
  }

  lemma {:induction false} WithoutKeepsOrder(q: seq<Entry>, c: ConnId, d: ConnId)
    ensures Stream(Without(q, c), d) == if c == d then [] else Stream(q, d)
  {
    if q != [] {
      WithoutKeepsOrder(q[1..], c, d);
      var head := if q[0].connId == c then [] else [q[0]];
      StreamAppend(head, Without(q[1..], c), d);
      assert [q[0]][1..] == [];
    }
  }

  lemma {:induction false} WithoutIsSound(q: seq<Entry>, c: ConnId)
    requires AllSound(q)
    ensures AllSound(Without(q, c))
  {
    if q != [] {
      WithoutIsSound(q[1..], c);
    }
  }

  /** Merging into the front entry overtakes the connection's later entries, so the bytes
      queued for a connection stay in push order exactly when no merge happens, or when the
      later bytes and the new ones commute. */
  lemma PushKeepsOrderIff(q: seq<Entry>, c: ConnId, data: Data)
    ensures Stream(Pushed(q, c, data), c) == Stream(q, c) + data
       <==> (!Merges(q, c, data) || data + Stream(q[1..], c) == Stream(q[1..], c) + data)
  {
    if Merges(q, c, data) {
      assert Pushed(q, c, data)[1..] == q[1..];
      Commute(q[0].data, data, Stream(q[1..], c));
    } else {
      StreamAppend(q, [Entry(c, data)], c);
      assert Stream([Entry(c, data)], c) == data;
    }
  }

  lemma Commute(front: Data, data: Data, later: Data)
    ensures (front + data) + later == (front + later) + data <==> data + later == later + data
  {
    var n := |front|;
    assert ((front + data) + later)[n..] == data + later;
    assert ((front + later) + data)[n..] == later + data;
    assert (front + data) + later == front + (data + later);
    assert (front + later) + data == front + (later + data);
  }

  /** In particular a push of packets keeps the order when the connection has nothing queued
      behind the front entry. */
  lemma PushOrderWhenAlone(q: seq<Entry>, c: ConnId, data: Data)
    requires forall i :: 1 <= i < |q| ==> q[i].connId != c
    ensures Stream(Pushed(q, c, data), c) == Stream(q, c) + data
  {
    if q != [] {
      NoStream(q[1..], c);
    }
    PushKeepsOrderIff(q, c, data);
  }

  lemma {:induction false} NoStream(q: seq<Entry>, c: ConnId)
    requires forall i :: 0 <= i < |q| ==> q[i].connId != c
    ensures Stream(q, c) == []
  {
    if q != [] {
      NoStream(q[1..], c);
    }
  }

  function PushAll(q: seq<Entry>, c: ConnId, packets: seq<Data>): seq<Entry>
    decreases |packets|
  {
    if packets == [] then q else PushAll(Pushed(q, c, packets[0]), c, packets[1..])
  }

  /** Replies to one connection can leave out of order: three packets of the largest size fill
      the front entry, the fourth starts an entry of its own, and a small fifth one is merged
      into the front entry, ahead of the fourth. */
  lemma PushCanReorder(zeros: Data)
    requires |zeros| == NET_PACK_SIZE_LIMIT - HEADER_SIZE
    ensures var big, small := Packet(1, zeros), Packet(2, []);
            var run := [big, big, big, big, small];
            && Stream(PushAll([], 7, run), 7) == Concat([big, big, big, small, big])
            && Stream(PushAll([], 7, run), 7) != Concat(run)
  {
    var big, small := Packet(1, zeros), Packet(2, []);
    var front := big + big + big;
    var q1, q3 := [Entry(7, big)], [Entry(7, front)];
    var q4, q5 := [Entry(7, front), Entry(7, big)], [Entry(7, front + small), Entry(7, big)];
    assert Pushed([], 7, big) == q1;
    assert Pushed(Pushed(q1, 7, big), 7, big) == q3;
    assert Pushed(q3, 7, big) == q4;
    assert Pushed(q4, 7, small) == q5;
    PushAllFive([], 7, big, big, big, big, small);
    assert Stream(q5[1..], 7) == big;
    assert Stream(q5, 7) == front + small + big;
    ConcatFive(big, big, big, small, big);
    ConcatFive(big, big, big, big, small);
    assert (front + small + big)[|front| + 2] == small[2] == 2;
    assert (front + big + small)[|front| + 2] == big[2] == 1;
  }

  lemma PushAllFive(q: seq<Entry>, c: ConnId, a: Data, b: Data, d: Data, e: Data, f: Data)
    ensures PushAll(q, c, [a, b, d, e, f])
         == Pushed(Pushed(Pushed(Pushed(Pushed(q, c, a), c, b), c, d), c, e), c, f)
  {
    assert [a, b, d, e, f][1..] == [b, d, e, f] && [b, d, e, f][1..] == [d, e, f];
    assert [d, e, f][1..] == [e, f] && [e, f][1..] == [f];
    var q3 := Pushed(Pushed(Pushed(q, c, a), c, b), c, d);
    var q5 := Pushed(Pushed(q3, c, e), c, f);
    assert [f][1..] == [] && PushAll(q5, c, []) == q5;
    assert PushAll(Pushed(q3, c, e), c, [f]) == q5;
    assert PushAll(q3, c, [e, f]) == q5;
    assert PushAll(Pushed(q, c, a), c, [b, d, e, f]) == q5;
  }

  lemma ConcatFive(a: Data, b: Data, d: Data, e: Data, f: Data)
    ensures Concat([a, b, d, e, f]) == a + b + d + e + f
  {
    assert [a, b, d, e, f][1..] == [b, d, e, f] && [b, d, e, f][1..] == [d, e, f];
    assert [d, e, f][1..] == [e, f] && [e, f][1..] == [f];
    assert Concat([f]) == f;
    assert Concat([d, e, f]) == d + (e + f);
  }

  // ---------------------------------------------------------------- the queue

  class Queue {
    var list: seq<Entry>

    constructor ()
      ensures list == []
    {
      list := [];
    }

    method Push(connectId: ConnId, data: Data)
      modifies this
      ensures list == Pushed(old(list), connectId, data)
    {
      var hit := list != [] && list[0].connId == connectId;
      if hit && |list[0].data| + |data| < NET_SEND_BUFF_SIZE {
        list := [list[0].(data := list[0].data + data)] + list[1..];
      } else {
        list := list + [Entry(connectId, data)];
      }
    }

    /** Copies the first entry of a connection into the caller's buffer and drops it, if there
        is one and it fits. */
    method PopFirst(connId: ConnId, buf: array<Byte>, len: nat) returns (ret: int, len': nat)
      requires len <= buf.Length
      modifies this, buf
      ensures var i := FirstOf(old(list), connId);
        if i == |old(list)| then
          ret == -1 && len' == len && list == old(list)
        else if |old(list)[i].data| > len then
          ret == -1 && len' == |old(list)[i].data| && list == old(list)
        else
          && ret == 0 && len' == |old(list)[i].data| && buf[..len'] == old(list)[i].data
          && list == old(list)[..i] + old(list)[i + 1..]
    {
      var it := 0;
      while it < |list| && list[it].connId != connId
        invariant 0 <= it <= |list|
        invariant forall j :: 0 <= j < it ==> list[j].connId != connId
      {
        it := it + 1;
      }
      if it == |list| {
        return -1, len;
      }
      var data := list[it].data;
      len' := |data|;
      if len < |data| {
        ret := -1;
      } else {
        Memcpy(buf, 0, data);
        assert buf[..len'] == buf[0..0 + |data|];
        list := list[..it] + list[it + 1..];
        ret := 0;
      }
    }

    method RemoveAllByConnId(connId: ConnId)
      modifies this
      ensures list == Without(old(list), connId)
    {
      var it := 0;
      while it < |list|
        invariant 0 <= it <= |list|
        invariant list[..it] + Without(list[it..], connId) == Without(old(list), connId)
        decreases |list| - it
      {
        if list[it].connId == connId {
          assert list[it..][1..] == (list[..it] + list[it + 1..])[it..];
          assert list[..it] == (list[..it] + list[it + 1..])[..it];
          list := list[..it] + list[it + 1..];
        } else {
          assert list[it..][1..] == list[it + 1..];
          assert list[..it + 1] == list[..it] + [list[it]];
          it := it + 1;
        }
      }
    }
  }
}
