/** The wire format of the server's packets and the meaning of a byte stream.

    A packet is a packed little-endian header (version: 2 bytes, msgID: 4, length: 4)
    followed by `length` bytes of data. `Frames` and `Rest` say what a stream of bytes
    means: the complete packets at its front, and the incomplete tail. */
module Framing {

  import opened Bytes

  const PACK_VERSION := 0
  const HEADER_SIZE := 10
  const INT_MAX := 0x7fff_ffff
  const NET_PACK_SPACE_SIZE_LIMIT := 64 * 1024
  const NET_RECV_BUFF_SIZE := 256 * 1024
  const NET_PACK_SIZE_LIMIT := NET_PACK_SPACE_SIZE_LIMIT + 1024
  const NET_REMAIN_CACHE_SIZE := NET_PACK_SIZE_LIMIT
  const NET_RECV_SIZE_LIMIT := NET_RECV_BUFF_SIZE - NET_REMAIN_CACHE_SIZE
  const NET_SEND_BUFF_SIZE := 256 * 1024

  // ---------------------------------------------------------------- header fields

  function Le16(v: int): (s: Data)
    requires 0 <= v < 0x1_0000
    ensures |s| == 2
  {
    [v % 256, v / 256]
  }

  function Le32(v: int): (s: Data)
    requires 0 <= v < 0x1_0000_0000
    ensures |s| == 4
  {
    Le16(v % 0x1_0000) + Le16(v / 0x1_0000)
  }

  function Word16(s: Data): (v: int)
    requires |s| == 2
    ensures 0 <= v < 0x1_0000
  {
    (s[0] as int) + 256 * (s[1] as int)
  }

  function Word32(s: Data): (v: int)
    requires |s| == 4
    ensures 0 <= v < 0x1_0000_0000
  {
    Word16(s[..2]) + 0x1_0000 * Word16(s[2..])
  }

  lemma Word32OfLe32(v: int)
    requires 0 <= v < 0x1_0000_0000
    ensures Word32(Le32(v)) == v
  {
    var lo, hi := v % 0x1_0000, v / 0x1_0000;
    assert Le32(v)[..2] == Le16(lo);
    assert Le32(v)[2..] == Le16(hi);
  }

  function Version(s: Data): int
    requires |s| >= HEADER_SIZE
  {
    Word16(s[..2])
  }

  function MsgId(s: Data): int
    requires |s| >= HEADER_SIZE
  {
    Word32(s[2..6])
  }

  /** Header plus data, as the header states it. */
  function Total(s: Data): (n: nat)
    requires |s| >= HEADER_SIZE
    ensures n >= HEADER_SIZE
  {
    HEADER_SIZE + Word32(s[6..10])
  }

  function Payload(f: Data): Data
    requires |f| >= HEADER_SIZE
  {
    f[HEADER_SIZE..]
  }

  function Header(version: int, msgId: int, length: int): (h: Data)
    requires 0 <= version < 0x1_0000 && 0 <= msgId < 0x1_0000_0000 && 0 <= length < 0x1_0000_0000
    ensures |h| == HEADER_SIZE
  {
    Le16(version) + Le32(msgId) + Le32(length)
  }

  // ---------------------------------------------------------------- framing

  predicate Incomplete(s: Data) {
    |s| < HEADER_SIZE || Total(s) > |s|
  }

  /** Exactly one packet: what the length assertion of a worker demands. */
  predicate IsFrame(f: Data) {
    |f| >= HEADER_SIZE && Total(f) == |f|
  }

  function Frames(s: Data): (fs: seq<Data>)
    decreases |s|
  {
    if Incomplete(s) then [] else [s[..Total(s)]] + Frames(s[Total(s)..])
  }

  function Rest(s: Data): (r: Data)
    decreases |s|
  {
    if Incomplete(s) then s else Rest(s[Total(s)..])
  }

  function Concat(fs: seq<Data>): Data {
    if fs == [] then [] else fs[0] + Concat(fs[1..])
  }

  ghost predicate AllFrames(fs: seq<Data>) {
    forall i :: 0 <= i < |fs| ==> IsFrame(fs[i])
  }

  lemma {:induction false} ConcatAppend(fs: seq<Data>, gs: seq<Data>)
    ensures Concat(fs + gs) == Concat(fs) + Concat(gs)
  {
    if fs == [] {
      assert fs + gs == gs;
    } else {
      assert (fs + gs)[1..] == fs[1..] + gs;
      ConcatAppend(fs[1..], gs);
    }
  }

  /** Only the first ten bytes decide where a packet ends. */
  lemma TotalOfPrefix(s: Data, t: Data)
    requires |s| >= HEADER_SIZE
    ensures Total(s + t) == Total(s)
  {
    assert (s + t)[6..10] == s[6..10];
  }

  /** Nothing is lost, nothing is invented, and the tail holds no further packet. */
  lemma {:induction false} FramesRebuild(s: Data)
    ensures Concat(Frames(s)) + Rest(s) == s
    ensures AllFrames(Frames(s))
    ensures Incomplete(Rest(s))
    decreases |s|
  {
    if !Incomplete(s) {
      var n := Total(s);
      FramesRebuild(s[n..]);
      assert s == s[..n] + s[n..];
      TotalOfPrefix(s[..n], s[n..]);
      assert Frames(s)[1..] == Frames(s[n..]);
    }
  }

  /** The framing of a stream is unique: any cutting of it into whole packets and an
      incomplete tail is the one `Frames` and `Rest` give. */
  lemma {:induction false} FramingUnique(fs: seq<Data>, r: Data)
    requires AllFrames(fs) && Incomplete(r)
    ensures Frames(Concat(fs) + r) == fs
    ensures Rest(Concat(fs) + r) == r
  {
    if fs == [] {
      assert Concat(fs) + r == r;
    } else {
      var s := Concat(fs) + r;
      var tail := Concat(fs[1..]) + r;
      assert s == fs[0] + tail;
      TotalOfPrefix(fs[0], tail);
      assert s[..|fs[0]|] == fs[0] && s[|fs[0]|..] == tail;
      FramingUnique(fs[1..], r);
    }
  }

  /** Bytes that arrive later can be framed together with the tail alone. */
  lemma FramesAppend(s: Data, t: Data)
    ensures Frames(s + t) == Frames(s) + Frames(Rest(s) + t)
    ensures Rest(s + t) == Rest(Rest(s) + t)
  {
    var fs, r := Frames(s), Rest(s);
    var gs, r' := Frames(r + t), Rest(r + t);
    FramesRebuild(s);
    FramesRebuild(r + t);
    FramesJoin(s, fs, r, t, gs, r');
  }

  lemma FramesJoin(s: Data, fs: seq<Data>, r: Data, t: Data, gs: seq<Data>, r': Data)
    requires s == Concat(fs) + r && AllFrames(fs)
    requires r + t == Concat(gs) + r' && AllFrames(gs) && Incomplete(r')
    ensures Frames(s + t) == fs + gs && Rest(s + t) == r'
  {
    ConcatJoin(s, fs, r, t, gs, r');
    FramingUnique(fs + gs, r');
  }

  lemma ConcatJoin(s: Data, fs: seq<Data>, r: Data, t: Data, gs: seq<Data>, r': Data)
    requires s == Concat(fs) + r && r + t == Concat(gs) + r'
    ensures s + t == Concat(fs + gs) + r'
  {
    ConcatAppend(fs, gs);
    assert s + t == Concat(fs) + (r + t);
  }

  /** Receiving a list of pieces one after the other, each framed with the tail left by the
      pieces before it. */
  function Feed(left: Data, pieces: seq<Data>): (r: (seq<Data>, Data))
    decreases |pieces|
  {
    if pieces == [] then ([], left)
    else
      var s := left + pieces[0];
      var (fs, tail) := Feed(Rest(s), pieces[1..]);
      (Frames(s) + fs, tail)
  }

  lemma {:induction false} FeedIsFraming(left: Data, pieces: seq<Data>)
    requires Incomplete(left)
    ensures Feed(left, pieces) == (Frames(left + Concat(pieces)), Rest(left + Concat(pieces)))
    decreases |pieces|
  {
    if pieces == [] {
      assert left + Concat(pieces) == left;
    } else {
      var s := left + pieces[0];
      FramesRebuild(s);
      FeedIsFraming(Rest(s), pieces[1..]);
      FramesAppend(s, Concat(pieces[1..]));
      assert s + Concat(pieces[1..]) == left + Concat(pieces);
    }
  }

  /** However a stream is cut into pieces, the packets and the tail are the same. */
  lemma SplitDoesNotMatter(pieces: seq<Data>, pieces': seq<Data>)
    requires Concat(pieces) == Concat(pieces')
    ensures Feed([], pieces) == Feed([], pieces')
  {
    FeedIsFraming([], pieces);
    FeedIsFraming([], pieces');
  }

  // ---------------------------------------------------------------- bounded packets

  /** Every header in the stream, the one of the incomplete tail included, states at most
      NET_PACK_SIZE_LIMIT bytes. This is the protocol's own limit. */
  predicate Bounded(s: Data)
    decreases |s|
  {
    |s| < HEADER_SIZE ||
    (Total(s) <= NET_PACK_SIZE_LIMIT && (Total(s) <= |s| ==> Bounded(s[Total(s)..])))
  }

  lemma {:induction false} BoundedPrefix(s: Data, t: Data)
    requires Bounded(s + t)
    ensures Bounded(s) && Bounded(Rest(s) + t)
    decreases |s|
  {
    if |s| >= HEADER_SIZE {
      TotalOfPrefix(s, t);
      var n := Total(s);
      if n <= |s| {
        assert (s + t)[n..] == s[n..] + t;
        BoundedPrefix(s[n..], t);
      }
    }
  }

  lemma {:induction false} BoundedRest(s: Data)
    requires Bounded(s)
    ensures |Rest(s)| < NET_REMAIN_CACHE_SIZE
    decreases |s|
  {
    if !Incomplete(s) {
      BoundedRest(s[Total(s)..]);
    }
  }

  lemma FirstPacket(pack: Data, s: Data)
    requires IsFrame(pack) && Bounded(pack + s)
    ensures Frames(pack + s) == [pack] + Frames(s)
    ensures Rest(pack + s) == Rest(s) && Bounded(s)
  {
    TotalOfPrefix(pack, s);
    assert (pack + s)[..|pack|] == pack && (pack + s)[|pack|..] == s;
  }

  // ---------------------------------------------------------------- one packet

  function Packet(msgId: int, payload: Data): (f: Data)
    requires 0 <= msgId < 0x1_0000_0000 && |payload| < 0x1_0000_0000
  {
    Header(PACK_VERSION, msgId, |payload|) + payload
  }

  /** What `create_pack` writes is one packet, and its fields read back. */
  lemma PacketRoundTrip(msgId: int, payload: Data)
    requires 0 <= msgId < 0x1_0000_0000 && |payload| < 0x1_0000_0000
    ensures IsFrame(Packet(msgId, payload))
    ensures Version(Packet(msgId, payload)) == PACK_VERSION
    ensures MsgId(Packet(msgId, payload)) == msgId
    ensures Payload(Packet(msgId, payload)) == payload
    ensures Frames(Packet(msgId, payload)) == [Packet(msgId, payload)]
  {
    var f := Packet(msgId, payload);
    Word32OfLe32(msgId);
    Word32OfLe32(|payload|);
    assert f[..2] == Le16(PACK_VERSION);
    assert f[2..6] == Le32(msgId);
    assert f[6..10] == Le32(|payload|);
    assert f[..|f|] == f && f[|f|..] == [];
  }

  /** Every packet is determined by its fields. */
  lemma PacketOfFields(f: Data)
    requires IsFrame(f) && Version(f) == PACK_VERSION
    ensures Packet(MsgId(f), Payload(f)) == f
  {
    var a, b, c := f[..2], f[2..6], f[6..10];
    assert f == a + b + c + Payload(f);
    Le32OfWord32(b);
    Le32OfWord32(c);
    assert Le16(Word16(a)) == a;
  }

  lemma Le32OfWord32(s: Data)
    requires |s| == 4
    ensures Le32(Word32(s)) == s
  {
    var lo, hi := Word16(s[..2]), Word16(s[2..]);
    assert Word32(s) % 0x1_0000 == lo && Word32(s) / 0x1_0000 == hi;
    assert s == s[..2] + s[2..];
    assert Le16(lo) == s[..2] && Le16(hi) == s[2..];
  }

  /** The header of a stream, byte by byte, lowest byte first (net_pkg_t is packed). */
  lemma HeaderFields(s: Data)
    requires |s| >= 10
    ensures Version(s) == (s[0] as int) + 0x100 * (s[1] as int)
    ensures MsgId(s) == (s[2] as int) + 0x100 * (s[3] as int) + 0x1_0000 * (s[4] as int) + 0x100_0000 * (s[5] as int)
    ensures Total(s) == 10 + (s[6] as int) + 0x100 * (s[7] as int) + 0x1_0000 * (s[8] as int) + 0x100_0000 * (s[9] as int)
  {
    assert s[..2][0] == s[0] && s[..2][1] == s[1];
    assert s[2..6][..2] == s[2..4] && s[2..6][2..] == s[4..6];
    assert s[6..10][..2] == s[6..8] && s[6..10][2..] == s[8..10];
  }

  /** A packet that is written, byte by byte. */
  lemma PacketBytes(msgId: int, payload: Data)
    requires 0 <= msgId < 0x1_0000_0000 && |payload| < 0x1_0000_0000
    ensures var f, n := Packet(msgId, payload), |payload|;
      && |f| == 10 + n && f[0] == 0 && f[1] == 0
      && f[2] == msgId % 0x100 && f[3] == msgId / 0x100 % 0x100
      && f[4] == msgId / 0x1_0000 % 0x100 && f[5] == msgId / 0x100_0000
      && f[6] == n % 0x100 && f[7] == n / 0x100 % 0x100 && f[8] == n / 0x1_0000 % 0x100 && f[9] == n / 0x100_0000
      && f[10..] == payload
  {
    LittleEndian(msgId);
    LittleEndian(|payload|);
    var f := Packet(msgId, payload);
    hide Le32;
    assert f[2..6] == Le32(msgId) && f[6..10] == Le32(|payload|);
    assert f[2..6][0] == f[2] && f[2..6][1] == f[3] && f[2..6][2] == f[4] && f[2..6][3] == f[5];
    assert f[6..10][0] == f[6] && f[6..10][1] == f[7] && f[6..10][2] == f[8] && f[6..10][3] == f[9];
  }

  lemma LittleEndian(v: int)
    requires 0 <= v < 0x1_0000_0000
    ensures var s := Le32(v);
      s[0] == v % 0x100 && s[1] == v / 0x100 % 0x100 && s[2] == v / 0x1_0000 % 0x100 && s[3] == v / 0x100_0000
  {
  }
}
