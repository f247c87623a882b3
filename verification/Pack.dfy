/** The in-place packet operations on a caller's buffer. */
module Pack {
  import opened Bytes
  import opened Framing

  /** Takes one complete packet off the front of the first `len` bytes, if there is one, and
      moves what follows it to the front. The caller must not hand over a header whose
      packet length does not fit the `int` it is stored in. */
  method ParsePack(buf: array<Byte>, len: nat) returns (packLen: nat, pack: Data, left: nat)
    requires len <= buf.Length
    requires len >= HEADER_SIZE ==> Total(buf[..len]) <= INT_MAX
    modifies buf
    ensures left <= len
    ensures Incomplete(old(buf[..len])) ==>
              packLen == 0 && pack == [] && left == len && buf[..len] == old(buf[..len])
    ensures !Incomplete(old(buf[..len])) ==>
              && packLen == |pack| && IsFrame(pack)
              && pack + buf[..left] == old(buf[..len])
  {
    ghost var s := buf[..len];
    if len < HEADER_SIZE {
      return 0, [], len;
    }
    assert buf[..HEADER_SIZE] + s[HEADER_SIZE..] == s;
    TotalOfPrefix(buf[..HEADER_SIZE], s[HEADER_SIZE..]);
    packLen := Total(buf[..HEADER_SIZE]);
    if packLen > len {
      packLen, pack, left := 0, [], len;
    } else {
      pack := buf[..packLen];
      left := len - packLen;
      assert s == pack + s[packLen..];
      TotalOfPrefix(pack, s[packLen..]);
      Memmove(buf, 0, packLen, left);
      assert buf[..left] == buf[0..0 + left] == s[packLen..];
    }
  }

  /** The same, said of the stream in the buffer. */
  method NextPack(buf: array<Byte>, len: nat) returns (packLen: nat, pack: Data, left: nat)
    requires len <= buf.Length && Bounded(buf[..len])
    modifies buf
    ensures left <= len && packLen == |pack| && Bounded(buf[..left])
    ensures Rest(old(buf[..len])) == Rest(buf[..left])
    ensures packLen == 0 ==> Frames(old(buf[..len])) == [] && Rest(buf[..left]) == buf[..left]
    ensures packLen != 0 ==> Frames(old(buf[..len])) == [pack] + Frames(buf[..left]) && left < len
  {
    packLen, pack, left := ParsePack(buf, len);
    if packLen != 0 {
      FirstPacket(pack, buf[..left]);
    }
  }

  /** Turns the first `len` bytes into a packet that carries them. */
  method CreatePack(buf: array<Byte>, len: nat, msgId: int) returns (total: nat)
    requires len + HEADER_SIZE <= buf.Length && len < 0x1_0000_0000
    requires 0 <= msgId < 0x1_0000_0000
    modifies buf
    ensures total == len + HEADER_SIZE
    ensures buf[..total] == Packet(msgId, old(buf[..len]))
    ensures forall i :: total <= i < buf.Length ==> buf[i] == old(buf[i])
  {
    ghost var payload := buf[..len];
    Memmove(buf, HEADER_SIZE, 0, len);
    assert buf[HEADER_SIZE..HEADER_SIZE + len] == payload;
    label moved:
    Memcpy(buf, 0, Le16(PACK_VERSION));
    Memcpy(buf, 6, Le32(len));
    Memcpy(buf, 2, Le32(msgId));
    total := len + HEADER_SIZE;
    assert buf[6..10] == Le32(len);
    assert buf[0..2] == Le16(PACK_VERSION);
    assert buf[HEADER_SIZE..total] == old@moved(buf[HEADER_SIZE..total]);
    assert buf[..total] == buf[0..2] + buf[2..6] + buf[6..10] + buf[HEADER_SIZE..total];
  }
}
