/** The encoder: bytes in, escaped ASCII out, as much as there is room for. */
module HtmlEncoder {
  import opened Bytes
  import opened Options
  import opened HtmlEntities
  import opened HtmlEscapes

  method EntityValueLookup(table: seq<Entity>, value: nat) returns (ent: Option<Data>)
    ensures ent == ValueLookup(table, value)
  {
    assert table[0..] == table;
    for i := 0 to |table|
      invariant ValueLookup(table[i..], value) == ValueLookup(table, value)
    {
      assert table[i..][1..] == table[i + 1..];
      if table[i].value >= value {
        if table[i].value > value {
          break;
        }
        return Some(table[i].name);
      }
    }
    ent := None;
  }

  method EncodeEntities(table: seq<Entity>, out: array<Byte>, input: Data, quoteChar: nat)
      returns (ret: int, outlen: nat, inlen: nat)
    modifies out
    ensures outlen <= out.Length && Encoded(out[..outlen], inlen, ret) == EncodeInto(table, input, quoteChar, out.Length)
    ensures out[outlen..] == old(out[outlen..])
    ensures ProperTable(table) && SortedTable(table) ==>
      && Safe(out[..outlen], quoteChar)
      && ReadText(table, out[..outlen], quoteChar).Some? && ReadText(table, out[..outlen], quoteChar).value <= Characters(input)
  {
    hide Escape, ScanChar, EncodeInto, Safe, ReadText, Characters, ProperTable, SortedTable, Joined;
    outlen, inlen := 0, 0;
    if ProperTable(table) && SortedTable(table) {
      OutputIsRead(table, input, quoteChar, out.Length);
    }
    ghost var all := EncodeInto(table, input, quoteChar, out.Length);
    JoinedNone(all);
    assert input[0..] == input;
    while inlen < |input|
      invariant inlen <= |input| && outlen <= out.Length
      invariant forall i :: outlen <= i < out.Length ==> out[i] == old(out[i])
      invariant Joined(out[..outlen], inlen, EncodeInto(table, input[inlen..], quoteChar, out.Length - outlen)) == all
      decreases |input| - inlen
    {
      ghost var rest, room := input[inlen..], out.Length - outlen;
      EncodeStops(table, rest, quoteChar, room);
      JoinedEnd(out[..outlen], inlen, 0);
      JoinedEnd(out[..outlen], inlen, -2);
      var scan := NextChar(input, inlen);
      match scan
      case Malformed => return -2, outlen, inlen;
      case Short => return 0, outlen, inlen;
      case Char(c, len) =>
        var e := EscapeOne(table, c, quoteChar);
        if outlen + |e| > out.Length {
          return 0, outlen, inlen;
        }
        EncodeStep(table, rest, quoteChar, room);
        assert rest[len..] == input[inlen + len..];
        JoinedStep(out[..outlen], inlen, e, len, EncodeInto(table, rest[len..], quoteChar, room - |e|));
        PutBehind(out, outlen, e);
        outlen, inlen := outlen + |e|, inlen + len;
    }
    EncodeStops(table, input[inlen..], quoteChar, out.Length - outlen);
    JoinedEnd(out[..outlen], inlen, 0);
    ret := 0;
  }

  method PutBehind(out: array<Byte>, outlen: nat, e: Data)
    requires outlen + |e| <= out.Length
    modifies out
    ensures out[..outlen + |e|] == old(out[..outlen]) + e
    ensures forall i :: outlen + |e| <= i < out.Length ==> out[i] == old(out[i])
  {
    Memcpy(out, outlen, e);
    assert out[..outlen + |e|] == out[..outlen] + out[outlen..outlen + |e|];
  }

  ghost function Joined(out: Data, consumed: nat, r: Encoded): Encoded {
    Encoded(out + r.out, consumed + r.consumed, r.ret)
  }

  lemma JoinedNone(r: Encoded)
    ensures Joined([], 0, r) == r
  {
  }

  lemma JoinedEnd(out: Data, consumed: nat, ret: int)
    ensures Joined(out, consumed, Encoded([], 0, ret)) == Encoded(out, consumed, ret)
  {
  }

  lemma JoinedStep(out: Data, consumed: nat, e: Data, len: nat, more: Encoded)
    ensures Joined(out, consumed, Encoded(e + more.out, len + more.consumed, more.ret)) == Joined(out + e, consumed + len, more)
  {
    assert out + (e + more.out) == out + e + more.out;
  }

  method EscapeOne(table: seq<Entity>, c: nat, quoteChar: nat) returns (e: Data)
    ensures e == Escape(table, c, quoteChar)
  {
    if c < 0x80 && c != quoteChar && c != AMP && c != LT && c != GT {
      e := [c];
    } else {
      var ent := EntityValueLookup(table, c);
      var cp := if ent.None? then [HASH] + Decimal(c) else ent.value;
      e := [AMP] + cp + [SEMICOLON];
    }
  }

  /** Reads the lead byte, then its trailing bytes one by one. */
  method NextChar(input: Data, at: nat) returns (scan: Scan)
    requires at < |input|
    ensures scan == ScanChar(input[at..])
  {
    var d := input[at];
    var pos := at + 1;
    var c: nat, trailing: nat;
    if d < 0x80 {
      c, trailing := d, 0;
    } else if d < 0xC0 {
      return Malformed;
    } else if d < 0xE0 {
      c, trailing := d % 32, 1;
    } else if d < 0xF0 {
      c, trailing := d % 16, 2;
    } else if d < 0xF8 {
      c, trailing := d % 8, 3;
    } else {
      return Malformed;
    }
    if |input| - pos < trailing {
      return Short;
    }
    ghost var s := input[at..][1..1 + trailing];
    ghost var first := c;
    assert s == input[pos..pos + trailing];
    while trailing > 0
      invariant pos + trailing == at + 1 + |s| <= |input|
      invariant ScanTrailing(input[pos..pos + trailing], c) == ScanTrailing(s, first)
      decreases trailing
    {
      d := input[pos];
      assert input[pos..pos + trailing][1..] == input[pos + 1..pos + trailing];
      if !(0x80 <= d < 0xC0) {
        return Malformed;
      }
      c := c * 64 + d % 64;
      pos, trailing := pos + 1, trailing - 1;
    }
    scan := Char(c, pos - at);
  }
}
