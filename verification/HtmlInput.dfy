/** The reader of attribute values: it moves along its input and fills a buffer that grows. */
module HtmlInput {
  import opened Bytes
  import opened HtmlEntities
  import opened Options

  class ParserInput {
    const table: seq<Entity>
    const classes: Classes
    const base: seq<nat>    // the characters of the input
    var cur: nat

    ghost predicate Valid()
      reads this
    {
      cur <= |base|
    }

    ghost function Left(): seq<nat>
      requires Valid()
      reads this
    {
      base[cur..]
    }

    constructor (table: seq<Entity>, classes: Classes, base: seq<nat>)
      ensures Valid() && Left() == base && this.table == table && this.classes == classes
    {
      this.table, this.classes, this.base, cur := table, classes, base, 0;
    }

    /** The character `n` places on; 0 at the end of the input. */
    function Nxt(n: nat): nat
      reads this
    {
      if cur + n < |base| then base[cur + n] else 0
    }

    method EntityLookup(name: seq<nat>) returns (k: nat)
      ensures k == NameLookup(table, name)
    {
      k := 0;
      while k < |table| && table[k].name != name
        invariant k <= NameLookup(table, name)
      {
        k := k + 1;
      }
    }

    /** Digits up to a semicolon, which is skipped. */
    method ParseDigits(hex: bool) returns (val: int)
      requires Valid()
      modifies this`cur
      ensures Valid() && (val, Left()) == Digits(hex, old(Left()), 0)
    {
      val := 0;
      ghost var all := Digits(hex, Left(), 0);
      while Nxt(0) != SEMICOLON
        invariant Valid() && Digits(hex, Left(), val) == all
        decreases |base| - cur
      {
        var d := if hex then HexDigit(Nxt(0)) else DecDigit(Nxt(0));
        if d < 0 {
          break;
        }
        assert Left()[1..] == base[cur + 1..];
        val := Wrapped(val * (if hex then 16 else 10) + d);
        cur := cur + 1;
      }
      if Nxt(0) == SEMICOLON {
        assert Left()[1..] == base[cur + 1..];
        cur := cur + 1;
      }
    }

    method ParseCharRef() returns (c: nat)
      requires Valid() && IsCharRef(Left())
      modifies this`cur
      ensures Valid() && (c, Left()) == CharRef(old(Left()))
    {
      hide Digits;
      ghost var s := Left();
      var val: int;
      if Nxt(2) == 'x' as int || Nxt(2) == 'X' as int {
        assert s[3..] == base[cur + 3..];
        cur := cur + 3;
        val := ParseDigits(true);
      } else {
        assert s[2..] == base[cur + 2..];
        cur := cur + 2;
        val := ParseDigits(false);
      }
      c := if IsChar(val) then val else 0;
    }

    /** Plain ASCII names are read in one go; anything else is read again from the start. */
    method ParseName() returns (name: seq<nat>)
      requires Valid()
      modifies this`cur
      ensures var n := NameLength(classes, old(Left()));
        Valid() && name == old(Left())[..n] && Left() == old(Left())[n..]
    {
      if IsLetter(Nxt(0)) || Nxt(0) == '_' as int || Nxt(0) == ':' as int {
        var pos := cur + 1;
        while pos < |base| && AsciiPart(base[pos])
          invariant cur < pos <= |base|
          invariant forall i :: cur <= i < pos ==> IsNamePart(classes, base[i])
        {
          pos := pos + 1;
        }
        if pos < |base| && 0 < base[pos] < 0x80 {
          PartLengthIs(classes, Left(), pos - cur);
          name := base[cur..pos];
          cur := pos;
          return;
        }
      }
      name := ParseNameComplex();
    }

    method ParseNameComplex() returns (name: seq<nat>)
      requires Valid()
      modifies this`cur
      ensures var n := NameLength(classes, old(Left()));
        Valid() && name == old(Left())[..n] && Left() == old(Left())[n..]
    {
      ghost var s := Left();
      var first := cur;
      if Nxt(0) == ' ' as int || Nxt(0) == GT || Nxt(0) == '/' as int || !IsNameStart(classes, Nxt(0)) {
        return [];
      }
      while IsNamePart(classes, Nxt(0))
        invariant first <= cur <= |base|
        invariant forall i :: first <= i < cur ==> IsNamePart(classes, base[i])
        decreases |base| - cur
      {
        cur := cur + 1;
      }
      PartLengthIs(classes, s, cur - first);
      name := base[first..cur];
    }

    /** The entity referred to, if it is one, and the name. */
    method ParseEntityRef() returns (ent: Option<nat>, name: seq<nat>)
      requires Valid() && Nxt(0) == AMP
      modifies this`cur
      ensures Valid() && Left() == EntityRef(table, classes, old(Left())).1
      ensures EntityRef(table, classes, old(Left())).0
           == if name == [] then [AMP] else if ent.Some? then Utf8(ent.value) else [AMP] + Utf8All(name)
    {
      hide NameLength, Utf8, Utf8All;
      ent := None;
      assert Left()[1..] == base[cur + 1..];
      cur := cur + 1;
      name := ParseName();
      if name == [] {
        return;
      }
      if Nxt(0) == SEMICOLON {
        var k := EntityLookup(name);
        if k < |table| {
          assert Left()[1..] == base[cur + 1..];
          cur := cur + 1;
          ent := Some(table[k].value);
        }
      }
    }

    /** One reference or one plain character. At most 4 bytes are written without a check that
        100 bytes are left, so no write is out of bounds. */
    method ReadPiece(buffer: array<Byte>, at: nat) returns (r: array<Byte>, out: nat)
      requires Valid() && Left() != [] && HTML_PARSER_BUFFER_SIZE <= buffer.Length && at <= buffer.Length - 96
      modifies this`cur, buffer
      ensures Valid() && (r == buffer || fresh(r)) && HTML_PARSER_BUFFER_SIZE <= r.Length && out <= r.Length - 96
      ensures var piece := NextPiece(table, classes, old(Left()));
        Left() == piece.1 && r[..out] == old(buffer[..at]) + piece.0
    {
      hide Utf8, Utf8All, EntityRef, CharRef;
      r, out := buffer, at;
      if Nxt(0) == AMP {
        if Nxt(1) == HASH {
          var c := ParseCharRef();
          out := PutChar(r, out, c);
          r := Reserve(r, out);
        } else {
          var ent, name := ParseEntityRef();
          if name == [] {
            r[out] := AMP;
            out := out + 1;
            r := Reserve(r, out);
          } else if ent.None? {
            r[out] := AMP;
            out := out + 1;
            NotEmpty(name);
            r, out := PutName(r, out, Utf8All(name));
          } else {
            r := Reserve(r, out);
            out := PutChar(r, out, ent.value);
          }
        }
      } else {
        r := Reserve(r, out);
        assert Left()[1..] == base[cur + 1..];
        out := PutChar(r, out, Nxt(0));
        cur := cur + 1;
      }
    }

    /** Reads up to the closing quote, or for `stop` 0 to a blank or '>'. */
    method ParseHTMLAttribute(stop: nat) returns (buffer: array<Byte>, out: nat)
      requires Valid()
      modifies this`cur
      ensures Valid() && out < buffer.Length && buffer[out] == 0 && fresh(buffer)
      ensures (buffer[..out], Left()) == AttributeValue(table, classes, old(Left()), stop)
    {
      hide AttributeValue, NextPiece;
      ghost var all := AttributeValue(table, classes, Left(), stop);
      buffer, out := new Byte[HTML_PARSER_BUFFER_SIZE](_ => 0), 0;
      JoinNothing(buffer[..out], all);
      while Nxt(0) != 0 && Nxt(0) != stop
        invariant Valid() && fresh(buffer) && HTML_PARSER_BUFFER_SIZE <= buffer.Length && out <= buffer.Length - 96
        invariant Join(buffer[..out], AttributeValue(table, classes, Left(), stop)) == all
        decreases |base| - cur
      {
        if stop == 0 && (Nxt(0) == GT || IsBlank(Nxt(0))) {
          break;
        }
        ghost var left, done := Left(), buffer[..out];
        ValueStep(table, classes, left, stop);
        buffer, out := ReadPiece(buffer, out);
        JoinStep(done, NextPiece(table, classes, left).0, AttributeValue(table, classes, Left(), stop));
      }
      ValueStops(table, classes, Left(), stop);
      JoinEnd(buffer[..out], Left());
      ghost var read := buffer[..out];
      buffer[out] := 0;
      assert buffer[..out] == read;
    }
  }

  lemma NotEmpty(name: seq<nat>)
    requires name != []
    ensures Utf8All(name) != []
  {
  }

  ghost function Join(done: Data, r: (Data, seq<nat>)): (Data, seq<nat>) {
    (done + r.0, r.1)
  }

  lemma JoinNothing(done: Data, r: (Data, seq<nat>))
    requires done == []
    ensures Join(done, r) == r
  {
    assert done + r.0 == r.0;
  }

  lemma JoinStep(done: Data, piece: Data, r: (Data, seq<nat>))
    ensures Join(done, (piece + r.0, r.1)) == Join(done + piece, r)
  {
    assert done + (piece + r.0) == (done + piece) + r.0;
  }

  lemma JoinEnd(done: Data, left: seq<nat>)
    ensures Join(done, ([], left)) == (done, left)
  {
    assert done + [] == done;
  }

  lemma ValueStep(table: seq<Entity>, classes: Classes, s: seq<nat>, stop: nat)
    requires !Stops(s, stop)
    ensures var r := AttributeValue(table, classes, NextPiece(table, classes, s).1, stop);
      AttributeValue(table, classes, s, stop) == (NextPiece(table, classes, s).0 + r.0, r.1)
  {
  }

  lemma ValueStops(table: seq<Entity>, classes: Classes, s: seq<nat>, stop: nat)
    requires Stops(s, stop)
    ensures AttributeValue(table, classes, s, stop) == ([], s)
  {
  }

  /** Doubles the buffer when less than 100 bytes are left in it. */
  method Reserve(buffer: array<Byte>, out: nat) returns (r: array<Byte>)
    requires HTML_PARSER_BUFFER_SIZE <= buffer.Length && out <= buffer.Length
    ensures (r == buffer || fresh(r)) && buffer.Length <= r.Length && out <= r.Length - 100
    ensures r[..out] == buffer[..out]
  {
    r := buffer;
    if out > buffer.Length - 100 {
      r := new Byte[2 * buffer.Length](_ => 0);
      forall i | 0 <= i < out {
        r[i] := buffer[i];
      }
    }
  }

  function Shifted(c: nat, places: nat): nat {
    match places
    case 0 => c
    case 1 => c / 64
    case 2 => c / 4096
    case _ => c / 26_2144
  }

  /** Writes the bytes of a character, from the highest bits down. */
  method PutChar(buffer: array<Byte>, at: nat, c: nat) returns (out: nat)
    requires at + 4 <= buffer.Length
    modifies buffer
    ensures out <= at + 4 && buffer[..out] == old(buffer[..at]) + Utf8(c)
  {
    var bits: int;
    if c < 0x80 {
      buffer[at] := c;
      bits := 0;
    } else if c < 0x800 {
      buffer[at] := 0xC0 + c / 64 % 32;
      bits := 1;
    } else if c < 0x1_0000 {
      buffer[at] := 0xE0 + c / 4096 % 16;
      bits := 2;
    } else {
      buffer[at] := 0xF0 + c / 26_2144 % 8;
      bits := 3;
    }
    out := at + 1;
    ghost var n := |Utf8(c)|;
    while bits > 0
      invariant 0 <= bits && out + bits == at + n
      invariant forall i :: 0 <= i < at ==> buffer[i] == old(buffer[i])
      invariant forall i :: at <= i < out ==> buffer[i] == Utf8(c)[i - at]
    {
      bits := bits - 1;
      buffer[out] := 0x80 + Shifted(c, bits) % 64;
      out := out + 1;
    }
  }

  method PutName(buffer: array<Byte>, at: nat, name: Data) returns (r: array<Byte>, out: nat)
    requires HTML_PARSER_BUFFER_SIZE <= buffer.Length && at <= buffer.Length - 95
    modifies buffer
    ensures (r == buffer || fresh(r)) && buffer.Length <= r.Length && out <= r.Length - 95
    ensures name != [] ==> out <= r.Length - 99
    ensures r[..out] == old(buffer[..at]) + name
  {
    r, out := buffer, at;
    for i := 0 to |name|
      invariant (r == buffer || fresh(r)) && buffer.Length <= r.Length && out <= r.Length - 95
      invariant i > 0 ==> out <= r.Length - 99
      invariant r[..out] == old(buffer[..at]) + name[..i]
    {
      r := Reserve(r, out);
      r[out] := name[i];
      out := out + 1;
      assert r[..out] == old(buffer[..at]) + name[..i] + [name[i]];
      assert name[..i + 1] == name[..i] + [name[i]];
    }
    assert name[..|name|] == name;
  }

  predicate AsciiPart(c: nat) {
    IsLetter(c) || IsDigit(c) || c == '_' as int || c == '-' as int || c == ':' as int || c == '.' as int
  }

  lemma {:induction false} PartLengthIs(classes: Classes, s: seq<nat>, n: nat)
    requires n <= |s| && forall i :: 0 <= i < n ==> IsNamePart(classes, s[i])
    requires n < |s| ==> !IsNamePart(classes, s[n])
    ensures PartLength(classes, s) == n
  {
    if n > 0 {
      PartLengthIs(classes, s[1..], n - 1);
    }
  }
}
