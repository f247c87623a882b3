/** Attribute values as HTML text: escaping a value between quotes, and reading it back. */
module HtmlEntities {
  import opened Bytes
  import opened Options

  type Code = c: int | 0 <= c < 0x20_0000

  /** A named entity: its name is ASCII. */
  datatype Entity = Entity(value: nat, name: Data)

  const AMP: Byte := '&' as int
  const LT: Byte := '<' as int
  const GT: Byte := '>' as int
  const HASH: Byte := '#' as int
  const SEMICOLON: Byte := ';' as int
  const HTML_PARSER_BUFFER_SIZE := 100

  // ---------------------------------------------------------------- UTF-8

  /** The bytes written for a character, as RFC 3629 section 3 has them. */
  function Utf8(c: nat): (s: Data)
    ensures 1 <= |s| <= 4
  {
    if c < 0x80 then [c]
    else if c < 0x800 then [0xC0 + c / 64 % 32, 0x80 + c % 64]
    else if c < 0x1_0000 then [0xE0 + c / 4096 % 16, 0x80 + c / 64 % 64, 0x80 + c % 64]
    else [0xF0 + c / 26_2144 % 8, 0x80 + c / 4096 % 64, 0x80 + c / 64 % 64, 0x80 + c % 64]
  }

  function Utf8All(s: seq<nat>): Data {
    if s == [] then [] else Utf8(s[0]) + Utf8All(s[1..])
  }

  /** One character read from the front of a byte string. */
  datatype Scan = Char(c: nat, len: nat) | Malformed | Short

  predicate IsTrailing(b: Byte) {
    0x80 <= b < 0xC0
  }

  function LeadLength(d: Byte): nat {
    if d < 0x80 then 0 else if d < 0xE0 then 1 else if d < 0xF0 then 2 else 3
  }

  function LeadBits(d: Byte): nat {
    if d < 0x80 then d else if d < 0xE0 then d % 32 else if d < 0xF0 then d % 16 else d % 8
  }

  function ScanTrailing(s: Data, c: nat): Option<nat> {
    if s == [] then Some(c) else if !IsTrailing(s[0]) then None else ScanTrailing(s[1..], c * 64 + s[0] % 64)
  }

  function ScanChar(s: Data): (r: Scan)
    requires s != []
    ensures r.Char? ==> 1 <= r.len <= |s|
  {
    var d := s[0];
    if 0x80 <= d < 0xC0 || d >= 0xF8 then Malformed
    else if |s| - 1 < LeadLength(d) then Short
    else match ScanTrailing(s[1..1 + LeadLength(d)], LeadBits(d))
      case None => Malformed
      case Some(c) => Char(c, 1 + LeadLength(d))
  }

  lemma Trailing(s: Data, c: nat)
    requires |s| <= 3 && forall i :: 0 <= i < |s| ==> IsTrailing(s[i])
    ensures |s| == 0 ==> ScanTrailing(s, c) == Some(c)
    ensures |s| == 1 ==> ScanTrailing(s, c) == Some(c * 64 + s[0] % 64)
    ensures |s| == 2 ==> ScanTrailing(s, c) == Some((c * 64 + s[0] % 64) * 64 + s[1] % 64)
    ensures |s| == 3 ==> ScanTrailing(s, c) == Some(((c * 64 + s[0] % 64) * 64 + s[1] % 64) * 64 + s[2] % 64)
  {
    if s != [] {
      Trailing(s[1..], c * 64 + s[0] % 64);
    }
  }

  /** The lead byte says how many bytes follow and carries the high bits. */
  lemma LeadOfUtf8(c: Code)
    ensures var u := Utf8(c);
      && !(0x80 <= u[0] < 0xC0) && u[0] < 0xF8 && LeadLength(u[0]) == |u| - 1
      && LeadBits(u[0]) == if |u| == 1 then c else if |u| == 2 then c / 64 else if |u| == 3 then c / 4096 else c / 26_2144
  {
    if c < 0x80 {
    } else if c < 0x800 {
      assert c / 64 % 32 == c / 64;
    } else if c < 0x1_0000 {
      assert c / 4096 % 16 == c / 4096;
    } else {
      assert c / 26_2144 % 8 == c / 26_2144;
    }
  }

  lemma TrailOfUtf8(c: Code)
    ensures var t := Utf8(c)[1..];
      && (forall i :: 0 <= i < |t| ==> IsTrailing(t[i]))
      && (|t| == 1 ==> t[0] % 64 == c % 64)
      && (|t| == 2 ==> t[0] % 64 == c / 64 % 64 && t[1] % 64 == c % 64)
      && (|t| == 3 ==> t[0] % 64 == c / 4096 % 64 && t[1] % 64 == c / 64 % 64 && t[2] % 64 == c % 64)
  {
    Low64(c % 64);
    Low64(c / 64 % 64);
    Low64(c / 4096 % 64);
  }

  lemma Low64(d: nat)
    requires d < 64
    ensures (0x80 + d) % 64 == d
  {
  }

  lemma Digits64(c: nat)
    ensures c / 64 * 64 + c % 64 == c
    ensures c / 4096 * 64 + c / 64 % 64 == c / 64
    ensures c / 26_2144 * 64 + c / 4096 % 64 == c / 4096
  {
  }

  lemma ScanOfUtf8(c: Code, rest: Data)
    ensures ScanChar(Utf8(c) + rest) == Char(c, |Utf8(c)|)
  {
    hide ScanTrailing, Utf8, LeadLength, LeadBits, IsTrailing;
    var u := Utf8(c);
    var s := u + rest;
    LeadOfUtf8(c);
    TrailOfUtf8(c);
    assert s[1..1 + LeadLength(s[0])] == u[1..];
    Digits64(c);
    Trailing(u[1..], LeadBits(s[0]));
  }

  // ---------------------------------------------------------------- the entity table

  predicate IsLetter(b: nat) {
    'a' as int <= b <= 'z' as int || 'A' as int <= b <= 'Z' as int
  }

  predicate IsDigit(b: nat) {
    '0' as int <= b <= '9' as int
  }

  /** Names are different, and are letters and digits with a letter first. */
  ghost predicate ProperTable(table: seq<Entity>) {
    && (forall i :: 0 <= i < |table| ==>
          && table[i].name != [] && IsLetter(table[i].name[0])
          && forall j :: 0 <= j < |table[i].name| ==> IsLetter(table[i].name[j]) || IsDigit(table[i].name[j]))
    && (forall i, j :: 0 <= i < j < |table| ==> table[i].name != table[j].name)
  }

  ghost predicate SortedTable(table: seq<Entity>) {
    forall i, j :: 0 <= i < j < |table| ==> table[i].value < table[j].value
  }

  /** The first entry that is not smaller decides. */
  function ValueLookup(table: seq<Entity>, value: nat): Option<Data> {
    if table == [] then None
    else if table[0].value < value then ValueLookup(table[1..], value)
    else if table[0].value > value then None
    else Some(table[0].name)
  }

  function NameLookup(table: seq<Entity>, name: seq<nat>): (k: nat)
    ensures k <= |table|
    ensures k < |table| ==> table[k].name == name
    ensures forall i :: 0 <= i < k ==> table[i].name != name
  {
    if table == [] || table[0].name == name then 0 else 1 + NameLookup(table[1..], name)
  }

  /** On a sorted table every entity is found by its value, and nothing else is. */
  lemma {:induction false} ValueLookupFinds(table: seq<Entity>, value: nat)
    requires SortedTable(table)
    ensures ValueLookup(table, value).None? <==> forall i :: 0 <= i < |table| ==> table[i].value != value
  {
    if table != [] {
      ValueLookupFinds(table[1..], value);
      assert forall i :: 0 < i < |table| ==> table[i] == table[1..][i - 1];
    }
  }

  lemma {:induction false} ValueLookupIsEntry(table: seq<Entity>, value: nat) returns (k: nat)
    requires ValueLookup(table, value).Some?
    ensures k < |table| && table[k] == Entity(value, ValueLookup(table, value).value)
  {
    if table[0].value < value {
      k := ValueLookupIsEntry(table[1..], value);
      k := k + 1;
    } else {
      k := 0;
    }
  }

  // ---------------------------------------------------------------- encoding

  function Decimal(n: nat): (s: Data)
    ensures s != []
    ensures forall i :: 0 <= i < |s| ==> IsDigit(s[i])
  {
    if n < 10 then ['0' as int + n] else Decimal(n / 10) + ['0' as int + n % 10]
  }

  predicate Plain(c: nat, quote: nat) {
    c < 0x80 && c != quote && c != AMP && c != LT && c != GT
  }

  /** What one character becomes. */
  function Escape(table: seq<Entity>, c: nat, quote: nat): (e: Data)
    ensures e != []
  {
    if Plain(c, quote) then [c]
    else
      var ent := ValueLookup(table, c);
      [AMP] + (if ent.None? then [HASH] + Decimal(c) else ent.value) + [SEMICOLON]
  }

  function EscapeAll(table: seq<Entity>, s: seq<nat>, quote: nat): Data {
    if s == [] then [] else Escape(table, s[0], quote) + EscapeAll(table, s[1..], quote)
  }

  /** Output, number of bytes consumed, and return code. */
  datatype Encoded = Encoded(out: Data, consumed: nat, ret: int)

  /** What fits into `room` bytes of output, whole characters only. */
  function EncodeInto(table: seq<Entity>, s: Data, quote: nat, room: nat): (r: Encoded)
    ensures |r.out| <= room && r.consumed <= |s|
    decreases |s|
  {
    if s == [] then Encoded([], 0, 0)
    else match ScanChar(s)
      case Malformed => Encoded([], 0, -2)
      case Short => Encoded([], 0, 0)
      case Char(c, len) =>
        var e := Escape(table, c, quote);
        if |e| > room then Encoded([], 0, 0)
        else
          var more := EncodeInto(table, s[len..], quote, room - |e|);
          Encoded(e + more.out, len + more.consumed, more.ret)
  }

  lemma EncodeStops(table: seq<Entity>, s: Data, quote: nat, room: nat)
    ensures s == [] ==> EncodeInto(table, s, quote, room) == Encoded([], 0, 0)
    ensures s != [] && ScanChar(s) == Malformed ==> EncodeInto(table, s, quote, room) == Encoded([], 0, -2)
    ensures s != [] && ScanChar(s) == Short ==> EncodeInto(table, s, quote, room) == Encoded([], 0, 0)
    ensures s != [] && ScanChar(s).Char? && |Escape(table, ScanChar(s).c, quote)| > room
        ==> EncodeInto(table, s, quote, room) == Encoded([], 0, 0)
  {
  }

  lemma EncodeStep(table: seq<Entity>, s: Data, quote: nat, room: nat)
    requires s != [] && ScanChar(s).Char? && |Escape(table, ScanChar(s).c, quote)| <= room
    ensures var e, len := Escape(table, ScanChar(s).c, quote), ScanChar(s).len;
      var more := EncodeInto(table, s[len..], quote, room - |e|);
      EncodeInto(table, s, quote, room) == Encoded(e + more.out, len + more.consumed, more.ret)
  {
  }

  /** Repeated calls into small buffers write what one call into a large one writes. */
  lemma {:induction false} RepeatedCallsAreOne(table: seq<Entity>, s: Data, quote: nat, room: nat, large: nat)
    requires |EncodeInto(table, s, quote, room).out| <= large
    ensures var first := EncodeInto(table, s, quote, room);
      var second := EncodeInto(table, s[first.consumed..], quote, large - |first.out|);
      EncodeInto(table, s, quote, large)
      == Encoded(first.out + second.out, first.consumed + second.consumed, second.ret)
    decreases |s|
  {
    hide ScanChar, Escape, EncodeInto;
    EncodeStops(table, s, quote, room);
    if s != [] && ScanChar(s).Char? && |Escape(table, ScanChar(s).c, quote)| <= room {
      EncodeStep(table, s, quote, room);
      var first := EncodeInto(table, s, quote, room);
      var e, len := Escape(table, ScanChar(s).c, quote), ScanChar(s).len;
      EncodeStep(table, s, quote, large);
      RepeatedCallsAreOne(table, s[len..], quote, room - |e|, large - |e|);
      assert s[len..][first.consumed - len..] == s[first.consumed..];
    } else {
      var all := EncodeInto(table, s, quote, large);
      assert s[0..] == s && [] + all.out == all.out;
    }
  }

  /** On well-formed input the output is that of a number of whole characters, and the next one
      would not have fitted. */
  lemma {:induction false} WholeCharacters(table: seq<Entity>, s: seq<Code>, quote: nat, room: nat) returns (k: nat)
    ensures k <= |s|
    ensures var r := EncodeInto(table, Utf8All(s), quote, room);
      && r.ret == 0 && r.consumed == |Utf8All(s[..k])| && r.out == EscapeAll(table, s[..k], quote)
      && (k < |s| ==> |r.out| + |Escape(table, s[k], quote)| > room)
  {
    hide ScanChar, Escape, Utf8;
    if s == [] {
      k := 0;
    } else {
      var u, e := Utf8(s[0]), Escape(table, s[0], quote);
      ScanOfUtf8(s[0], Utf8All(s[1..]));
      assert Utf8All(s)[|u|..] == Utf8All(s[1..]);
      if |e| > room {
        k := 0;
      } else {
        k := WholeCharacters(table, s[1..], quote, room - |e|);
        k := k + 1;
        assert s[..k][1..] == s[1..][..k - 1];
      }
    }
  }

  /** With room for everything, all of the text is encoded. */
  lemma {:induction false} EncodeAll(table: seq<Entity>, s: seq<Code>, quote: nat, room: nat)
    requires |EscapeAll(table, s, quote)| <= room
    ensures EncodeInto(table, Utf8All(s), quote, room) == Encoded(EscapeAll(table, s, quote), |Utf8All(s)|, 0)
  {
    hide ScanChar, Escape, Utf8;
    if s != [] {
      var u := Utf8(s[0]);
      ScanOfUtf8(s[0], Utf8All(s[1..]));
      assert Utf8All(s)[|u|..] == Utf8All(s[1..]);
      EncodeAll(table, s[1..], quote, room - |Escape(table, s[0], quote)|);
    }
  }

  // ---------------------------------------------------------------- reading references

  /** Letters and other name characters outside ASCII. */
  datatype Classes = Classes(letter: nat -> bool, other: nat -> bool)

  predicate IsNameStart(classes: Classes, c: nat) {
    IsLetter(c) || c == '_' as int || c == ':' as int || (c >= 0x80 && classes.letter(c))
  }

  predicate IsNamePart(classes: Classes, c: nat) {
    || IsNameStart(classes, c) || IsDigit(c) || c == '.' as int || c == '-' as int
    || (c >= 0x80 && classes.other(c))
  }

  /** A character XML allows. */
  predicate IsChar(c: int) {
    c == 0x9 || c == 0xA || c == 0xD || 0x20 <= c <= 0xD7FF || 0xE000 <= c <= 0xFFFD || 0x1_0000 <= c <= 0x10_FFFF
  }

  function PartLength(classes: Classes, s: seq<nat>): (n: nat)
    ensures n <= |s|
    ensures forall i :: 0 <= i < n ==> IsNamePart(classes, s[i])
    ensures n < |s| ==> !IsNamePart(classes, s[n])
  {
    if s == [] || !IsNamePart(classes, s[0]) then 0 else 1 + PartLength(classes, s[1..])
  }

  /** The length of the name at the front of the input, 0 if there is none. */
  function NameLength(classes: Classes, s: seq<nat>): (n: nat)
    ensures n <= |s|
  {
    if s == [] || !IsNameStart(classes, s[0]) then 0 else PartLength(classes, s)
  }

  function HexDigit(c: nat): int {
    if IsDigit(c) then c - '0' as int
    else if 'a' as int <= c <= 'f' as int then c - 'a' as int + 10
    else if 'A' as int <= c <= 'F' as int then c - 'A' as int + 10
    else -1
  }

  function DecDigit(c: nat): int {
    if IsDigit(c) then c - '0' as int else -1
  }

  /** An int of 32 bits, wrapping around. */
  function Wrapped(n: int): int {
    (n + 0x8000_0000) % 0x1_0000_0000 - 0x8000_0000
  }

  /** Digits up to a semicolon, which is consumed, or to anything else. */
  function Digits(hex: bool, s: seq<nat>, val: int): (r: (int, seq<nat>))
    ensures |r.1| <= |s|
    decreases |s|
  {
    if s == [] then (val, s)
    else if s[0] == SEMICOLON then (val, s[1..])
    else
      var d := if hex then HexDigit(s[0]) else DecDigit(s[0]);
      if d < 0 then (val, s) else Digits(hex, s[1..], Wrapped(val * (if hex then 16 else 10) + d))
  }

  predicate IsCharRef(s: seq<nat>) {
    |s| >= 2 && s[0] == AMP && s[1] == HASH
  }

  predicate IsHexRef(s: seq<nat>) {
    IsCharRef(s) && |s| > 2 && (s[2] == 'x' as int || s[2] == 'X' as int)
  }

  function CharRef(s: seq<nat>): (r: (nat, seq<nat>))
    requires IsCharRef(s)
    ensures |r.1| < |s|
  {
    var (val, rest) := if IsHexRef(s) then Digits(true, s[3..], 0) else Digits(false, s[2..], 0);
    (if IsChar(val) then val else 0, rest)
  }

  /** The bytes an entity reference stands for: of the entity, or of itself when it is none. */
  function EntityRef(table: seq<Entity>, classes: Classes, s: seq<nat>): (r: (Data, seq<nat>))
    requires s != [] && s[0] == AMP
    ensures |r.1| < |s|
  {
    var n := NameLength(classes, s[1..]);
    var name, rest := s[1..][..n], s[1..][n..];
    if n == 0 then ([AMP], rest)
    else if rest != [] && rest[0] == SEMICOLON && NameLookup(table, name) < |table|
    then (Utf8(table[NameLookup(table, name)].value), rest[1..])
    else ([AMP] + Utf8All(name), rest)
  }

  predicate IsBlank(c: nat) {
    c == 0x20 || c == 0x9 || c == 0xA || c == 0xD
  }

  predicate Stops(s: seq<nat>, stop: nat) {
    || s == [] || s[0] == 0 || s[0] == stop
    || (stop == 0 && (s[0] == GT || IsBlank(s[0])))
  }

  /** The value of an attribute, and the input from where it ends. */
  function AttributeValue(table: seq<Entity>, classes: Classes, s: seq<nat>, stop: nat): (r: (Data, seq<nat>))
    decreases |s|
  {
    if Stops(s, stop) then ([], s)
    else
      var (out, rest) := NextPiece(table, classes, s);
      var (more, end) := AttributeValue(table, classes, rest, stop);
      (out + more, end)
  }

  function NextPiece(table: seq<Entity>, classes: Classes, s: seq<nat>): (r: (Data, seq<nat>))
    requires s != []
    ensures |r.1| < |s|
  {
    if IsCharRef(s) then (Utf8(CharRef(s).0), CharRef(s).1)
    else if s[0] == AMP then EntityRef(table, classes, s)
    else (Utf8(s[0]), s[1..])
  }

  // ---------------------------------------------------------------- the round trip

  lemma WrappedDigit(m: int, d: int)
    ensures Wrapped(Wrapped(m) * 10 + d) == Wrapped(m * 10 + d)
  {
    var k := (m + 0x8000_0000) / 0x1_0000_0000;
    assert Wrapped(m) == m - k * 0x1_0000_0000;
    var x, y := m * 10 + d + 0x8000_0000, 10 * k;
    assert (x - y * 0x1_0000_0000) % 0x1_0000_0000 == x % 0x1_0000_0000;
  }

  lemma {:induction false} DigitsOfDecimal(n: nat, rest: seq<nat>)
    ensures Digits(false, Decimal(n) + rest, 0) == Digits(false, rest, Wrapped(n))
    decreases n
  {
    if n < 10 {
      assert (Decimal(n) + rest)[1..] == rest;
    } else {
      var d: Byte := '0' as int + n % 10;
      assert Decimal(n) + rest == Decimal(n / 10) + ([d] + rest);
      DigitsOfDecimal(n / 10, [d] + rest);
      assert ([d] + rest)[1..] == rest;
      WrappedDigit(n / 10, n % 10);
    }
  }

  lemma WrappedSmall(n: int)
    requires -0x8000_0000 <= n < 0x8000_0000
    ensures Wrapped(n) == n
  {
  }

  /** A decimal reference reads as its number, in 32 bits, if that is a character at all. */
  lemma CharRefOfDecimal(c: nat, rest: seq<nat>)
    ensures var s := [AMP] + ([HASH] + Decimal(c)) + [SEMICOLON] + rest;
      IsCharRef(s) && CharRef(s) == (if IsChar(Wrapped(c)) then Wrapped(c) else 0, rest)
  {
    hide Wrapped;
    var s := [AMP] + ([HASH] + Decimal(c)) + [SEMICOLON] + rest;
    var t: seq<nat> := [SEMICOLON] + rest;
    assert s[2..] == Decimal(c) + t;
    assert IsDigit(s[2]);
    DigitsOfDecimal(c, t);
    assert t[1..] == rest;
  }

  const LOWER_DIGITS := "0123456789abcdef"
  const UPPER_DIGITS := "0123456789ABCDEF"

  /** The number these digits stand for. */
  function HexValue(digits: seq<nat>): nat {
    if digits == [] then 0 else HexValue(digits[..|digits| - 1]) * 16 + digits[|digits| - 1]
  }

  /** The characters are these digits, with letters in either case. */
  predicate WritesHex(s: seq<nat>, digits: seq<nat>) {
    |s| == |digits| && forall i :: 0 <= i < |s| ==>
      digits[i] < 16 && (s[i] == LOWER_DIGITS[digits[i]] as int || s[i] == UPPER_DIGITS[digits[i]] as int)
  }

  lemma HexDigitIs(d: nat)
    requires d < 16
    ensures HexDigit(LOWER_DIGITS[d] as int) == d && HexDigit(UPPER_DIGITS[d] as int) == d
    ensures LOWER_DIGITS[d] != ';' && UPPER_DIGITS[d] != ';'
  {
    assert LOWER_DIGITS[d] as int == if d < 10 then '0' as int + d else 'a' as int + d - 10;
    assert UPPER_DIGITS[d] as int == if d < 10 then '0' as int + d else 'A' as int + d - 10;
  }

  lemma WrappedHexDigit(m: int, d: int)
    ensures Wrapped(Wrapped(m) * 16 + d) == Wrapped(m * 16 + d)
  {
    var k := (m + 0x8000_0000) / 0x1_0000_0000;
    assert Wrapped(m) == m - k * 0x1_0000_0000;
    var x, y := m * 16 + d + 0x8000_0000, 16 * k;
    assert (x - y * 0x1_0000_0000) % 0x1_0000_0000 == x % 0x1_0000_0000;
  }

  lemma {:induction false} DigitsOfHex(s: seq<nat>, digits: seq<nat>, rest: seq<nat>)
    requires WritesHex(s, digits)
    ensures Digits(true, s + rest, 0) == Digits(true, rest, Wrapped(HexValue(digits)))
    decreases |s|
  {
    hide Wrapped, HexDigit, DecDigit, LOWER_DIGITS, UPPER_DIGITS;
    if s == [] {
      assert s + rest == rest;
      WrappedSmall(0);
    } else {
      var n := |s| - 1;
      var d := digits[n];
      assert s + rest == s[..n] + ([s[n]] + rest);
      DigitsOfHex(s[..n], digits[..n], [s[n]] + rest);
      HexDigitIs(d);
      assert ([s[n]] + rest)[1..] == rest;
      WrappedHexDigit(HexValue(digits[..n]), d);
    }
  }

  /** A hexadecimal reference reads as its number, in 32 bits, if that is a character at all. */
  lemma CharRefOfHex(s: seq<nat>, digits: seq<nat>, x: char, rest: seq<nat>)
    requires WritesHex(s, digits) && (x == 'x' || x == 'X')
    ensures var ref := [AMP, HASH, x as int] + s + [SEMICOLON] + rest; var c := Wrapped(HexValue(digits));
      IsCharRef(ref) && CharRef(ref) == (if IsChar(c) then c else 0, rest)
  {
    hide Wrapped, WritesHex;
    var ref := [AMP, HASH, x as int] + s + [SEMICOLON] + rest;
    var t: seq<nat> := [SEMICOLON] + rest;
    assert ref[3..] == s + t && t[1..] == rest;
    DigitsOfHex(s, digits, t);
  }

  lemma {:induction false} PartLengthOf(classes: Classes, name: seq<nat>, rest: seq<nat>)
    requires forall i :: 0 <= i < |name| ==> IsLetter(name[i]) || IsDigit(name[i])
    requires rest != [] && rest[0] == SEMICOLON
    ensures PartLength(classes, name + rest) == |name|
  {
    if name == [] {
      assert name + rest == rest;
    } else {
      assert (name + rest)[1..] == name[1..] + rest;
      PartLengthOf(classes, name[1..], rest);
    }
  }

  lemma EntityRefOfName(table: seq<Entity>, classes: Classes, k: nat, rest: seq<nat>)
    requires ProperTable(table) && k < |table|
    ensures var s := [AMP] + table[k].name + [SEMICOLON] + rest;
      !IsCharRef(s) && EntityRef(table, classes, s) == (Utf8(table[k].value), rest)
  {
    var name := table[k].name;
    var s := [AMP] + name + [SEMICOLON] + rest;
    var t: seq<nat> := [SEMICOLON] + rest;
    assert s[1..] == name + t;
    assert s[1] == name[0];
    PartLengthOf(classes, name, t);
    var n := |name|;
    assert (name + t)[..n] == name && (name + t)[n..] == t && t[1..] == rest;
    assert NameLookup(table, name) == k;
  }

  /** A reference by a name that no entry has is left as it is. */
  lemma EntityRefUnknown(table: seq<Entity>, classes: Classes, name: Data, rest: seq<nat>)
    requires name != [] && IsLetter(name[0]) && forall i :: 0 <= i < |name| ==> IsLetter(name[i]) || IsDigit(name[i])
    requires forall k :: 0 <= k < |table| ==> table[k].name != name
    ensures var s := [AMP] + name + [SEMICOLON] + rest;
      !IsCharRef(s) && EntityRef(table, classes, s) == ([AMP] + name, [SEMICOLON] + rest)
  {
    var s := [AMP] + name + [SEMICOLON] + rest;
    var t: seq<nat> := [SEMICOLON] + rest;
    assert s[1..] == name + t;
    assert s[1] == name[0];
    PartLengthOf(classes, name, t);
    var n := |name|;
    assert (name + t)[..n] == name && (name + t)[n..] == t;
    AsciiIsUtf8(name);
  }

  lemma {:induction false} AsciiIsUtf8(s: Data)
    requires forall i :: 0 <= i < |s| ==> s[i] < 0x80
    ensures Utf8All(s) == s
  {
    if s != [] {
      AsciiIsUtf8(s[1..]);
      assert s == [s[0]] + s[1..];
    }
  }

  /** What an unquoted value or one between '&' cannot carry: blanks end the first, and every
      reference ends the second. */
  predicate Survives(c: nat, quote: nat) {
    if quote == 0 then !IsBlank(c) else quote == AMP ==> Plain(c, AMP)
  }

  /** What follows the value: the closing quote, or the end of the tag. */
  function Closing(quote: nat, rest: seq<nat>): seq<nat> {
    [if quote == 0 then GT else quote] + rest
  }

  /** Reading one escaped character gives its bytes, or ends the value before it. */
  lemma PieceOfEscape(table: seq<Entity>, classes: Classes, c: nat, quote: nat, rest: seq<nat>)
    requires ProperTable(table) && IsChar(c) && quote < 0x80
    ensures var s := Escape(table, c, quote) + rest;
      && (Stops(s, quote) <==> !Survives(c, quote))
      && (Survives(c, quote) ==> NextPiece(table, classes, s) == (Utf8(c), rest))
  {
    hide Decimal, CharRef, EntityRef, Utf8, ValueLookup;
    var s := Escape(table, c, quote) + rest;
    if Plain(c, quote) {
      assert s[1..] == rest;
    } else {
      assert s[0] == AMP;
      if ValueLookup(table, c).None? {
        CharRefOfDecimal(c, rest);
        WrappedSmall(c);
      } else {
        var k := ValueLookupIsEntry(table, c);
        EntityRefOfName(table, classes, k, rest);
      }
    }
  }

  lemma EscapeAllFirst(table: seq<Entity>, s: seq<nat>, quote: nat, tail: seq<nat>)
    ensures EscapeAll(table, s, quote) + tail
         == if s == [] then tail
            else Escape(table, s[0], quote) + (EscapeAll(table, s[1..], quote) + tail)
  {
    if s == [] {
      assert EscapeAll(table, s, quote) + tail == tail;
    }
  }

  /** Escaped text reads back as the original text, up to what closes it, exactly when every
      character of it survives. */
  lemma {:induction false} ReadsBackIff(table: seq<Entity>, classes: Classes, s: seq<nat>, quote: nat, rest: seq<nat>)
    requires ProperTable(table) && quote < 0x80
    requires forall i :: 0 <= i < |s| ==> IsChar(s[i])
    ensures var tail := Closing(quote, rest);
      AttributeValue(table, classes, EscapeAll(table, s, quote) + tail, quote) == (Utf8All(s), tail)
      <==> forall i :: 0 <= i < |s| ==> Survives(s[i], quote)
  {
    hide Escape, Utf8, NextPiece, EscapeAll, Survives;
    var tail := Closing(quote, rest);
    EscapeAllFirst(table, s, quote, tail);
    if s != [] {
      var more := EscapeAll(table, s[1..], quote) + tail;
      PieceOfEscape(table, classes, s[0], quote, more);
      ReadsBackIff(table, classes, s[1..], quote, rest);
      var (value, end) := AttributeValue(table, classes, more, quote);
      assert (Utf8(s[0]) + value)[|Utf8(s[0])|..] == value;
      assert Utf8All(s)[|Utf8(s[0])|..] == Utf8All(s[1..]);
    }
  }

  /** In particular, text between any quotes but '&' always does. */
  lemma RoundTrip(table: seq<Entity>, classes: Classes, s: seq<nat>, quote: nat, rest: seq<nat>)
    requires ProperTable(table) && 0 < quote < 0x80 && quote != AMP
    requires forall i :: 0 <= i < |s| ==> IsChar(s[i])
    ensures AttributeValue(table, classes, EscapeAll(table, s, quote) + [quote] + rest, quote)
         == (Utf8All(s), [quote] + rest)
  {
    ReadsBackIff(table, classes, s, quote, rest);
    assert EscapeAll(table, s, quote) + [quote] + rest == EscapeAll(table, s, quote) + Closing(quote, rest);
  }

  /** The quote '&' is different: reading stops at the first reference. */
  lemma AmpersandIsNoQuote(table: seq<Entity>, classes: Classes, rest: seq<nat>)
    ensures AttributeValue(table, classes, EscapeAll(table, [AMP], AMP) + [AMP] + rest, AMP).0 == [] != Utf8All([AMP])
  {
    assert Escape(table, AMP, AMP)[0] == AMP;
    assert EscapeAll(table, [AMP], AMP)[0] == AMP;
  }

  /** Whatever part of a text fits into the output, reading it back gives exactly the bytes that
      were consumed. */
  lemma EncodedReadsBack(table: seq<Entity>, classes: Classes, s: seq<Code>, quote: nat, room: nat, rest: seq<nat>)
    requires ProperTable(table) && 0 < quote < 0x80 && quote != AMP
    requires forall i :: 0 <= i < |s| ==> IsChar(s[i])
    ensures var r := EncodeInto(table, Utf8All(s), quote, room);
      AttributeValue(table, classes, r.out + [quote] + rest, quote) == (Utf8All(s)[..r.consumed], [quote] + rest)
  {
    hide EncodeInto, AttributeValue, EscapeAll;
    var k := WholeCharacters(table, s, quote, room);
    RoundTrip(table, classes, s[..k], quote, rest);
    Utf8Append(s[..k], s[k..]);
    assert s == s[..k] + s[k..];
  }

  lemma {:induction false} Utf8Append(s: seq<nat>, t: seq<nat>)
    ensures Utf8All(s + t) == Utf8All(s) + Utf8All(t)
  {
    hide Utf8;
    if s == [] {
      assert s + t == t;
    } else {
      assert (s + t)[1..] == s[1..] + t;
      Utf8Append(s[1..], t);
    }
  }
}
