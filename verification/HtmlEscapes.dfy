/** A reader for escaped text that takes nothing but what has to be written: what may stand for itself
    stands for itself, what has a name is named, and everything else is a decimal number. */
module HtmlEscapes {
  import opened Bytes
  import opened Options
  import opened HtmlEntities

  // ---------------------------------------------------------------- the reader

  /** The characters that may not stand for themselves. */
  predicate MustEscape(c: nat, quote: nat) {
    c >= 0x80 || c == '<' as int || c == '>' as int || c == '&' as int || c == quote
  }

  function Position(s: Data, b: Byte): (k: nat)
    ensures k <= |s| && (k < |s| ==> s[k] == b) && forall i :: 0 <= i < k ==> s[i] != b
  {
    if s == [] || s[0] == b then 0 else 1 + Position(s[1..], b)
  }

  function ValueOf(digits: Data): nat
    requires forall i :: 0 <= i < |digits| ==> IsDigit(digits[i])
  {
    if digits == [] then 0
    else
      var d := digits[|digits| - 1];
      assert IsDigit(d);
      ValueOf(digits[..|digits| - 1]) * 10 + (d - '0' as int)
  }

  /** A decimal number without superfluous zeros. */
  predicate IsNumber(s: Data) {
    s != [] && (forall i :: 0 <= i < |s| ==> IsDigit(s[i])) && (s[0] == '0' as int ==> |s| == 1)
  }

  predicate HasName(table: seq<Entity>, c: nat) {
    exists i :: 0 <= i < |table| && table[i].value == c
  }

  /** What stands between '&' and ';'. */
  function ReadReference(table: seq<Entity>, body: Data): Option<nat> {
    if body != [] && body[0] == '#' as int then
      if IsNumber(body[1..]) && !HasName(table, ValueOf(body[1..])) then Some(ValueOf(body[1..])) else None
    else
      var k := NameLookup(table, body);
      if k < |table| then Some(table[k].value) else None
  }

  function ReadOne(table: seq<Entity>, s: Data, quote: nat): (r: Option<(nat, Data)>)
    requires s != []
    ensures r.Some? ==> |r.value.1| < |s|
  {
    if s[0] != '&' as int then if MustEscape(s[0], quote) then None else Some((s[0], s[1..]))
    else
      var k := Position(s, ';' as int);
      if k == |s| then None
      else
        match ReadReference(table, s[1..k])
        case None => None
        case Some(c) => if MustEscape(c, quote) then Some((c, s[k + 1..])) else None
  }

  function ReadText(table: seq<Entity>, s: Data, quote: nat): Option<seq<nat>>
    decreases |s|
  {
    if s == [] then Some([])
    else
      match ReadOne(table, s, quote)
      case None => None
      case Some((c, rest)) =>
        match ReadText(table, rest, quote)
        case None => None
        case Some(more) => Some([c] + more)
  }

  // ---------------------------------------------------------------- escapes are read

  lemma {:induction false} DecimalIsNumber(n: nat)
    ensures IsNumber(Decimal(n)) && ValueOf(Decimal(n)) == n && (n > 0 ==> Decimal(n)[0] != '0' as int)
    decreases n
  {
    if n >= 10 {
      DecimalIsNumber(n / 10);
      var d := Decimal(n);
      assert d[..|d| - 1] == Decimal(n / 10);
    } else {
      assert Decimal(n)[..0] == [];
    }
  }

  lemma PositionOf(a: Data, b: Byte, r: Data)
    requires b !in a
    ensures Position(a + [b] + r, b) == |a|
  {
    var s := a + [b] + r;
    assert s[|a|] == b && forall i :: 0 <= i < |a| ==> s[i] == a[i];
  }

  lemma ReferenceRead(table: seq<Entity>, body: Data, c: nat, quote: nat, r: Data)
    requires ';' as int !in body && ReadReference(table, body) == Some(c) && MustEscape(c, quote)
    ensures ReadOne(table, ([AMP] + body + [SEMICOLON]) + r, quote) == Some((c, r))
  {
    hide ReadReference;
    var s := ([AMP] + body + [SEMICOLON]) + r;
    assert s == ([AMP] + body) + [SEMICOLON] + r;
    PositionOf([AMP] + body, SEMICOLON, r);
    assert s[1..|body| + 1] == body && s[|body| + 2..] == r;
  }

  lemma EscapeRead(table: seq<Entity>, c: nat, quote: nat, r: Data)
    requires ProperTable(table) && SortedTable(table)
    ensures ReadOne(table, Escape(table, c, quote) + r, quote) == Some((c, r))
  {
    if MustEscape(c, quote) {
      hide ReadOne;
      var ent := ValueLookup(table, c);
      ValueLookupFinds(table, c);
      if ent.None? {
        DecimalIsNumber(c);
        assert ([HASH] + Decimal(c))[1..] == Decimal(c);
        ReferenceRead(table, [HASH] + Decimal(c), c, quote, r);
      } else {
        var k := ValueLookupIsEntry(table, c);
        NameFinds(table, k);
        ReferenceRead(table, ent.value, c, quote, r);
      }
    } else {
      assert (Escape(table, c, quote) + r)[1..] == r;
    }
  }

  lemma NameFinds(table: seq<Entity>, k: nat)
    requires ProperTable(table) && k < |table|
    ensures NameLookup(table, table[k].name) == k && table[k].name[0] != HASH && SEMICOLON !in table[k].name
  {
  }

  /** Escaped text is read back. */
  lemma {:induction false} EscapesAreRead(table: seq<Entity>, s: seq<nat>, quote: nat)
    requires ProperTable(table) && SortedTable(table)
    ensures ReadText(table, EscapeAll(table, s, quote), quote) == Some(s)
  {
    hide Escape, ReadOne, ProperTable, SortedTable;
    if s != [] {
      EscapeRead(table, s[0], quote, EscapeAll(table, s[1..], quote));
      EscapesAreRead(table, s[1..], quote);
      assert s == [s[0]] + s[1..];
    }
  }

  // ---------------------------------------------------------------- what is encoded

  /** The characters at the front of a byte string, up to what is malformed or cut off. */
  function Characters(s: Data): seq<nat>
    decreases |s|
  {
    if s == [] || !ScanChar(s).Char? then [] else [ScanChar(s).c] + Characters(s[ScanChar(s).len..])
  }

  /** Whatever the bytes and the room, the output is the escapes of some of the first characters. */
  lemma {:induction false} OutputIsEscapes(table: seq<Entity>, s: Data, quote: nat, room: nat) returns (k: nat)
    ensures k <= |Characters(s)| && EncodeInto(table, s, quote, room).out == EscapeAll(table, Characters(s)[..k], quote)
    decreases |s|
  {
    hide ScanChar, Escape;
    k := 0;
    if s != [] && ScanChar(s).Char? && |Escape(table, ScanChar(s).c, quote)| <= room {
      var len := ScanChar(s).len;
      k := OutputIsEscapes(table, s[len..], quote, room - |Escape(table, ScanChar(s).c, quote)|);
      k := k + 1;
      var cs := Characters(s)[..k];
      assert cs[1..] == Characters(s[len..])[..k - 1];
    }
  }

  lemma EscapeAllOne(table: seq<Entity>, c: nat, quote: nat)
    ensures EscapeAll(table, [c], quote) == Escape(table, c, quote)
  {
    hide Escape;
    assert [c][1..] == [];
  }

  /** Where encoding stops, and with which code: at the end, at a malformed or cut-off character, or at one
      for which there is no room. */
  lemma {:induction false} StopsWhere(table: seq<Entity>, s: Data, quote: nat, room: nat)
    ensures var r := EncodeInto(table, s, quote, room);
      var rest := s[r.consumed..];
      && r.ret == (if rest != [] && ScanChar(rest) == Malformed then -2 else 0)
      && (rest != [] && ScanChar(rest).Char? ==> |r.out| + |EscapeAll(table, [ScanChar(rest).c], quote)| > room)
    decreases |s|
  {
    hide ScanChar, Escape, EscapeAll, EncodeInto;
    EncodeStops(table, s, quote, room);
    assert s[0..] == s;
    if s != [] && ScanChar(s).Char? {
      var c, len := ScanChar(s).c, ScanChar(s).len;
      EscapeAllOne(table, c, quote);
      if |Escape(table, c, quote)| <= room {
        EncodeStep(table, s, quote, room);
        StopsWhere(table, s[len..], quote, room - |Escape(table, c, quote)|);
        var more := EncodeInto(table, s[len..], quote, room - |Escape(table, c, quote)|);
        assert s[len..][more.consumed..] == s[len + more.consumed..];
      }
    }
  }

  /** A character is malformed when it begins with a byte that cannot begin one, or when all of its bytes
      are there and one of them does not continue it; it is cut off when not all of them are there. */
  lemma ScanFails(s: Data)
    requires s != []
    ensures var n := if s[0] < 0x80 then 1 else if s[0] < 0xE0 then 2 else if s[0] < 0xF0 then 3 else 4;
      && (ScanChar(s) == Malformed <==>
            || 0x80 <= s[0] < 0xC0 || s[0] >= 0xF8
            || (n <= |s| && exists i :: 1 <= i < n && !(0x80 <= s[i] < 0xC0)))
      && (ScanChar(s) == Short <==> (s[0] < 0x80 || 0xC0 <= s[0] < 0xF8) && |s| < n)
      && (ScanChar(s).Char? ==> ScanChar(s).len == n)
  {
    var l := LeadLength(s[0]);
    if l < |s| {
      TrailingFails(s[1..1 + l], LeadBits(s[0]));
      assert forall i :: 1 <= i < 1 + l ==> s[1..1 + l][i - 1] == s[i];
    }
  }

  lemma {:induction false} TrailingFails(s: Data, c: nat)
    ensures ScanTrailing(s, c).None? <==> exists i :: 0 <= i < |s| && !(0x80 <= s[i] < 0xC0)
  {
    if s != [] && IsTrailing(s[0]) {
      TrailingFails(s[1..], c * 64 + s[0] % 64);
      assert forall i :: 1 <= i < |s| ==> s[1..][i - 1] == s[i];
    }
  }

  // ---------------------------------------------------------------- text that cannot be taken for markup

  predicate IsReference(s: Data, i: nat, j: nat) {
    i + 1 < j < |s| && s[i] == '&' as int && s[j] == ';' as int
      && forall m :: i < m < j ==> IsLetter(s[m]) || IsDigit(s[m]) || s[m] == '#' as int
  }

  /** ASCII without angle brackets and without the quote, in which every '&' begins a reference. */
  ghost predicate Safe(s: Data, quote: nat) {
    && (forall i :: 0 <= i < |s| ==> s[i] < 0x80 && s[i] != '<' as int && s[i] != '>' as int)
    && (quote == '"' as int || quote == '\'' as int ==> quote !in s)
    && forall i :: 0 <= i < |s| && s[i] == '&' as int ==> exists j :: IsReference(s, i, j)
  }

  lemma SafeMore(a: Data, b: Data, quote: nat)
    requires Safe(a, quote) && Safe(b, quote)
    ensures Safe(a + b, quote)
  {
    var s := a + b;
    forall i | 0 <= i < |s| && s[i] == '&' as int ensures exists j :: IsReference(s, i, j) {
      if i < |a| {
        var j :| IsReference(a, i, j);
        assert IsReference(s, i, j);
      } else {
        var j :| IsReference(b, i - |a|, j);
        assert forall m :: |a| <= m < |s| ==> s[m] == b[m - |a|];
        assert IsReference(s, i, |a| + j);
      }
    }
  }

  lemma ReferenceIs(table: seq<Entity>, body: Data)
    requires ProperTable(table) && ReadReference(table, body).Some?
    ensures body != [] && forall m :: 0 <= m < |body| ==> IsLetter(body[m]) || IsDigit(body[m]) || body[m] == '#' as int
  {
    if body != [] && body[0] == '#' as int {
      assert forall m :: 1 <= m < |body| ==> body[m] == body[1..][m - 1];
    }
  }

  lemma ReadOneSafe(table: seq<Entity>, s: Data, quote: nat)
    requires ProperTable(table) && s != [] && ReadOne(table, s, quote).Some?
    ensures var rest := ReadOne(table, s, quote).value.1; var n := |s| - |rest|;
      s == s[..n] + rest && Safe(s[..n], quote)
  {
    hide ReadReference, ProperTable;
    var k := Position(s, ';' as int);
    if s[0] == '&' as int {
      var a, body := s[..k + 1], s[1..k];
      ReferenceIs(table, body);
      assert forall m :: 1 <= m < k ==> a[m] == body[m - 1];
      assert a[0] == s[0] && a[k] == s[k];
      assert IsReference(a, 0, k);
    }
  }

  /** Text that this reader takes is safe. */
  lemma {:induction false} ReadIsSafe(table: seq<Entity>, s: Data, quote: nat)
    requires ProperTable(table) && ReadText(table, s, quote).Some?
    ensures Safe(s, quote)
    decreases |s|
  {
    hide ReadOne, ProperTable, Safe;
    if s == [] {
      NothingSafe(quote);
    } else {
      var rest := ReadOne(table, s, quote).value.1;
      ReadOneSafe(table, s, quote);
      ReadIsSafe(table, rest, quote);
      SafeMore(s[..|s| - |rest|], rest, quote);
    }
  }

  lemma NothingSafe(quote: nat)
    ensures Safe([], quote)
  {
  }

  /** A character that has a name is written by it, and one that has none by its number. */
  lemma NamedByName(table: seq<Entity>, c: nat, quote: nat, k: nat)
    requires ProperTable(table) && SortedTable(table) && MustEscape(c, quote) && k < |table| && table[k].value == c
    ensures EscapeAll(table, [c], quote) == ['&' as int] + table[k].name + [';' as int]
  {
    hide EscapeAll, ValueLookup, ProperTable;
    EscapeAllOne(table, c, quote);
    ValueLookupFinds(table, c);
    var j := ValueLookupIsEntry(table, c);
  }

  lemma UnnamedByNumber(table: seq<Entity>, c: nat, quote: nat)
    requires SortedTable(table) && MustEscape(c, quote) && !HasName(table, c)
    ensures EscapeAll(table, [c], quote) == ['&' as int] + (['#' as int] + Decimal(c)) + [';' as int]
  {
    hide EscapeAll, ValueLookup, Decimal;
    EscapeAllOne(table, c, quote);
    ValueLookupFinds(table, c);
  }

  /** What is written is read by this reader, as the first characters of the input, and is safe. */
  lemma OutputIsRead(table: seq<Entity>, s: Data, quote: nat, room: nat)
    requires ProperTable(table) && SortedTable(table)
    ensures var out := EncodeInto(table, s, quote, room).out;
      Safe(out, quote) && ReadText(table, out, quote).Some? && ReadText(table, out, quote).value <= Characters(s)
  {
    hide Characters, EncodeInto, ReadText, Safe;
    var k := OutputIsEscapes(table, s, quote, room);
    EscapesAreRead(table, Characters(s)[..k], quote);
    ReadIsSafe(table, EncodeInto(table, s, quote, room).out, quote);
  }
}
