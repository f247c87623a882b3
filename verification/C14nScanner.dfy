/** A scanner for canonical XML: it takes no character that has to be written as a reference, and
    no reference for one that does not. What it makes of the characters written. */
module C14nScanner {
  import opened XmlStrings
  import opened Options
  import opened C14nNamespaces
  import opened C14nAttributes
  import opened C14nTree
  import opened C14nText

  // ---------------------------------------------------------------- the scanner

  /** Characters that stand for themselves (section 2.3 of Canonical XML 1.0). */
  predicate Bare(c: char, mode: Mode) {
    match mode
    case InAttr => c !in {'&', '<', '"', '\t', '\n', '\r'}
    case InText => c !in {'&', '<', '>', '\r'}
  }

  /** What the references of canonical XML stand for. */
  function RefValue(name: string, mode: Mode): (c: Option<char>)
    ensures c.Some? ==> !Bare(c.value, mode)
  {
    if name == "amp" then Some('&')
    else if name == "lt" then Some('<')
    else if name == "#xD" then Some('\r')
    else if mode == InText && name == "gt" then Some('>')
    else if mode == InAttr && name == "quot" then Some('"')
    else if mode == InAttr && name == "#x9" then Some('\t')
    else if mode == InAttr && name == "#xA" then Some('\n')
    else None
  }

  /** The position of a character. */
  function Position(s: string, c: char): (k: nat)
    ensures k <= |s| && (k < |s| ==> s[k] == c) && forall i :: 0 <= i < k ==> s[i] != c
  {
    if s == [] || s[0] == c then 0 else 1 + Position(s[1..], c)
  }

  /** One character, written bare or as a reference. */
  function ReadChar(s: string, mode: Mode): (r: Option<(char, string)>)
    ensures r.Some? ==> |r.value.1| < |s|
  {
    if s == [] then None
    else if s[0] != '&' then if Bare(s[0], mode) then Some((s[0], s[1..])) else None
    else
      var k := Position(s, ';');
      if k == |s| then None
      else
        match RefValue(s[1..k], mode)
        case None => None
        case Some(c) => Some((c, s[k + 1..]))
  }

  /** The rest of an attribute value, up to its quote, and what follows. */
  function ReadValue(s: string): (r: Option<(string, string)>)
    ensures r.Some? ==> |r.value.1| < |s|
    decreases |s|
  {
    if s == [] then None
    else if s[0] == '"' then Some(("", s[1..]))
    else
      match ReadChar(s, InAttr)
      case None => None
      case Some((c, rest)) =>
        match ReadValue(rest)
        case None => None
        case Some((more, end)) => Some(([c] + more, end))
  }

  predicate NameChar(c: char) {
    c !in {' ', '\t', '\n', '\r', '=', '"', '\'', '<', '>', '/', ':', '&', ';'}
  }

  function NameLength(s: string): (n: nat)
    ensures n <= |s| && (n < |s| ==> !NameChar(s[n])) && forall i :: 0 <= i < n ==> NameChar(s[i])
  {
    if s == [] || !NameChar(s[0]) then 0 else 1 + NameLength(s[1..])
  }

  /** A name with or without a prefix, and what follows. */
  function ReadName(s: string): (r: Option<(string, string, string)>)
    ensures r.Some? ==> |r.value.2| < |s|
  {
    var n := NameLength(s);
    if n == 0 then None
    else if n < |s| && s[n] == ':' then
      var m := NameLength(s[n + 1..]);
      if m == 0 then None else Some((s[..n], s[n + 1..][..m], s[n + 1..][m..]))
    else Some(("", s[..n], s[n..]))
  }

  /** A declaration or an attribute; a declaration is told by its name. */
  function ReadAttribute(s: string): (r: Option<(Token, string)>)
    ensures r.Some? ==> |r.value.1| < |s|
  {
    match ReadName(s)
    case None => None
    case Some((prefix, name, rest)) =>
      if !HasPrefix(rest, "=\"") then None
      else
        match ReadValue(rest[2..])
        case None => None
        case Some((value, end)) =>
          if prefix == "" && name == "xmlns" then Some((Xmlns(Ns("", value)), end))
          else if prefix == "xmlns" then Some((Xmlns(Ns(name, value)), end))
          else Some((Attribute(prefix, name, value), end))
  }

  /** Text in front of other tokens: none if it is empty, and part of the text that follows. */
  function WithText(content: string, ts: seq<Token>): seq<Token> {
    if content == "" then ts
    else if ts != [] && ts[0].Characters? then [Characters(content + ts[0].content)] + ts[1..]
    else [Characters(content)] + ts
  }

  predicate NoEmptyFirst(ts: seq<Token>) {
    ts != [] && ts[0].Characters? ==> ts[0].content != ""
  }

  /** All tokens, from within a start tag or outside. */
  function Scan(s: string, inTag: bool): (r: Option<seq<Token>>)
    ensures r.Some? ==> NoEmptyFirst(r.value)
    decreases |s|
  {
    if s == [] then if inTag then None else Some([])
    else if inTag then
      if s[0] == '>' then Before(StartTagEnd, Scan(s[1..], false))
      else if s[0] == ' ' then
        match ReadAttribute(s[1..])
        case None => None
        case Some((t, rest)) => Before(t, Scan(rest, true))
      else None
    else if HasPrefix(s, "</") then
      match ReadName(s[2..])
      case None => None
      case Some((prefix, name, rest)) =>
        if rest == [] || rest[0] != '>' then None else Before(EndTag(prefix, name), Scan(rest[1..], false))
    else if s[0] == '<' then
      match ReadName(s[1..])
      case None => None
      case Some((prefix, name, rest)) => Before(StartTag(prefix, name), Scan(rest, true))
    else
      match ReadChar(s, InText)
      case None => None
      case Some((c, rest)) =>
        match Scan(rest, false)
        case None => None
        case Some(ts) => Some(WithText([c], ts))
  }

  function Before(t: Token, r: Option<seq<Token>>): Option<seq<Token>> {
    match r
    case None => None
    case Some(ts) => Some([t] + ts)
  }

  // ---------------------------------------------------------------- characters and values

  lemma {:induction false} PositionOf(a: string, c: char, r: string)
    requires c !in a
    ensures Position(a + [c] + r, c) == |a|
  {
    var s := a + [c] + r;
    assert s[|a|] == c && forall i :: 0 <= i < |a| ==> s[i] == a[i];
  }

  lemma RefRead(name: string, c: char, r: string, mode: Mode)
    requires ';' !in name && RefValue(name, mode) == Some(c)
    ensures ReadChar(("&" + name + ";") + r, mode) == Some((c, r))
  {
    hide RefValue;
    var s := ("&" + name + ";") + r;
    PositionOf("&" + name, ';', r);
    assert s == ("&" + name) + [';'] + r;
    assert s[1..|name| + 1] == name && s[|name| + 2..] == r;
  }

  /** Which name a character that may not stand for itself has. */
  lemma RefName(c: char, mode: Mode) returns (name: string)
    requires !Bare(c, mode)
    ensures ';' !in name && RefValue(name, mode) == Some(c) && Normal(c, mode) == "&" + name + ";"
  {
    assert "#xD"[0] != "amp"[0] && "#x9"[2] != "#xD"[2] && "#xA"[2] != "#xD"[2] && "#xA"[2] != "#x9"[2];
    name := match c
      case '<' => "lt" case '>' => "gt" case '&' => "amp" case '"' => "quot"
      case '\t' => "#x9" case '\n' => "#xA" case _ => "#xD";
  }

  /** A character reads back. */
  lemma CharReadBack(c: char, r: string, mode: Mode)
    ensures ReadChar(Normal(c, mode) + r, mode) == Some((c, r))
  {
    if Bare(c, mode) {
      assert (Normal(c, mode) + r)[1..] == r;
    } else {
      hide Normal, RefValue, ReadChar;
      var name := RefName(c, mode);
      RefRead(name, c, r, mode);
    }
  }

  lemma NormalStart(c: char, mode: Mode)
    ensures Normal(c, mode) != "" && Normal(c, mode)[0] != '<'
    ensures mode == InAttr ==> Normal(c, mode)[0] != '"'
  {
  }

  lemma {:induction false} ValueReadBack(v: string, r: string)
    ensures ReadValue(Normalized(v, InAttr) + "\"" + r) == Some((v, r))
  {
    hide ReadChar, Normal;
    var s := Normalized(v, InAttr) + "\"" + r;
    if v == "" {
      assert s[0] == '"' && s[1..] == r;
    } else {
      var rest := Normalized(v[1..], InAttr) + "\"" + r;
      assert s == Normal(v[0], InAttr) + rest;
      NormalStart(v[0], InAttr);
      CharReadBack(v[0], rest, InAttr);
      ValueReadBack(v[1..], r);
      assert v == [v[0]] + v[1..];
    }
  }

  // ---------------------------------------------------------------- values written as they are

  /** A string in which no character has to be written as a reference. */
  predicate Plain(s: string) {
    forall i :: 0 <= i < |s| ==> Bare(s[i], InAttr)
  }

  lemma RefNameOk(name: string, mode: Mode)
    requires RefValue(name, mode).Some?
    ensures '"' !in name && name != ""
  {
  }

  lemma CharShort(s: string, mode: Mode)
    requires ReadChar(s, mode).Some?
    ensures var (c, rest) := ReadChar(s, mode).value;
      |rest| < |s| && (1 + |rest| == |s| ==> s == [c] + rest && Bare(c, mode))
  {
    hide RefValue;
    if s[0] == '&' {
      RefNameOk(s[1..Position(s, ';')], mode);
    }
  }

  lemma {:induction false} ValueShort(s: string)
    requires ReadValue(s).Some?
    ensures var (v, rest) := ReadValue(s).value;
      |v| + 1 + |rest| <= |s| && (|v| + 1 + |rest| == |s| ==> s == v + "\"" + rest && Plain(v))
    decreases |s|
  {
    hide ReadChar, Bare;
    if s[0] != '"' {
      CharShort(s, InAttr);
      ValueShort(ReadChar(s, InAttr).value.1);
    }
  }

  /** What is left after a character, when the text has a quote further on. */
  lemma CharBeforeQuote(a: string, r: string) returns (k: nat)
    requires a != "" && a[0] != '"' && ReadChar(a + "\"" + r, InAttr).Some?
    ensures 0 < k <= |a| && ReadChar(a + "\"" + r, InAttr).value.1 == a[k..] + "\"" + r
  {
    hide RefValue;
    var s := a + "\"" + r;
    k := 1;
    if s[0] == '&' {
      var p := Position(s, ';');
      RefNameOk(s[1..p], InAttr);
      assert s[|a|] == '"';
      assert forall i :: 1 <= i < p ==> s[i] == s[1..p][i - 1];
      k := p + 1;
    }
  }

  lemma {:induction false} ValueEnds(a: string, r: string)
    requires ReadValue(a + "\"" + r).Some?
    ensures |ReadValue(a + "\"" + r).value.1| >= |r|
    decreases |a|
  {
    hide ReadChar;
    if a != "" && a[0] != '"' {
      var k := CharBeforeQuote(a, r);
      ValueEnds(a[k..], r);
    }
  }

  /** A string written without references reads as itself exactly when it needs none. */
  lemma PlainReadsBackIff(v: string, r: string)
    ensures Plain(v) ==> ReadValue(v + "\"" + r) == Some((v, r))
    ensures ReadValue(v + "\"" + r).Some? && ReadValue(v + "\"" + r).value.0 == v ==> Plain(v)
  {
    var s := v + "\"" + r;
    if Plain(v) {
      PlainIsNormal(v);
      ValueReadBack(v, r);
    }
    if ReadValue(s).Some? && ReadValue(s).value.0 == v {
      hide ReadValue, Plain;
      ValueEnds(v, r);
      ValueShort(s);
    }
  }

  lemma {:induction false} PlainIsNormal(v: string)
    requires Plain(v)
    ensures Normalized(v, InAttr) == v
  {
    if v != "" {
      PlainIsNormal(v[1..]);
      assert Bare(v[0], InAttr) && v == [v[0]] + v[1..];
    }
  }

  // ---------------------------------------------------------------- names

  predicate NameOk(s: string) {
    s != "" && forall i :: 0 <= i < |s| ==> NameChar(s[i])
  }

  predicate PrefixOk(s: string) {
    s == "" || NameOk(s)
  }

  /** What may follow a name. */
  predicate EndsName(r: string) {
    r == "" || (!NameChar(r[0]) && r[0] != ':')
  }

  lemma NameLengthOf(a: string, r: string)
    requires NameOk(a) && (r == "" || !NameChar(r[0]))
    ensures NameLength(a + r) == |a|
  {
    hide NameChar;
    var s := a + r;
    assert forall i :: 0 <= i < |a| ==> s[i] == a[i];
    if r != "" {
      assert s[|a|] == r[0];
    }
  }

  lemma NameReadBack(prefix: string, name: string, r: string)
    requires PrefixOk(prefix) && NameOk(name) && EndsName(r)
    ensures ReadName(QName(prefix, name) + r) == Some((prefix, name, r))
    ensures QName(prefix, name) != "" && NameChar(QName(prefix, name)[0])
  {
    hide NameLength;
    var s := QName(prefix, name) + r;
    if prefix == "" {
      NameLengthOf(name, r);
      assert s[..|name|] == name && s[|name|..] == r;
    } else {
      var n := |prefix|;
      assert s == prefix + (":" + name + r);
      NameLengthOf(prefix, ":" + name + r);
      NameLengthOf(name, r);
      assert s[..n] == prefix && s[n + 1..] == name + r;
      assert (name + r)[..|name|] == name && (name + r)[|name|..] == r;
    }
  }

  // ---------------------------------------------------------------- tokens

  /** The token has names where names belong, and no attribute is named like a declaration. */
  predicate ProperToken(t: Token) {
    match t
    case StartTag(prefix, name) => PrefixOk(prefix) && NameOk(name)
    case EndTag(prefix, name) => PrefixOk(prefix) && NameOk(name)
    case Xmlns(ns) => PrefixOk(ns.prefix)
    case Attribute(prefix, name, _) =>
      PrefixOk(prefix) && NameOk(name) && prefix != "xmlns" && (prefix == "" ==> name != "xmlns")
    case _ => true
  }

  predicate IsInTag(t: Token) {
    t.Xmlns? || t.Attribute? || t.StartTagEnd?
  }

  /** Tokens in an order a document can have: declarations and attributes in start tags only. */
  predicate ProperTokens(ts: seq<Token>, inTag: bool) {
    if ts == [] then !inTag
    else
      && ProperToken(ts[0]) && IsInTag(ts[0]) == inTag
      && ProperTokens(ts[1..], ts[0].StartTag? || ts[0].Xmlns? || ts[0].Attribute?)
  }

  /** Namespace names need no references. */
  predicate PlainTokens(ts: seq<Token>) {
    forall i :: 0 <= i < |ts| && ts[i].Xmlns? ==> Plain(ts[i].ns.href)
  }

  /** Texts next to each other are one, and empty ones none. */
  function Joined(ts: seq<Token>): (r: seq<Token>)
    ensures NoEmptyFirst(r)
  {
    if ts == [] then []
    else if ts[0].Characters? then WithText(ts[0].content, Joined(ts[1..]))
    else [ts[0]] + Joined(ts[1..])
  }

  lemma TagContinues(ts: seq<Token>)
    requires ProperTokens(ts, true)
    ensures EndsName(TextOf(ts))
  {
    assert ts != [] && IsInTag(ts[0]);
  }

  lemma AttributeReadBack(t: Token, s: string)
    requires t.Attribute? && ProperToken(t)
    ensures ReadAttribute(TokenText(t)[1..] + s) == Some((t, s)) && TokenText(t)[0] == ' '
  {
    hide ReadName, ReadValue, Normalized, QName, NameOk, PrefixOk;
    var rest := "=\"" + (Normalized(t.value, InAttr) + "\"" + s);
    NameReadBack(t.prefix, t.name, rest);
    assert TokenText(t)[1..] + s == QName(t.prefix, t.name) + rest;
    assert rest[..2] == "=\"" && rest[2..] == Normalized(t.value, InAttr) + "\"" + s;
    ValueReadBack(t.value, s);
  }

  /** A declaration is read as one of this prefix, with what is read of its name. */
  lemma DeclarationRead(t: Token, s: string)
    requires t.Xmlns? && ProperToken(t)
    ensures TokenText(t)[0] == ' '
    ensures ReadAttribute(TokenText(t)[1..] + s)
         == match ReadValue(t.ns.href + "\"" + s)
            case None => None
            case Some((value, end)) => Some((Xmlns(Ns(t.ns.prefix, value)), end))
  {
    hide ReadName, ReadValue, NameOk;
    var rest := "=\"" + (t.ns.href + "\"" + s);
    XmlnsIsName();
    if t.ns.prefix == "" {
      NameReadBack("", "xmlns", rest);
      assert TokenText(t)[1..] + s == QName("", "xmlns") + rest;
    } else {
      NameReadBack("xmlns", t.ns.prefix, rest);
      assert TokenText(t)[1..] + s == QName("xmlns", t.ns.prefix) + rest;
    }
    assert rest[..2] == "=\"" && rest[2..] == t.ns.href + "\"" + s;
  }

  lemma XmlnsIsName()
    ensures NameOk("xmlns")
  {
  }

  lemma StartScanned(t: Token, s: string)
    requires t.StartTag? && ProperToken(t) && EndsName(s)
    ensures Scan(TokenText(t) + s, false) == Before(t, Scan(s, true))
  {
    hide ReadName, QName, NameOk, PrefixOk, ReadChar, ReadAttribute, EndsName;
    var all := TokenText(t) + s;
    NameReadBack(t.prefix, t.name, s);
    assert all[1..] == QName(t.prefix, t.name) + s && all[0] == '<' && all[1] != '/';
  }

  lemma EndScanned(t: Token, s: string)
    requires t.EndTag? && ProperToken(t)
    ensures Scan(TokenText(t) + s, false) == Before(t, Scan(s, false))
  {
    hide ReadName, QName, NameOk, PrefixOk, ReadChar, ReadAttribute;
    var all := TokenText(t) + s;
    NameReadBack(t.prefix, t.name, ">" + s);
    assert all[2..] == QName(t.prefix, t.name) + (">" + s) && all[..2] == "</";
    assert (">" + s)[1..] == s;
  }

  lemma InTagScanned(t: Token, s: string)
    requires (t.Attribute? || t.StartTagEnd?) && ProperToken(t)
    ensures Scan(TokenText(t) + s, true) == Before(t, Scan(s, t.Attribute?))
  {
    hide ReadAttribute, ReadChar, ReadName;
    var all := TokenText(t) + s;
    if t.Attribute? {
      AttributeReadBack(t, s);
      assert all[1..] == TokenText(t)[1..] + s;
    } else {
      assert all[0] == '>' && all[1..] == s;
    }
  }

  lemma TextScanned(c: char, s: string)
    ensures Scan(Normal(c, InText) + s, false)
         == match Scan(s, false) case None => None case Some(ts) => Some(WithText([c], ts))
  {
    hide ReadName, ReadChar, Normal;
    NormalStart(c, InText);
    CharReadBack(c, s, InText);
    assert (Normal(c, InText) + s)[0] != '<';
  }

  lemma WithTextTwice(a: string, b: string, ts: seq<Token>)
    ensures WithText(a, WithText(b, ts)) == WithText(a + b, ts)
  {
    if a == "" {
      assert a + b == b;
    } else if b == "" {
      assert a + b == a;
    } else if ts != [] && ts[0].Characters? {
      assert a + (b + ts[0].content) == a + b + ts[0].content;
    }
  }

  lemma {:induction false} TextsScanned(content: string, s: string)
    ensures Scan(Normalized(content, InText) + s, false)
         == match Scan(s, false) case None => None case Some(ts) => Some(WithText(content, ts))
  {
    hide Scan, Normal;
    if content == "" {
      assert Normalized(content, InText) + s == s;
    } else {
      var rest := Normalized(content[1..], InText) + s;
      assert Normalized(content, InText) + s == Normal(content[0], InText) + rest;
      TextScanned(content[0], rest);
      TextsScanned(content[1..], s);
      if Scan(s, false).Some? {
        hide WithText;
        WithTextTwice([content[0]], content[1..], Scan(s, false).value);
        assert [content[0]] + content[1..] == content;
      }
    }
  }

  lemma WithTextInjective(c: string, a: seq<Token>, b: seq<Token>)
    requires WithText(c, a) == WithText(c, b) && NoEmptyFirst(a) && NoEmptyFirst(b)
    ensures a == b
  {
    if c != "" {
      var w := WithText(c, a);
      assert w[0].content[..|c|] == c;
      if a != [] && a[0].Characters? {
        assert w[0].content[|c|..] == a[0].content && w[1..] == a[1..];
      } else {
        assert w[0].content[|c|..] == "" && w[1..] == a;
      }
      if b != [] && b[0].Characters? {
        assert w[0].content[|c|..] == b[0].content && w[1..] == b[1..];
      } else {
        assert w[0].content[|c|..] == "" && w[1..] == b;
      }
    }
  }

  lemma CharactersBackIff(content: string, more: seq<Token>)
    ensures Scan(TextOf([Characters(content)] + more), false) == Some(WithText(content, Joined(more)))
       <==> Scan(TextOf(more), false) == Some(Joined(more))
  {
    hide Scan, WithText, Normalized;
    var s := TextOf(more);
    assert ([Characters(content)] + more)[1..] == more;
    TextsScanned(content, s);
    if Scan(s, false).Some? && WithText(content, Scan(s, false).value) == WithText(content, Joined(more)) {
      WithTextInjective(content, Scan(s, false).value, Joined(more));
    }
  }

  lemma DeclarationBackIff(t: Token, s: string, ts: seq<Token>)
    requires t.Xmlns? && ProperToken(t)
    ensures Scan(TokenText(t) + s, true) == Some([t] + ts) <==> Plain(t.ns.href) && Scan(s, true) == Some(ts)
  {
    hide ReadAttribute, ReadValue, ReadChar, ReadName, Plain, PrefixOk;
    var all := TokenText(t) + s;
    DeclarationRead(t, s);
    PlainReadsBackIff(t.ns.href, s);
    ScanInTag(all);
    assert all[1..] == TokenText(t)[1..] + s;
    assert ([t] + ts)[0] == t && ([t] + ts)[1..] == ts;
  }

  lemma ScanInTag(s: string)
    requires s != "" && s[0] == ' '
    ensures Scan(s, true)
         == match ReadAttribute(s[1..])
            case None => None
            case Some((t, rest)) => Before(t, Scan(rest, true))
  {
    hide ReadAttribute, ReadChar, ReadName;
  }

  lemma BeforeSome(t: Token, r: Option<seq<Token>>, ts: seq<Token>)
    ensures Before(t, r) == Some([t] + ts) <==> r == Some(ts)
  {
    if r.Some? && [t] + r.value == [t] + ts {
      assert ([t] + ts)[1..] == ts && ([t] + r.value)[1..] == r.value;
    }
  }

  /** The tokens written, texts joined, are read back exactly when no namespace name among them needs a
      reference. */
  lemma {:induction false} ScansBackIff(ts: seq<Token>, inTag: bool)
    requires ProperTokens(ts, inTag)
    ensures Scan(TextOf(ts), inTag) == Some(Joined(ts)) <==> PlainTokens(ts)
  {
    hide Scan, TokenText, Plain, WithText, Before, PlainTokens, ProperToken;
    if ts == [] {
      NothingScanned(ts);
    } else {
      var t, more := ts[0], ts[1..];
      var next := t.StartTag? || t.Xmlns? || t.Attribute?;
      assert ts == [t] + more;
      ScansBackIff(more, next);
      PlainFirst(ts);
      BeforeSome(t, Scan(TextOf(more), next), Joined(more));
      match t
      case StartTag(_, _) =>
        TagContinues(more);
        StartScanned(t, TextOf(more));
      case EndTag(_, _) => EndScanned(t, TextOf(more));
      case Characters(content) => CharactersBackIff(content, more);
      case Xmlns(_) => DeclarationBackIff(t, TextOf(more), Joined(more));
      case _ => InTagScanned(t, TextOf(more));
    }
  }

  lemma NothingScanned(ts: seq<Token>)
    requires ts == []
    ensures Scan(TextOf(ts), false) == Some(Joined(ts)) && PlainTokens(ts)
  {
  }

  lemma PlainFirst(ts: seq<Token>)
    requires ts != []
    ensures PlainTokens(ts) <==> (ts[0].Xmlns? ==> Plain(ts[0].ns.href)) && PlainTokens(ts[1..])
  {
    hide Plain;
    if (ts[0].Xmlns? ==> Plain(ts[0].ns.href)) && PlainTokens(ts[1..]) {
      forall i | 0 <= i < |ts| && ts[i].Xmlns? ensures Plain(ts[i].ns.href) {
        if i > 0 {
          assert ts[1..][i - 1] == ts[i];
        }
      }
    }
    if PlainTokens(ts) {
      forall i | 0 <= i < |ts[1..]| && ts[1..][i].Xmlns? ensures Plain(ts[1..][i].ns.href) {
        assert ts[i + 1].Xmlns?;
      }
    }
  }
}
