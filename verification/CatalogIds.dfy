/** Identifiers in catalogs: normalization of public identifiers and unwrapping of the URNs that
    carry one, and why unwrapping comes to an end. */
module CatalogIds {
  import opened Options
  import opened XmlStrings

  const XML_URN_PUBID := "urn:publicid:"
  const RESULT_SIZE := 2000

  predicate IsBlank(c: char) {
    c == ' ' || c == '\t' || c == '\n' || c == '\r'
  }

  predicate IsUrn(s: string) {
    HasPrefix(s, XML_URN_PUBID)
  }

  // ---------------------------------------------------------------- normalization

  /** Blanks at the ends go, runs of blanks become one space. `started`: something has been kept;
      `white`: a space is due before the next character. */
  function NormalFrom(s: string, started: bool, white: bool): string {
    if s == [] then []
    else if IsBlank(s[0]) then NormalFrom(s[1..], started, white || started)
    else (if white then [' '] else []) + [s[0]] + NormalFrom(s[1..], true, false)
  }

  function Normal(s: string): string {
    NormalFrom(s, false, false)
  }

  /** No blank at either end, and inside only single spaces. */
  predicate IsNormal(s: string) {
    && s != [] && !IsBlank(s[0]) && !IsBlank(s[|s| - 1])
    && forall i :: 0 < i < |s| && IsBlank(s[i]) ==> s[i] == ' ' && !IsBlank(s[i - 1])
  }

  lemma {:induction false} NormalKeeps(s: string, white: bool)
    requires s != [] && !IsBlank(s[|s| - 1])
    requires IsBlank(s[0]) ==> s[0] == ' ' && !white
    requires forall i :: 0 < i < |s| && IsBlank(s[i]) ==> s[i] == ' ' && !IsBlank(s[i - 1])
    ensures NormalFrom(s, true, white) == (if white then [' '] else []) + s
    decreases |s|
  {
    if |s| > 1 {
      NormalKeeps(s[1..], IsBlank(s[0]));
      assert s == [s[0]] + s[1..];
    } else {
      assert s == [s[0]];
    }
  }

  lemma {:induction false} NormalFromIsNormal(s: string, started: bool, white: bool)
    ensures var t := NormalFrom(s, started, white);
      t != [] ==>
        && !IsBlank(t[|t| - 1])
        && (IsBlank(t[0]) <==> white || (started && IsBlank(s[0])))
        && (IsBlank(t[0]) ==> t[0] == ' ' && |t| > 1 && !IsBlank(t[1]))
        && forall i :: 0 < i < |t| && IsBlank(t[i]) ==> t[i] == ' ' && !IsBlank(t[i - 1])
    decreases |s|
  {
    if s != [] {
      if IsBlank(s[0]) {
        NormalFromIsNormal(s[1..], started, white || started);
      } else {
        NormalFromIsNormal(s[1..], true, false);
        var rest := NormalFrom(s[1..], true, false);
        var lead := if white then [' '] else [];
        assert NormalFrom(s, started, white) == lead + ([s[0]] + rest);
      }
    }
  }

  /** Exactly the normal strings are left as they are. */
  lemma NormalIff(s: string)
    ensures IsNormal(s) <==> s != [] && Normal(s) == s
  {
    if IsNormal(s) {
      if |s| > 1 {
        NormalKeeps(s[1..], false);
        assert s == [s[0]] + s[1..];
      } else {
        assert s == [s[0]];
      }
    }
    NormalFromIsNormal(s, false, false);
  }

  lemma NormalTwice(s: string)
    ensures Normal(Normal(s)) == Normal(s)
  {
    NormalFromIsNormal(s, false, false);
    var t := Normal(s);
    if t != [] {
      FirstKept(s);
      assert IsNormal(t);
      NormalIff(t);
    }
  }

  lemma {:induction false} FirstKept(s: string)
    ensures Normal(s) != [] ==> !IsBlank(Normal(s)[0])
  {
    if s != [] && IsBlank(s[0]) {
      FirstKept(s[1..]);
    }
  }

  /** The words of a text, behind the beginning of one. */
  function WordsFrom(word: string, s: string): seq<string>
    decreases |s|
  {
    var done := if word == "" then [] else [word];
    if s == [] then done
    else if IsBlank(s[0]) then done + WordsFrom("", s[1..])
    else WordsFrom(word + [s[0]], s[1..])
  }

  function Words(s: string): seq<string> {
    WordsFrom("", s)
  }

  lemma WordsAfterSpace(word: string, t: string)
    ensures WordsFrom(word, [' '] + t) == (if word == "" then [] else [word]) + WordsFrom("", t)
  {
    assert ([' '] + t)[1..] == t;
  }

  lemma {:induction false} NormalFromWords(s: string, white: bool, word: string)
    requires white ==> word != ""
    ensures WordsFrom(word, NormalFrom(s, word != "", white)) == if white then [word] + WordsFrom("", s) else WordsFrom(word, s)
    decreases |s|
  {
    var t := NormalFrom(s, word != "", white);
    if s != [] {
      if IsBlank(s[0]) {
        NormalFromWords(s[1..], white || word != "", word);
      } else {
        var rest := NormalFrom(s[1..], true, false);
        assert ([s[0]] + rest)[1..] == rest;
        if white {
          assert t == [' '] + ([s[0]] + rest);
          WordsAfterSpace(word, [s[0]] + rest);
          NormalFromWords(s[1..], false, "" + [s[0]]);
        } else {
          assert t == [s[0]] + rest;
          NormalFromWords(s[1..], false, word + [s[0]]);
        }
      }
    }
  }

  /** Normalizing keeps the words and their order; a normal text has nothing else but single spaces. */
  lemma NormalKeepsWords(s: string)
    ensures Words(Normal(s)) == Words(s)
    ensures Normal(s) == "" || IsNormal(Normal(s))
  {
    NormalFromWords(s, false, "");
    NormalFromIsNormal(s, false, false);
    FirstKept(s);
  }

  /** Whether the identifier is normal already. */
  method CheckNormal(pubID: string) returns (normal: bool)
    ensures normal <==> IsNormal(pubID)
  {
    var ok, white := true, true;
    var p := 0;
    while p < |pubID| && ok
      invariant p <= |pubID|
      invariant ok ==> (white <==> p == 0 || IsBlank(pubID[p - 1]))
      invariant ok ==> forall i :: 0 <= i < p && IsBlank(pubID[i]) ==> i > 0 && pubID[i] == ' ' && !IsBlank(pubID[i - 1])
      invariant !ok ==> !IsNormal(pubID)
      decreases |pubID| - p
    {
      if !IsBlank(pubID[p]) {
        white := false;
      } else if pubID[p] == ' ' && !white {
        white := true;
      } else {
        ok := false;
      }
      p := p + 1;
    }
    normal := ok && !white;
  }

  lemma NormalStep(q: string, s: string, white: bool)
    requires s != []
    ensures q + NormalFrom(s, q != [], white)
         == if IsBlank(s[0]) then q + NormalFrom(s[1..], q != [], white || q != [])
            else (q + (if white then [' '] else []) + [s[0]]) + NormalFrom(s[1..], true, false)
  {
    var lead := if white then [' '] else [];
    var rest := NormalFrom(s[1..], true, false);
    assert q + (lead + [s[0]] + rest) == (q + lead + [s[0]]) + rest;
  }

  /** None when the identifier is normal already; otherwise its normal form, which may be empty. */
  method NormalizePublic(pubID: string) returns (r: Option<string>)
    ensures r == if IsNormal(pubID) then None else Some(Normal(pubID))
  {
    hide IsNormal, NormalFrom;
    var normal := CheckNormal(pubID);
    if normal {
      return None;
    }
    var q, white, p: nat := "", false, 0;
    assert pubID[0..] == pubID && q + Normal(pubID) == Normal(pubID);
    while p < |pubID|
      invariant p <= |pubID|
      invariant q + NormalFrom(pubID[p..], q != [], white) == Normal(pubID)
    {
      NormalStep(q, pubID[p..], white);
      assert pubID[p..][1..] == pubID[p + 1..];
      if IsBlank(pubID[p]) {
        if q != [] {
          white := true;
        }
      } else {
        if white {
          q := q + [' '];
          white := false;
        } else {
          assert q + [] == q;
        }
        q := q + [pubID[p]];
      }
      p := p + 1;
    }
    assert pubID[p..] == [];
    NormalOfNothing(q, white);
    r := Some(q);
  }

  lemma NormalOfNothing(q: string, white: bool)
    ensures q + NormalFrom([], q != [], white) == q
  {
  }

  // ---------------------------------------------------------------- unwrapping

  /** The character an escape stands for. */
  function Escaped(s: string): Option<char> {
    if |s| < 3 || s[0] != '%' then None
    else if s[1] == '2' && s[2] == 'B' then Some('+')
    else if s[1] == '3' && s[2] == 'A' then Some(':')
    else if s[1] == '2' && s[2] == 'F' then Some('/')
    else if s[1] == '3' && s[2] == 'B' then Some(';')
    else if s[1] == '2' && s[2] == '7' then Some('\'')
    else if s[1] == '3' && s[2] == 'F' then Some('?')
    else if s[1] == '2' && s[2] == '3' then Some('#')
    else if s[1] == '2' && s[2] == '5' then Some('%')
    else None
  }

  /** What the front of a URN becomes, and how many characters of it that takes. */
  function Piece(s: string): (r: (string, nat))
    requires s != []
    ensures 1 <= |r.0| <= 2 && 1 <= r.1 <= |s|
  {
    if s[0] == '+' then (" ", 1)
    else if s[0] == ':' then ("//", 1)
    else if s[0] == ';' then ("::", 1)
    else match Escaped(s)
      case Some(c) => ([c], 3)
      case None => ([s[0]], 1)
  }

  /** Unwrapping stops when the result buffer is nearly full. */
  function UnWrapFrom(s: string, i: nat): string
    decreases |s|
  {
    if s == [] || i > RESULT_SIZE - 4 then []
    else
      var (out, n) := Piece(s);
      out + UnWrapFrom(s[n..], i + |out|)
  }

  function UnWrap(urn: string): string
    requires IsUrn(urn)
  {
    UnWrapFrom(urn[|XML_URN_PUBID|..], 0)
  }

  lemma UnWrapStep(done: string, s: string, i: nat)
    ensures if s == [] || i > RESULT_SIZE - 4 then done + UnWrapFrom(s, i) == done
      else var (out, n) := Piece(s);
        done + UnWrapFrom(s, i) == (done + out) + UnWrapFrom(s[n..], i + |out|)
  {
  }

  /** The result never leaves its buffer: at most two characters and a NUL follow the check. */
  method UnWrapURN(urn: string) returns (r: Option<string>)
    ensures r == if IsUrn(urn) then Some(UnWrap(urn)) else None
  {
    hide UnWrapFrom, Piece;
    if !HasPrefix(urn, XML_URN_PUBID) {
      return None;
    }
    var result := new char[RESULT_SIZE](_ => '\0');
    var i, at := 0, |XML_URN_PUBID|;
    assert result[..i] + UnWrap(urn) == UnWrap(urn);
    while at < |urn|
      invariant at <= |urn| && i <= RESULT_SIZE - 2
      invariant result[..i] + UnWrapFrom(urn[at..], i) == UnWrap(urn)
      decreases |urn| - at
    {
      UnWrapStep(result[..i], urn[at..], i);
      if i > RESULT_SIZE - 4 {
        break;
      }
      ghost var done := result[..i];
      var (out, n) := Piece(urn[at..]);
      assert urn[at..][n..] == urn[at + n..];
      result[i] := out[0];
      if |out| == 2 {
        result[i + 1] := out[1];
      }
      i, at := i + |out|, at + n;
      assert result[..i] == done + out;
    }
    UnWrapStep(result[..i], urn[at..], i);
    r := Some(result[..i]);
    result[i] := '\0';
  }

  // ---------------------------------------------------------------- unwrapping comes to an end

  function Percents(s: string): nat {
    if s == [] then 0 else Percents(s[1..]) + if s[0] == '%' then 1 else 0
  }

  /** Colons come in pairs. */
  predicate PairedColons(s: string) {
    if s == [] then true
    else if s[0] != ':' then PairedColons(s[1..])
    else |s| > 1 && s[1] == ':' && PairedColons(s[2..])
  }

  lemma UrnHasLoneColon(s: string)
    requires IsUrn(s)
    ensures !PairedColons(s)
  {
    assert s[..|XML_URN_PUBID|] == XML_URN_PUBID;
    assert s[0] == 'u' && s[1] == 'r' && s[2] == 'n' && s[3] == ':' && s[4] == 'p';
    assert s[1..][1..] == s[2..] && s[2..][1..] == s[3..];
    assert !PairedColons(s[3..]);
    assert !PairedColons(s[2..]);
    assert !PairedColons(s[1..]);
  }

  lemma {:induction false} PercentsAppend(s: string, t: string)
    ensures Percents(s + t) == Percents(s) + Percents(t)
  {
    if s == [] {
      assert s + t == t;
    } else {
      assert (s + t)[1..] == s[1..] + t;
      PercentsAppend(s[1..], t);
    }
  }

  lemma PercentsOfDrop(s: string, n: nat)
    requires n <= |s|
    ensures Percents(s) == Percents(s[..n]) + Percents(s[n..])
  {
    PercentsAppend(s[..n], s[n..]);
    assert s == s[..n] + s[n..];
  }

  /** One step never adds a percent sign; it makes a lone colon only by using one up. */
  lemma PieceCounts(s: string)
    requires s != []
    ensures var (out, n) := Piece(s);
      && Percents(out) <= Percents(s[..n])
      && (Percents(out) == Percents(s[..n]) ==> out == "::" || (|out| == 1 && out[0] != ':') || out == "//")
  {
    var (out, n) := Piece(s);
    if n == 3 {
      PercentsOfDrop(s[..3], 1);
      assert s[..3][..1] == [s[0]];
      assert Percents([s[0]]) == 1;
      assert out[1..] == [];
      assert Percents(out) == if out[0] == '%' then 1 else 0;
    } else {
      assert s[..1] == [s[0]];
    }
  }

  lemma PairedAfter(out: string, t: string)
    requires out == "::" || (|out| == 1 && out[0] != ':') || out == "//"
    requires PairedColons(t)
    ensures PairedColons(out + t)
  {
    assert (out + t)[|out|..] == t;
    if out == "//" {
      assert (out + t)[1..][1..] == t;
    }
  }

  lemma {:induction false} UnWrapCounts(s: string, i: nat)
    ensures Percents(UnWrapFrom(s, i)) <= Percents(s)
    ensures Percents(UnWrapFrom(s, i)) < Percents(s) || PairedColons(UnWrapFrom(s, i))
    decreases |s|
  {
    if s != [] && i <= RESULT_SIZE - 4 {
      var (out, n) := Piece(s);
      PieceCounts(s);
      PercentsOfDrop(s, n);
      UnWrapCounts(s[n..], i + |out|);
      var rest := UnWrapFrom(s[n..], i + |out|);
      PercentsAppend(out, rest);
      if Percents(out) == Percents(s[..n]) && PairedColons(rest) {
        PairedAfter(out, rest);
      }
    }
  }

  lemma {:induction false} NormalCounts(s: string, started: bool, white: bool)
    ensures Percents(NormalFrom(s, started, white)) == Percents(s)
    ensures PairedColons(s) ==> PairedColons(NormalFrom(s, started, white))
    decreases |s|
  {
    if s != [] {
      if IsBlank(s[0]) {
        NormalCounts(s[1..], started, white || started);
      } else {
        NormalCounts(s[1..], true, false);
        var lead := if white then [' '] else [];
        var rest := NormalFrom(s[1..], true, false);
        assert NormalFrom(s, started, white) == lead + ([s[0]] + rest);
        PercentsAppend(lead, [s[0]] + rest);
        PercentsAppend([s[0]], rest);
        if PairedColons(s) {
          if |s| > 1 {
            NormalCounts(s[2..], true, false);
          }
          NormalOfPaired(s, rest);
          if white {
            PairedAfter(lead, [s[0]] + rest);
          }
        }
      }
    }
  }

  lemma NormalOfPaired(s: string, rest: string)
    requires s != [] && !IsBlank(s[0]) && rest == NormalFrom(s[1..], true, false) && PairedColons(s)
    requires PairedColons(s[1..]) ==> PairedColons(rest)
    requires |s| > 1 ==> (PairedColons(s[2..]) ==> PairedColons(NormalFrom(s[2..], true, false)))
    ensures PairedColons([s[0]] + rest)
  {
    if s[0] == ':' {
      assert s[1..][1..] == s[2..];
      assert rest == [':'] + NormalFrom(s[2..], true, false);
      assert ([s[0]] + rest)[2..] == NormalFrom(s[2..], true, false);
    } else {
      PairedAfter([s[0]], rest);
    }
  }

  /** How many more times an identifier can be unwrapped, at most. */
  function Wrappings(s: string): nat {
    if IsUrn(s) then 1 + Percents(s) else 0
  }

  /** Unwrapping, with or without normalizing the result, leaves fewer. */
  lemma UnWrapDescends(urn: string)
    requires IsUrn(urn)
    ensures Wrappings(UnWrap(urn)) < Wrappings(urn)
    ensures Wrappings(Normal(UnWrap(urn))) < Wrappings(urn)
  {
    var n := |XML_URN_PUBID|;
    var s := UnWrap(urn);
    PercentsOfDrop(urn, n);
    UnWrapCounts(urn[n..], 0);
    NormalCounts(s, false, false);
    if IsUrn(s) {
      UrnHasLoneColon(s);
    }
    if IsUrn(Normal(s)) {
      UrnHasLoneColon(Normal(s));
    }
  }

  // ---------------------------------------------------------------- what a URN carries

  /** A character of a public identifier as a publicid URN (RFC 3151) carries it. */
  function Transcribed(c: char): string {
    match c
    case ' ' => "+"
    case '+' => "%2B"
    case ':' => "%3A"
    case '/' => "%2F"
    case ';' => "%3B"
    case '\'' => "%27"
    case '?' => "%3F"
    case '#' => "%23"
    case '%' => "%25"
    case _ => [c]
  }

  /** A public identifier as a URN carries it: double slashes and colons have a character of their own. */
  function Wrap(s: string): string {
    if s == [] then []
    else if HasPrefix(s, "//") then ":" + Wrap(s[2..])
    else if HasPrefix(s, "::") then ";" + Wrap(s[2..])
    else Transcribed(s[0]) + Wrap(s[1..])
  }

  /** The first character or pair. */
  function FirstOf(s: string): (a: string)
    requires s != []
    ensures 1 <= |a| <= 2 && a <= s
  {
    if HasPrefix(s, "//") || HasPrefix(s, "::") then s[..2] else s[..1]
  }

  lemma TranscribedRead(c: char, t: string)
    ensures Piece(Transcribed(c) + t) == ([c], |Transcribed(c)|) && (Transcribed(c) + t)[|Transcribed(c)|..] == t
  {
    var s := Transcribed(c) + t;
    assert forall i :: 0 <= i < |Transcribed(c)| ==> s[i] == Transcribed(c)[i];
  }

  lemma WrapRead(s: string)
    requires s != []
    ensures Wrap(s) != [] && Piece(Wrap(s)).0 == FirstOf(s)
    ensures Wrap(s)[Piece(Wrap(s)).1..] == Wrap(s[|FirstOf(s)|..])
  {
    hide Transcribed;
    if HasPrefix(s, "//") {
      assert Wrap(s)[1..] == Wrap(s[2..]);
    } else if HasPrefix(s, "::") {
      assert Wrap(s)[1..] == Wrap(s[2..]);
    } else {
      TranscribedRead(s[0], Wrap(s[1..]));
    }
  }

  /** What is read of a URN is the identifier it carries, up to where the result buffer is nearly full. */
  lemma {:induction false} UnWrapFromWrapped(s: string, i: nat)
    ensures UnWrapFrom(Wrap(s), i) <= s
    ensures i + |s| <= RESULT_SIZE - 3 ==> UnWrapFrom(Wrap(s), i) == s
    ensures UnWrapFrom(Wrap(s), i) == s || i + |UnWrapFrom(Wrap(s), i)| > RESULT_SIZE - 4
    decreases |s|
  {
    hide Wrap, Piece, FirstOf;
    if s == [] {
      WrapNothing();
    } else {
      var a := FirstOf(s);
      WrapRead(s);
      UnWrapFromWrapped(s[|a|..], i + |a|);
      assert s == a + s[|a|..];
    }
  }

  lemma WrapNothing()
    ensures Wrap([]) == []
  {
  }

  /** Unwrapping gives back what was wrapped: all of it up to 1997 characters, and never anything else. */
  lemma UnWrapWrapped(s: string)
    ensures var urn := XML_URN_PUBID + Wrap(s);
      && IsUrn(urn) && UnWrap(urn) <= s && (|s| <= RESULT_SIZE - 3 ==> UnWrap(urn) == s)
      && (UnWrap(urn) == s || |UnWrap(urn)| > RESULT_SIZE - 4)
  {
    hide Wrap, UnWrapFrom;
    var urn := XML_URN_PUBID + Wrap(s);
    assert urn[..|XML_URN_PUBID|] == XML_URN_PUBID && urn[|XML_URN_PUBID|..] == Wrap(s);
    UnWrapFromWrapped(s, 0);
  }
}
