/** The characters that are written for the tokens of a document. */
module C14nText {
  import opened XmlStrings
  import opened C14nNamespaces
  import opened C14nAttributes
  import opened C14nTree

  /** Attribute values and text are written differently. */
  datatype Mode = InAttr | InText

  function Normal(c: char, mode: Mode): string {
    if c == '<' then "&lt;"
    else if c == '>' && mode == InText then "&gt;"
    else if c == '&' then "&amp;"
    else if c == '"' && mode == InAttr then "&quot;"
    else if c == '\t' && mode == InAttr then "&#x9;"
    else if c == '\n' && mode == InAttr then "&#xA;"
    else if c == '\r' then "&#xD;"
    else [c]
  }

  function Normalized(s: string, mode: Mode): string {
    if s == [] then [] else Normal(s[0], mode) + Normalized(s[1..], mode)
  }

  lemma {:induction false} NormalizedAppend(s: string, t: string, mode: Mode)
    ensures Normalized(s + t, mode) == Normalized(s, mode) + Normalized(t, mode)
  {
    hide Normal;
    if s == [] {
      assert s + t == t;
    } else {
      assert (s + t)[1..] == s[1..] + t;
      NormalizedAppend(s[1..], t, mode);
    }
  }

  /** Every character that may not stand for itself becomes a reference. */
  method NormalizeString(input: string, mode: Mode) returns (out: string)
    ensures out == Normalized(input, mode)
  {
    hide Normal, Normalized;
    out := [];
    assert input[0..] == input;
    for cur := 0 to |input|
      invariant out + Normalized(input[cur..], mode) == Normalized(input, mode)
    {
      NormalizedFirst(out, input[cur..], mode);
      assert input[cur..][1..] == input[cur + 1..];
      out := PutChar(out, input[cur], mode);
    }
    NormalizedNothing(mode);
  }

  lemma NormalizedFirst(out: string, s: string, mode: Mode)
    requires s != []
    ensures out + Normalized(s, mode) == (out + Normal(s[0], mode)) + Normalized(s[1..], mode)
  {
    hide Normal;
  }

  lemma NormalizedNothing(mode: Mode)
    ensures Normalized([], mode) == []
  {
  }

  method PutChar(out: string, c: char, mode: Mode) returns (more: string)
    ensures more == out + Normal(c, mode)
  {
    if c == '<' {
      more := out + "&lt;";
    } else if c == '>' && mode == InText {
      more := out + "&gt;";
    } else if c == '&' {
      more := out + "&amp;";
    } else if c == '"' && mode == InAttr {
      more := out + "&quot;";
    } else if c == '\t' && mode == InAttr {
      more := out + "&#x9;";
    } else if c == '\n' && mode == InAttr {
      more := out + "&#xA;";
    } else if c == '\r' {
      more := out + "&#xD;";
    } else {
      more := out + [c];
    }
  }

  /** A name with its prefix, if it has one. */
  function QName(prefix: string, name: string): string {
    if prefix == "" then name else prefix + ":" + name
  }

  function TokenText(t: Token): string {
    match t
    case StartTag(prefix, name) => "<" + QName(prefix, name)
    case Xmlns(ns) => " xmlns" + (if ns.prefix == "" then "" else ":" + ns.prefix) + "=\"" + ns.href + "\""
    case Attribute(prefix, name, value) => " " + QName(prefix, name) + "=\"" + Normalized(value, InAttr) + "\""
    case StartTagEnd => ">"
    case Characters(content) => Normalized(content, InText)
    case EndTag(prefix, name) => "</" + QName(prefix, name) + ">"
  }

  function TextOf(ts: seq<Token>): string {
    if ts == [] then [] else TokenText(ts[0]) + TextOf(ts[1..])
  }

  lemma {:induction false} TextAppend(a: seq<Token>, b: seq<Token>)
    ensures TextOf(a + b) == TextOf(a) + TextOf(b)
  {
    hide TokenText;
    if a == [] {
      assert a + b == b;
    } else {
      assert (a + b)[1..] == a[1..] + b;
      TextAppend(a[1..], b);
    }
  }
}
