/** What the steps of the HTML parser do to its stack of open elements and to the stream of
    start and end events, as functions on values; and what follows for every run. */
module HtmlSpec {
  import opened Options

  /** A start or end event, or the silent end of an element whose start tag lacks its '>'. */
  datatype Event = Start(name: string) | End(name: string) | Dropped(name: string)

  /** `html` records what has been seen: 3 from the first head on, 10 from the first body on.
      `depth` counts misplaced start tags whose end tag has not come yet. The last three say
      how often a start tag was discarded, an end tag ignored, a body implied. */
  datatype State = State(
    stack: seq<string>, html: nat, depth: nat, log: seq<Event>,
    discarded: nat, ignored: nat, impliedBodies: nat)

  /** How a start tag ends: with "/>", with '>', or without, perhaps because the input ends. */
  datatype Ending = Slash | Gt | Missing(atEnd: bool)

  datatype Token =
    | StartTag(name: string, ending: Ending)
    | Peeked(name: string)          // a start tag looked ahead at while an element is open
    | EndTag(name: string)
    | Text                          // characters that are not ignorable blanks
    | EndOfInput

  datatype StartCloseRow = StartCloseRow(newtag: string, closed: seq<string>)

  const HTML := "html"
  const HEAD := "head"
  const BODY := "body"
  const P := "p"

  const HEAD_CONTENT := {"script", "style", "meta", "link", "title", "base"}
  const FRAMES := {"noframes", "frame", "frameset"}
  const EMPTY_ELEMENTS := {
    "area", "base", "basefont", "br", "col", "frame", "hr", "img", "input", "isindex", "link", "meta", "param"}

  const END_PRIORITY := [
    ("div", 150), ("td", 160), ("th", 160), ("tr", 170), ("thead", 180), ("tbody", 180), ("tfoot", 180),
    ("table", 190), ("head", 200), ("body", 200), ("html", 220)]
  const DEFAULT_PRIORITY := 100

  lemma NamesDiffer()
    ensures HTML != HEAD && HTML != BODY && HTML != P && HEAD != BODY && HEAD != P && BODY != P
    ensures HTML !in HEAD_CONTENT && HTML !in FRAMES
    ensures HTML !in EMPTY_ELEMENTS && HEAD !in EMPTY_ELEMENTS && BODY !in EMPTY_ELEMENTS && P !in EMPTY_ELEMENTS
  {
    assert |HTML| == 4 && |HEAD| == 4 && |BODY| == 4 && |P| == 1;
    assert HTML[1] == 't' && HEAD[1] == 'e' && BODY[1] == 'o';
  }

  // ---------------------------------------------------------------- events

  /** The open elements after a stream of events, if it is well nested. */
  function Opened(log: seq<Event>): Option<seq<string>> {
    if log == [] then Some([])
    else
      var before := Opened(log[..|log| - 1]);
      var e := log[|log| - 1];
      if before.None? then None
      else if e.Start? then Some(before.value + [e.name])
      else if before.value != [] && before.value[|before.value| - 1] == e.name
      then Some(before.value[..|before.value| - 1])
      else None
  }

  function Ends(names: seq<string>): seq<Event> {
    if names == [] then [] else [End(names[|names| - 1])] + Ends(names[..|names| - 1])
  }

  lemma OpenedSnoc(log: seq<Event>, e: Event)
    ensures Opened(log + [e]) ==
      var before := Opened(log);
      if before.None? then None
      else if e.Start? then Some(before.value + [e.name])
      else if before.value != [] && before.value[|before.value| - 1] == e.name
      then Some(before.value[..|before.value| - 1])
      else None
  {
    assert (log + [e])[..|log|] == log;
  }

  lemma NoEnds(log: seq<Event>)
    ensures log + Ends([]) == log
  {
  }

  lemma EndsOfSlice(log: seq<Event>, stack: seq<string>, k: nat)
    requires k < |stack|
    ensures var n := |stack| - 1;
      log + Ends(stack[k..]) == (log + [End(stack[n])]) + Ends(stack[..n][k..])
  {
    var n := |stack| - 1;
    var t := stack[k..];
    assert t[|t| - 1] == stack[n] && t[..|t| - 1] == stack[..n][k..];
  }

  lemma {:induction false} OpenedEnds(log: seq<Event>, stack: seq<string>, k: nat)
    requires Opened(log) == Some(stack) && k <= |stack|
    ensures Opened(log + Ends(stack[k..])) == Some(stack[..k])
    decreases |stack| - k
  {
    hide Opened, Ends;
    if k == |stack| {
      assert stack[k..] == [] && stack[..k] == stack;
      NoEnds(log);
    } else {
      var n := |stack| - 1;
      var e := End(stack[n]);
      OpenedSnoc(log, e);
      OpenedEnds(log + [e], stack[..n], k);
      EndsOfSlice(log, stack, k);
      assert stack[..n][..k] == stack[..k];
    }
  }

  // ---------------------------------------------------------------- pushing and popping

  function Seen(html: nat, name: string): nat {
    if html < 3 && name == HEAD then 3 else if html < 10 && name == BODY then 10 else html
  }

  function Push(s: State, name: string): State {
    s.(stack := s.stack + [name], html := Seen(s.html, name), log := s.log + [Start(name)])
  }

  /** All elements above the first `k` are closed, innermost first. */
  function PopTo(s: State, k: nat): State
    requires k <= |s.stack|
  {
    s.(stack := s.stack[..k], log := s.log + Ends(s.stack[k..]))
  }

  function Pop(s: State): State
    requires s.stack != []
  {
    PopTo(s, |s.stack| - 1)
  }

  function Drop(s: State): State
    requires s.stack != []
  {
    s.(stack := s.stack[..|s.stack| - 1], log := s.log + [Dropped(s.stack[|s.stack| - 1])])
  }

  lemma PopOfPopTo(s: State, k: nat)
    requires 0 < k <= |s.stack|
    ensures PopTo(s, k - 1) == Pop(PopTo(s, k))
    ensures Pop(PopTo(s, k)).log == PopTo(s, k).log + [End(s.stack[k - 1])]
  {
    EndsSplit(s.stack[k - 1..], 1);
    assert s.stack[k - 1..][1..] == s.stack[k..];
    assert s.stack[k - 1..][..1] == [s.stack[k - 1]] == s.stack[..k][k - 1..];
    assert Ends([s.stack[k - 1]]) == [End(s.stack[k - 1])];
    assert s.stack[..k][..k - 1] == s.stack[..k - 1];
    assert s.log + (Ends(s.stack[k..]) + [End(s.stack[k - 1])]) == (s.log + Ends(s.stack[k..])) + [End(s.stack[k - 1])];
  }

  lemma {:induction false} EndsSplit(names: seq<string>, k: nat)
    requires k <= |names|
    ensures Ends(names) == Ends(names[k..]) + Ends(names[..k])
    decreases |names|
  {
    if k == |names| {
      assert names[..k] == names;
    } else {
      var n := |names| - 1;
      EndsSplit(names[..n], k);
      assert names[..n][k..] == names[k..][..n - k] && names[..n][..k] == names[..k];
    }
  }

  // ---------------------------------------------------------------- automatic closing

  function RowOf(table: seq<StartCloseRow>, newtag: string): (k: nat)
    ensures k <= |table|
    ensures k < |table| ==> table[k].newtag == newtag
    ensures forall i :: 0 <= i < k ==> table[i].newtag != newtag
  {
    if table == [] || table[0].newtag == newtag then 0 else 1 + RowOf(table[1..], newtag)
  }

  /** Whether a start tag ends an open element. Only 99 rows of the table are indexed. */
  predicate Closes(table: seq<StartCloseRow>, newtag: string, oldtag: string) {
    var k := RowOf(table, newtag);
    k < |table| && k < 99 && oldtag in table[k].closed
  }

  /** How many elements stay open when a start tag closes those it can, from the top. */
  function Kept(table: seq<StartCloseRow>, stack: seq<string>, newtag: string): (k: nat)
    ensures k <= |stack|
    ensures forall i :: k <= i < |stack| ==> Closes(table, newtag, stack[i])
    ensures k > 0 ==> !Closes(table, newtag, stack[k - 1])
  {
    var n := |stack|;
    if n == 0 || !Closes(table, newtag, stack[n - 1]) then n else Kept(table, stack[..n - 1], newtag)
  }

  function AutoClosed(table: seq<StartCloseRow>, s: State, newtag: string): State {
    PopTo(s, Kept(table, s.stack, newtag))
  }

  // ---------------------------------------------------------------- end tags

  function PriorityIn(table: seq<(string, nat)>, name: string): nat {
    if table == [] then DEFAULT_PRIORITY
    else if table[0].0 == name then table[0].1
    else PriorityIn(table[1..], name)
  }

  function Priority(name: string): nat {
    PriorityIn(END_PRIORITY, name)
  }

  /** The nearest open element of that name, or -1. */
  function Match(stack: seq<string>, name: string): (m: int)
    ensures -1 <= m < |stack|
    ensures m >= 0 ==> stack[m] == name
    ensures forall i :: m < i < |stack| ==> stack[i] != name
  {
    var n := |stack|;
    if n == 0 then -1 else if stack[n - 1] == name then n - 1 else Match(stack[..n - 1], name)
  }

  /** An end tag does not reach past an element of higher priority. */
  predicate Reaches(stack: seq<string>, m: int, name: string)
    requires -1 <= m < |stack|
  {
    forall i :: m < i < |stack| ==> Priority(stack[i]) <= Priority(name)
  }

  function EndTagged(s: State, name: string): State {
    if s.depth > 0 && (name == HTML || name == BODY || name == HEAD) then
      s.(depth := s.depth - 1, ignored := s.ignored + 1)
    else
      var m := Match(s.stack, name);
      if m >= 0 && Reaches(s.stack, m, name) then PopTo(s, m) else s
  }

  // ---------------------------------------------------------------- start tags

  function Implied(s: State, newtag: string): State {
    if newtag == HTML then s
    else
      var t := if s.stack == [] then Push(s, HTML) else s;
      if newtag == BODY || newtag == HEAD then t
      else if |t.stack| <= 1 && newtag in HEAD_CONTENT then (if t.html >= 3 then t else Push(t, HEAD))
      else if newtag in FRAMES || t.html >= 10 || BODY in t.stack || HEAD in t.stack then t
      else Push(t, BODY).(impliedBodies := t.impliedBodies + 1)
  }

  function Count(stack: seq<string>, name: string): nat {
    if stack == [] then 0 else Count(stack[..|stack| - 1], name) + if stack[|stack| - 1] == name then 1 else 0
  }

  /** How often a start tag is reported as misplaced. */
  function Misplaced(stack: seq<string>, name: string): nat {
    if name == HTML then (if stack != [] then 1 else 0)
    else if name == HEAD then (if |stack| != 1 then 1 else 0)
    else if name == BODY then Count(stack, BODY)
    else 0
  }

  function StartTagged(table: seq<StartCloseRow>, s: State, name: string): State {
    var t := Implied(AutoClosed(table, s, name), name);
    var n := Misplaced(t.stack, name);
    if n > 0 then t.(depth := t.depth + n, discarded := t.discarded + 1) else Push(t, name)
  }

  /** The rest of the tag, after its attributes, acts on the element on top, whichever it is. */
  function Ended(s: State, ending: Ending): State
    requires s.stack != []
  {
    match ending
    case Slash => Pop(s)
    case Gt => if s.stack[|s.stack| - 1] in EMPTY_ELEMENTS then Pop(s) else s
    case Missing(atEnd) => if atEnd then PopTo(Drop(s), 0) else Drop(s)
  }

  function Paragraph(table: seq<StartCloseRow>, s: State): State {
    if s.stack == [] || s.stack[|s.stack| - 1] == HTML || s.stack[|s.stack| - 1] == HEAD
    then Push(Implied(AutoClosed(table, s, P), P), P)
    else s
  }

  lemma StartTaggedOpen(table: seq<StartCloseRow>, s: State, name: string)
    ensures StartTagged(table, s, name).stack != []
  {
    var t := Implied(AutoClosed(table, s, name), name);
    assert name != HTML ==> t.stack != [];
  }

  function Step(table: seq<StartCloseRow>, s: State, token: Token): State {
    match token
    case StartTag(name, ending) => StartTaggedOpen(table, s, name); Ended(StartTagged(table, s, name), ending)
    case Peeked(name) => AutoClosed(table, s, name)
    case EndTag(name) => EndTagged(s, name)
    case Text => Paragraph(table, s)
    case EndOfInput => PopTo(s, 0)
  }

  function Run(table: seq<StartCloseRow>, s: State, tokens: seq<Token>): State
    decreases |tokens|
  {
    if tokens == [] then s else Run(table, Step(table, s, tokens[0]), tokens[1..])
  }

  const INITIAL := State([], 1, 0, [], 0, 0, 0)

  // ---------------------------------------------------------------- what every run keeps

  /** html only at the bottom and always there, head only right above it, body at most once;
      and what is open has been seen. */
  ghost predicate Placed(stack: seq<string>, html: nat) {
    && (stack != [] ==> stack[0] == HTML)
    && (forall i :: 0 < i < |stack| ==> stack[i] != HTML)
    && (forall i :: 0 <= i < |stack| && stack[i] == HEAD ==> i == 1 && html >= 3)
    && (forall i :: 0 <= i < |stack| && stack[i] == BODY ==> html >= 10)
    && (forall i, j :: 0 <= i < j < |stack| ==> stack[i] != BODY || stack[j] != BODY)
  }

  ghost predicate NoneEmpty(stack: seq<string>) {
    forall i :: 0 <= i < |stack| ==> stack[i] !in EMPTY_ELEMENTS
  }

  /** Holds between any two tokens of any document. */
  ghost predicate Inv(s: State) {
    && Opened(s.log) == Some(s.stack)
    && Placed(s.stack, s.html)
    && NoneEmpty(s.stack)
    && s.impliedBodies <= (if s.html >= 10 then 1 else 0)
    && s.depth + s.ignored == s.discarded
  }

  /** The same while a start tag is being handled: its element may be an empty one. */
  ghost predicate InvBelow(s: State) {
    && s.stack != []
    && Opened(s.log) == Some(s.stack)
    && Placed(s.stack, s.html)
    && NoneEmpty(s.stack[..|s.stack| - 1])
    && s.impliedBodies <= (if s.html >= 10 then 1 else 0)
    && s.depth + s.ignored == s.discarded
  }

  lemma PlacedPush(stack: seq<string>, html: nat, name: string)
    requires Placed(stack, html)
    requires name == HTML <==> stack == []
    requires name == HEAD ==> |stack| == 1
    requires name == BODY ==> BODY !in stack
    ensures Placed(stack + [name], Seen(html, name))
  {
    NamesDiffer();
    hide HTML, HEAD, BODY;
  }

  lemma PopToKeeps(s: State, k: nat)
    requires Inv(s) && k <= |s.stack|
    ensures Inv(PopTo(s, k))
  {
    OpenedEnds(s.log, s.stack, k);
  }

  lemma PushKeeps(s: State, name: string)
    requires Inv(s)
    requires name == HTML <==> s.stack == []
    requires name == HEAD ==> |s.stack| == 1
    requires name == BODY ==> BODY !in s.stack
    ensures InvBelow(Push(s, name))
    ensures name !in EMPTY_ELEMENTS ==> Inv(Push(s, name))
  {
    hide Opened, Placed;
    OpenedSnoc(s.log, Start(name));
    PlacedPush(s.stack, s.html, name);
    assert Push(s, name).stack[..|s.stack|] == s.stack;
  }

  lemma ImpliedKeeps(s: State, newtag: string)
    requires Inv(s)
    ensures Inv(Implied(s, newtag))
    ensures newtag != HTML ==> Implied(s, newtag).stack != []
    ensures newtag == HTML ==> Implied(s, newtag) == s
  {
    hide Opened, Placed, NoneEmpty;
    NamesDiffer();
    if newtag != HTML {
      var t := if s.stack == [] then Push(s, HTML) else s;
      if s.stack == [] {
        PushKeeps(s, HTML);
      }
      if |t.stack| == 1 {
        PushKeeps(t, HEAD);
      }
      if t.html < 10 && BODY !in t.stack {
        PushKeeps(t, BODY);
        assert Inv(Push(t, BODY).(impliedBodies := t.impliedBodies + 1)) by {
          hide Push;
        }
      }
    }
  }

  lemma {:induction false} CountOfOnce(stack: seq<string>, name: string)
    requires forall i, j :: 0 <= i < j < |stack| ==> stack[i] != name || stack[j] != name
    ensures Count(stack, name) == if name in stack then 1 else 0
  {
    if stack != [] {
      var n := |stack| - 1;
      CountOfOnce(stack[..n], name);
      assert stack == stack[..n] + [stack[n]];
    }
  }

  lemma StartTaggedKeeps(table: seq<StartCloseRow>, s: State, name: string)
    requires Inv(s)
    ensures InvBelow(StartTagged(table, s, name))
    ensures name !in EMPTY_ELEMENTS ==> Inv(StartTagged(table, s, name))
  {
    NamesDiffer();
    var t := Implied(AutoClosed(table, s, name), name);
    PopToKeeps(s, Kept(table, s.stack, name));
    ImpliedKeeps(AutoClosed(table, s, name), name);
    CountOfOnce(t.stack, BODY);
    hide Opened, Placed, Kept, Implied, HTML, HEAD, BODY, EMPTY_ELEMENTS, Count;
    if Misplaced(t.stack, name) == 0 {
      assert name == HTML <==> t.stack == [];
      PushKeeps(t, name);
    }
  }

  lemma TopOffKeeps(s: State)
    requires InvBelow(s)
    ensures Inv(Pop(s)) && Inv(Drop(s))
  {
    TopOffPlaced(s);
    hide Placed, NoneEmpty, Opened, Ends;
    OpenedEnds(s.log, s.stack, |s.stack| - 1);
    OpenedSnoc(s.log, Dropped(s.stack[|s.stack| - 1]));
  }

  lemma TopOffPlaced(s: State)
    requires s.stack != [] && Placed(s.stack, s.html)
    ensures Placed(s.stack[..|s.stack| - 1], s.html)
  {
  }

  lemma TopStaysKeeps(s: State)
    requires InvBelow(s) && s.stack[|s.stack| - 1] !in EMPTY_ELEMENTS
    ensures Inv(s)
  {
    hide Opened, Placed, EMPTY_ELEMENTS;
    var n := |s.stack| - 1;
    assert s.stack == s.stack[..n] + [s.stack[n]];
  }

  lemma EndedKeeps(s: State, ending: Ending)
    requires InvBelow(s)
    ensures Inv(Ended(s, ending))
  {
    hide Inv, Pop, Drop, PopTo, EMPTY_ELEMENTS;
    TopOffKeeps(s);
    if ending.Gt? && s.stack[|s.stack| - 1] !in EMPTY_ELEMENTS {
      TopStaysKeeps(s);
    }
    PopToKeeps(Drop(s), 0);
  }

  lemma EndTaggedKeeps(s: State, name: string)
    requires Inv(s)
    ensures Inv(EndTagged(s, name))
  {
    hide Opened, Placed, NoneEmpty;
    var m := Match(s.stack, name);
    if m >= 0 {
      PopToKeeps(s, m);
    }
  }

  lemma ParagraphKeeps(table: seq<StartCloseRow>, s: State)
    requires Inv(s)
    ensures Inv(Paragraph(table, s))
  {
    hide Opened, Placed, NoneEmpty, AutoClosed, Implied, Push;
    NamesDiffer();
    hide HTML, HEAD, BODY, P, EMPTY_ELEMENTS;
    AutoClosedKeeps(table, s, P);
    ImpliedKeeps(AutoClosed(table, s, P), P);
    PushKeeps(Implied(AutoClosed(table, s, P), P), P);
  }

  lemma AutoClosedKeeps(table: seq<StartCloseRow>, s: State, newtag: string)
    requires Inv(s)
    ensures Inv(AutoClosed(table, s, newtag))
  {
    PopToKeeps(s, Kept(table, s.stack, newtag));
  }

  lemma StepKeeps(table: seq<StartCloseRow>, s: State, token: Token)
    requires Inv(s)
    ensures Inv(Step(table, s, token))
  {
    hide Inv, InvBelow, StartTagged, Ended, EndTagged, Paragraph, AutoClosed;
    match token
    case StartTag(name, ending) =>
      StartTaggedKeeps(table, s, name);
      StartTaggedOpen(table, s, name);
      EndedKeeps(StartTagged(table, s, name), ending);
    case Peeked(name) => AutoClosedKeeps(table, s, name);
    case EndTag(name) => EndTaggedKeeps(s, name);
    case Text => ParagraphKeeps(table, s);
    case EndOfInput => PopToKeeps(s, 0);
  }

  /** In every reachable state the events are well nested with exactly the stack open, html,
      head and body are where they may be, at most one body has been implied, and no more end
      tags have been ignored than start tags discarded. */
  lemma {:induction false} RunKeeps(table: seq<StartCloseRow>, s: State, tokens: seq<Token>)
    requires Inv(s)
    ensures Inv(Run(table, s, tokens))
    decreases |tokens|
  {
    hide Inv, Step;
    if tokens != [] {
      StepKeeps(table, s, tokens[0]);
      RunKeeps(table, Step(table, s, tokens[0]), tokens[1..]);
    }
  }

  lemma InitiallyInv()
    ensures Inv(INITIAL)
  {
  }

  /** Closing everything at the end of the input completes the events. */
  lemma RunToEnd(table: seq<StartCloseRow>, tokens: seq<Token>)
    ensures var s := Run(table, INITIAL, tokens);
      && Inv(s)
      && s.impliedBodies <= 1 && s.ignored <= s.discarded
      && PopTo(s, 0).stack == [] && Opened(PopTo(s, 0).log) == Some([])
  {
    hide Opened, Placed, NoneEmpty, Run, Ends, INITIAL;
    InitiallyInv();
    RunKeeps(table, INITIAL, tokens);
    var s := Run(table, INITIAL, tokens);
    PopToKeeps(s, 0);
    assert s.stack[..0] == [];
  }

  /** Text never goes to the document, to html or to head. */
  lemma TextIsPlaced(table: seq<StartCloseRow>, s: State)
    ensures var t := Paragraph(table, s);
      t.stack != [] && t.stack[|t.stack| - 1] != HTML && t.stack[|t.stack| - 1] != HEAD
  {
    NamesDiffer();
  }

  // ---------------------------------------------------------------- end tags

  /** An end tag leaves the elements and the events as they are, or closes down to and including the
      nearest element of its name, past elements of no higher priority only. */
  lemma EndTagExactly(s: State, name: string)
    ensures var t := EndTagged(s, name);
      || (t.stack == s.stack && t.log == s.log && t.html == s.html)
      || exists m :: && 0 <= m < |s.stack| && s.stack[m] == name && t.stack == s.stack[..m]
                     && t.log == s.log + Ends(s.stack[m..]) && t.html == s.html && t.depth == s.depth
                     && forall i :: m < i < |s.stack| ==> s.stack[i] != name && Priority(s.stack[i]) <= Priority(name)
  {
    hide Priority, Ends;
  }

  /** It leaves them as they are exactly when it answers a discarded start tag, or when above every
      element of its name there is one of higher priority. */
  lemma EndTagIgnoredIff(s: State, name: string)
    ensures var t := EndTagged(s, name);
      t.stack == s.stack && t.log == s.log <==>
        || (s.depth > 0 && name in {HTML, BODY, HEAD})
        || forall m :: 0 <= m < |s.stack| && s.stack[m] == name ==>
             exists i :: m < i < |s.stack| && Priority(s.stack[i]) > Priority(name)
  {
    hide Priority, Ends;
    var m := Match(s.stack, name);
    if m >= 0 && Reaches(s.stack, m, name) {
      assert s.stack[m] == name;
    }
    if m >= 0 && !Reaches(s.stack, m, name) {
      var i :| m < i < |s.stack| && Priority(s.stack[i]) > Priority(name);
      forall k | 0 <= k < |s.stack| && s.stack[k] == name
        ensures exists j :: k < j < |s.stack| && Priority(s.stack[j]) > Priority(name)
      {
        assert k <= m < i;
      }
    }
  }

  /** A start tag that is pushed and its end tag cancel out. */
  lemma StartThenEnd(s: State, name: string)
    requires s.depth == 0 || name !in {HTML, BODY, HEAD}
    ensures var t := EndTagged(Push(s, name), name);
      t.stack == s.stack && t.log == s.log + [Start(name), End(name)]
  {
    var t := Push(s, name);
    assert Match(t.stack, name) == |s.stack|;
    assert t.stack[|s.stack|..] == [name];
    assert t.stack[..|s.stack|] == s.stack;
    assert Ends([name]) == [End(name)];
  }

  // ---------------------------------------------------------------- discarded tags

  /** A discarded start tag pushes nothing, yet the end of the tag still acts on the element on
      top: only a plain '>' leaves the open elements as they were. */
  lemma DiscardedLeavesIff(table: seq<StartCloseRow>, s: State, name: string, ending: Ending)
    requires Inv(s)
    ensures var t := Implied(AutoClosed(table, s, name), name);
      Misplaced(t.stack, name) > 0 ==>
        StartTagged(table, s, name).stack == t.stack != []
        && (Ended(StartTagged(table, s, name), ending).stack == t.stack <==> ending == Gt)
  {
    hide Opened, Implied, AutoClosed, EMPTY_ELEMENTS, HTML, HEAD, BODY, Count;
    var t := Implied(AutoClosed(table, s, name), name);
    AutoClosedKeeps(table, s, name);
    ImpliedKeeps(AutoClosed(table, s, name), name);
    StartTaggedOpen(table, s, name);
  }

  // ---------------------------------------------------------------- well nested means a forest

  datatype Tree = Tree(name: string, kids: seq<Tree>, dropped: bool)

  function Flat(t: Tree): seq<Event> {
    [Start(t.name)] + FlatAll(t.kids) + [if t.dropped then Dropped(t.name) else End(t.name)]
  }

  function FlatAll(ts: seq<Tree>): seq<Event> {
    if ts == [] then [] else Flat(ts[0]) + FlatAll(ts[1..])
  }

  /** Forests with an open element between each and the next. */
  function Spine(levels: seq<seq<Tree>>, stack: seq<string>): seq<Event>
    requires |levels| == |stack| + 1
    decreases |stack|
  {
    var n := |stack|;
    if n == 0 then FlatAll(levels[0])
    else Spine(levels[..n], stack[..n - 1]) + [Start(stack[n - 1])] + FlatAll(levels[n])
  }

  lemma {:induction false} FlatAllSnoc(ts: seq<Tree>, t: Tree)
    ensures FlatAll(ts + [t]) == FlatAll(ts) + Flat(t)
  {
    if ts == [] {
      assert [t][1..] == [] && [] + [t] == [t];
    } else {
      assert (ts + [t])[1..] == ts[1..] + [t];
      FlatAllSnoc(ts[1..], t);
    }
  }

  lemma SpineSnoc(levels: seq<seq<Tree>>, stack: seq<string>, t: Tree)
    requires |levels| == |stack| + 1
    ensures var n := |stack|; Spine(levels[..n] + [levels[n] + [t]], stack) == Spine(levels, stack) + Flat(t)
  {
    hide Flat, FlatAll;
    var n := |stack|;
    FlatAllSnoc(levels[n], t);
    var levels' := levels[..n] + [levels[n] + [t]];
    assert levels'[..n] == levels[..n] && levels'[n] == levels[n] + [t];
  }

  /** Every well-nested stream is a spine of forests around the open elements. */
  lemma {:induction false} ReadForest(log: seq<Event>) returns (levels: seq<seq<Tree>>)
    requires Opened(log).Some?
    ensures |levels| == |Opened(log).value| + 1 && Spine(levels, Opened(log).value) == log
    decreases |log|
  {
    if log == [] {
      levels := [[]];
    } else {
      var front, e := log[..|log| - 1], log[|log| - 1];
      var before := ReadForest(front);
      var stack := Opened(front).value;
      var n := |stack|;
      assert log == front + [e];
      if e.Start? {
        levels := before + [[]];
        assert levels[..n + 1] == before && (stack + [e.name])[..n] == stack;
      } else {
        var t := Tree(e.name, before[n], e.Dropped?);
        var outer := before[..n];
        levels := outer[..n - 1] + [outer[n - 1] + [t]];
        SpineSnoc(outer, stack[..n - 1], t);
      }
    }
  }

  lemma {:induction false} OpenedFlat(log: seq<Event>, t: Tree)
    requires Opened(log).Some?
    ensures Opened(log + Flat(t)) == Opened(log)
    decreases t, 0
  {
    hide Opened, FlatAll;
    var stack := Opened(log).value;
    var e := if t.dropped then Dropped(t.name) else End(t.name);
    OpenedSnoc(log, Start(t.name));
    OpenedFlatAll(log + [Start(t.name)], t.kids);
    OpenedSnoc(log + [Start(t.name)] + FlatAll(t.kids), e);
    assert log + Flat(t) == log + [Start(t.name)] + FlatAll(t.kids) + [e];
    assert (stack + [t.name])[..|stack|] == stack;
  }

  lemma {:induction false} OpenedFlatAll(log: seq<Event>, ts: seq<Tree>)
    requires Opened(log).Some?
    ensures Opened(log + FlatAll(ts)) == Opened(log)
    decreases ts, 1
  {
    if ts == [] {
      assert log + FlatAll(ts) == log;
    } else {
      OpenedFlat(log, ts[0]);
      OpenedFlatAll(log + Flat(ts[0]), ts[1..]);
      assert log + FlatAll(ts) == log + Flat(ts[0]) + FlatAll(ts[1..]);
    }
  }

  /** A stream leaves nothing open exactly when it is the traversal of a forest. */
  lemma ClosedIffForest(log: seq<Event>)
    ensures Opened(log) == Some([]) <==> exists ts :: FlatAll(ts) == log
  {
    if Opened(log) == Some([]) {
      var levels := ReadForest(log);
      assert FlatAll(levels[0]) == log;
    }
    if ts :| FlatAll(ts) == log {
      OpenedFlatAll([], ts);
      assert [] + FlatAll(ts) == log;
    }
  }
}
