/** Where the elements of a document are opened, read off its events alone; and what a start tag
    and text do to the open elements, told apart from how it is worked out. */
module HtmlPlaces {
  import opened Options
  import opened HtmlSpec

  // ---------------------------------------------------------------- where elements are opened

  /** What may be opened directly below html: its parts; what belongs into a head, once there was one;
      and anything, once there was a body. */
  predicate BelowHtml(before: seq<Event>, name: string) {
    || name == HEAD || name == BODY || name in FRAMES
    || Start(BODY) in before
    || (name in HEAD_CONTENT && Start(HEAD) in before)
  }

  /** An element may be opened here: only html at the root, and below html only what belongs there. */
  predicate OpensAt(before: seq<Event>, name: string) {
    var open := Opened(before);
    && open.Some?
    && (open.value == [] <==> name == HTML)
    && (open.value == [HTML] ==> BelowHtml(before, name))
    && (name == HEAD ==> open.value == [HTML])
  }

  /** Every element was opened where it may be. */
  ghost predicate WellPlaced(log: seq<Event>) {
    forall i :: 0 <= i < |log| && log[i].Start? ==> OpensAt(log[..i], log[i].name)
  }

  /** And the parser knows whether there was a head or a body. */
  ghost predicate Knows(s: State) {
    && WellPlaced(s.log)
    && (s.html >= 10 <==> Start(BODY) in s.log)
    && (s.html >= 3 <==> Start(HEAD) in s.log || Start(BODY) in s.log)
  }

  lemma PlacedSnoc(log: seq<Event>, e: Event)
    requires WellPlaced(log) && (e.Start? ==> OpensAt(log, e.name))
    ensures WellPlaced(log + [e])
  {
    hide OpensAt;
    var all := log + [e];
    forall i | 0 <= i < |all| && all[i].Start? ensures OpensAt(all[..i], all[i].name) {
      if i < |log| {
        assert all[..i] == log[..i] && all[i] == log[i];
      } else {
        assert all[..i] == log;
      }
    }
  }

  lemma {:induction false} PlacedEnds(log: seq<Event>, names: seq<string>)
    requires WellPlaced(log)
    ensures WellPlaced(log + Ends(names))
    ensures forall n :: Start(n) in log + Ends(names) <==> Start(n) in log
    decreases |names|
  {
    hide OpensAt, WellPlaced;
    if names == [] {
      NoEnds(log);
    } else {
      var n := |names| - 1;
      var e := End(names[n]);
      PlacedSnoc(log, e);
      PlacedEnds(log + [e], names[..n]);
      assert log + Ends(names) == log + [e] + Ends(names[..n]);
    }
  }

  lemma PushKnows(s: State, name: string)
    requires Knows(s) && OpensAt(s.log, name)
    ensures Knows(Push(s, name))
  {
    hide OpensAt, WellPlaced;
    NamesDiffer();
    PlacedSnoc(s.log, Start(name));
  }

  lemma PopToKnows(s: State, k: nat)
    requires Knows(s) && k <= |s.stack|
    ensures Knows(PopTo(s, k))
  {
    hide WellPlaced, Ends;
    PlacedEnds(s.log, s.stack[k..]);
  }

  lemma DropKnows(s: State)
    requires Knows(s) && s.stack != []
    ensures Knows(Drop(s))
  {
    hide WellPlaced;
    PlacedSnoc(s.log, Dropped(s.stack[|s.stack| - 1]));
  }

  lemma StackOpened(s: State)
    requires Inv(s)
    ensures Opened(s.log) == Some(s.stack) && Placed(s.stack, s.html)
  {
  }

  /** An implied tag is opened where it may be. */
  lemma PushImplied(s: State, name: string)
    requires Inv(s) && Knows(s)
    requires (name == HTML && s.stack == []) || (name == HEAD && s.stack == [HTML])
          || (name == BODY && s.stack != [] && BODY !in s.stack)
    ensures Inv(Push(s, name)) && Knows(Push(s, name))
    ensures Push(s, name).stack == s.stack + [name] && Push(s, name).html == Seen(s.html, name)
  {
    hide Inv, Knows, Push, Opened, Placed, EMPTY_ELEMENTS, HTML, HEAD, BODY, P;
    NamesDiffer();
    StackOpened(s);
    PushKeeps(s, name);
    PushKnows(s, name);
    PushStack(s, name);
  }

  lemma BodyCounted(s: State)
    requires Inv(s) && Knows(s) && s.html >= 10 && s.impliedBodies == 0
    ensures Inv(s.(impliedBodies := 1)) && Knows(s.(impliedBodies := 1))
  {
  }

  lemma ImpliedKnows(s: State, newtag: string)
    requires Inv(s) && Knows(s)
    ensures Knows(Implied(s, newtag))
  {
    hide Inv, Knows, Push, HTML, HEAD, BODY, P, HEAD_CONTENT, FRAMES;
    NamesDiffer();
    if newtag != HTML {
      var t := if s.stack == [] then Push(s, HTML) else s;
      RootIsHtml(s);
      if s.stack == [] {
        PushImplied(s, HTML);
      }
      if t.stack == [HTML] {
        PushImplied(t, HEAD);
      }
      if t.html < 10 && BODY !in t.stack {
        PushImplied(t, BODY);
        NoneImplied(t);
        BodyCounted(Push(t, BODY));
      }
    }
  }

  lemma RootIsHtml(s: State)
    requires Inv(s)
    ensures s.stack != [] ==> s.stack[0] == HTML && (|s.stack| <= 1 ==> s.stack == [HTML])
  {
  }

  lemma NoneImplied(s: State)
    requires Inv(s) && s.html < 10
    ensures s.impliedBodies == 0 && Push(s, BODY).impliedBodies == 0
  {
  }

  /** After the implied tags the tag itself may be opened, unless it is misplaced. */
  lemma ImpliedOpens(s: State, newtag: string)
    requires Inv(s) && Knows(s)
    ensures var t := Implied(s, newtag); Misplaced(t.stack, newtag) == 0 ==> OpensAt(t.log, newtag)
  {
    hide Knows, Opened, Push, HTML, HEAD, BODY, P, HEAD_CONTENT, FRAMES, Count, NoneEmpty, WellPlaced;
    NamesDiffer();
    var t := Implied(s, newtag);
    ImpliedKeeps(s, newtag);
    ImpliedKnows(s, newtag);
    if newtag != HTML && t.stack == [HTML] {
      BelowHtmlAllowed(s, newtag);
    }
  }

  /** If only html is open after the implied tags, the tag is one that belongs there. */
  lemma BelowHtmlAllowed(s: State, newtag: string)
    requires Inv(s) && Knows(s) && Implied(s, newtag).stack == [HTML] && newtag != HTML
    ensures BelowHtml(Implied(s, newtag).log, newtag)
  {
    hide Inv, Opened, WellPlaced, HTML, HEAD, BODY, P, HEAD_CONTENT, FRAMES;
    NamesDiffer();
    ImpliedKnows(s, newtag);
  }

  lemma PushStack(s: State, name: string)
    ensures Push(s, name).stack == s.stack + [name] && Push(s, name).html == Seen(s.html, name)
  {
  }

  lemma StartTaggedKnows(table: seq<StartCloseRow>, s: State, name: string)
    requires Inv(s) && Knows(s)
    ensures Knows(StartTagged(table, s, name))
  {
    hide Inv, WellPlaced, Implied, OpensAt, Misplaced;
    var a := AutoClosed(table, s, name);
    AutoClosedKeeps(table, s, name);
    PopToKnows(s, Kept(table, s.stack, name));
    ImpliedKnows(a, name);
    ImpliedOpens(a, name);
    var t := Implied(a, name);
    if Misplaced(t.stack, name) == 0 {
      PushKnows(t, name);
    }
  }

  lemma ParagraphKnows(table: seq<StartCloseRow>, s: State)
    requires Inv(s) && Knows(s)
    ensures Knows(Paragraph(table, s))
  {
    NamesDiffer();
    hide Inv, WellPlaced, Implied, OpensAt;
    var a := AutoClosed(table, s, P);
    AutoClosedKeeps(table, s, P);
    PopToKnows(s, Kept(table, s.stack, P));
    ImpliedKnows(a, P);
    ImpliedOpens(a, P);
    PushKnows(Implied(a, P), P);
  }

  lemma EndedKnows(s: State, ending: Ending)
    requires Knows(s) && s.stack != []
    ensures Knows(Ended(s, ending))
  {
    hide WellPlaced, Ends;
    PopToKnows(s, |s.stack| - 1);
    DropKnows(s);
    PopToKnows(Drop(s), 0);
  }

  lemma StepKnows(table: seq<StartCloseRow>, s: State, token: Token)
    requires Inv(s) && Knows(s)
    ensures Knows(Step(table, s, token))
  {
    hide Inv, Knows, StartTagged, Ended, Paragraph, Kept, PopTo;
    match token
    case StartTag(name, ending) =>
      StartTaggedKnows(table, s, name);
      StartTaggedOpen(table, s, name);
      EndedKnows(StartTagged(table, s, name), ending);
    case Peeked(name) => PopToKnows(s, Kept(table, s.stack, name));
    case EndTag(name) =>
      var m := Match(s.stack, name);
      if m >= 0 {
        PopToKnows(s, m);
      }
      CountsDoNotMatter(s);
    case Text => ParagraphKnows(table, s);
    case EndOfInput => PopToKnows(s, 0);
  }

  lemma CountsDoNotMatter(s: State)
    requires Knows(s)
    ensures forall d, i :: Knows(s.(depth := d, ignored := i))
  {
  }

  lemma {:induction false} RunKnows(table: seq<StartCloseRow>, s: State, tokens: seq<Token>)
    requires Inv(s) && Knows(s)
    ensures Knows(Run(table, s, tokens))
    decreases |tokens|
  {
    hide Inv, Knows, Step;
    if tokens != [] {
      StepKeeps(table, s, tokens[0]);
      StepKnows(table, s, tokens[0]);
      RunKnows(table, Step(table, s, tokens[0]), tokens[1..]);
    }
  }

  lemma KnowsPlaced(s: State)
    requires Knows(s)
    ensures WellPlaced(s.log)
  {
  }

  /** Over any run from the start of a document, every element is opened where it may be, closing what is
      left open included. */
  lemma RunIsPlaced(table: seq<StartCloseRow>, tokens: seq<Token>)
    ensures var s := Run(table, INITIAL, tokens); WellPlaced(s.log) && WellPlaced(PopTo(s, 0).log)
  {
    hide Run, Knows, Inv, PopTo, WellPlaced, INITIAL;
    InitiallyInv();
    InitiallyKnows();
    RunKnows(table, INITIAL, tokens);
    var s := Run(table, INITIAL, tokens);
    PopToKnows(s, 0);
    KnowsPlaced(s);
    KnowsPlaced(PopTo(s, 0));
  }

  lemma InitiallyKnows()
    ensures Knows(INITIAL)
  {
  }

  // ---------------------------------------------------------------- what a start tag and text do

  function Starts(names: seq<string>): (r: seq<Event>)
    ensures |r| == |names| && forall i :: 0 <= i < |r| ==> r[i] == Start(names[i])
  {
    seq(|names|, i requires 0 <= i < |names| => Start(names[i]))
  }

  /** A head is implied by what belongs into one, when at most html is open and there was no head or body. */
  predicate NeedsHead(before: seq<Event>, open: seq<string>, newtag: string) {
    newtag in HEAD_CONTENT && |open| <= 1 && Start(HEAD) !in before && Start(BODY) !in before
  }

  /** A body by what belongs into one, when there was none and no head is open. */
  predicate NeedsBody(before: seq<Event>, open: seq<string>, newtag: string) {
    && newtag !in {HTML, HEAD, BODY} && newtag !in FRAMES && !(newtag in HEAD_CONTENT && |open| <= 1)
    && Start(BODY) !in before && HEAD !in open
  }

  /** The elements a tag implies, from the events before and what is open. */
  function Needed(before: seq<Event>, open: seq<string>, newtag: string): seq<string> {
    (if newtag != HTML && open == [] then [HTML] else [])
    + (if NeedsHead(before, open, newtag) then [HEAD] else [])
    + (if NeedsBody(before, open, newtag) then [BODY] else [])
  }

  /** These elements and no others are opened. */
  predicate Opening(s: State, t: State, names: seq<string>) {
    t.stack == s.stack + names && t.log == s.log + Starts(names) && t.depth == s.depth
  }

  lemma OpeningNone(s: State)
    ensures Opening(s, s, [])
  {
    assert s.stack + [] == s.stack && s.log + Starts([]) == s.log;
  }

  lemma OpeningOne(s: State, t: State, names: seq<string>, name: string)
    requires Opening(s, t, names)
    ensures Opening(s, Push(t, name), names + [name])
  {
    assert Starts(names + [name]) == Starts(names) + [Start(name)];
    assert s.stack + names + [name] == s.stack + (names + [name]);
    assert s.log + Starts(names) + [Start(name)] == s.log + (Starts(names) + [Start(name)]);
  }

  /** Which of the two is implied, by what was seen. */
  lemma ImpliedBy(s: State, newtag: string)
    requires Inv(s) && Knows(s) && newtag != HTML
    ensures var t := if s.stack == [] then Push(s, HTML) else s;
      Implied(s, newtag) == if NeedsHead(s.log, s.stack, newtag) then Push(t, HEAD)
                            else if NeedsBody(s.log, s.stack, newtag) then Push(t, BODY).(impliedBodies := t.impliedBodies + 1)
                            else t
    ensures !NeedsHead(s.log, s.stack, newtag) || !NeedsBody(s.log, s.stack, newtag)
  {
    hide Inv, WellPlaced, HTML, HEAD, BODY, P, HEAD_CONTENT, FRAMES;
    NamesDiffer();
    NoHeadContent();
    BodyStacked(s);
    var t := if s.stack == [] then Push(s, HTML) else s;
    assert t.html == s.html && (|t.stack| <= 1 <==> |s.stack| <= 1);
    assert forall name :: name != HTML ==> (name in t.stack <==> name in s.stack);
  }

  lemma ImpliedExactly(s: State, newtag: string)
    requires Inv(s) && Knows(s)
    ensures Opening(s, Implied(s, newtag), Needed(s.log, s.stack, newtag))
  {
    hide Inv, Knows, Opening, Implied, NeedsHead, NeedsBody, Push, HTML, HEAD, BODY, P, Starts;
    OpeningNone(s);
    if newtag == HTML {
      NothingNeeded(s);
    } else {
      ImpliedBy(s, newtag);
      var t, root := if s.stack == [] then Push(s, HTML) else s, if s.stack == [] then [HTML] else [];
      OpeningOne(s, s, [], HTML);
      assert [] + [HTML] == [HTML];
      OpeningOne(s, t, root, HEAD);
      OpeningOne(s, t, root, BODY);
      CountOpens(s, Push(t, BODY), root + [BODY]);
      assert root + [] + [] == root && root + [HEAD] + [] == root + [HEAD] && root + [] + [BODY] == root + [BODY];
    }
  }

  lemma NothingNeeded(s: State)
    ensures Needed(s.log, s.stack, HTML) == [] && Implied(s, HTML) == s
  {
    NoHeadContent();
  }

  lemma NoHeadContent()
    ensures HTML !in HEAD_CONTENT && HEAD !in HEAD_CONTENT && BODY !in HEAD_CONTENT
  {
    assert |HTML| == |HEAD| == |BODY| == 4 && HEAD[0] == 'h' && BODY[0] == 'b' && "meta"[0] == 'm' && "link"[0] == 'l';
    assert "base"[1] == 'a' && BODY[1] == 'o';
  }

  lemma CountOpens(s: State, t: State, names: seq<string>)
    requires Opening(s, t, names)
    ensures forall n :: Opening(s, t.(impliedBodies := n), names)
  {
  }

  lemma BodyStacked(s: State)
    requires Inv(s) && Knows(s)
    ensures BODY in s.stack ==> Start(BODY) in s.log
  {
  }

  /** A tag that may not be opened where it is. */
  predicate OutOfPlace(open: seq<string>, name: string) {
    (name == HTML && open != []) || (name == HEAD && |open| != 1) || (name == BODY && BODY in open)
  }

  lemma MisplacedIs(s: State, name: string)
    requires Inv(s)
    ensures Misplaced(s.stack, name) == if OutOfPlace(s.stack, name) then 1 else 0
  {
    NamesDiffer();
    CountOfOnce(s.stack, BODY);
  }

  /** What is open after the end of a tag when `open` was, and the events of it. */
  predicate AfterEnding(open: seq<string>, ending: Ending, stack: seq<string>, events: seq<Event>) {
    open != [] &&
      var n := |open| - 1;
      match ending
      case Slash => stack == open[..n] && events == [End(open[n])]
      case Gt =>
        if open[n] in EMPTY_ELEMENTS then stack == open[..n] && events == [End(open[n])] else stack == open && events == []
      case Missing(false) => stack == open[..n] && events == [Dropped(open[n])]
      case Missing(true) => stack == [] && events == [Dropped(open[n])] + Ends(open[..n])
  }

  lemma EndedExactly(s: State, ending: Ending) returns (events: seq<Event>)
    requires s.stack != []
    ensures AfterEnding(s.stack, ending, Ended(s, ending).stack, events) && Ended(s, ending).log == s.log + events
    ensures Ended(s, ending).depth == s.depth
  {
    hide EMPTY_ELEMENTS;
    var n := |s.stack| - 1;
    assert Ends([s.stack[n]]) == [End(s.stack[n])];
    assert s.stack[n..] == [s.stack[n]] && s.stack[..n][0..] == s.stack[..n];
    assert s.log + [] == s.log;
    events := match ending
      case Slash => [End(s.stack[n])]
      case Gt => if s.stack[n] in EMPTY_ELEMENTS then [End(s.stack[n])] else []
      case Missing(atEnd) => if atEnd then [Dropped(s.stack[n])] + Ends(s.stack[..n]) else [Dropped(s.stack[n])];
    assert s.log + [Dropped(s.stack[n])] + Ends(s.stack[..n]) == s.log + ([Dropped(s.stack[n])] + Ends(s.stack[..n]));
  }

  /** A start tag closes the elements on top that the table says it closes, opens what it needs and then its
      own element, unless that is out of place; and the end of the tag acts on the element then on top. */
  lemma StartTagExactly(table: seq<StartCloseRow>, s: State, name: string, ending: Ending)
      returns (kept: nat, events: seq<Event>)
    requires Inv(s) && Knows(s)
    ensures kept <= |s.stack| && (forall i :: kept <= i < |s.stack| ==> Closes(table, name, s.stack[i]))
    ensures kept > 0 ==> !Closes(table, name, s.stack[kept - 1])
    ensures var t := Step(table, s, StartTag(name, ending));
      var open := s.stack[..kept] + Needed(s.log, s.stack[..kept], name);
      var own := if OutOfPlace(open, name) then [] else [name];
      && AfterEnding(open + own, ending, t.stack, events)
      && t.log == s.log + Ends(s.stack[kept..]) + Starts(Needed(s.log, s.stack[..kept], name)) + Starts(own) + events
      && t.depth == s.depth + 1 - |own|
  {
    hide Inv, Knows, Needed, Starts, Ends, Implied, Ended, Misplaced, OutOfPlace, AfterEnding, Closes;
    kept := Kept(table, s.stack, name);
    var a := AutoClosed(table, s, name);
    AutoClosedKeeps(table, s, name);
    PopToKnows(s, kept);
    SameSeen(s, kept, name);
    ImpliedKeeps(a, name);
    ImpliedExactly(a, name);
    var t := Implied(a, name);
    MisplacedIs(t, name);
    OwnOpened(t, name);
    StartTaggedOpen(table, s, name);
    events := EndedExactly(StartTagged(table, s, name), ending);
    assert t.stack + [] == t.stack && t.log + Starts([]) == t.log by {
      OpeningNone(t);
    }
  }

  lemma OwnOpened(t: State, name: string)
    ensures Push(t, name).log == t.log + Starts([name])
  {
  }

  /** What is closed does not change what was seen. */
  lemma SameSeen(s: State, k: nat, newtag: string)
    requires Knows(s) && k <= |s.stack|
    ensures Needed(PopTo(s, k).log, s.stack[..k], newtag) == Needed(s.log, s.stack[..k], newtag)
  {
    PlacedEnds(s.log, s.stack[k..]);
  }

  /** Text opens a paragraph when nothing, html or head is on top, and nothing otherwise. */
  lemma TextExactly(table: seq<StartCloseRow>, s: State) returns (kept: nat)
    requires Inv(s) && Knows(s)
    ensures kept <= |s.stack| && (forall i :: kept <= i < |s.stack| ==> Closes(table, P, s.stack[i]))
    ensures var t := Step(table, s, Text);
      if s.stack != [] && s.stack[|s.stack| - 1] !in {HTML, HEAD} then t == s
      else
        var names := Needed(s.log, s.stack[..kept], P);
        && (kept > 0 ==> !Closes(table, P, s.stack[kept - 1]))
        && t.stack == s.stack[..kept] + names + [P]
        && t.log == s.log + Ends(s.stack[kept..]) + Starts(names) + Starts([P])
  {
    hide Inv, Knows, Needed, Starts, Ends, Implied, Closes;
    kept := Kept(table, s.stack, P);
    var a := AutoClosed(table, s, P);
    AutoClosedKeeps(table, s, P);
    PopToKnows(s, kept);
    SameSeen(s, kept, P);
    ImpliedExactly(a, P);
    OwnOpened(Implied(a, P), P);
  }

  /** A start tag closes an open element when the first row for it, among those that are indexed, lists it. */
  lemma ClosesIff(table: seq<StartCloseRow>, newtag: string, oldtag: string)
    ensures Closes(table, newtag, oldtag)
       <==> exists k :: && 0 <= k < |table| && k < 99 && table[k].newtag == newtag && oldtag in table[k].closed
                        && forall i :: 0 <= i < k ==> table[i].newtag != newtag
  {
  }

  // ---------------------------------------------------------------- end tags by name

  /** The open elements that stop an end tag: what may contain the element, up to html. */
  function Stopping(name: string): set<string> {
    var parts := {HEAD, BODY};
    var groups := {"thead", "tbody", "tfoot"};
    if name == HTML then {}
    else if name in parts then {HTML}
    else if name == "table" then {HTML} + parts
    else if name in groups then {HTML, "table"} + parts
    else if name == "tr" then {HTML, "table"} + parts + groups
    else if name == "td" || name == "th" then {HTML, "table", "tr"} + parts + groups
    else if name == "div" then {HTML, "table", "tr", "td", "th"} + parts + groups
    else {HTML, "table", "tr", "td", "th", "div"} + parts + groups
  }

  /** The priorities, row by row. */
  lemma PriorityIs(name: string)
    ensures Priority(name)
         == if name == "div" then 150 else if name == "td" || name == "th" then 160 else if name == "tr" then 170
            else if name in {"thead", "tbody", "tfoot"} then 180 else if name == "table" then 190
            else if name == HEAD || name == BODY then 200 else if name == HTML then 220 else 100
  {
    hide PriorityIn;
    assert END_PRIORITY[0..] == END_PRIORITY;
    PriorityRow(0, name);
    PriorityRow(1, name);
    PriorityRow(2, name);
    PriorityRow(3, name);
    PriorityRow(4, name);
    PriorityRow(5, name);
    PriorityRow(6, name);
    PriorityRow(7, name);
    PriorityRow(8, name);
    PriorityRow(9, name);
    PriorityRow(10, name);
    PriorityRow(11, name);
  }

  lemma PriorityRow(k: nat, name: string)
    requires k <= |END_PRIORITY|
    ensures PriorityIn(END_PRIORITY[k..], name)
         == if k == |END_PRIORITY| then 100
            else if END_PRIORITY[k].0 == name then END_PRIORITY[k].1
            else PriorityIn(END_PRIORITY[k + 1..], name)
  {
    hide END_PRIORITY;
    var rows := END_PRIORITY[k..];
    if k < |END_PRIORITY| {
      assert rows[1..] == END_PRIORITY[k + 1..];
    }
  }

  lemma StoppingIs(name: string, open: string)
    ensures open in Stopping(name) <==> Priority(open) > Priority(name)
  {
    PriorityIs(name);
    PriorityIs(open);
    hide Priority;
  }

  /** An end tag either answers a discarded start tag; or it closes the nearest element of its name and
      what is open in it, unless one of these stops it; or it does nothing at all. */
  lemma EndTagByName(table: seq<StartCloseRow>, s: State, name: string) returns (m: nat)
    ensures var t := Step(table, s, EndTag(name));
      if s.depth > 0 && name in {HTML, HEAD, BODY} then t == s.(depth := s.depth - 1, ignored := s.ignored + 1)
      else if m < |s.stack| then
        && s.stack[m] == name && t.stack == s.stack[..m] && t.log == s.log + Ends(s.stack[m..]) && t.depth == s.depth
        && forall i :: m < i < |s.stack| ==> s.stack[i] != name && s.stack[i] !in Stopping(name)
      else
        && t == s
        && forall k :: 0 <= k < |s.stack| && s.stack[k] == name ==>
             exists i :: k < i < |s.stack| && s.stack[i] in Stopping(name)
  {
    hide Priority, Stopping, Ends;
    forall i | 0 <= i < |s.stack| ensures s.stack[i] in Stopping(name) <==> Priority(s.stack[i]) > Priority(name) {
      StoppingIs(name, s.stack[i]);
    }
    var k := Match(s.stack, name);
    m := if k >= 0 && Reaches(s.stack, k, name) then k else |s.stack|;
  }
}
