/** The HTML parser's stack of open elements, updated in place as tags are met. Every step does
    to the stack, the flags and the events what HtmlSpec says. */
module HtmlStack {
  import opened Options
  import opened HtmlSpec
  import opened HtmlPlaces

  const NAME_STACK := 10

  class HtmlParserCtxt {
    const startClose: seq<StartCloseRow>
    var nameTab: array<string>
    var nameNr: nat
    var name: Option<string>       // the element on top
    var html: nat
    var depth: nat
    var events: seq<Event>         // what the handlers have been told, and the silent drops
    ghost var discarded: nat
    ghost var ignored: nat
    ghost var impliedBodies: nat

    ghost predicate Valid()
      reads this, nameTab
    {
      && 0 < nameTab.Length && nameNr <= nameTab.Length
      && name == (if nameNr > 0 then Some(nameTab[nameNr - 1]) else None)
    }

    ghost function State(): State
      requires Valid()
      reads this, nameTab
    {
      HtmlSpec.State.State(nameTab[..nameNr], html, depth, events, discarded, ignored, impliedBodies)
    }

    constructor (table: seq<StartCloseRow>)
      ensures Valid() && State() == INITIAL && startClose == table && fresh(nameTab)
    {
      startClose := table;
      nameTab := new string[NAME_STACK](_ => "");
      nameNr, name, html, depth, events := 0, None, 1, 0, [];
      discarded, ignored, impliedBodies := 0, 0, 0;
    }

    // -------------------------------------------------------------- the stack

    method NamePush(value: string)
      requires Valid()
      modifies this`nameTab, this`nameNr, this`name, this`html, nameTab
      ensures Valid() && (nameTab == old(nameTab) || fresh(nameTab))
      ensures State() == old(State()).(stack := old(State()).stack + [value], html := Seen(old(html), value))
    {
      MarkSeen(value);
      if nameNr >= nameTab.Length {
        GrowTab();
      }
      nameTab[nameNr] := value;
      name := Some(value);
      nameNr := nameNr + 1;
    }

    method MarkSeen(value: string)
      modifies this`html
      ensures html == Seen(old(html), value)
    {
      NamesDiffer();
      hide HTML, HEAD, BODY;
      if html < 3 && value == HEAD {
        html := 3;
      }
      if html < 10 && value == BODY {
        html := 10;
      }
    }

    method GrowTab()
      requires Valid() && nameNr == nameTab.Length
      modifies this`nameTab
      ensures Valid() && fresh(nameTab) && nameNr < nameTab.Length && nameTab[..nameNr] == old(nameTab[..nameNr])
    {
      var tab := new string[nameTab.Length * 2](_ => "");
      forall i | 0 <= i < nameNr {
        tab[i] := nameTab[i];
      }
      nameTab := tab;
    }

    method NamePop()
      requires Valid()
      modifies this`nameNr, this`name, nameTab
      ensures Valid()
      ensures var s := old(State()); State() == if s.stack == [] then s else s.(stack := s.stack[..|s.stack| - 1])
    {
      if nameNr <= 0 {
        return;
      }
      nameNr := nameNr - 1;
      if nameNr > 0 {
        name := Some(nameTab[nameNr - 1]);
      } else {
        name := None;
      }
      nameTab[nameNr] := "";
    }

    method StartElement(value: string)
      modifies this`events
      ensures events == old(events) + [Start(value)]
    {
      events := events + [Start(value)];
    }

    method EndElement(value: string)
      modifies this`events
      ensures events == old(events) + [End(value)]
    {
      events := events + [End(value)];
    }

    /** The pair of steps with which every opening in the parser begins an element. */
    method Begin(value: string)
      requires Valid()
      modifies this`nameTab, this`nameNr, this`name, this`html, this`events, nameTab
      ensures Valid() && (nameTab == old(nameTab) || fresh(nameTab))
      ensures State() == Push(old(State()), value)
    {
      NamePush(value);
      StartElement(value);
    }

    /** The pair of steps with which every closing in the parser ends an element. */
    method EndTop()
      requires Valid() && nameNr > 0
      modifies this`nameNr, this`name, this`events, nameTab
      ensures Valid() && State() == Pop(old(State()))
    {
      PopOfPopTo(State(), |State().stack|);
      PopToAll(State());
      EndElement(name.value);
      NamePop();
    }

    /** One more of the elements that were open in `s`. */
    method EndNext(ghost s: State)
      requires Valid() && 0 < nameNr <= |s.stack| && State() == PopTo(s, nameNr)
      modifies this`nameNr, this`name, this`events, nameTab
      ensures Valid() && nameNr == old(nameNr) - 1 && State() == PopTo(s, nameNr)
      ensures nameTab[..nameNr] == s.stack[..nameNr]
    {
      hide Pop, PopTo;
      PopOfPopTo(s, nameNr);
      StackOfPopTo(s, nameNr - 1);
      EndTop();
    }

    // -------------------------------------------------------------- automatic closing

    method CheckAutoClose(newtag: string, oldtag: string) returns (closes: bool)
      ensures closes == Closes(startClose, newtag, oldtag)
    {
      var indx := 0;
      while indx < 99 && indx < |startClose| && startClose[indx].newtag != newtag
        invariant indx <= 99 && indx <= |startClose| && indx <= RowOf(startClose, newtag)
      {
        indx := indx + 1;
      }
      if indx >= 99 || indx >= |startClose| {
        return false;
      }
      var closed := startClose[indx].closed;
      for i := 0 to |closed|
        invariant forall j :: 0 <= j < i ==> closed[j] != oldtag
      {
        if closed[i] == oldtag {
          return true;
        }
      }
      closes := false;
    }

    method AutoClose(newtag: string)
      requires Valid()
      modifies this`nameNr, this`name, this`events, nameTab
      ensures Valid() && State() == AutoClosed(startClose, old(State()), newtag)
    {
      hide Closes, Pop, PopTo;
      ghost var s := State();
      ghost var k := Kept(startClose, s.stack, newtag);
      PopToAll(s);
      var closes := false;
      if name.Some? {
        closes := CheckAutoClose(newtag, name.value);
      }
      while name.Some? && closes
        invariant Valid() && k <= nameNr <= |s.stack| && State() == PopTo(s, nameNr)
        invariant nameTab[..nameNr] == s.stack[..nameNr]
        invariant name.Some? ==> closes == Closes(startClose, newtag, name.value)
        decreases nameNr
      {
        assert k < nameNr;
        EndNext(s);
        if name.Some? {
          closes := CheckAutoClose(newtag, name.value);
        }
      }
    }

    method AutoCloseOnEnd()
      requires Valid()
      modifies this`nameNr, this`name, this`events, nameTab
      ensures Valid() && State() == PopTo(old(State()), 0)
    {
      ghost var s := State();
      PopToAll(s);
      if nameNr == 0 {
        return;
      }
      var i := nameNr;
      while i > 0
        invariant Valid() && i == nameNr <= |s.stack| && State() == PopTo(s, i)
      {
        EndNext(s);
        i := i - 1;
      }
    }

    method GetEndPriority(value: string) returns (priority: nat)
      ensures priority == Priority(value)
    {
      var i := 0;
      assert END_PRIORITY[0..] == END_PRIORITY;
      while i < |END_PRIORITY| && END_PRIORITY[i].0 != value
        invariant i <= |END_PRIORITY| && PriorityIn(END_PRIORITY[i..], value) == Priority(value)
      {
        i := i + 1;
      }
      priority := if i < |END_PRIORITY| then END_PRIORITY[i].1 else DEFAULT_PRIORITY;
    }

    /** Closes what an end tag implicitly ends, down to but not including its own element. The
        closing loop has no guard of its own: it stops because the search found a match. */
    method AutoCloseOnClose(newtag: string)
      requires Valid()
      modifies this`nameNr, this`name, this`events, nameTab
      ensures Valid()
      ensures var s := old(State()); var m := Match(s.stack, newtag);
        State() == if m >= 0 && Reaches(s.stack, m, newtag) then PopTo(s, m + 1) else s
    {
      hide Priority, Pop, PopTo, Ends;
      ghost var s := State();
      ghost var m := Match(s.stack, newtag);
      PopToAll(s);
      var found := FindToClose(newtag);
      if !found {
        return;
      }
      while name != Some(newtag)
        invariant Valid() && m < nameNr <= |s.stack| && State() == PopTo(s, nameNr)
        invariant nameTab[..nameNr] == s.stack[..nameNr]
        decreases nameNr
      {
        EndNext(s);
      }
    }

    /** Searches down from the top for the element of an end tag, up to one of higher priority. */
    method FindToClose(newtag: string) returns (found: bool)
      requires Valid()
      ensures var stack := State().stack; var m := Match(stack, newtag);
        found <==> m >= 0 && Reaches(stack, m, newtag)
    {
      hide Priority;
      ghost var stack := State().stack;
      ghost var m := Match(stack, newtag);
      var priority := GetEndPriority(newtag);
      var i := nameNr;
      while i > 0
        invariant m < i <= nameNr
        invariant forall j :: i <= j < |stack| ==> Priority(stack[j]) <= priority
        decreases i
      {
        if nameTab[i - 1] == newtag {
          return true;
        }
        var p := GetEndPriority(nameTab[i - 1]);
        if p > priority {
          return false;
        }
        i := i - 1;
      }
      found := false;
    }

    // -------------------------------------------------------------- implied tags

    method CheckImplied(newtag: string)
      requires Valid()
      modifies this, nameTab
      ensures Valid() && (nameTab == old(nameTab) || fresh(nameTab))
      ensures State() == Implied(old(State()), newtag)
    {
      hide HTML, HEAD, BODY, P, HEAD_CONTENT, FRAMES, Push;
      if newtag == HTML {
        return;
      }
      if nameNr <= 0 {
        Begin(HTML);
      }
      if newtag == BODY || newtag == HEAD {
        return;
      }
      if nameNr <= 1 && newtag in HEAD_CONTENT {
        if html >= 3 {
          return;
        }
        Begin(HEAD);
      } else if newtag !in FRAMES {
        if html >= 10 {
          return;
        }
        for i := 0 to nameNr
          invariant forall j :: 0 <= j < i ==> nameTab[j] != BODY && nameTab[j] != HEAD
        {
          if nameTab[i] == BODY {
            return;
          }
          if nameTab[i] == HEAD {
            return;
          }
        }
        Begin(BODY);
        impliedBodies := impliedBodies + 1;
      }
    }

    method CheckParagraph() returns (inserted: bool)
      requires Valid()
      modifies this, nameTab
      ensures Valid() && (nameTab == old(nameTab) || fresh(nameTab))
      ensures State() == Paragraph(startClose, old(State()))
      ensures inserted <==> old(name.None? || name.value == HTML || name.value == HEAD)
    {
      hide HTML, HEAD, BODY, P, Implied, AutoClosed, Push;
      if name.None? || name.value == HTML || name.value == HEAD {
        AutoClose(P);
        CheckImplied(P);
        Begin(P);
        inserted := true;
      } else {
        inserted := false;
      }
    }

    // -------------------------------------------------------------- tags

    /** The stack part of a start tag: whether it was discarded. */
    method ParseStartTag(tag: string) returns (discardtag: bool)
      requires Valid()
      modifies this, nameTab
      ensures Valid() && (nameTab == old(nameTab) || fresh(nameTab))
      ensures State() == StartTagged(startClose, old(State()), tag)
    {
      hide HTML, HEAD, BODY, Implied, AutoClosed, Push, Opened;
      discardtag := false;
      AutoClose(tag);
      CheckImplied(tag);
      ghost var t := State();
      discardtag := CheckMisplaced(tag);
      if !discardtag {
        Begin(tag);
      } else {
        discarded := discarded + 1;
      }
    }

    /** html is allowed at the bottom only, head right above it only, body once. Each finding
        counts as one open level that is not there. */
    method CheckMisplaced(tag: string) returns (discardtag: bool)
      requires Valid()
      modifies this`depth
      ensures Valid()
      ensures var s := old(State()); var n := Misplaced(s.stack, tag);
        State() == s.(depth := s.depth + n) && (discardtag <==> n > 0)
    {
      NamesDiffer();
      hide HTML, HEAD, BODY;
      ghost var s := State();
      discardtag := false;
      if nameNr > 0 && tag == HTML {
        discardtag := true;
        depth := depth + 1;
      }
      if nameNr != 1 && tag == HEAD {
        discardtag := true;
        depth := depth + 1;
      }
      if tag == BODY {
        for indx := 0 to nameNr
          invariant depth == s.depth + Count(s.stack[..indx], BODY)
          invariant discardtag <==> Count(s.stack[..indx], BODY) > 0
        {
          assert s.stack[..indx + 1][..indx] == s.stack[..indx];
          if nameTab[indx] == BODY {
            discardtag := true;
            depth := depth + 1;
          }
        }
        assert s.stack[..nameNr] == s.stack;
      }
    }

    method ParseEndTag(tag: string) returns (closed: bool)
      requires Valid()
      modifies this, nameTab
      ensures Valid() && nameTab == old(nameTab)
      ensures State() == EndTagged(old(State()), tag)
      ensures closed <==> State().stack != old(State()).stack
    {
      hide HTML, HEAD, BODY, Priority, Pop, PopTo;
      ghost var s := State();
      ghost var m := Match(s.stack, tag);
      if depth > 0 && (tag == HTML || tag == BODY || tag == HEAD) {
        depth := depth - 1;
        ignored := ignored + 1;
        return false;
      }
      var i := nameNr;
      while i > 0 && nameTab[i - 1] != tag
        invariant m < i <= nameNr
      {
        i := i - 1;
      }
      if i == 0 {
        return false;
      }
      AutoCloseOnClose(tag);
      TopIfReached(s.stack, m, tag);
      StackOfPopTo(s, m + 1);
      closed := name == Some(tag);
      assert closed <==> Reaches(s.stack, m, tag);
      if closed {
        PopOfPopTo(s, m + 1);
        StackOfPopTo(s, m);
        EndTop();
      }
    }

    /** A start tag and what ends it. */
    method ParseElement(tag: string, ending: Ending)
      requires Valid()
      modifies this, nameTab
      ensures Valid() && (nameTab == old(nameTab) || fresh(nameTab))
      ensures State() == Step(startClose, old(State()), StartTag(tag, ending))
    {
      hide EMPTY_ELEMENTS, StartTagged, Ends;
      var discardtag := ParseStartTag(tag);
      StartTaggedOpen(startClose, old(State()), tag);
      match ending
      case Slash =>
        EndTop();
      case Gt =>
        if name.value in EMPTY_ELEMENTS {
          EndTop();
        }
      case Missing(atEnd) =>
        events := events + [Dropped(name.value)];
        NamePop();
        if atEnd {
          AutoCloseOnEnd();
        }
    }

    /** Any run over any document. */
    method ParseContent(tokens: seq<Token>)
      requires Valid()
      modifies this, nameTab
      ensures Valid() && (nameTab == old(nameTab) || fresh(nameTab))
      ensures State() == Run(startClose, old(State()), tokens)
    {
      hide StartTagged, Ended, EndTagged, Paragraph, AutoClosed, PopTo;
      ghost var s := State();
      assert tokens[0..] == tokens;
      for i := 0 to |tokens|
        invariant Valid() && (nameTab == old(nameTab) || fresh(nameTab))
        invariant Run(startClose, State(), tokens[i..]) == Run(startClose, s, tokens)
      {
        ghost var before := State();
        assert tokens[i..][1..] == tokens[i + 1..];
        match tokens[i] {
          case StartTag(tag, ending) => ParseElement(tag, ending);
          case Peeked(tag) => AutoClose(tag);
          case EndTag(tag) => var _ := ParseEndTag(tag);
          case Text => var _ := CheckParagraph();
          case EndOfInput => AutoCloseOnEnd();
        }
        assert State() == Step(startClose, before, tokens[i]);
      }
    }
  }

  lemma TopIfReached(stack: seq<string>, m: int, tag: string)
    requires m == Match(stack, tag) >= 0
    ensures Reaches(stack, m, tag) <== stack[|stack| - 1] == tag
    ensures stack[..m + 1][m] == tag
  {
  }

  /** A parser that has been through a whole document, whatever it was, has opened and closed
      the elements of a forest, each where it may be. */
  method ParseDocument(table: seq<StartCloseRow>, tokens: seq<Token>) returns (events: seq<Event>)
    ensures Opened(events) == Some([])
    ensures exists ts :: FlatAll(ts) == events
    ensures WellPlaced(events)
  {
    hide Opened, Run, PopTo, WellPlaced;
    var ctxt := new HtmlParserCtxt(table);
    ctxt.ParseContent(tokens);
    ctxt.AutoCloseOnEnd();
    events := ctxt.events;
    RunToEnd(table, tokens);
    RunIsPlaced(table, tokens);
    ClosedIffForest(events);
  }

  lemma StackOfPopTo(s: State, k: nat)
    requires k <= |s.stack|
    ensures PopTo(s, k).stack == s.stack[..k]
  {
  }

  lemma PopToAll(s: State)
    ensures PopTo(s, |s.stack|) == s
  {
    assert s.stack[|s.stack|..] == [] && s.stack[..|s.stack|] == s.stack;
    assert s.log + [] == s.log;
  }
}
