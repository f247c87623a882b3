/** Canonical XML 1.0 of a whole document, all nodes visible: the recursive walk over the tree
    with its stack of rendered declarations, writing character by character. */
module C14n {
  import opened ListSpec
  import opened XmlStrings
  import opened Options
  import opened C14nNamespaces
  import opened C14nAttributes
  import opened C14nTree
  import opened C14nOrder
  import opened C14nText
  import opened C14nDocument

  // ---------------------------------------------------------------- what is left to write

  lemma AxisKeepsDefault(own: seq<Ns>, parent: seq<Ns>)
    ensures Search(parent, "") < |parent| ==> Search(own + parent, "") < |own + parent|
  {
    SearchInOuter(own, parent, "");
  }

  lemma NextToken(ts: seq<Token>, i: nat)
    requires i < |ts|
    ensures TextOf(ts[i..]) == TokenText(ts[i]) + TextOf(ts[i + 1..])
  {
    assert ts[i..][1..] == ts[i + 1..];
  }

  lemma NextChild(buf: string, ns: seq<Node>, axis: seq<Ns>)
    requires ns != []
    ensures buf + TextOf(TokensAll(RenderAll(ns, axis)))
         == buf + TextOf(Tokens(Render(ns[0], axis))) + TextOf(TokensAll(RenderAll(ns[1..], axis)))
  {
    hide Tokens, Render, TextOf;
    assert RenderAll(ns, axis)[1..] == RenderAll(ns[1..], axis);
    TextAppend(Tokens(Render(ns[0], axis)), TokensAll(RenderAll(ns[1..], axis)));
  }

  lemma OneToken(t: Token)
    ensures TextOf([t]) == TokenText(t)
  {
    assert [t][1..] == [];
  }

  lemma NothingLeft()
    ensures TextOf([]) == ""
  {
  }

  /** More tokens are written behind those that are. */
  lemma WrittenMore(before: string, done: seq<Token>, more: seq<Token>)
    ensures before + TextOf(done) + TextOf(more) == before + TextOf(done + more)
  {
    TextAppend(done, more);
    hide TextOf;
    Behind(before, TextOf(done), TextOf(more));
  }

  lemma Behind(a: string, b: string, c: string)
    ensures a + b + c == a + (b + c)
  {
  }

  lemma Behind3(a: string, b: string, c: string, d: string)
    ensures a + b + c + d == a + (b + c + d)
  {
    Behind(a, b, c);
    Behind(a, b + c, d);
  }

  lemma Behind5(a: string, b: string, c: string, d: string, e: string, f: string)
    ensures a + b + c + d + e + f == a + (b + c + d + e + f)
  {
    Behind3(a, b, c, d);
    Behind3(a, b + c + d, e, f);
  }

  /** The tokens of an element are those of its parts. */
  lemma PartsOfRendered(cur: Node, parent: seq<Ns>)
    requires cur.Element?
    ensures [StartTag(cur.prefix, cur.name)] + XmlnsTokens(Printed(cur.nsDef + parent, parent))
            + AttributeTokens(Mapped(Anonymous, SortedAttrs(cur.attrs))) + [StartTagEnd]
            + TokensAll(RenderAll(cur.children, cur.nsDef + parent)) + [EndTag(cur.prefix, cur.name)]
         == Tokens(Render(cur, parent))
  {
    hide XmlnsTokens, AttributeTokens, TokensAll, Printed, RenderAll;
  }

  class Ctx {
    const nsRendered: VisibleNsStack
    var buf: string    // what has been written to the output

    ghost predicate Valid()
      reads this, nsRendered
    {
      nsRendered.Valid()
    }

    /** The stack holds what an element below these declarations expects to find. */
    ghost predicate Ready(parent: seq<Ns>)
      requires Valid()
      reads this, nsRendered, nsRendered.nsTab
    {
      && StackFor(nsRendered.Entries(), nsRendered.nsPrevStart, parent)
      && nsRendered.nsPrevEnd == nsRendered.nsCurEnd
    }

    constructor ()
      ensures Valid() && Ready([]) && buf == [] && fresh(nsRendered) && fresh(nsRendered.nsTab)
    {
      nsRendered := new VisibleNsStack();
      buf := [];
    }

    method WriteName(prefix: string, name: string)
      modifies this`buf
      ensures buf == old(buf) + QName(prefix, name)
    {
      if |prefix| > 0 {
        buf := buf + prefix;
        buf := buf + ":";
        Behind3(old(buf), prefix, ":", name);
      }
      buf := buf + name;
    }

    method WriteStart(prefix: string, name: string)
      modifies this`buf
      ensures buf == old(buf) + TextOf([StartTag(prefix, name)])
    {
      hide QName, TextOf;
      buf := buf + "<";
      WriteName(prefix, name);
      Behind(old(buf), "<", QName(prefix, name));
      OneToken(StartTag(prefix, name));
    }

    method WriteTagEnd()
      modifies this`buf
      ensures buf == old(buf) + TextOf([StartTagEnd])
    {
      OneToken(StartTagEnd);
      buf := buf + ">";
    }

    method WriteEnd(prefix: string, name: string)
      modifies this`buf
      ensures buf == old(buf) + TextOf([EndTag(prefix, name)])
    {
      hide QName, TextOf;
      buf := buf + "</";
      WriteName(prefix, name);
      buf := buf + ">";
      Behind3(old(buf), "</", QName(prefix, name), ">");
      OneToken(EndTag(prefix, name));
    }

    /** The name of a namespace is written as it is. */
    method PrintNamespaces(ns: Ns)
      modifies this`buf
      ensures buf == old(buf) + TokenText(Xmlns(ns))
    {
      ghost var name := if ns.prefix != "" then ":" + ns.prefix else "";
      if ns.prefix != "" {
        buf := buf + " xmlns:";
        buf := buf + ns.prefix;
        buf := buf + "=\"";
        assert " xmlns:" == " xmlns" + ":";
      } else {
        buf := buf + " xmlns=\"";
        assert " xmlns=\"" == " xmlns" + "=\"";
      }
      assert buf == old(buf) + " xmlns" + name + "=\"";
      buf := buf + ns.href;
      buf := buf + "\"";
      Behind5(old(buf), " xmlns", name, "=\"", ns.href, "\"");
    }

    method PrintAttrs(attr: Attr)
      modifies this`buf
      ensures buf == old(buf) + TokenText(AttributeToken(attr))
    {
      hide QName, Normalized;
      ghost var prefix := if attr.ns.Some? then attr.ns.value.prefix else "";
      buf := buf + " ";
      WriteName(if attr.ns.Some? then attr.ns.value.prefix else "", attr.name);
      buf := buf + "=\"";
      var buffer := NormalizeString(attr.value, InAttr);
      buf := buf + buffer;
      buf := buf + "\"";
      Behind5(old(buf), " ", QName(prefix, attr.name), "=\"", buffer, "\"");
    }

    method PrintAllNamespaces(namespaces: seq<Ns>)
      modifies this`buf
      ensures buf == old(buf) + TextOf(XmlnsTokens(namespaces))
    {
      ghost var ts := XmlnsTokens(namespaces);
      hide XmlnsTokens, TokenText;
      assert ts[0..] == ts;
      for i := 0 to |namespaces|
        invariant buf + TextOf(ts[i..]) == old(buf) + TextOf(ts)
      {
        NextToken(ts, i);
        PrintNamespaces(namespaces[i]);
      }
    }

    method PrintAllAttrs(attrs: seq<Attr>)
      modifies this`buf
      ensures buf == old(buf) + TextOf(AttributeTokens(Mapped(Anonymous, attrs)))
    {
      ghost var ts := AttributeTokens(Mapped(Anonymous, attrs));
      hide AttributeTokens, TokenText;
      assert ts[0..] == ts;
      for i := 0 to |attrs|
        invariant buf + TextOf(ts[i..]) == old(buf) + TextOf(ts)
      {
        NextToken(ts, i);
        PrintAttrs(attrs[i]);
      }
    }

    method ProcessElementNode(cur: Node, parent: seq<Ns>)
      requires Valid() && cur.Element? && Ready(parent)
      modifies this`buf, nsRendered, nsRendered.nsTab
      ensures Valid() && Ready(parent)
      ensures nsRendered.nsTab == old(nsRendered.nsTab) || fresh(nsRendered.nsTab)
      ensures nsRendered.nsPrevStart == old(nsRendered.nsPrevStart)
      ensures nsRendered.Entries() == old(nsRendered.Entries())
      ensures buf == old(buf) + TextOf(Tokens(Render(cur, parent)))
      decreases cur, 0
    {
      hide StackFor, Printed, Visible, SortedAttrs, Tokens, TokensAll, XmlnsTokens, AttributeTokens, TextOf, TokenText;
      hide Render, RenderAll, Search, Anonymous;
      ghost var entries, start, written := nsRendered.Entries(), nsRendered.nsPrevStart, buf;
      var axis := cur.nsDef + parent;
      AxisKeepsDefault(cur.nsDef, parent);
      var nsCurEnd, nsPrevStart, nsPrevEnd := nsRendered.Save();
      WriteStart(cur.prefix, cur.name);
      var namespaces := ProcessNamespacesAxis(nsRendered, axis, parent);
      ghost var done := [StartTag(cur.prefix, cur.name)];
      WrittenMore(written, done, XmlnsTokens(namespaces));
      PrintAllNamespaces(namespaces);
      nsRendered.Shift();
      StackForChildren(entries, start, cur.nsDef, parent);
      var attrs := ProcessAttrsAxis(cur.attrs);
      done := done + XmlnsTokens(namespaces);
      WrittenMore(written, done, AttributeTokens(Mapped(Anonymous, attrs)));
      PrintAllAttrs(attrs);
      done := done + AttributeTokens(Mapped(Anonymous, attrs));
      WrittenMore(written, done, [StartTagEnd]);
      WriteTagEnd();
      done := done + [StartTagEnd];
      WrittenMore(written, done, TokensAll(RenderAll(cur.children, axis)));
      ProcessNodeList(cur.children, axis);
      done := done + TokensAll(RenderAll(cur.children, axis));
      WrittenMore(written, done, [EndTag(cur.prefix, cur.name)]);
      WriteEnd(cur.prefix, cur.name);
      assert nsRendered.Entries()[..nsCurEnd] == entries;
      nsRendered.Restore(nsCurEnd, nsPrevStart, nsPrevEnd);
      PartsOfRendered(cur, parent);
    }

    method ProcessNodeList(children: seq<Node>, axis: seq<Ns>)
      requires Valid() && Ready(axis)
      modifies this`buf, nsRendered, nsRendered.nsTab
      ensures Valid() && Ready(axis)
      ensures nsRendered.nsTab == old(nsRendered.nsTab) || fresh(nsRendered.nsTab)
      ensures nsRendered.nsPrevStart == old(nsRendered.nsPrevStart)
      ensures nsRendered.Entries() == old(nsRendered.Entries())
      ensures buf == old(buf) + TextOf(TokensAll(RenderAll(children, axis)))
      decreases children, 2
    {
      hide StackFor, Render, Tokens, TextOf;
      assert children[0..] == children;
      for i := 0 to |children|
        invariant Valid() && Ready(axis)
        invariant nsRendered.nsTab == old(nsRendered.nsTab) || fresh(nsRendered.nsTab)
        invariant nsRendered.nsPrevStart == old(nsRendered.nsPrevStart)
        invariant nsRendered.Entries() == old(nsRendered.Entries())
        invariant buf + TextOf(TokensAll(RenderAll(children[i..], axis))) == old(buf) + TextOf(TokensAll(RenderAll(children, axis)))
      {
        NextChild(buf, children[i..], axis);
        ProcessNode(children[i], axis);
        assert children[i..][1..] == children[i + 1..];
      }
      NothingLeft();
    }

    method ProcessNode(cur: Node, parent: seq<Ns>)
      requires Valid() && Ready(parent)
      modifies this`buf, nsRendered, nsRendered.nsTab
      ensures Valid() && Ready(parent)
      ensures nsRendered.nsTab == old(nsRendered.nsTab) || fresh(nsRendered.nsTab)
      ensures nsRendered.nsPrevStart == old(nsRendered.nsPrevStart)
      ensures nsRendered.Entries() == old(nsRendered.Entries())
      ensures buf == old(buf) + TextOf(Tokens(Render(cur, parent)))
      decreases cur, 1
    {
      match cur
      case Element(_, _, _, _, _) => ProcessElementNode(cur, parent);
      case Text(content) =>
        var buffer := NormalizeString(content, InText);
        buf := buf + buffer;
        OneToken(Characters(content));
    }
  }

  /** The canonical form of a document: read back, it is the one tree in order that means what the
      document means, as long as no prefix is bound to a name that needs a reference. */
  method Execute(doc: Node) returns (out: string)
    requires Sound(doc)
    ensures out == Form(doc)
    ensures BindingsPlain(doc, []) <==> ReadDocument(out) == Some(CanonicalTree(doc))
    ensures var r := ReadDocument(out);
      BindingsPlain(doc, []) ==> r.Some? && OrderedTree(r.value, []) && SameMeaning(Merged(doc), [], r.value, [])
  {
    hide Sound, BindingsPlain, ReadDocument, OrderedTree, SameMeaning, Merged, Render, Tokens, TextOf;
    var ctx := new Ctx();
    SoundElement(doc);
    ctx.ProcessElementNode(doc, []);
    out := ctx.buf;
    FormReadsBackIff(doc);
    CanonicalTreeMeans(doc);
    CanonicalTreeIs(doc, CanonicalTree(doc));
  }

  lemma SoundElement(doc: Node)
    requires Sound(doc)
    ensures doc.Element?
  {
  }
}
