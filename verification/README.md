# svrNet, verified

svrNet is a small epoll server that exchanges length-prefixed packets with its clients and answers
them from a pool of workers. It carries the libxml2 sources along. This project models the parts of
both whose correctness is hard to see from any one function, in the form the code has — classes with
fields that methods update, loops over buffers, pointers that are rewired — and proves what they are
meant to guarantee.

- **The server** (`Bytes`, `Framing`, `Pack`, `SendQueue`, `Server`, `EpServer`). `Framing` says what
  a byte stream means: the packets at its front and the incomplete tail. `Pack` does that in place in
  a buffer. `EpServer` is the state machine of peers that connect, send and hang up, receive events,
  workers and send events over a kernel that hands over and takes any number of bytes it likes; its
  invariant gives `EndToEnd`: every reply owed for the bytes received on a live connection is in the
  pool, queued, or on the wire. Replies are removed only with their connection (`EndToEndEver`).
- **Sorted lists** (`ListSpec`, `LinkedList`). The ring of doubly linked nodes against a sequence.
- **Canonical XML 1.0** (`XmlStrings`, `C14nAttributes`, `C14nNamespaces`, `C14nTree`, `C14nOrder`,
  `C14nText`, `C14nScanner`, `C14nReader`, `C14nDocument`, `C14n`). The recursive walk with its
  save/shift/restore stack writes the canonical form, character by character. A scanner and a reader
  of their own make of it the one tree in canonical order that means what the document means.
- **HTML** (`HtmlSpec`, `HtmlPlaces`, `HtmlStack`, `HtmlEntities`, `HtmlEscapes`, `HtmlEncoder`,
  `HtmlInput`). The stack of open elements over any run of tokens, and where elements are opened;
  attribute values, escaped and read back.
- **Catalogs** (`CatalogIds`, `CatalogSearch`, `CatalogSays`, `CatalogWalks`, `CatalogOutcomes`,
  `CatalogResults`, `Catalog`). Resolution over any graph of catalogs, cyclic or not: what an answer rests on, that
  nothing is missed, and when the search depths come back. `CatalogSearch` is the search on values,
  with the state of all entries; `Catalog` has the classes.
- **Buffers** (`Buf`) and **dictionaries** (`DictStrings`, `DictKeys`, `DictItems`, `DictTable`,
  `Dict`) against byte sequences and a map from strings to addresses.

`Options` holds the option type. A method is proved against a function on values (`Pushed`,
`Inserted`, `Render`, `Step`, `EncodeInto`, …); the lemmas then say what that function is for.

Where the code does less than one would expect, the model does the same and the exact condition is
proved: the order of replies (`PushKeepsOrderIff`, `PushCanReorder`), the attribute comparator
(`CompareIsOrderIff`), namespace names in canonical XML, which are written as they are
(`FormReadsBackIff`, `NameBreaksOut`), reading escaped values back (`ReadsBackIff`,
`AmpersandIsNoQuote`), discarded start tags (`DiscardedLeavesIff`), and the search depths of catalogs (`DepthsRestoredIff`, by the walks
there are from catalog to catalog before the lookup; `SelfReference` is a catalog that loses an entry
after one failed lookup).

## Model

| member | source | states |
|---|---|---|
| `Framing.FramesRebuild` | src/core/pack.c:13-42 | the packets of a stream followed by its tail are the stream, every packet is one whole packet, and the tail holds none |
| `Framing.FramingUnique` | src/core/pack.c:13-42 | any way of cutting a stream into whole packets and an incomplete tail is the same one |
| `Framing.FramesAppend` | src/ep_svr.c:163-187 | bytes that come later can be framed together with the kept tail alone |
| `Framing.FeedIsFraming` | src/ep_svr.c:140-205 | pieces received one after the other, each framed behind the tail of the one before, give the framing of all of them together |
| `Framing.SplitDoesNotMatter` | src/ep_svr.c:140-205 | two ways of cutting the same bytes into pieces give the same packets and the same tail |
| `Framing.BoundedRest` | src/inc/config.h:10-18 | when all headers respect the packet limit, the tail is shorter than the tail cache |
| `Framing.PacketRoundTrip` | src/core/pack.c:45-59 | a packet made from a number and data is exactly one packet, and version, number and data read back |
| `Framing.PacketOfFields` | src/core/pack.c:45-59 | conversely, a packet of this version is the one made from its fields |
| `Framing.HeaderFields` | src/core/pack.h:5-13 | the fields of a header, byte by byte: version, message number and length from bytes 0, 2 and 6 on, lowest byte first |
| `Framing.PacketBytes` | src/core/pack.c:45-59 | all bytes of a packet that is written, one by one |
| `Pack.ParsePack` | src/core/pack.c:13-42 | takes the first packet off the front in place: what it took followed by what is left is what was there; an incomplete packet changes nothing |
| `Pack.NextPack` | src/core/pack.c:13-42 | the same for the stream in the buffer: its framing loses exactly its first packet |
| `Pack.CreatePack` | src/core/pack.c:45-59 | the overlapping moves leave the packet that carries the former contents, and nothing behind it changes |
| `SendQueue.Queue.Push` | src/helper/sendhelper.cpp:129-157 | merges into the front entry when it is of this connection and has room, else appends |
| `SendQueue.Queue.PopFirst` | src/helper/sendhelper.cpp:159-188 | hands over the first entry of the connection if it fits the caller's buffer, reports its length if not |
| `SendQueue.Queue.RemoveAllByConnId` | src/helper/sendhelper.cpp:205-224 | the loop that erases while it iterates removes exactly the entries of the connection, in one pass |
| `SendQueue.PushKeepsPackets` | src/helper/sendhelper.cpp:129-157 | a push adds exactly the packets pushed, counted packet by packet for every connection, and every entry stays a run of whole packets that fits the send buffer |
| `SendQueue.PopKeepsPackets` | src/helper/sendhelper.cpp:159-188 | a pop removes exactly the packets of the entry it hands over |
| `SendQueue.WithoutKeepsPackets` | src/helper/sendhelper.cpp:205-224 | removal takes all packets of one connection and none of another |
| `SendQueue.WithoutKeepsOrder` | src/helper/sendhelper.cpp:205-224 | removal leaves the bytes queued for every other connection as they are |
| `SendQueue.PushKeepsOrderIff` | src/helper/sendhelper.cpp:139-152 | pushed bytes come last for their connection exactly when they were not merged, or commute with what is queued behind the front entry |
| `SendQueue.PushOrderWhenAlone` | src/helper/sendhelper.cpp:139-152 | in particular when nothing of the connection is queued behind the front entry |
| `SendQueue.PushCanReorder` | src/helper/sendhelper.cpp:139-152 | five packets whose last overtakes the fourth |
| `Server.RecvHelper.Insert` | src/helper/recvhelper.cpp:52-69 | keeps a tail unless one is there already |
| `Server.RecvHelper.Find` | src/helper/recvhelper.cpp:72-101 | copies the tail out; reports -1 when there is none, and its length even when it does not fit |
| `Server.RecvHelper.Remove` | src/helper/recvhelper.cpp:104-123 | forgets the tail of one connection |
| `Server.StreamParses` | src/ep_svr.c:241-274 | entries of whole packets written one after the other parse back into exactly their packets with nothing left |
| `Server.RepliesAppend` | src/core/engine.c:25-55 | the replies owed for two runs of work are those owed for both |
| `Server.OnlyAndWithout` | src/helper/sendhelper.cpp:205-224 | the entries removed and the entries kept hold every packet exactly once |
| `Server.ReplyAnswers` | src/core/engine.c:36-46 | a packet is answered by nothing when the handler refuses, else by one packet of this version with its message number and what the handler gave for its data |
| `EpServer.EpServer.EndToEnd` | src/ep_svr.c:121-282 | in every state the steps below reach, for a live connection: the bytes sent parse without rest, and each reply owed for the packets received is as often on the wire, queued or still to be worked on as it is owed |
| `EpServer.EpServer.EndToEndEver` | src/ep_svr.c:121-282 | the same for every connection there ever was, where what was removed counts too |
| `EpServer.EpServer.RepliesOnWire` | src/ep_svr.c:121-282 | on a live connection the packets sent with a message number and certain data are no more than the packets received with this number that the handler answers with these data, and as many when nothing waits; all are of this version |
| `EpServer.EpServer.constructor` | src/ep_svr.c:121-220 | the server starts in such a state, with no connection |
| `EpServer.EpServer.Connect` | src/ep_svr.c:61-76 | a peer connects: nothing received, nothing sent |
| `EpServer.EpServer.Arrive` | src/ep_svr.c:140-205 | a peer sends any bytes within the packet limit, at any time before it hangs up |
| `EpServer.EpServer.HangUp` | src/ep_svr.c:206-213 | a peer hangs up, with bytes still in flight or not |
| `EpServer.EpServer.Congest` | src/ep_svr.c:250-276 | sends will report any number of times that they would block |
| `EpServer.EpServer.Accept` | src/ep_svr.c:61-114 | a connection gets a number that none had before, goes into the table, and the invariant is kept |
| `EpServer.EpServer.HandleEpollin` | src/ep_svr.c:121-220 | keeps the invariant and reads until recv has reported -1 or 0; the packets ever given to the pool for a connection are the framing of all bytes received on it, in order, and no other connection gets any; at -1 connections, queue and removed entries stay as they are; at 0 the peer has closed, everything was received, and exactly this connection and its queued entries go |
| `EpServer.EpServer.Reassemble` | src/ep_svr.c:168-205 | the loop over recv: dispatches exactly the packets completed by this event, keeps the tail when it would block, and ends otherwise only at the end of the stream |
| `EpServer.EpServer.Prepend` | src/ep_svr.c:142-166 | the kept tail followed by the new bytes, in place and within the receive buffer |
| `EpServer.EpServer.TakeMore` | src/ep_svr.c:187-189 | every recv asks for at least one byte, so that 0 means closed |
| `EpServer.EpServer.Keep` | src/ep_svr.c:192-198 | keeping the tail never meets one already there |
| `EpServer.EpServer.Drain` | src/ep_svr.c:173-187 | the inner loop hands over the packets of the buffer one by one and leaves its tail at the front |
| `EpServer.EpServer.Close` | src/ep_svr.c:206-213 | the connection and its tail go, its queued entries are removed, and the entries of all others stay, in order |
| `EpServer.EpServer.GiveUp` | src/helper/sendhelper.cpp:91-98 | the send thread removes a connection it cannot watch any more and exactly its entries; the tail stays behind, and the invariant is kept |
| `EpServer.EpServer.WorkProc` | src/core/engine.c:25-55 | the length assertion of a worker holds for every item in the pool; nothing is pushed when the handler refuses, else one packet of this version with the message number of the item and what the handler gave for its data |
| `EpServer.EpServer.Answer` | src/core/engine.c:36-46 | the reply built in place is such a packet |
| `EpServer.EpServer.HandleEpollout` | src/ep_svr.c:223-282 | all of the first entry of the connection is written, whatever the kernel takes at a time, and of no other |
| `EpServer.EpServer.WriteAll` | src/ep_svr.c:250-276 | the short-send loop writes the bytes once and in order |
| `ListSpec.SortIsStable` | third/libxml2/list.c:642-664 | duplicating and merging back gives a sorted permutation with every run of equals in its old order |
| `ListSpec.CopyReversesRuns` | third/libxml2/list.c:731-775 | copying through the sorted insert reverses each run of equals and puts it before what was there |
| `ListSpec.CopySorts` | third/libxml2/list.c:760-775 | copying any list into a sorted one leaves it sorted |
| `ListSpec.CopiedIsPermutation` | third/libxml2/list.c:760-775 | and neither loses nor adds an element |
| `ListSpec.SortedIsUnique` | third/libxml2/list.c:97-126 | two sorted lists with the same runs of equals are the same list |
| `ListSpec.CopyIgnoresOrder` | third/libxml2/list.c:272-294 | under a strict order the inserts reach the same list from every permutation |
| `ListSpec.CopiedMapped` | third/libxml2/list.c:760-775 | a change of the elements that keeps their order can be made before or after |
| `ListSpec.InsertKeepsOrder` | third/libxml2/list.c:272-294 | insert keeps a list sorted and puts the element before its equals |
| `ListSpec.AppendKeepsOrder` | third/libxml2/list.c:305-325 | append keeps a list sorted and puts the element after its equals |
| `ListSpec.RemoveFirstFinds` | third/libxml2/list.c:352-366 | on a sorted list the search finds an equal element exactly when there is one, and removing it takes the first of them only |
| `ListSpec.RemoveAllCounts` | third/libxml2/list.c:402-413 | on a sorted list all elements equal to the data go, the others keep their order, and the result is how many went |
| `ListSpec.ReversedTwice` | third/libxml2/list.c:617-634 | reversing is its own inverse |
| `ListSpec.VisitedIs` | third/libxml2/list.c:675-685 | a walk goes up to and including the first element that stops it, or to the end |
| `LinkedList.XmlList.constructor` | third/libxml2/list.c:187-219 | an empty ring |
| `LinkedList.XmlList.LowerSearch` | third/libxml2/list.c:97-106 | the first link not smaller than the data, or the sentinel |
| `LinkedList.XmlList.HigherSearch` | third/libxml2/list.c:117-126 | the last link not larger than the data, or the sentinel |
| `LinkedList.XmlList.LinkSearch` | third/libxml2/list.c:137-151 | the first equal link if the search hits one |
| `LinkedList.XmlList.Unlink` | third/libxml2/list.c:58-66 | both neighbours are joined, and the links stay a ring |
| `LinkedList.XmlList.Insert` | third/libxml2/list.c:272-294 | the ring holds the sequence with the data inserted below its equals |
| `LinkedList.XmlList.Append` | third/libxml2/list.c:305-325 | the same above its equals |
| `LinkedList.XmlList.RemoveFirst` | third/libxml2/list.c:352-366 | removes the element the search hits, if any |
| `LinkedList.XmlList.RemoveAll` | third/libxml2/list.c:402-413 | removes as long as the search hits, and counts |
| `LinkedList.XmlList.Clear` | third/libxml2/list.c:421-435 | an empty ring again |
| `LinkedList.XmlList.Copy` | third/libxml2/list.c:760-775 | every element of the other list is inserted in turn; the other list is unchanged |
| `LinkedList.XmlList.Dup` | third/libxml2/list.c:731-749 | a ring of new links with the inserted copy |
| `LinkedList.XmlList.Merge` | third/libxml2/list.c:716-721 | the other list's elements are inserted and the other list is emptied |
| `LinkedList.XmlList.Sort` | third/libxml2/list.c:642-664 | the ring holds the stable sort |
| `LinkedList.XmlList.Walk` | third/libxml2/list.c:675-685 | visits the elements in list order, up to and including the first at which the walker says stop |
| `LinkedList.XmlList.Reverse` | third/libxml2/list.c:617-634 | one pass that swaps both links of every node, the sentinel's too, leaves a ring of the same nodes in reverse |
| `C14nAttributes.CompareIsOrderIff` | third/libxml2/c14n.c:880-917 | the comparator orders a set of attributes exactly when no two of them have different namespaces without a prefix |
| `C14nAttributes.CompareIsKeyOrder` | third/libxml2/c14n.c:880-917 | it is then the order of section 2.2 of Canonical XML 1.0: no namespace first, then namespace name, then local name |
| `C14nAttributes.AttrsIgnoreOrder` | third/libxml2/c14n.c:1151-1173 | every permutation of an element's attributes is printed the same |
| `C14nAttributes.AttrsAreSorted` | third/libxml2/c14n.c:1151-1173 | all attributes are printed, strictly increasing |
| `C14nAttributes.ProcessAttrsAxis` | third/libxml2/c14n.c:1124-1173 | prints the sorted attributes through the linked list |
| `C14nNamespaces.VisibleAreBindings` | third/libxml2/c14n.c:622-629 | the declarations that pass the visibility test are exactly the prefix bindings in scope |
| `C14nNamespaces.RenderedIsBinding` | third/libxml2/c14n.c:411-444 | a declaration is found on the parent's entries exactly when the parent has this binding, with xmlns="" counting as bound where nothing is |
| `C14nNamespaces.FoundIsBinding` | third/libxml2/c14n.c:411-444 | the same on the whole stack with part of the element's own entries pushed, from whichever position the search starts |
| `C14nNamespaces.StackForChildren` | third/libxml2/c14n.c:382-390 | after the shift the stack is what the children's search needs |
| `C14nNamespaces.PrintedExactly` | third/libxml2/c14n.c:600-673 | a declaration for a prefix is printed on an element, once, exactly when its binding differs from the parent's |
| `C14nNamespaces.PrintedIsSorted` | third/libxml2/c14n.c:515-526 | the printed declarations are sorted by prefix, and none is for the xml prefix |
| `C14nNamespaces.PrintedKeepsBindings` | third/libxml2/c14n.c:600-673 | what is printed gives the element in the output every binding it has in the input |
| `C14nNamespaces.PrintedByBindings` | third/libxml2/c14n.c:600-673 | and depends on nothing but the bindings of the element and its parent |
| `C14nNamespaces.VisibleNsStack.Add` | third/libxml2/c14n.c:313-357 | the entries grow by one, through reallocation or not |
| `C14nNamespaces.VisibleNsStack.Save` | third/libxml2/c14n.c:359-369 | the three positions |
| `C14nNamespaces.VisibleNsStack.Restore` | third/libxml2/c14n.c:371-380 | the entries are cut back and the positions are those saved |
| `C14nNamespaces.VisibleNsStack.Shift` | third/libxml2/c14n.c:382-390 | the entries of the element become those of the parent |
| `C14nNamespaces.VisibleNsStack.Find` | third/libxml2/c14n.c:411-444 | the topmost entry for the prefix decides; xmlns="" is looked for on the whole stack |
| `C14nNamespaces.ProcessNs` | third/libxml2/c14n.c:624-638 | one declaration on the axis is pushed, listed and noted as default exactly when it is the nearest for its prefix, listed only when its binding is new |
| `C14nNamespaces.ProcessNamespacesAxis` | third/libxml2/c14n.c:600-673 | the walk over the ancestors' declarations pushes the bindings in scope, prints the new ones sorted, and never needs the extra xmlns="" |
| `C14nReader.CanonicalIff` | third/libxml2/c14n.c:1414-1511 | two documents whose prefixes are declared have the same printed names and values, without namespace names on attributes, exactly when they mean the same: the same elements with the same bindings in scope and the same attributes as sets |
| `C14nTree.RenderKeepsMeaning` | third/libxml2/c14n.c:1414-1511 | the output tree means what the input tree means, at every element |
| `C14nTree.RenderByMeaning` | third/libxml2/c14n.c:1414-1511 | trees that mean the same are printed the same |
| `C14nTree.CanonicalIsFixed` | third/libxml2/c14n.c:1414-1511 | canonicalizing twice is canonicalizing once |
| `C14nTree.RenderScoped` | third/libxml2/c14n.c:600-673 | every prefix of the printed tree is declared in the printed tree, as it was in the document |
| `C14nReader.TokensApart` | third/libxml2/c14n.c:1414-1511 | the output determines the printed tree, given the bindings it is read under: what is printed of an attribute is prefix, name and value |
| `C14nTree.AttrsBySet` | third/libxml2/c14n.c:1124-1173 | the printed attributes depend on the set of attributes only |
| `C14nOrder.RenderOrdered` | third/libxml2/c14n.c:515-526 | on every element the declarations are in the order of prefixes and all of them are new, and the attributes are in the order of section 2.2 of Canonical XML 1.0 |
| `C14nOrder.OrderedIsRendered` | third/libxml2/c14n.c:1414-1511 | a tree in this order is printed as it is |
| `C14nOrder.OrderedIsUnique` | third/libxml2/c14n.c:1414-1511 | two trees in this order with the same meaning are the same |
| `C14nReader.TokensReadBack` | third/libxml2/c14n.c:1414-1511 | a reader that looks prefixes up in the declarations read so far makes of the tokens the tree they were printed from |
| `C14nReader.ReadIsTokens` | third/libxml2/c14n.c:1414-1511 | and what it reads has exactly the tokens it was read from |
| `C14nText.NormalizeString` | third/libxml2/c14n.c:2146-2235 | the loop over a value or text |
| `C14nScanner.CharReadBack` | third/libxml2/c14n.c:2146-2235 | each character reads back, for a scanner that takes no character that section 2.3 of Canonical XML 1.0 wants written as a reference, and no reference to another |
| `C14nScanner.PlainReadsBackIff` | third/libxml2/c14n.c:538-560 | a string written as it is reads as itself exactly when it needs no reference |
| `C14nScanner.ScansBackIff` | third/libxml2/c14n.c:1414-1511 | the characters written scan as the tokens, texts joined, exactly when no namespace name among them needs a reference |
| `C14nDocument.FormReadsBackIff` | third/libxml2/c14n.c:1414-1511 | the canonical form of a document reads back as its canonical tree exactly when no prefix is bound to a name that needs a reference |
| `C14nDocument.CanonicalTreeIs` | third/libxml2/c14n.c:1414-1511 | this is the one tree in canonical order that means what the document means |
| `C14nDocument.FormsAgree` | third/libxml2/c14n.c:1414-1511 | documents with the same meaning have the same canonical form, character by character, and only those when namespace names need no references |
| `C14nDocument.NameBreaksOut` | third/libxml2/c14n.c:540-565 | two documents of different meaning with the same canonical form: a quote in a namespace name writes an attribute |
| `C14n.Execute` | third/libxml2/c14n.c:1866-1938 | what is written for a document reads back as a tree in order with its meaning, under that condition |
| `C14n.Ctx.constructor` | third/libxml2/c14n.c:1773-1830 | an empty stack, ready for the document element |
| `C14n.Ctx.ProcessElementNode` | third/libxml2/c14n.c:1414-1511 | appends the characters of the canonical form of the element to the output, and leaves the stack's entries and positions as they were |
| `C14n.Ctx.PrintNamespaces` | third/libxml2/c14n.c:538-565 | a declaration, its name as it is |
| `C14n.Ctx.PrintAttrs` | third/libxml2/c14n.c:932-968 | prefix, name and normalized value of an attribute |
| `C14n.Ctx.ProcessNodeList` | third/libxml2/c14n.c:1713-1727 | the same for a list of children |
| `C14n.Ctx.ProcessNode` | third/libxml2/c14n.c:1521-1700 | the same for any node |
| `HtmlSpec.RunToEnd` | third/libxml2/HTMLparser.c:4459-4615 | from the start of a document, whatever the tokens: the invariant holds, a body is implied at most once, ignored end tags never exceed discarded start tags, and closing what is left open completes the log |
| `HtmlSpec.RunKeeps` | third/libxml2/HTMLparser.c:4459-4615 | every run keeps the invariant: the open elements of the event log are the stack; html is at the bottom and nowhere else, head only above it, body at most once; no empty element stays open |
| `HtmlSpec.StepKeeps` | third/libxml2/HTMLparser.c:3662-3970 | the same for one token of any kind |
| `HtmlSpec.StartTaggedKeeps` | third/libxml2/HTMLparser.c:3702-3839 | a start tag, with all it closes, implies or discards, keeps it up to the element on top |
| `HtmlSpec.ImpliedKeeps` | third/libxml2/HTMLparser.c:1484-1539 | implied tags keep it, and leave something open |
| `HtmlSpec.EndedKeeps` | third/libxml2/HTMLparser.c:4402-4444 | whatever ends the tag, and on whichever element it then acts, keeps it |
| `HtmlSpec.EndTaggedKeeps` | third/libxml2/HTMLparser.c:3909-3967 | an end tag keeps it |
| `HtmlSpec.ParagraphKeeps` | third/libxml2/HTMLparser.c:1552-1581 | an implied paragraph keeps it |
| `HtmlSpec.EndTagExactly` | third/libxml2/HTMLparser.c:3909-3967 | an end tag changes neither stack nor events, or closes down to and including the nearest element of its name, past elements of no higher priority only, with their end events from the top |
| `HtmlSpec.EndTagIgnoredIff` | third/libxml2/HTMLparser.c:3909-3967 | it changes neither exactly when it answers a discarded start tag, or when above every open element of its name there is one of higher priority |
| `HtmlSpec.StartThenEnd` | third/libxml2/HTMLparser.c:3909-3967 | an end tag right after the start of its element undoes it |
| `HtmlSpec.TextIsPlaced` | third/libxml2/HTMLparser.c:1552-1581 | text never comes directly below html or head |
| `HtmlSpec.DiscardedLeavesIff` | third/libxml2/HTMLparser.c:4388-4444 | a discarded start tag opens nothing, and leaves the stack alone exactly when it ends with '>': otherwise what ends it acts on the element that is on top |
| `HtmlSpec.ClosedIffForest` | third/libxml2/HTMLparser.c:1374-1386 | an event log leaves nothing open exactly when it is the traversal of a forest |
| `HtmlSpec.ReadForest` | third/libxml2/HTMLparser.c:1374-1386 | every well-nested log is a row of forests around the open elements |
| `HtmlPlaces.RunIsPlaced` | third/libxml2/HTMLparser.c:1484-1581 | over any run of tokens, by the events alone: at the root only html is opened; directly below html only head, body and frames, what belongs into a head after there was one, and anything after there was a body; head only there |
| `HtmlPlaces.ImpliedExactly` | third/libxml2/HTMLparser.c:1484-1539 | html is implied when nothing is open, head by what belongs into one when there was no head or body, body by other content when there was none and no head is open, and nothing else |
| `HtmlPlaces.StartTagExactly` | third/libxml2/HTMLparser.c:3662-3856 | a start tag closes what the table says from the top, opens what it needs and, unless out of place, its own element; its ending closes, drops or leaves the element then on top |
| `HtmlPlaces.TextExactly` | third/libxml2/HTMLparser.c:1552-1581 | text opens a paragraph, and what that needs, when nothing, html or head is on top; else nothing |
| `HtmlPlaces.EndTagByName` | third/libxml2/HTMLparser.c:3873-3970 | an end tag closes down to the nearest element of its name unless one of certain names is in between: the elements that may contain it, up to html |
| `HtmlPlaces.StoppingIs` | third/libxml2/HTMLparser.c:1198-1211 | these are the elements of higher priority |
| `HtmlPlaces.ClosesIff` | third/libxml2/HTMLparser.c:1294-1321 | a start tag closes an element when the first of the 99 indexed rows for it lists the element |
| `HtmlStack.HtmlParserCtxt.NamePush` | third/libxml2/HTMLparser.c:166-186 | pushes, growing the table, and notes the first head and body |
| `HtmlStack.HtmlParserCtxt.NamePop` | third/libxml2/HTMLparser.c:196-213 | pops, if there is anything, and the top name is the one below |
| `HtmlStack.HtmlParserCtxt.CheckAutoClose` | third/libxml2/HTMLparser.c:1294-1321 | whether the first row for the new tag, among the indexed ones, lists the old one |
| `HtmlStack.HtmlParserCtxt.AutoClose` | third/libxml2/HTMLparser.c:1400-1421 | closes exactly the elements on top that the new tag closes |
| `HtmlStack.HtmlParserCtxt.AutoCloseOnEnd` | third/libxml2/HTMLparser.c:1374-1386 | closes everything, from the top |
| `HtmlStack.HtmlParserCtxt.GetEndPriority` | third/libxml2/HTMLparser.c:1271-1280 | the priority in the table, or the default |
| `HtmlStack.HtmlParserCtxt.AutoCloseOnClose` | third/libxml2/HTMLparser.c:1331-1366 | closes down to the matching element, if it can be reached; the loop without a guard ends |
| `HtmlStack.HtmlParserCtxt.CheckImplied` | third/libxml2/HTMLparser.c:1484-1539 | implies html, head or body |
| `HtmlStack.HtmlParserCtxt.CheckParagraph` | third/libxml2/HTMLparser.c:1552-1581 | implies a paragraph |
| `HtmlStack.HtmlParserCtxt.ParseStartTag` | third/libxml2/HTMLparser.c:3662-3856 | the stack part of a start tag |
| `HtmlStack.HtmlParserCtxt.CheckMisplaced` | third/libxml2/HTMLparser.c:3712-3742 | counts a misplaced html, head or body, body once for each open one |
| `HtmlStack.HtmlParserCtxt.ParseEndTag` | third/libxml2/HTMLparser.c:3873-3970 | the stack part of an end tag |
| `HtmlStack.HtmlParserCtxt.ParseElement` | third/libxml2/HTMLparser.c:4365-4448 | a start tag and what ends it |
| `HtmlStack.HtmlParserCtxt.ParseContent` | third/libxml2/HTMLparser.c:4458-4615 | any number of tokens |
| `HtmlStack.ParseDocument` | third/libxml2/HTMLparser.c:4458-4615 | the events of a whole document are the traversal of a forest in which every element is opened where it may be |
| `HtmlEntities.ReadsBackIff` | third/libxml2/HTMLparser.c:2089-2170 | text escaped for a quote, or for no quote, and then closed reads back as its UTF-8 bytes exactly when it has no blank (unquoted) and, for the quote '&', nothing that needs a reference |
| `HtmlEntities.RoundTrip` | third/libxml2/HTMLparser.c:2532-2658 | between any other quotes all text reads back, up to the closing quote |
| `HtmlEntities.AmpersandIsNoQuote` | third/libxml2/HTMLparser.c:2135-2164 | an ampersand between ampersands does not |
| `HtmlEntities.EncodedReadsBack` | third/libxml2/HTMLparser.c:2089-2170 | with limited room, what was written reads back as exactly the bytes consumed |
| `HtmlEntities.WholeCharacters` | third/libxml2/HTMLparser.c:2089-2170 | whole characters are consumed and no more of them would have fitted |
| `HtmlEntities.EncodeAll` | third/libxml2/HTMLparser.c:2089-2170 | with enough room all of the text is encoded |
| `HtmlEntities.RepeatedCallsAreOne` | third/libxml2/HTMLparser.c:2089-2170 | going on where the last call stopped gives what one call gives, on any bytes and with the same return code |
| `HtmlEntities.ScanOfUtf8` | third/libxml2/HTMLparser.c:2104-2133 | the decoder reads the UTF-8 form of any code (section 3 of RFC 3629) back, with its length |
| `HtmlEntities.ValueLookupFinds` | third/libxml2/HTMLparser.c:1955-1968 | the search that stops early misses no entry of a table sorted by value |
| `HtmlEntities.ValueLookupIsEntry` | third/libxml2/HTMLparser.c:1955-1968 | what it finds is the entry with this value |
| `HtmlEntities.EntityRefOfName` | third/libxml2/HTMLparser.c:2672-2708 | a reference by the name of a table entry reads as its character |
| `HtmlEntities.CharRefOfDecimal` | third/libxml2/HTMLparser.c:3309-3369 | a decimal reference of any length reads as its number in 32 bits, or as 0 when that is no character |
| `HtmlEntities.CharRefOfHex` | third/libxml2/HTMLparser.c:3309-3369 | so does a hexadecimal one, with letters in either case |
| `HtmlEntities.EntityRefUnknown` | third/libxml2/HTMLparser.c:2590-2620 | a reference by a name that is not in the table is left as it is |
| `HtmlEntities.PieceOfEscape` | third/libxml2/HTMLparser.c:2555-2655 | one escaped character, read in one turn of the loop, gives its bytes, or ends the value before it |
| `HtmlEscapes.EscapesAreRead` | third/libxml2/HTMLparser.c:2135-2164 | escaped text is read back by a reader that takes no character that must be escaped, no number for one that has a name, and no reference to one that may stand for itself |
| `HtmlEscapes.OutputIsRead` | third/libxml2/HTMLparser.c:2089-2170 | so is the output for any bytes and any room, as the first characters of the input |
| `HtmlEscapes.ReadIsSafe` | third/libxml2/HTMLparser.c:2135-2164 | text this reader takes is ASCII without angle brackets and without the quote, and every ampersand begins a reference that a semicolon ends |
| `HtmlEscapes.NamedByName` | third/libxml2/HTMLparser.c:2143-2158 | a character with an entry is written by the name of the entry |
| `HtmlEscapes.UnnamedByNumber` | third/libxml2/HTMLparser.c:2143-2158 | and one without by its decimal number |
| `HtmlEscapes.StopsWhere` | third/libxml2/HTMLparser.c:2089-2170 | on any bytes encoding stops at the end, at a malformed character, which alone is reported, at a cut-off one, or where the next does not fit |
| `HtmlEscapes.ScanFails` | third/libxml2/HTMLparser.c:2104-2133 | which byte strings begin with a malformed or cut-off character |
| `HtmlEncoder.EntityValueLookup` | third/libxml2/HTMLparser.c:1955-1968 | the loop over the table |
| `HtmlEncoder.EncodeEntities` | third/libxml2/HTMLparser.c:2089-2170 | output, both counts and return code are those of the specification, and nothing behind the output changes; the output is safe, and a strict reader reads it as the first characters of the input |
| `HtmlEncoder.NextChar` | third/libxml2/HTMLparser.c:2104-2133 | decodes one character, or reports a malformed or cut-off one |
| `HtmlInput.ParserInput.EntityLookup` | third/libxml2/HTMLparser.c:1932-1943 | the first entry of the name |
| `HtmlInput.ParserInput.ParseCharRef` | third/libxml2/HTMLparser.c:3309-3369 | number, wrapped to 32 bits, and rest of the input for both forms, 0 for what is no character |
| `HtmlInput.ParserInput.ParseName` | third/libxml2/HTMLparser.c:2452-2484 | the fast path and its fallback read the same name |
| `HtmlInput.ParserInput.ParseNameComplex` | third/libxml2/HTMLparser.c:2486-2516 | the longest name |
| `HtmlInput.ParserInput.ParseEntityRef` | third/libxml2/HTMLparser.c:2672-2708 | entity, name and rest of the input |
| `HtmlInput.ParserInput.ReadPiece` | third/libxml2/HTMLparser.c:2555-2655 | one turn of the loop: its bytes are appended, and there is room for the next turn |
| `HtmlInput.ParserInput.ParseHTMLAttribute` | third/libxml2/HTMLparser.c:2532-2658 | the growing buffer holds the value and a NUL, and the input stands where it ends |
| `HtmlInput.PutChar` | third/libxml2/HTMLparser.c:2563-2575 | the shifts and masks write the UTF-8 form |
| `CatalogIds.NormalIff` | third/libxml2/catalog.c:1028-1068 | a public identifier is normal exactly when normalizing keeps it |
| `CatalogIds.NormalTwice` | third/libxml2/catalog.c:1028-1068 | normalizing twice is normalizing once |
| `CatalogIds.NormalKeepsWords` | third/libxml2/catalog.c:1028-1068 | normalizing keeps the words in their order, with single spaces between them |
| `CatalogIds.NormalizePublic` | third/libxml2/catalog.c:1028-1068 | nothing for a normal identifier, else the normalized one |
| `CatalogIds.UnWrapURN` | third/libxml2/catalog.c:822-875 | unwraps a publicid URN into the fixed buffer without leaving it |
| `CatalogIds.UnWrapWrapped` | third/libxml2/catalog.c:822-875 | unwrapping gives back the identifier a URN carries, all of it up to 1997 characters and never anything else |
| `CatalogIds.UnWrapDescends` | third/libxml2/catalog.c:822-875 | an unwrapped URN that is a URN again, normalized or not, has fewer '%' signs |
| `CatalogSearch.BudgetFalls` | third/libxml2/catalog.c:1629-1638 | counting a list in uses up a budget that no deeper search gives back |
| `CatalogSearch.FetchKeeps` | third/libxml2/catalog.c:1403-1472 | fetching a file changes neither a depth nor, when files are referred to with one preference, what any entry refers to |
| `CatalogSearch.FirstMatchIs` | third/libxml2/catalog.c:1645-1652 | the entry chosen is in the list and has the identifier; there is none only when no entry of this kind has it |
| `CatalogSearch.LongestIsLongest` | third/libxml2/catalog.c:1653-1667 | the rewriting rule chosen applies, and no rule that applies has a longer prefix |
| `CatalogSearch.TargetIsFinal` | third/libxml2/catalog.c:2009-2052 | after all normalizing and unwrapping neither identifier is to be normalized or unwrapped any more |
| `CatalogSearch.TargetCases` | third/libxml2/catalog.c:2009-2052 | the public identifier is searched for in its final form; a system identifier as it is, or, when it is a URN, in place of a missing public one, not at all when it carries the public one, and else unwrapped |
| `CatalogSays.VerdictIff` | third/libxml2/catalog.c:1640-1767 | a list says a URI when its first entry for the system identifier has it, or without such an entry the first rule with the longest name that applies makes it by replacing that name with its URL, or, when neither these nor a delegate decide, its first entry for the public identifier has it; and when it says nothing or delegates |
| `CatalogSays.DelegatesFollowed` | third/libxml2/catalog.c:1690-1733 | delegates are followed in the order of the list, the first 50 URLs once each, until one gives something; if none does all that are not broken have been |
| `CatalogSays.NextFollowed` | third/libxml2/catalog.c:1815-1833 | next catalogs are followed in the order of the list until one gives something or has led back too often, else all that are not broken |
| `CatalogSays.CatalogsFollowed` | third/libxml2/catalog.c:2053-2070 | and so are the catalogs of a list, until one is being searched too often |
| `CatalogWalks.XMLRestores` | third/libxml2/catalog.c:1622-1838 | a list that no walk comes to twice has all depths restored by its search: any search if no walk through next catalogs and delegates does, one that finds nothing if no walk through next catalogs does |
| `CatalogWalks.XMLFindsNothing` | third/libxml2/catalog.c:1622-1838 | when no list that a list leads to has an entry for the identifiers, its search finds nothing |
| `CatalogOutcomes.XMLAnswers` | third/libxml2/catalog.c:1622-1838 | a URI found in a list is what a list it leads to says of the identifiers that are handed on to it |
| `CatalogOutcomes.XMLComplete` | third/libxml2/catalog.c:1622-1838 | a search that finds nothing and restores all depths has been to the end of every walk through next catalogs: the last list on it has no entry for the identifiers, and no list on it was counted beyond the limit |
| `CatalogResults.AnswerIsSaid` | third/libxml2/catalog.c:1998-2074 | every URI rests on a trail of lists, from one of the catalogs, the first searched for the final forms of the identifiers asked for, each next one for what its entry hands on — all to a next catalog, the one delegated to a delegate — and the last saying the URI |
| `CatalogResults.DelegationDecides` | third/libxml2/catalog.c:1690-1733 | an identifier that a list delegates is looked for nowhere else |
| `CatalogResults.NothingMissed` | third/libxml2/catalog.c:1998-2074 | without a URI and with all depths restored, every list that the catalogs lead to is silent on the final identifiers: no entry for them, no rule that applies, no delegate |
| `CatalogResults.DepthsRestoredIff` | third/libxml2/catalog.c:1815-1836 | a lookup that no entry matches finds nothing, and restores all depths exactly when, before it, no walk from next catalog to next catalog comes to a list twice |
| `CatalogResults.NoWayBackRestores` | third/libxml2/catalog.c:1622-1838 | when no walk, by delegates either, comes to a list twice, any resolution restores all depths |
| `CatalogResults.RunRestores` | third/libxml2/catalog.c:1998-2074 | and so does any number of them |
| `CatalogResults.LoopSticks` | third/libxml2/catalog.c:1815-1836 | a list whose first next catalog has this very list is left at a depth of 51 by a search for what it does not have |
| `CatalogResults.StuckForGood` | third/libxml2/catalog.c:1629-1638 | from then on its search finds nothing, for any identifiers, in every later state |
| `CatalogResults.StuckFindsNothing` | third/libxml2/catalog.c:2053-2070 | and neither do the catalogs behind it in a list that begins with it |
| `CatalogResults.LookupSticks` | third/libxml2/catalog.c:1998-2074 | one lookup from outside is enough |
| `Catalog.SelfReference` | third/libxml2/catalog.c:1826-1828 | a catalog that names itself as the next one: an entry found at first is not found after one lookup of something else |
| `Catalog.ResolveAll` | third/libxml2/catalog.c:1998-2074 | any number of resolutions, one after the other, give the URIs and the state of the run of the search; with catalogs that do not lead back to a list all depths end as they began |
| `Catalog.Catalogs.FetchXMLCatalogFile` | third/libxml2/catalog.c:1403-1472 | children are set or the entry is broken, from the files known or a new one, and nothing else changes |
| `Catalog.Catalogs.ParseXMLCatalogFile` | third/libxml2/catalog.c:1335-1400 | the file as it parses for this URL and preference, or nothing |
| `Catalog.Catalogs.ScanSystem` | third/libxml2/catalog.c:1640-1690 | one pass finds the first match, or the longest rewriting rule and whether there are delegates and next catalogs |
| `Catalog.Catalogs.ScanPublic` | third/libxml2/catalog.c:1736-1767 | the same for a public identifier |
| `Catalog.Catalogs.TryOne` | third/libxml2/catalog.c:1693-1712 | one delegate or next catalog is fetched and its list searched for the identifiers given |
| `Catalog.Catalogs.TryDelegates` | third/libxml2/catalog.c:1690-1733 | the delegates are tried in order, for the identifier alone, each URL once up to 50 of them, as the search on values says |
| `Catalog.Catalogs.TryNext` | third/libxml2/catalog.c:1815-1833 | the next catalogs are tried in order for both identifiers, until something is found or the list itself is being searched too often |
| `Catalog.Catalogs.ListXMLResolve` | third/libxml2/catalog.c:1998-2074 | ends on every graph, with the result and the state the search on values has for the final forms of the identifiers |
| `Catalog.Catalogs.SearchAll` | third/libxml2/catalog.c:2053-2074 | the loop over the catalogs of a list, until something is found or one of them is being searched too often |
| `Catalog.Catalogs.SearchOne` | third/libxml2/catalog.c:2053-2070 | one catalog is fetched and its entries searched for these identifiers |
| `Catalog.Catalogs.SearchEntries` | third/libxml2/catalog.c:1640-1836 | the steps in the order of section 7.1 of the OASIS XML Catalogs draft: match, rewriting, delegates, the same for the public identifier, next catalogs; result and state are those of the search on values |
| `Catalog.Catalogs.XMLResolve` | third/libxml2/catalog.c:1622-1838 | the same with the depth counted: a list at the limit is not searched, and one left through a next catalog that leads back too often is not counted out |
| `Catalog.Resolve` | third/libxml2/catalog.c:2848-2881 | from outside: ends, with the URI and the state of the search |
| `Buf.XmlBuf.constructor` | third/libxml2/buf.c:121-142 | an empty buffer of the default size |
| `Buf.XmlBuf.CreateSize` | third/libxml2/buf.c:155-182 | an empty buffer of a given size, without memory for 0 |
| `Buf.XmlBuf.CreateStatic` | third/libxml2/buf.c:230-255 | an immutable buffer over given bytes |
| `Buf.XmlBuf.CheckCompat` | third/libxml2/buf.c:70-76 | takes over a changed copy of a counter, and changes nothing between two operations |
| `Buf.XmlBuf.SetAllocationScheme` | third/libxml2/buf.c:287-317 | which changes are made and what is reported |
| `Buf.XmlBuf.GrowInternal` | third/libxml2/buf.c:434-482 | more room than asked for, the same contents |
| `Buf.XmlBuf.Grow` | third/libxml2/buf.c:494-505 | the same, with the error and immutable cases |
| `Buf.XmlBuf.NewSize` | third/libxml2/buf.c:747-782 | the new size is at least the one wanted, stays in 32 bits, and keeps the contents and their NUL |
| `Buf.XmlBuf.Resize` | third/libxml2/buf.c:730-830 | the contents are kept, sliding back to the start or moving to new memory |
| `Buf.XmlBuf.Add` | third/libxml2/buf.c:844-881 | appends |
| `Buf.XmlBuf.AddHead` | third/libxml2/buf.c:895-953 | prepends, into the space before the content or by moving it up |
| `Buf.XmlBuf.Shrink` | third/libxml2/buf.c:385-421 | drops bytes at the front, none if there are not enough |
| `Buf.XmlBuf.Erase` | third/libxml2/buf.c:631-642 | drops bytes at the end and puts the NUL there, or reports that there are not enough |
| `Buf.XmlBuf.Empty` | third/libxml2/buf.c:352-371 | no contents; the space before them is usable again |
| `Buf.Perform` | third/libxml2/buf.c:352-953 | every operation, in every mutable scheme and from any buffer, with memory or not, does to the byte sequence what its name says and keeps the NUL behind it |
| `Buf.PerformAll` | third/libxml2/buf.c:352-953 | and so does any sequence of them, from a buffer of any size |
| `DictStrings.Pool.Write` | third/libxml2/dict.c:283-289 | a string and its NUL behind what is there |
| `DictStrings.Strings.FindPool` | third/libxml2/dict.c:250-257 | a pool with room exactly when there is one, else the size of the largest and the sum of all sizes |
| `DictStrings.Strings.PoolSize` | third/libxml2/dict.c:261-276 | a new pool fits the string and its NUL; up to the length cap four times the length stays in 32 bits |
| `DictStrings.Strings.AddString` | third/libxml2/dict.c:240-290 | a new address; every string stored before is still stored where it was; refused exactly when no pool has room and the sizes exceed the limit |
| `DictStrings.Strings.Owns` | third/libxml2/dict.c:1178-1193 | accepts every stored string, and only addresses in the used part of a pool |
| `DictKeys.ComputeFastKey` | third/libxml2/dict.c:443-467 | the switch with fall-through adds the bytes from the tenth down |
| `DictKeys.ComputeBigKey` | third/libxml2/dict.c:374-393 | the one-at-a-time hash |
| `DictKeys.BigKeyOfA` | third/libxml2/dict.c:374-393 | the hash of "a" is the published one |
| `DictKeys.ComputeBigQKey` | third/libxml2/dict.c:406-434 | the key of prefix and name is the key of "prefix:name" |
| `DictKeys.ComputeKey` | third/libxml2/dict.c:69-73 | the key the size of the table selects |
| `DictItems.GrownCounts` | third/libxml2/dict.c:627-751 | growing neither loses nor doubles an entry |
| `DictItems.GrownPlaces` | third/libxml2/dict.c:627-751 | after growing every entry has the key of the new size and is in its bucket |
| `DictItems.BucketDecides` | third/libxml2/dict.c:848-877 | a string is in the table exactly when it is in the bucket of its key |
| `DictItems.NothingLeft` | third/libxml2/dict.c:789-805 | once all counted entries are seen the remaining buckets are empty |
| `DictTable.Table.constructor` | third/libxml2/dict.c:552-558 | buckets without entries |
| `DictTable.Table.Search` | third/libxml2/dict.c:848-877 | finds the entry of a name in its bucket if there is one, else the end of the chain and its length |
| `DictTable.Table.LinkAfter` | third/libxml2/dict.c:729-733 | a new second entry leaves all chains disjoint and acyclic |
| `DictTable.Table.FillHead` | third/libxml2/dict.c:926-937 | the first entry of a bucket |
| `DictTable.AddLast` | third/libxml2/dict.c:926-943 | a new entry at the end of its chain, in the array or allocated |
| `DictTable.CopyHeads` | third/libxml2/dict.c:671-707 | the first pass of growing: the heads, copied |
| `DictTable.MoveChain` | third/libxml2/dict.c:709-741 | the second pass: each chain's other entries are moved or, if they become heads, copied and freed |
| `DictTable.Grow` | third/libxml2/dict.c:627-751 | the new table holds the old one's entries under their new keys, and exactly its own allocated entries are left |
| `DictTable.FreeChain` | third/libxml2/dict.c:795-802 | frees each allocated entry of a chain once |
| `DictTable.FreeAll` | third/libxml2/dict.c:789-805 | frees every allocated entry once, none twice, and stops early only when none is left |
| `Dict.AddedOk` | third/libxml2/dict.c:926-943 | a new string keeps the table exact: once, in the right bucket, counted |
| `Dict.GrownOk` | third/libxml2/dict.c:627-751 | and so does growing, from each of the sizes to the next |
| `Dict.BucketHas` | third/libxml2/dict.c:848-877 | a hit in the bucket is the address of the string, and there is one exactly when it is interned |
| `Dict.KnownInjective` | third/libxml2/dict.c:825-953 | two strings known in a dictionary or the one behind it have the same address exactly when they are equal |
| `Dict.XmlDict.constructor` | third/libxml2/dict.c:535-569 | nothing interned |
| `Dict.XmlDict.CreateSub` | third/libxml2/dict.c:582-595 | nothing interned, with a dictionary behind it |
| `Dict.XmlDict.Find` | third/libxml2/dict.c:848-877 | the address of the string exactly when it is interned |
| `Dict.XmlDict.FindInSub` | third/libxml2/dict.c:879-921 | the same in the dictionary behind, under the key of its size |
| `Dict.XmlDict.Add` | third/libxml2/dict.c:923-943 | a new string gets a new address, refused only under a limit |
| `Dict.XmlDict.GrowTable` | third/libxml2/dict.c:627-751 | six times the buckets, the same strings; never refused at the sizes a table has |
| `Dict.XmlDict.Lookup` | third/libxml2/dict.c:825-953 | the address known, or a new one for a new string, or nothing for one over the length cap or the limit; all others stay known |
| `Dict.XmlDict.Exists` | third/libxml2/dict.c:965-1061 | the address exactly of the strings known, and no change |
| `Dict.XmlDict.Owns` | third/libxml2/dict.c:1178-1193 | accepts every interned string of the dictionary and of the one behind it |
| `Dict.XmlDict.FreeEntries` | third/libxml2/dict.c:789-805 | frees each separately allocated entry exactly once |
| `Dict.LookupAll` | third/libxml2/dict.c:825-953 | over any run of lookups equal strings get equal addresses and different strings different ones, with the table growing or not, and all stay known |

## Left out

- Threads, mutexes, epoll, sockets and the thread pool itself: events and work items happen one at a time, in any order; a receive event and its dispatching are one step.
- net_create, net_destroy, the connection table's own structure, errors of recv and send other than "would block": the code drops data there on purpose.
- EpServer.EpServer.Accept: a connection number is one that no connection had before; the code takes random 64-bit numbers that are not in the table.
- EpServer.EpServer.WriteAll: a send reports "would block" a finite number of times; the code sleeps and tries again without a bound.
- EpServer.EpServer.EndToEnd: counts packets and does not order them, because replies can overtake each other (`SendQueue.PushCanReorder`).
- The send thread's wait, and that it tries an entry of a dead connection for ever.
- Server.Handler: replies are taken to leave room for their header. The code offers the handler NET_PACK_SIZE_LIMIT bytes in a buffer of that size and then shifts the reply up by the header (src/core/engine.c:38-43), so the replies left out are exactly those of more than NET_PACK_SIZE_LIMIT - 10 bytes, for which there is no room.
- Framing.BoundedRest: assumes the protocol's packet limit, which the code does not check; header and data are little-endian as on the code's hosts.
- Failing allocation, anywhere.
- The node column of the namespace stack, exclusive and 1.1 canonicalization, partial node sets, xml:base fix-up and the refusal of relative namespace names.
- C14nReader.CanonicalIff: names and values, not characters; `C14nDocument.FormsAgree` is about these. Prefixes of attributes are declared, as a namespace-aware parser sees to.
- C14nDocument.FormsAgree: names are made of characters that no tag gives a meaning to; texts next to each other count as one. Without references in namespace names it is two implications, because some documents with quotes in them do have a form of their own.
- C14nReader.TokensApart: names and values, not characters.
- C14n.Ctx.ProcessNode: elements and texts; not comments, processing instructions and entity nodes.
- C14nNamespaces.VisibleAreBindings: xmlSearchNs is taken to find the nearest declaration of a prefix; a NULL prefix or name is the empty string.
- List deallocators, and the remaining list functions, which are shorter variants of those modelled.
- HtmlStack.HtmlParserCtxt.ParseContent: attributes, scripts, comments and character data are tokens; the push parser, the NOIMPLIED option and encoding switches are not modelled; the table of start tags that close others is a parameter, so its contents do not matter.
- HtmlEntities.ReadsBackIff: the entity table is a parameter with distinct alphanumeric names; the classes of non-ASCII name characters are parameters.
- HtmlInput.ParserInput.ParseCharRef: numbers too large for an int wrap around to 32 bits, which C does not promise.
- htmlCurrentChar's decoding of the input: the reader works on characters.
- Catalog.Catalogs.ParseXMLCatalogFile: a map says which file parses into which entries for which preference.
- xmlCatalogXMLResolveURI, which never counts a depth, SGML catalogs and debugging output.
- CatalogResults.DepthsRestoredIff: about lookups that no entry matches, for otherwise the search may stop before it comes to the way back; every URL is referred to with one preference, for otherwise the entry that is fetched first decides what the file is parsed into; entries that can answer have a URI, for otherwise they answer with nothing.
- CatalogResults.NothingMissed: the same two conditions on preferences and URIs.
- CatalogResults.NoWayBackRestores: the same condition on preferences.
- CatalogResults.RunRestores: the same condition on preferences.
- CatalogResults.LoopSticks: the shortest way back, a first next catalog; longer ones are the subject of DepthsRestoredIff.
- Buf.XmlBuf.Erase: not where the NUL would not fit, in a buffer without memory or a static one that is to lose nothing.
- Buf.XmlBuf.Empty: not on immutable buffers, where the code replaces the content pointer by a constant, and not on an allocation of 0 bytes, which the hybrid scheme gets from CreateSize(0) and Resize(0) and where the code puts its NUL behind the allocation.
- Buf.Perform: without these cases and with sizes below 2 GiB.
- Buf.PerformAll: the same.
- Buf.XmlBuf.CreateSize: sizes below 2 GiB.
- Buf.XmlBuf.NewSize: sizes below 2 GiB.
- Buf.XmlBuf.Add: total lengths below 2 GiB.
- Buf.XmlBuf.AddHead: total lengths below 2 GiB.
- Buf.XmlBuf.Resize: sizes from 2 GiB on, where the code's arithmetic is no longer that of size_t; the error field; xmlBufAddLen, xmlBufCCat and xmlBufDetach.
- Zero-length names in dictionaries, xmlDictQLookup apart from its key, reference counting, freeing the pools.
- Dict.XmlDict.Owns: one dictionary behind another, which is not changed meanwhile; the code follows a chain of them.
- DictTable.Table.constructor: the array of buckets is a fixed sequence of entry objects.
