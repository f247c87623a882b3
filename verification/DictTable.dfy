/** The hash table of a dictionary: an array of entries, each the head of a chain of separately
    allocated ones. */
module DictTable {
  import opened Bytes
  import opened Options
  import opened DictKeys
  import opened DictItems
  import opened DictStrings

  class Entry {
    var next: Entry?
    var name: Option<Address>
    var len: nat
    var valid: bool
    var okey: nat
    ghost var owner: Table?    // the table it is in
    ghost var home: nat        // and the bucket

    constructor ()
      ensures !valid && next == null && owner == null
    {
      next, name, len, valid, okey := null, None, 0, false, 0;
      owner, home := null, 0;
    }
  }

  ghost predicate Mirrors(e: Entry, i: Item)
    reads e
  {
    e.valid && e.name == Some(i.name) && e.len == |i.text| && e.okey == i.okey
  }

  /** The entries of all chains but their heads. */
  ghost function Overflow(chains: seq<seq<Entry>>): set<Entry> {
    set b, j | 0 <= b < |chains| && 1 <= j < |chains[b]| :: chains[b][j]
  }

  ghost predicate Different(chain: seq<Entry>) {
    forall j, k :: 0 <= j < k < |chain| ==> chain[j] != chain[k]
  }

  lemma OverflowOfInserted(chains: seq<seq<Entry>>, b: nat, at: nat, e: Entry)
    requires b < |chains| && at <= |chains[b]| && (at == 0 ==> chains[b] == [])
    ensures Overflow(chains[b := Inserted(chains[b], at, e)]) == Overflow(chains) + if at == 0 then {} else {e}
  {
    var c, d := chains[b], Inserted(chains[b], at, e);
    var chains' := chains[b := d];
    assert at > 0 ==> d[at] == e;
    forall x | x in Overflow(chains)
      ensures x in Overflow(chains')
    {
      var i, j :| 0 <= i < |chains| && 1 <= j < |chains[i]| && chains[i][j] == x;
      if i == b {
        assert chains'[b][if j < at then j else j + 1] == x;
      } else {
        assert chains'[i][j] == x;
      }
    }
    forall x | x in Overflow(chains')
      ensures x in Overflow(chains) || (at > 0 && x == e)
    {
      var i, j :| 0 <= i < |chains'| && 1 <= j < |chains'[i]| && chains'[i][j] == x;
      if i == b {
        if j < at {
          assert c[j] == x;
        } else if j > at {
          assert c[j - 1] == x;
        }
      } else {
        assert chains[i][j] == x;
      }
    }
    if at > 0 {
      assert chains'[b][at] == e;
    }
  }

  /** The entry at a place of a chain says so, and points to the next one. */
  ghost predicate Placed(t: Table, b: nat, c: seq<Entry>, j: nat, i: Item)
    requires j < |c|
    reads c[j]
  {
    && c[j].owner == t && c[j].home == b && Mirrors(c[j], i)
    && c[j].next == if j + 1 < |c| then c[j + 1] else null
  }

  ghost predicate AllPlaced(t: Table, b: nat, c: seq<Entry>, its: seq<Item>)
    reads c
  {
    |c| == |its| && forall j :: 0 <= j < |c| ==> Placed(t, b, c, j, its[j])
  }

  /** A chain starts with its head and goes on with separately allocated entries. */
  ghost predicate Members(c: seq<Entry>, head: Entry, live: set<Entry>) {
    forall j :: 0 <= j < |c| ==> if j == 0 then c[j] == head else c[j] in live
  }

  /** The same, but one of the entries points to `e`. */
  ghost predicate PlacedBut(t: Table, b: nat, c: seq<Entry>, j: nat, i: Item, k: int, e: Entry)
    requires j < |c|
    reads c[j]
  {
    && c[j].owner == t && c[j].home == b && Mirrors(c[j], i)
    && c[j].next == if j == k then e else if j + 1 < |c| then c[j + 1] else null
  }

  lemma ChainWithNew(t: Table, b: nat, c: seq<Entry>, its: seq<Item>, at: nat, e: Entry, item: Item)
    requires 1 <= at <= |c| == |its|
    requires forall j :: 0 <= j < |c| ==> PlacedBut(t, b, c, j, its[j], at - 1, e)
    requires e.owner == t && e.home == b && Mirrors(e, item) && e.next == if at < |c| then c[at] else null
    ensures var d, its' := Inserted(c, at, e), Inserted(its, at, item);
      |d| == |its'| && forall j :: 0 <= j < |d| ==> Placed(t, b, d, j, its'[j])
  {
    var d, its' := Inserted(c, at, e), Inserted(its, at, item);
    forall j | 0 <= j < |d| ensures Placed(t, b, d, j, its'[j]) {
      if j < at {
        assert PlacedBut(t, b, c, j, its[j], at - 1, e);
      } else if j > at {
        assert PlacedBut(t, b, c, j - 1, its[j - 1], at - 1, e);
      }
    }
  }

  ghost predicate HitAt(i: Item, okey: nat, name: Data, a: Address) {
    i.okey == okey && i.text == name && i.name == a
  }

  /** The strings of these items can be read. */
  ghost predicate Readable(its: seq<Item>, strings: Strings)
    reads strings
  {
    forall j :: 0 <= j < |its| ==> its[j].name in strings.stored && strings.stored[its[j].name] == its[j].text
  }

  ghost predicate ReadableItem(i: Item, strings: Strings)
    reads strings, strings.owned, strings.arrays
  {
    strings.Valid() && i.name in strings.stored && strings.stored[i.name] == i.text != []
  }

  ghost predicate ReadableRest(its: seq<Item>, strings: Strings)
    reads strings, strings.owned, strings.arrays
  {
    forall j :: 0 <= j < |its| ==> ReadableItem(its[j], strings)
  }

  lemma ReadableAt(its: seq<Item>, strings: Strings, j: nat)
    requires ReadableRest(its, strings) && j < |its|
    ensures ReadableItem(its[j], strings)
  {
  }

  /** memcmp. */
  method SameBytes(strings: Strings, a: Address, len: nat, name: Data) returns (same: bool)
    requires strings.Valid() && a in strings.stored && |strings.stored[a]| == len == |name|
    ensures same <==> strings.stored[a] == name
  {
    assert At(a.pool.Used(), a.at, strings.stored[a]);
    ghost var i :| 0 <= i < |strings.pools| && strings.pools[i] == a.pool;
    assert strings.pools[i].Valid();
    a.pool.UsedSlice(a.at, len);
    same := a.pool.array_[a.at..a.at + len] == name;
  }

  class Table {
    const heads: seq<Entry>
    ghost var chains: seq<seq<Entry>>    // the entries in use, bucket by bucket
    ghost var items: seq<seq<Item>>      // what they stand for
    ghost var slots: set<Entry>          // the entries of the array
    ghost var live: set<Entry>           // the separately allocated entries

    ghost predicate ChainOk(b: nat)
      requires b < |heads| == |chains| == |items|
      reads this, slots, live
    {
      var c := chains[b];
      && heads[b] in slots && Different(c) && Members(c, heads[b], live)
      && (c == [] ==> !heads[b].valid && heads[b].next == null)
      && AllPlaced(this, b, c, items[b])
    }

    ghost predicate Valid()
      reads this, slots, live
    {
      && |heads| == |chains| == |items| && live == Overflow(chains)
      && slots !! live && (forall e :: e in slots ==> e.owner == this)
      && (forall b :: 0 <= b < |heads| ==> heads[b] in slots && heads[b].home == b)
      && (forall e :: e in live ==> e.owner == this)
      && (forall b :: 0 <= b < |heads| ==> ChainOk(b))
    }

    /** A table with nothing in it. */
    constructor (size: nat)
      ensures Valid() && |heads| == size && items == seq(size, _ => []) && fresh(slots) && live == {}
    {
      hide AllPlaced, Members, Different;
      var array_ := Slots(size);
      heads := array_;
      slots := set e | e in array_;
      chains, items, live := seq(size, _ => []), seq(size, _ => []), {};
      new;
      forall i | 0 <= i < size {
        heads[i].owner := this;
      }
      forall i | 0 <= i < size {
        heads[i].home := i;
      }
      assert Overflow(chains) == {};
      forall b | 0 <= b < size ensures ChainOk(b) {
        NoChain(this, b, chains[b], items[b], heads[b], live);
      }
    }

    static method Slots(size: nat) returns (es: seq<Entry>)
      ensures |es| == size && Different(es)
      ensures forall i :: 0 <= i < size ==> fresh(es[i]) && !es[i].valid && es[i].next == null
    {
      es := [];
      while |es| < size
        invariant |es| <= size && Different(es)
        invariant forall i :: 0 <= i < |es| ==> fresh(es[i]) && !es[i].valid && es[i].next == null
      {
        var e := new Entry();
        es := es + [e];
      }
    }

    /** An entry of one bucket is in no other. */
    lemma NotInOthers(b: nat, e: Entry)
      requires Valid() && (e.owner == this ==> e.home == b)
      ensures forall i :: 0 <= i < |heads| && i != b ==> e !in chains[i]
    {
      forall i, j | 0 <= i < |heads| && i != b && 0 <= j < |chains[i]| ensures chains[i][j] != e {
        assert ChainOk(i);
        assert Placed(this, i, chains[i], j, items[i][j]);
      }
    }

    method Matches(e: Entry, okey: nat, name: Data, strings: Strings, ghost i: Item) returns (hit: bool)
      requires Mirrors(e, i) && ReadableItem(i, strings)
      ensures hit <==> i.okey == okey && i.text == name
      ensures hit ==> e.name == Some(i.name)
    {
      hit := false;
      if e.okey == okey && e.len == |name| {
        hit := SameBytes(strings, e.name.value, e.len, name);
      }
    }

    /** Searches a bucket. `last`: where its chain ends, if it has one; `nbi`: steps taken. */
    method Search(b: nat, okey: nat, name: Data, strings: Strings)
        returns (found: Option<Address>, last: Entry?, nbi: nat)
      requires Valid() && b < |heads| && ReadableRest(items[b], strings)
      ensures |chains[b]| == |items[b]|
      ensures found.None? ==> forall j :: 0 <= j < |items[b]| ==> !(items[b][j].okey == okey && items[b][j].text == name)
      ensures found.None? ==> if chains[b] == [] then last == null && nbi == 0
        else last == chains[b][|chains[b]| - 1] && nbi == |chains[b]| - 1
      ensures found.Some? ==> exists j :: 0 <= j < |items[b]| && HitAt(items[b][j], okey, name, found.value)
    {
      hide Different, Overflow, Members, AllPlaced, ReadableRest;
      assert ChainOk(b);
      ghost var c, its := chains[b], items[b];
      HeadIs(c, heads[b], live);
      SameLength(this, b, c, its);
      if c != [] {
        PlacedHere(this, b, c, its, 0);
      }
      if !heads[b].valid {
        return None, null, 0;
      }
      found, last, nbi := Walk(b, heads[b], okey, name, strings, c, its);
    }

    method Walk(ghost b: nat, head: Entry, okey: nat, name: Data, strings: Strings,
                ghost c: seq<Entry>, ghost its: seq<Item>)
        returns (found: Option<Address>, last: Entry?, nbi: nat)
      requires AllPlaced(this, b, c, its) && c != [] && head == c[0] && |c| == |its|
      requires ReadableRest(its, strings)
      ensures found.None? ==> forall j :: 0 <= j < |its| ==> !(its[j].okey == okey && its[j].text == name)
      ensures found.None? ==> nbi == |c| - 1 && last == c[nbi]
      ensures found.Some? ==> exists j :: 0 <= j < |its| && HitAt(its[j], okey, name, found.value)
    {
      hide AllPlaced, Mirrors, ReadableRest, ReadableItem;
      found, last, nbi := None, null, 0;
      PlacedHere(this, b, c, its, 0);
      var insert := head;
      while insert.next != null
        invariant nbi < |c| && insert == c[nbi] && AllPlaced(this, b, c, its)
        invariant forall j :: 0 <= j < nbi ==> !(its[j].okey == okey && its[j].text == name)
        decreases |c| - nbi
      {
        PlacedHere(this, b, c, its, nbi);
        ReadableAt(its, strings, nbi);
        var hit := Matches(insert, okey, name, strings, its[nbi]);
        if hit {
          assert HitAt(its[nbi], okey, name, insert.name.value);
          return insert.name, null, nbi;
        }
        insert := insert.next;
        nbi := nbi + 1;
      }
      PlacedHere(this, b, c, its, nbi);
      ReadableAt(its, strings, nbi);
      var hit := Matches(insert, okey, name, strings, its[nbi]);
      if hit {
        assert HitAt(its[nbi], okey, name, insert.name.value);
        return insert.name, null, nbi;
      }
      last := insert;
    }

    /** Puts an item into an empty bucket. */
    method FillHead(b: nat, head: Entry, name: Address, len: nat, okey: nat, ghost text: Data)
      requires Valid() && b < |heads| && head == heads[b] && chains[b] == [] && len == |text|
      modifies this`chains, this`items, head`name, head`len, head`next, head`valid, head`okey
      ensures Valid() && items == old(items)[b := [Item(text, name, okey)]] && live == old(live)
    {
      hide Different, Overflow, Members;
      assert ChainOk(b);
      NotInOthers(b, head);
      head.name, head.len, head.next, head.valid, head.okey := Some(name), len, null, true, okey;
      OverflowOfInserted(chains, b, 0, head);
      assert Inserted(chains[b], 0, head) == [head];
      Alone(head, live);
      chains := chains[b := [head]];
      items := items[b := [Item(text, name, okey)]];
      assert AllPlaced(this, b, chains[b], items[b]);
      forall i | 0 <= i < |heads| && i != b ensures ChainOk(i) {
        hide AllPlaced;
        assert old(ChainOk(i));
      }
    }

    /** Links an entry in after another one. */
    method LinkAfter(b: nat, ghost at: nat, prev: Entry, e: Entry, ghost item: Item)
      requires Valid() && b < |heads| && 1 <= at <= |chains[b]| == |items[b]| && prev == chains[b][at - 1]
      requires e.owner != this && Mirrors(e, item)
      modifies this`chains, this`items, this`live, prev`next, e`next, e`owner, e`home
      ensures Valid() && items == old(items)[b := Inserted(old(items)[b], at, item)] && live == old(live) + {e}
    {
      hide Different, Overflow, Members, AllPlaced;
      assert ChainOk(b);
      PlacedAt(this, b, chains[b], items[b], at - 1);
      NotInOthers(b, prev);
      NotInOthers(b, e);
      ghost var c, its := chains[b], items[b];
      NotPlaced(this, b, c, its, e);
      NewMember(c, heads[b], live, at, e);
      Splice(b, at, prev, e, c, its, item);
      OverflowOfInserted(chains, b, at, e);
      chains := chains[b := Inserted(c, at, e)];
      items := items[b := Inserted(its, at, item)];
      live := live + {e};
      forall i | 0 <= i < |heads| && i != b ensures ChainOk(i) {
        assert old(ChainOk(i));
        MoreMembers(chains[i], heads[i], old(live), e);
      }
    }

    /** The assignments themselves. */
    method Splice(b: nat, ghost at: nat, prev: Entry, e: Entry, ghost c: seq<Entry>, ghost its: seq<Item>, ghost item: Item)
      requires AllPlaced(this, b, c, its) && Different(c) && 1 <= at <= |c| && prev == c[at - 1] && e !in c
      requires Mirrors(e, item)
      modifies prev`next, e`next, e`owner, e`home
      ensures AllPlaced(this, b, Inserted(c, at, e), Inserted(its, at, item)) && e.owner == this
    {
      OnlyThere(c, at - 1);
      assert Placed(this, b, c, at - 1, its[at - 1]);
      e.next := prev.next;
      prev.next := e;
      e.owner, e.home := this, b;
      forall j | 0 <= j < |c| ensures PlacedBut(this, b, c, j, its[j], at - 1, e) {
        assert old(Placed(this, b, c, j, its[j]));
      }
      ChainWithNew(this, b, c, its, at, e, item);
    }
  }

  lemma HeadIs(c: seq<Entry>, head: Entry, live: set<Entry>)
    requires Members(c, head, live)
    ensures c != [] ==> c[0] == head
  {
  }

  lemma NoChain(t: Table, b: nat, c: seq<Entry>, its: seq<Item>, head: Entry, live: set<Entry>)
    requires c == [] && its == []
    ensures Different(c) && Members(c, head, live) && AllPlaced(t, b, c, its)
  {
  }

  lemma Alone(e: Entry, live: set<Entry>)
    ensures Different([e]) && Members([e], e, live)
  {
  }

  lemma SameLength(t: Table, b: nat, c: seq<Entry>, its: seq<Item>)
    requires AllPlaced(t, b, c, its)
    ensures |c| == |its|
  {
  }

  lemma PlacedHere(t: Table, b: nat, c: seq<Entry>, its: seq<Item>, j: nat)
    requires AllPlaced(t, b, c, its) && j < |c|
    ensures |c| == |its| && Mirrors(c[j], its[j]) && c[j].valid
    ensures c[j].next == if j + 1 < |c| then c[j + 1] else null
  {
    assert Placed(t, b, c, j, its[j]);
  }

  lemma PlacedAt(t: Table, b: nat, c: seq<Entry>, its: seq<Item>, j: nat)
    requires AllPlaced(t, b, c, its) && j < |c|
    ensures c[j].owner == t && c[j].home == b
  {
    assert Placed(t, b, c, j, its[j]);
  }

  lemma NotPlaced(t: Table, b: nat, c: seq<Entry>, its: seq<Item>, e: Entry)
    requires AllPlaced(t, b, c, its) && e.owner != t
    ensures e !in c && |c| == |its|
  {
    forall j | 0 <= j < |c| ensures c[j] != e {
      assert Placed(t, b, c, j, its[j]);
    }
  }

  lemma OnlyThere(c: seq<Entry>, k: nat)
    requires k < |c| && Different(c)
    ensures forall j :: 0 <= j < |c| && j != k ==> c[j] != c[k]
  {
  }

  lemma NewMember(c: seq<Entry>, head: Entry, live: set<Entry>, at: nat, e: Entry)
    requires 1 <= at <= |c| && Different(c) && e !in c && Members(c, head, live)
    ensures Different(Inserted(c, at, e)) && Members(Inserted(c, at, e), head, live + {e})
  {
  }

  lemma MoreMembers(c: seq<Entry>, head: Entry, live: set<Entry>, e: Entry)
    requires Members(c, head, live)
    ensures Members(c, head, live + {e})
  {
  }

  // ---------------------------------------------------------------- allocation

  /** malloc. `heap` is the set of the separately allocated entries there are. */
  method Malloc(ghost heap: set<Entry>) returns (e: Entry, ghost heap': set<Entry>)
    ensures fresh(e) && e.owner == null && heap' == heap + {e}
  {
    e := new Entry();
    heap' := heap + {e};
  }

  /** free: nothing is freed twice. */
  ghost function Freed(heap: set<Entry>, e: Entry): set<Entry>
    requires e in heap
  {
    heap - {e}
  }

  lemma ValidIsUsed(t: Table, b: nat)
    requires t.Valid() && b < |t.heads|
    ensures |t.heads| == |t.chains| == |t.items|
    ensures t.heads[b].valid <==> t.chains[b] != []
    ensures |t.chains[b]| == |t.items[b]| && (t.chains[b] != [] ==> t.chains[b][0] == t.heads[b])
  {
    assert t.ChainOk(b);
    if t.chains[b] != [] {
      assert Placed(t, b, t.chains[b], 0, t.items[b][0]);
    }
  }

  /** Adds an item at the end of a chain; `last` is where the search for it ended. */
  method AddLast(t: Table, b: nat, last: Entry?, name: Address, len: nat, okey: nat, ghost text: Data,
                 ghost heap: set<Entry>)
      returns (ghost heap': set<Entry>)
    requires t.Valid() && b < |t.heads| && len == |text| && heap == t.live
    requires if t.chains[b] == [] then last == null else last == t.chains[b][|t.chains[b]| - 1]
    modifies t, t.slots, t.live
    ensures t.Valid() && t.items == old(t.items)[b := old(t.items)[b] + [Item(text, name, okey)]]
    ensures heap' == t.live && t.slots == old(t.slots) && fresh(t.live - old(t.live))
  {
    heap' := heap;
    ValidIsUsed(t, b);
    ghost var i, its := Item(text, name, okey), t.items[b];
    hide Table.Valid;
    if last == null {
      t.FillHead(b, t.heads[b], name, len, okey, text);
      assert its + [i] == [i];
    } else {
      var entry;
      entry, heap' := Malloc(heap);
      entry.name, entry.len, entry.valid, entry.okey := Some(name), len, true, okey;
      t.LinkAfter(b, |its|, last, entry, i);
      assert Inserted(its, |its|, i) == its + [i];
    }
  }

  // ---------------------------------------------------------------- growing

  /** Puts in the copy of an entry that was the head of a bucket. */
  method PutHead(t: Table, name: Address, len: nat, okey: nat, ghost text: Data, ghost heap: set<Entry>)
      returns (ghost heap': set<Entry>)
    requires t.Valid() && |t.heads| > 0 && len == |text|
    modifies t, t.slots, t.live
    ensures t.Valid() && t.items == PutSecond(old(t.items), Item(text, name, okey))
    ensures t.slots == old(t.slots) && fresh(t.live - old(t.live)) && old(t.live) <= t.live
    ensures heap' == heap + (t.live - old(t.live))
  {
    heap' := heap;
    var key := okey % |t.heads|;
    ValidIsUsed(t, key);
    ghost var i := Item(text, name, okey);
    hide Table.Valid;
    if !t.heads[key].valid {
      t.FillHead(key, t.heads[key], name, len, okey, text);
      assert Inserted([], 0, i) == [i];
    } else {
      var entry;
      entry, heap' := Malloc(heap);
      entry.name, entry.len, entry.valid, entry.okey := Some(name), len, true, okey;
      t.LinkAfter(key, 1, t.heads[key], entry, i);
    }
  }

  /** Puts in an entry that was further down in a chain: it is linked in again, or copied and
      freed. */
  method Relink(t: Table, iter: Entry, okey: nat, ghost i: Item, ghost heap: set<Entry>)
      returns (ghost heap': set<Entry>)
    requires t.Valid() && |t.heads| > 0 && iter.owner != t && Mirrors(iter, i) && iter in heap
    modifies t, t.slots, t.live, iter
    ensures t.Valid() && t.items == PutSecond(old(t.items), i.(okey := okey))
    ensures t.slots == old(t.slots) && old(t.live) <= t.live <= old(t.live) + {iter}
    ensures heap' == heap - {iter} + (t.live - old(t.live))
  {
    heap' := heap;
    var key := okey % |t.heads|;
    ValidIsUsed(t, key);
    assert iter !in t.slots && iter !in t.live;
    ghost var i' := i.(okey := okey);
    hide Table.Valid;
    if !t.heads[key].valid {
      t.FillHead(key, t.heads[key], iter.name.value, iter.len, okey, i.text);
      assert Inserted([], 0, i') == [i'];
      heap' := Freed(heap, iter);
    } else {
      iter.okey := okey;
      t.LinkAfter(key, 1, t.heads[key], iter, i');
    }
  }

  /** The key of an entry in a table of another size. */
  method NewKey(e: Entry, keepKeys: bool, size: nat, seed: bv32, strings: Strings, ghost i: Item) returns (okey: nat)
    requires Mirrors(e, i) && strings.Valid() && i.name in strings.stored && strings.stored[i.name] == i.text != []
    ensures Rekeyed(i, keepKeys, size, seed) == i.(okey := okey)
  {
    if keepKeys {
      okey := e.okey;
    } else {
      var name := ReadString(strings, e.name.value, e.len);
      okey := ComputeKey(size, seed, name);
    }
  }

  method ReadString(strings: Strings, a: Address, len: nat) returns (name: Data)
    requires strings.Valid() && a in strings.stored && |strings.stored[a]| == len
    ensures name == strings.stored[a]
  {
    assert At(a.pool.Used(), a.at, strings.stored[a]);
    ghost var i :| 0 <= i < |strings.pools| && strings.pools[i] == a.pool;
    assert strings.pools[i].Valid();
    a.pool.UsedSlice(a.at, len);
    name := a.pool.array_[a.at..a.at + len];
  }

  ghost predicate AllReadable(its: seq<seq<Item>>, strings: Strings)
    reads strings
  {
    forall b :: 0 <= b < |its| ==> Readable(its[b], strings) && forall j :: 0 <= j < |its[b]| ==> its[b][j].text != []
  }

  /** The table and the strings of its items, as one fact. */
  ghost predicate Sound(t: Table, its: seq<seq<Item>>, strings: Strings)
    reads t, t.slots, t.live, strings, strings.owned, strings.arrays
  {
    t.Valid() && t.items == its && strings.Valid() && AllReadable(its, strings)
  }

  ghost predicate HoldsRekeyed(t: Table, p: seq<Item>, keepKeys: bool, size: nat, seed: bv32)
    reads t, t.slots, t.live
  {
    t.Valid() && |t.heads| == size > 0 && t.items == PutAll(size, RekeyedAll(p, keepKeys, size, seed))
  }

  lemma OneMore(p: seq<Item>, i: Item, keepKeys: bool, size: nat, seed: bv32)
    requires size > 0
    ensures PutAll(size, RekeyedAll(p + [i], keepKeys, size, seed))
         == PutSecond(PutAll(size, RekeyedAll(p, keepKeys, size, seed)), Rekeyed(i, keepKeys, size, seed))
  {
    hide PutSecond, Rekeyed;
    var q := p + [i];
    assert q[..|q| - 1] == p;
    var r := RekeyedAll(q, keepKeys, size, seed);
    assert r[..|r| - 1] == RekeyedAll(p, keepKeys, size, seed);
  }

  method CopyHead(dict: Table, e: Entry, keepKeys: bool, size: nat, seed: bv32, strings: Strings,
                  ghost item: Item, ghost p: seq<Item>, ghost heap: set<Entry>)
      returns (ghost heap': set<Entry>)
    requires HoldsRekeyed(dict, p, keepKeys, size, seed) && Mirrors(e, item) && strings.Valid()
    requires item.name in strings.stored && strings.stored[item.name] == item.text != []
    modifies dict, dict.slots, dict.live
    ensures HoldsRekeyed(dict, p + [item], keepKeys, size, seed) && dict.slots == old(dict.slots) && fresh(dict.live - old(dict.live))
    ensures old(dict.live) <= dict.live && heap' == heap + (dict.live - old(dict.live))
  {
    hide PutAll, PutSecond, Rekeyed;
    var okey := NewKey(e, keepKeys, size, seed, strings, item);
    OneMore(p, item, keepKeys, size, seed);
    heap' := PutHead(dict, e.name.value, e.len, okey, item.text, heap);
  }

  /** The first pass: the heads of all buckets are copied into a new table. */
  method CopyHeads(olddict: Table, keepKeys: bool, size: nat, seed: bv32, strings: Strings,
                   ghost its: seq<seq<Item>>, ghost heap: set<Entry>)
      returns (dict: Table, ghost heap': set<Entry>)
    requires Sound(olddict, its, strings) && size > 0
    ensures fresh(dict) && fresh(dict.slots) && fresh(dict.live) && heap' == heap + dict.live
    ensures HoldsRekeyed(dict, Firsts(its), keepKeys, size, seed)
  {
    hide PutAll, PutSecond, Firsts, Sound, HoldsRekeyed, Rekeyed;
    dict := new Table(size);
    heap' := heap;
    NothingYet(dict, its[..0], keepKeys, size, seed);
    HeadItems(olddict, its, strings);
    for i := 0 to |olddict.heads|
      invariant fresh(dict) && fresh(dict.slots) && fresh(dict.live) && heap' == heap + dict.live
      invariant HoldsRekeyed(dict, Firsts(its[..i]), keepKeys, size, seed) && Sound(olddict, its, strings)
    {
      HeadItem(olddict, its, strings, i);
      FirstsStep(its, i);
      if olddict.heads[i].valid {
        heap' := CopyHead(dict, olddict.heads[i], keepKeys, size, seed, strings, its[i][0], Firsts(its[..i]), heap');
      }
    }
    assert its[..|its|] == its;
  }

  lemma HeadItems(t: Table, its: seq<seq<Item>>, strings: Strings)
    requires Sound(t, its, strings)
    ensures |t.heads| == |its|
  {
  }

  lemma HeadItem(t: Table, its: seq<seq<Item>>, strings: Strings, b: nat)
    requires Sound(t, its, strings) && b < |t.heads|
    ensures strings.Valid() && |t.heads| == |its| && (t.heads[b].valid <==> its[b] != [])
    ensures its[b] != [] ==>
      var i := its[b][0];
      Mirrors(t.heads[b], i) && i.name in strings.stored && strings.stored[i.name] == i.text != []
  {
    ValidIsUsed(t, b);
    assert t.ChainOk(b);
    assert Readable(its[b], strings);
    if its[b] != [] {
      PlacedHere(t, b, t.chains[b], its[b], 0);
    }
  }

  lemma FirstsStep(its: seq<seq<Item>>, i: nat)
    requires i < |its|
    ensures Firsts(its[..i + 1]) == if its[i] == [] then Firsts(its[..i]) else Firsts(its[..i]) + [its[i][0]]
  {
    assert its[..i + 1][..i] == its[..i];
    assert Firsts(its[..i]) + [] == Firsts(its[..i]);
  }

  lemma NothingYet(t: Table, p: seq<seq<Item>>, keepKeys: bool, size: nat, seed: bv32)
    requires t.Valid() && |t.heads| == size > 0 && t.items == seq(size, _ => []) && p == []
    ensures HoldsRekeyed(t, Firsts(p), keepKeys, size, seed)
  {
    assert Firsts(p) == [];
  }

  // The second pass: the rest of each chain is taken out, one entry after the other.

  /** Entries of another table are not among those of this one. */
  lemma Elsewhere(t: Table, p: seq<Item>, keepKeys: bool, size: nat, seed: bv32,
                  owner: Table, b: nat, c: seq<Entry>, its: seq<Item>)
    requires HoldsRekeyed(t, p, keepKeys, size, seed) && owner != t && Waiting(owner, b, c, its)
    ensures forall e :: e in c ==> e !in t.slots && e !in t.live
  {
    forall k | 0 <= k < |c| ensures c[k].owner == owner {
      assert Placed(owner, b, c, k, its[k]);
    }
  }

  /** `pending`: entries not yet moved. What is allocated is these and the ones in the table. */
  ghost predicate Accounted(t: Table, pending: set<Entry>, heap: set<Entry>)
    reads t
  {
    heap == t.live + pending && pending !! t.live
  }

  method MoveOne(t: Table, iter: Entry, keepKeys: bool, size: nat, seed: bv32, strings: Strings,
                 ghost item: Item, ghost p: seq<Item>, ghost pending: set<Entry>, ghost heap: set<Entry>)
      returns (ghost heap': set<Entry>)
    requires HoldsRekeyed(t, p, keepKeys, size, seed) && Mirrors(iter, item) && iter.owner != t
    requires iter in pending && Accounted(t, pending, heap) && ReadableItem(item, strings)
    modifies t, t.slots, t.live, iter
    ensures HoldsRekeyed(t, p + [item], keepKeys, size, seed)
    ensures t.slots == old(t.slots) && t.live <= old(t.live) + {iter}
    ensures Accounted(t, pending - {iter}, heap')
  {
    hide PutAll, PutSecond, Rekeyed;
    var okey := NewKey(iter, keepKeys, size, seed, strings, item);
    OneMore(p, item, keepKeys, size, seed);
    heap' := Relink(t, iter, okey, item, heap);
  }

  ghost function Elements(c: seq<Entry>): set<Entry> {
    set e | e in c
  }

  /** A chain, all of its entries still in the other table. */
  ghost predicate Waiting(owner: Table, b: nat, c: seq<Entry>, its: seq<Item>)
    reads c
  {
    AllPlaced(owner, b, c, its) && Different(c)
  }

  lemma WaitingFirst(owner: Table, b: nat, c: seq<Entry>, its: seq<Item>)
    requires Waiting(owner, b, c, its)
    ensures |c| == |its|
    ensures c != [] ==>
      && c[0].owner == owner && Mirrors(c[0], its[0]) && c[0].next == (if |c| > 1 then c[1] else null)
      && Waiting(owner, b, c[1..], its[1..]) && c[0] !in c[1..]
  {
    if c != [] {
      assert Placed(owner, b, c, 0, its[0]);
      forall k | 0 <= k < |c[1..]| ensures Placed(owner, b, c[1..], k, its[1..][k]) {
        assert Placed(owner, b, c, k + 1, its[k + 1]);
      }
    }
  }

  method MoveChain(t: Table, head: Entry, keepKeys: bool, size: nat, seed: bv32, strings: Strings,
                   ghost owner: Table, ghost b: nat, ghost c: seq<Entry>, ghost its: seq<Item>, ghost p: seq<Item>,
                   ghost nodes: set<Entry>, ghost pending: set<Entry>, ghost heap: set<Entry>)
      returns (ghost heap': set<Entry>)
    requires HoldsRekeyed(t, p, keepKeys, size, seed) && owner != t && Waiting(owner, b, c, its)
    requires c != [] && head == c[0] && |its| > 0 && ReadableRest(its, strings)
    requires t.slots <= nodes && t.live <= nodes && Elements(c[1..]) <= nodes
    requires Elements(c[1..]) <= pending && Accounted(t, pending, heap)
    modifies t, nodes
    ensures HoldsRekeyed(t, p + its[1..], keepKeys, size, seed)
    ensures t.slots == old(t.slots) && t.live <= nodes
    ensures Accounted(t, pending - Elements(c[1..]), heap')
  {
    hide HoldsRekeyed, Waiting, Mirrors, ReadableRest, ReadableItem, Accounted, Elements;
    heap' := heap;
    WaitingFirst(owner, b, c, its);
    ReadableFirst(its, strings);
    var iter := head.next;
    ghost var rest: seq<Entry>, left, done, waiting := c[1..], its[1..], p, pending;
    while iter != null
      invariant iter == (if rest == [] then null else rest[0])
      invariant Waiting(owner, b, rest, left) && done + left == p + its[1..] && |rest| == |left|
      invariant HoldsRekeyed(t, done, keepKeys, size, seed) && ReadableRest(left, strings)
      invariant t.slots == old(t.slots) && t.live <= nodes && Elements(rest) <= nodes
      invariant Elements(rest) <= waiting && waiting - Elements(rest) == pending - Elements(c[1..])
      invariant Accounted(t, waiting, heap')
      decreases |rest|
    {
      WaitingFirst(owner, b, rest, left);
      ReadableFirst(left, strings);
      Elsewhere(t, done, keepKeys, size, seed, owner, b, rest, left);
      FirstElement(rest, waiting);
      var next := iter.next;
      heap' := MoveOne(t, iter, keepKeys, size, seed, strings, left[0], done, waiting, heap');
      waiting, done := waiting - {iter}, done + [left[0]];
      rest, left := rest[1..], left[1..];
      iter := next;
    }
    NoElement(rest, waiting);
    assert done + [] == done;
  }

  lemma FirstElement(c: seq<Entry>, waiting: set<Entry>)
    requires c != [] && c[0] !in c[1..] && Elements(c) <= waiting
    ensures c[0] in waiting && c[0] in Elements(c) && Elements(c[1..]) <= waiting - {c[0]}
    ensures Elements(c[1..]) <= Elements(c) && (waiting - {c[0]}) - Elements(c[1..]) == waiting - Elements(c)
  {
    assert c == [c[0]] + c[1..];
  }

  lemma NoElement(c: seq<Entry>, waiting: set<Entry>)
    requires c == []
    ensures waiting - Elements(c) == waiting
  {
  }

  lemma ReadableFirst(its: seq<Item>, strings: Strings)
    requires ReadableRest(its, strings) && its != []
    ensures ReadableItem(its[0], strings) && ReadableRest(its[1..], strings)
  {
  }

  /** Chains from bucket `b` on, all still in the other table. */
  ghost predicate WaitingAll(owner: Table, b: nat, cs: seq<seq<Entry>>, its: seq<seq<Item>>)
    reads set k, j | 0 <= k < |cs| && 0 <= j < |cs[k]| :: cs[k][j]
  {
    |cs| == |its| && forall k :: 0 <= k < |cs| ==> Waiting(owner, b + k, cs[k], its[k])
  }

  lemma WaitingSplit(t: Table, p: seq<Item>, keepKeys: bool, size: nat, seed: bv32,
                     owner: Table, b: nat, cs: seq<seq<Entry>>, its: seq<seq<Item>>)
    requires HoldsRekeyed(t, p, keepKeys, size, seed) && owner != t && WaitingAll(owner, b, cs, its) && cs != []
    ensures |cs| == |its| && Waiting(owner, b, cs[0], its[0]) && WaitingAll(owner, b + 1, cs[1..], its[1..])
    ensures forall k, j :: 0 <= k < |cs[1..]| && 0 <= j < |cs[1..][k]| ==>
      cs[1..][k][j] !in t.slots && cs[1..][k][j] !in t.live && cs[1..][k][j] !in cs[0]
  {
    assert Waiting(owner, b + 0, cs[0], its[0]);
    forall k | 0 <= k < |cs[1..]| ensures Waiting(owner, b + 1 + k, cs[1..][k], its[1..][k]) {
      assert Waiting(owner, b + (k + 1), cs[k + 1], its[k + 1]);
    }
    forall k, j | 0 <= k < |cs[1..]| && 0 <= j < |cs[1..][k]|
      ensures cs[1..][k][j].owner == owner && cs[1..][k][j].home == b + 1 + k
    {
      assert Waiting(owner, b + 1 + k, cs[1..][k], its[1..][k]);
      assert Placed(owner, b + 1 + k, cs[1..][k], j, its[1..][k][j]);
    }
    forall j | 0 <= j < |cs[0]| ensures cs[0][j].home == b {
      assert Placed(owner, b, cs[0], j, its[0][j]);
    }
  }

  lemma OverflowSplit(cs: seq<seq<Entry>>)
    requires cs != []
    ensures Overflow(cs) == (if cs[0] == [] then {} else Elements(cs[0][1..])) + Overflow(cs[1..])
  {
    forall e | e in Overflow(cs)
      ensures e in (if cs[0] == [] then {} else Elements(cs[0][1..])) + Overflow(cs[1..])
    {
      var k, j :| 0 <= k < |cs| && 1 <= j < |cs[k]| && cs[k][j] == e;
      if k == 0 {
        assert cs[0][1..][j - 1] == e;
      } else {
        assert cs[1..][k - 1][j] == e;
      }
    }
    if cs[0] != [] {
      forall e | e in Elements(cs[0][1..]) ensures e in Overflow(cs) {
        var j :| 0 <= j < |cs[0][1..]| && cs[0][1..][j] == e;
        assert cs[0][j + 1] == e;
      }
    }
    forall e | e in Overflow(cs[1..]) ensures e in Overflow(cs) {
      var k, j :| 0 <= k < |cs[1..]| && 1 <= j < |cs[1..][k]| && cs[1..][k][j] == e;
      assert cs[k + 1][j] == e;
    }
  }

  ghost function Tail(its: seq<Item>): seq<Item> {
    if its == [] then [] else its[1..]
  }

  /** One bucket of the second pass. */
  method MoveBucket(t: Table, head: Entry, keepKeys: bool, size: nat, seed: bv32, strings: Strings,
                    ghost owner: Table, ghost b: nat, ghost cs: seq<seq<Entry>>, ghost its: seq<seq<Item>>,
                    ghost p: seq<Item>, ghost nodes: set<Entry>, ghost heap: set<Entry>)
      returns (ghost heap': set<Entry>)
    requires HoldsRekeyed(t, p, keepKeys, size, seed) && owner != t && WaitingAll(owner, b, cs, its) && cs != []
    requires if cs[0] == [] then head.next == null else cs[0][0] == head
    requires its != [] && ReadableRest(its[0], strings)
    requires t.slots <= nodes && t.live <= nodes && Overflow(cs) <= nodes && Accounted(t, Overflow(cs), heap)
    modifies t, nodes
    ensures HoldsRekeyed(t, p + Tail(its[0]), keepKeys, size, seed)
    ensures t.slots == old(t.slots) && t.live <= nodes && Accounted(t, Overflow(cs[1..]), heap')
    ensures WaitingAll(owner, b + 1, cs[1..], its[1..])
  {
    hide HoldsRekeyed, Waiting, WaitingAll, Overflow, ReadableRest;
    heap' := heap;
    WaitingSplit(t, p, keepKeys, size, seed, owner, b, cs, its);
    WaitingFirst(owner, b, cs[0], its[0]);
    OverflowSplit(cs);
    OverflowElements(cs[1..]);
    if head.next != null {
      ghost var mine := t.slots + t.live + Elements(cs[0][1..]);
      heap' := MoveChain(t, head, keepKeys, size, seed, strings, owner, b, cs[0], its[0], p, mine, Overflow(cs), heap);
      assert Overflow(cs) - Elements(cs[0][1..]) == Overflow(cs[1..]);
    } else {
      assert |cs[0]| <= 1 && Tail(its[0]) == [];
      assert cs[0] != [] ==> Elements(cs[0][1..]) == {};
      assert p + [] == p;
    }
  }

  lemma OverflowElements(cs: seq<seq<Entry>>)
    ensures forall e :: e in Overflow(cs) ==> exists k, j :: 0 <= k < |cs| && 0 <= j < |cs[k]| && cs[k][j] == e
  {
  }

  /** What the array of the old table says while its chains are taken apart. */
  ghost predicate HeadsReady(t: Table, cs: seq<seq<Entry>>)
    reads t, t.slots
  {
    |t.heads| == |cs| && forall b :: 0 <= b < |cs| ==>
      t.heads[b] in t.slots && if cs[b] == [] then t.heads[b].next == null else cs[b][0] == t.heads[b]
  }

  ghost predicate StringsReady(its: seq<seq<Item>>, strings: Strings)
    reads strings, strings.owned, strings.arrays
  {
    forall b :: 0 <= b < |its| ==> ReadableRest(its[b], strings)
  }

  lemma AllWaiting(t: Table, its: seq<seq<Item>>, strings: Strings)
    requires Sound(t, its, strings)
    ensures |t.heads| == |its| && t.live == Overflow(t.chains) && t.slots !! t.live
    ensures HeadsReady(t, t.chains) && StringsReady(its, strings) && WaitingAll(t, 0, t.chains, its)
  {
    forall b | 0 <= b < |its|
      ensures Waiting(t, 0 + b, t.chains[b], its[b]) && ReadableRest(its[b], strings)
      ensures if t.chains[b] == [] then t.heads[b].next == null else t.chains[b][0] == t.heads[b]
    {
      assert t.ChainOk(b);
      assert Readable(its[b], strings);
    }
  }

  lemma BucketReady(t: Table, cs: seq<seq<Entry>>, its: seq<seq<Item>>, strings: Strings, b: nat)
    requires HeadsReady(t, cs) && StringsReady(its, strings) && b < |cs| == |its|
    ensures if cs[b] == [] then t.heads[b].next == null else cs[b][0] == t.heads[b]
    ensures ReadableRest(its[b], strings)
  {
  }

  lemma RestsStep(p: seq<Item>, its: seq<seq<Item>>, i: nat)
    requires i < |its|
    ensures p + Rests(its[..i + 1]) == p + Rests(its[..i]) + Tail(its[i])
  {
    assert its[..i + 1][..i] == its[..i];
    assert Rests(its[..i]) + [] == Rests(its[..i]);
    assert p + (Rests(its[..i]) + Tail(its[i])) == p + Rests(its[..i]) + Tail(its[i]);
  }

  lemma RestsStart(p: seq<Item>, its: seq<seq<Item>>)
    requires its == []
    ensures p + Rests(its) == p
  {
  }

  /** The second pass. */
  method MoveAll(dict: Table, olddict: Table, keepKeys: bool, size: nat, seed: bv32, strings: Strings,
                 ghost cs: seq<seq<Entry>>, ghost its: seq<seq<Item>>, ghost heads: seq<Item>,
                 ghost nodes: set<Entry>, ghost heap: set<Entry>)
      returns (ghost heap': set<Entry>)
    requires HoldsRekeyed(dict, heads, keepKeys, size, seed) && dict != olddict
    requires HeadsReady(olddict, cs) && StringsReady(its, strings) && WaitingAll(olddict, 0, cs, its) && |cs| == |its|
    requires dict.slots <= nodes && dict.live <= nodes && Overflow(cs) <= nodes && nodes !! olddict.slots
    requires Accounted(dict, Overflow(cs), heap)
    modifies dict, nodes
    ensures HoldsRekeyed(dict, heads + Rests(its[..|its|]), keepKeys, size, seed)
    ensures dict.slots == old(dict.slots) && dict.live <= nodes && Accounted(dict, Overflow(cs[|cs|..]), heap')
  {
    hide HoldsRekeyed, WaitingAll, Overflow, Rests, HeadsReady, StringsReady, Accounted;
    heap' := heap;
    assert cs[0..] == cs && its[0..] == its;
    RestsStart(heads, its[..0]);
    SameHeads(olddict, cs);
    for i := 0 to |olddict.heads|
      invariant dict.slots == old(dict.slots) && dict.live <= nodes
      invariant HeadsReady(olddict, cs) && StringsReady(its, strings)
      invariant HoldsRekeyed(dict, heads + Rests(its[..i]), keepKeys, size, seed)
      invariant WaitingAll(olddict, i, cs[i..], its[i..]) && Accounted(dict, Overflow(cs[i..]), heap')
    {
      RestsStep(heads, its, i);
      BucketReady(olddict, cs, its, strings, i);
      OverflowOfRest(cs, i);
      assert cs[i..][1..] == cs[i + 1..] && its[i..][1..] == its[i + 1..];
      heap' := MoveBucket(dict, olddict.heads[i], keepKeys, size, seed, strings, olddict, i, cs[i..], its[i..],
                          heads + Rests(its[..i]), dict.slots + dict.live + Overflow(cs[i..]), heap');
    }
  }

  lemma SameHeads(t: Table, cs: seq<seq<Entry>>)
    requires HeadsReady(t, cs)
    ensures |t.heads| == |cs|
  {
  }

  /** Growing: every entry is put in again under its key for the new size. Entries are copied,
      reused or freed, but none is lost, doubled or freed twice. */
  method Grow(olddict: Table, keepKeys: bool, size: nat, seed: bv32, strings: Strings,
              ghost its: seq<seq<Item>>, ghost heap: set<Entry>)
      returns (dict: Table, ghost heap': set<Entry>)
    requires Sound(olddict, its, strings) && size > 0 && heap == olddict.live
    modifies olddict.live
    ensures fresh(dict) && fresh(dict.slots) && dict.Valid() && |dict.heads| == size
    ensures dict.items == Grown(its, keepKeys, size, seed) && heap' == dict.live
    ensures forall e :: e in dict.live ==> fresh(e) || e in old(olddict.live)
  {
    hide HoldsRekeyed, WaitingAll, Sound, Overflow, Firsts, Rests, HeadsReady, StringsReady, Grown;
    ghost var cs, was, heads := olddict.chains, olddict.live, Firsts(its);
    AllWaiting(olddict, its, strings);
    dict, heap' := CopyHeads(olddict, keepKeys, size, seed, strings, its, heap);
    heap' := MoveAll(dict, olddict, keepKeys, size, seed, strings, cs, its, heads, dict.slots + dict.live + was, heap');
    AtTheEnd(dict, its, cs, heads, keepKeys, size, seed, heap');
  }

  lemma OverflowOfRest(cs: seq<seq<Entry>>, i: nat)
    requires i <= |cs|
    ensures Overflow(cs[i..]) <= Overflow(cs)
  {
    forall e | e in Overflow(cs[i..]) ensures e in Overflow(cs) {
      var k, j :| 0 <= k < |cs[i..]| && 1 <= j < |cs[i..][k]| && cs[i..][k][j] == e;
      assert cs[i + k][j] == e;
    }
  }

  lemma NoOverflow(cs: seq<seq<Entry>>)
    requires cs == []
    ensures Overflow(cs) == {}
  {
  }

  lemma AtTheEnd(t: Table, its: seq<seq<Item>>, cs: seq<seq<Entry>>, p: seq<Item>,
                 keepKeys: bool, size: nat, seed: bv32, heap: set<Entry>)
    requires HoldsRekeyed(t, p + Rests(its[..|its|]), keepKeys, size, seed) && p == Firsts(its)
    requires Accounted(t, Overflow(cs[|cs|..]), heap)
    ensures t.Valid() && |t.heads| == size && t.items == Grown(its, keepKeys, size, seed) && heap == t.live
  {
    hide PutAll, RekeyedAll, Firsts, Rests, Overflow;
    NoOverflow(cs[|cs|..]);
    assert its[..|its|] == its && cs[|cs|..] == [];
  }

  // ---------------------------------------------------------------- freeing

  /** Frees a chain: all of its entries but the head are separate. */
  method FreeChain(t: Table, head: Entry, ghost b: nat, ghost c: seq<Entry>, ghost its: seq<Item>,
                   nbElems: nat, ghost heap: set<Entry>)
      returns (left: int, ghost heap': set<Entry>)
    requires Waiting(t, b, c, its) && c != [] && head == c[0] && Elements(c[1..]) <= heap
    ensures left == nbElems - |its| && heap' == heap - Elements(c[1..])
  {
    hide Waiting, Elements, Mirrors;
    heap', left := heap, nbElems;
    var iter: Entry? := head;
    var insideDict := true;
    ghost var rest, todo := c, its;
    WaitingFirst(t, b, c, its);
    while iter != null
      invariant Waiting(t, b, rest, todo) && |rest| == |todo| && iter == (if rest == [] then null else rest[0])
      invariant insideDict ==> rest == c && heap' == heap
      invariant !insideDict ==> Elements(rest) <= heap' && heap' - Elements(rest) == heap - Elements(c[1..])
      invariant left == nbElems - (|its| - |todo|)
      decreases |rest|
    {
      WaitingFirst(t, b, rest, todo);
      var next := iter.next;
      if !insideDict {
        FirstElement(rest, heap');
        heap' := Freed(heap', iter);
      }
      left := left - 1;
      insideDict := false;
      rest, todo := rest[1..], todo[1..];
      iter := next;
    }
    NoElement(rest, heap');
  }

  /** Frees every separately allocated entry, each once. The count of the elements ends the walk
      early, and never too early. */
  method FreeAll(t: Table, nbElems: nat, ghost heap: set<Entry>) returns (left: int, ghost heap': set<Entry>)
    requires t.Valid() && nbElems == Total(t.items) && heap == t.live
    ensures left == 0 && heap' == {}
  {
    hide Overflow, Waiting, Total;
    heap', left := heap, nbElems;
    ghost var cs, its := t.chains, t.items;
    assert cs[0..] == cs;
    NoTotal(its[..0]);
    var i := 0;
    while i < |t.heads| && left > 0
      invariant 0 <= i <= |t.heads| && heap' == Overflow(cs[i..]) && left == nbElems - Total(its[..i])
    {
      BucketWaits(t, i);
      OverflowSplit(cs[i..]);
      TotalGrows(its, i);
      assert cs[i..][1..] == cs[i + 1..];
      if t.heads[i].valid {
        OthersApart(t, i);
        left, heap' := FreeChain(t, t.heads[i], i, cs[i], its[i], left, heap');
      }
      i := i + 1;
    }
    AllCounted(t, i, left, nbElems);
  }

  lemma NoTotal(its: seq<seq<Item>>)
    requires its == []
    ensures Total(its) == 0
  {
  }

  lemma BucketWaits(t: Table, b: nat)
    requires t.Valid() && b < |t.heads|
    ensures |t.heads| == |t.chains| == |t.items| && Waiting(t, b, t.chains[b], t.items[b])
    ensures |t.chains[b]| == |t.items[b]| && (t.heads[b].valid <==> t.chains[b] != [])
    ensures t.chains[b] != [] ==> t.chains[b][0] == t.heads[b]
  {
    assert t.ChainOk(b);
    ValidIsUsed(t, b);
  }

  lemma OthersApart(t: Table, b: nat)
    requires t.Valid() && b < |t.heads| && t.chains[b] != []
    ensures Overflow(t.chains[b + 1..]) !! Elements(t.chains[b][1..])
  {
    forall e | e in Overflow(t.chains[b + 1..]) ensures e !in t.chains[b] {
      var k, j :| 0 <= k < |t.chains[b + 1..]| && 1 <= j < |t.chains[b + 1..][k]| && t.chains[b + 1..][k][j] == e;
      assert t.chains[b + 1 + k][j] == e;
      assert t.ChainOk(b + 1 + k);
      assert Placed(t, b + 1 + k, t.chains[b + 1 + k], j, t.items[b + 1 + k][j]);
      t.NotInOthers(b + 1 + k, e);
    }
    forall e | e in Elements(t.chains[b][1..]) ensures e in t.chains[b] {
      var j :| 0 <= j < |t.chains[b][1..]| && t.chains[b][1..][j] == e;
      assert t.chains[b][j + 1] == e;
    }
  }

  lemma AllCounted(t: Table, i: nat, left: int, nbElems: nat)
    requires t.Valid() && i <= |t.heads| && nbElems == Total(t.items) && left == nbElems - Total(t.items[..i])
    requires i == |t.heads| || left <= 0
    ensures left == 0 && Overflow(t.chains[i..]) == {}
  {
    assert t.items[..|t.items|] == t.items;
    TotalMonotone(t.items, i, |t.items|);
    forall k | 0 <= k < |t.chains[i..]| ensures t.chains[i..][k] == [] {
      NothingLeft(t.items, i, i + k);
      assert t.ChainOk(i + k);
    }
  }
}
