/** The dictionary: every string is kept once, at an address that never changes, in a hash table
    that grows, or in a read-only dictionary behind this one. */
module Dict {
  import opened Bytes
  import opened Options
  import opened DictKeys
  import opened DictStrings
  import opened DictItems
  import opened DictTable

  const MAX_HASH_LEN := 3
  const MAX_DICT_HASH := 8 * 2048

  predicate TableSize(size: nat) {
    size == MIN_DICT_SIZE || size == 768 || size == 4608
  }

  /** Once and in the right place for every interned string, and nothing else. */
  ghost predicate Counted(its: seq<seq<Item>>, interned: map<Data, Address>) {
    forall s :: CountAll(its, s) == if s in interned then 1 else 0
  }

  /** Every interned string is stored at its address. */
  ghost predicate Kept(interned: map<Data, Address>, stored: map<Address, Data>) {
    forall s :: s in interned ==> interned[s] in stored && stored[interned[s]] == s && 0 < |s| <= INT_MAX / 2
  }

  ghost predicate TableOk(t: Table)
    reads t, t.slots, t.live
  {
    t.Valid()
  }

  ghost predicate StringsOk(strings: Strings)
    reads strings, strings.owned, strings.arrays
  {
    strings.Valid()
  }

  lemma Sizes(t: Table)
    requires TableOk(t)
    ensures |t.heads| == |t.chains| == |t.items|
  {
  }

  /** The items are those of the interned strings, each once, in its bucket and counted. */
  ghost predicate ItemsOk(its: seq<seq<Item>>, seed: bv32, interned: map<Data, Address>, stored: map<Address, Data>, nbElems: nat) {
    && TableSize(|its|) && Placement(its, seed, interned) && Counted(its, interned) && Kept(interned, stored)
    && nbElems == Total(its) == |interned|
  }

  lemma ItemsSize(its: seq<seq<Item>>, seed: bv32, interned: map<Data, Address>, stored: map<Address, Data>, nbElems: nat)
    requires ItemsOk(its, seed, interned, stored, nbElems)
    ensures TableSize(|its|) && nbElems == |interned|
  {
  }

  lemma NewStringStored(its: seq<seq<Item>>, seed: bv32, interned: map<Data, Address>, stored: map<Address, Data>,
                        nbElems: nat, a: Address, name: Data)
    requires ItemsOk(its, seed, interned, stored, nbElems) && a !in stored
    ensures ItemsOk(its, seed, interned, stored[a := name], nbElems)
  {
    hide Placement, Counted, Total;
  }

  /** Adding an item for a string that is not interned yet. */
  lemma AddedOk(its: seq<seq<Item>>, seed: bv32, interned: map<Data, Address>, stored: map<Address, Data>,
                nbElems: nat, i: Item)
    requires ItemsOk(its, seed, interned, stored, nbElems)
    requires i.text !in interned && 0 < |i.text| <= INT_MAX / 2 && i.okey == Key(|its|, seed, i.text)
    requires i.name in stored && stored[i.name] == i.text
    ensures var b := i.okey % |its|;
      ItemsOk(its[b := its[b] + [i]], seed, interned[i.text := i.name], stored, nbElems + 1)
  {
    hide Key, Count, CountAll, Total;
    var b := i.okey % |its|;
    var its' := its[b := its[b] + [i]];
    var interned' := interned[i.text := i.name];
    CountAllUpdate(its, b, its[b] + [i], i.text);
    forall s ensures CountAll(its', s) == if s in interned' then 1 else 0 {
      CountAllUpdate(its, b, its[b] + [i], s);
      CountAppend(its[b], [i], s);
      CountOne(i, s);
    }
    AddedPlaces(its, seed, interned, i);
  }

  lemma CountOne(i: Item, s: Data)
    ensures Count([i], s) == if i.text == s then 1 else 0
  {
    assert [i][..0] == [];
  }

  lemma AddedPlaces(its: seq<seq<Item>>, seed: bv32, interned: map<Data, Address>, i: Item)
    requires |its| > 0 && Placement(its, seed, interned) && i.text !in interned
    requires i.text != [] && i.okey == Key(|its|, seed, i.text)
    ensures var b := i.okey % |its|; Placement(its[b := its[b] + [i]], seed, interned[i.text := i.name])
  {
    hide Key;
    var b := i.okey % |its|;
    var its' := its[b := its[b] + [i]];
    forall c, j | 0 <= c < |its'| && 0 <= j < |its'[c]|
      ensures ItemOk(its'[c][j], |its'|, seed, interned[i.text := i.name]) && its'[c][j].okey % |its'| == c
    {
      if j < |its[c]| {
        assert ItemOk(its[c][j], |its|, seed, interned) && its[c][j].okey % |its| == c;
      }
    }
  }

  /** Growing keeps all of that. */
  lemma GrownOk(its: seq<seq<Item>>, size: nat, seed: bv32, interned: map<Data, Address>, stored: map<Address, Data>, nbElems: nat)
    requires ItemsOk(its, seed, interned, stored, nbElems) && TableSize(size) && size != MIN_DICT_SIZE
    ensures ItemsOk(Grown(its, |its| != MIN_DICT_SIZE, size, seed), seed, interned, stored, nbElems)
  {
    hide Grown, Placement, CountAll, Total, Kept;
    GrownPlaces(its, size, seed, interned);
    GrownCounts(its, |its| != MIN_DICT_SIZE, size, seed, []);
    GrownSize(its, |its| != MIN_DICT_SIZE, size, seed);
    forall s ensures CountAll(Grown(its, |its| != MIN_DICT_SIZE, size, seed), s) == if s in interned then 1 else 0 {
      GrownCounts(its, |its| != MIN_DICT_SIZE, size, seed, s);
    }
  }

  lemma GrownSize(its: seq<seq<Item>>, keepKeys: bool, size: nat, seed: bv32)
    requires size > 0
    ensures |Grown(its, keepKeys, size, seed)| == size
  {
  }

  lemma ItemsReadable(its: seq<seq<Item>>, seed: bv32, interned: map<Data, Address>, strings: Strings, nbElems: nat)
    requires ItemsOk(its, seed, interned, strings.stored, nbElems)
    ensures AllReadable(its, strings)
  {
    hide Key;
    forall b, j | 0 <= b < |its| && 0 <= j < |its[b]|
      ensures its[b][j].name in strings.stored && strings.stored[its[b][j].name] == its[b][j].text != []
    {
      assert ItemOk(its[b][j], |its|, seed, interned);
    }
  }

  lemma BucketReadable(its: seq<seq<Item>>, seed: bv32, interned: map<Data, Address>, strings: Strings, nbElems: nat, b: nat)
    requires ItemsOk(its, seed, interned, strings.stored, nbElems) && StringsOk(strings) && b < |its|
    ensures ReadableRest(its[b], strings)
  {
    hide Key;
    forall j | 0 <= j < |its[b]| ensures ReadableItem(its[b][j], strings) {
      assert ItemOk(its[b][j], |its|, seed, interned);
    }
  }

  /** What a search of the bucket of a string's key finds. */
  lemma BucketHas(its: seq<seq<Item>>, seed: bv32, interned: map<Data, Address>, name: Data)
    requires |its| > 0 && Placement(its, seed, interned) && Counted(its, interned) && name != []
    ensures var okey := Key(|its|, seed, name); var c := its[okey % |its|];
      && (name in interned <==> exists j :: 0 <= j < |c| && c[j].okey == okey && c[j].text == name)
      && forall j, a :: 0 <= j < |c| && HitAt(c[j], okey, name, a) ==> name in interned && interned[name] == a
  {
    hide Key, CountAll;
    BucketDecides(its, seed, interned, name);
    var b := Key(|its|, seed, name) % |its|;
    assert CountAll(its, name) > 0 <==> name in interned;
    forall j | 0 <= j < |its[b]| ensures ItemOk(its[b][j], |its|, seed, interned) {
    }
  }

  /** Table, strings and items fit together. */
  ghost predicate DictOk(d: XmlDict)
    reads d, d.table, d.table.slots, d.table.live, d.strings, d.strings.owned, d.strings.arrays
  {
    && TableOk(d.table) && StringsOk(d.strings) && d.heap == d.table.live
    && ItemsOk(d.table.items, d.seed, d.interned, d.strings.stored, d.nbElems)
  }

  /** The two dictionaries have nothing in common. */
  ghost predicate Separate(d: XmlDict, sub: XmlDict)
    reads d, d.table, d.strings, sub, sub.table, sub.strings
  {
    && d != sub && d.table != sub.table && d.strings != sub.strings
    && (d.table.slots + d.table.live) !! (sub.table.slots + sub.table.live)
    && d.strings.arrays !! sub.strings.arrays && d.strings.owned !! sub.strings.owned
  }

  /** A dictionary and the one behind it. */
  ghost predicate Behind(d: XmlDict, sub: XmlDict)
    reads d, d.table, d.strings
    reads sub, sub.table, sub.table.slots, sub.table.live
    reads sub.strings, sub.strings.owned, sub.strings.arrays
  {
    DictOk(sub) && Separate(d, sub) && sub.seed == d.seed
  }

  method EmptyTable() returns (t: Table)
    ensures TableOk(t) && fresh(t) && fresh(t.slots) && t.live == {} && t.items == seq(MIN_DICT_SIZE, _ => [])
  {
    t := new Table(MIN_DICT_SIZE);
  }

  method EmptyStrings() returns (strings: Strings)
    ensures StringsOk(strings) && fresh(strings) && strings.owned == {} && strings.arrays == {} && strings.stored == map[]
  {
    strings := new Strings();
  }

  lemma EmptyOk(seed: bv32)
    ensures ItemsOk(seq(MIN_DICT_SIZE, _ => []), seed, map[], map[], 0)
  {
    var its: seq<seq<Item>> := seq(MIN_DICT_SIZE, _ => []);
    forall s ensures CountAll(its, s) == 0 {
      CountEmpty(MIN_DICT_SIZE, s);
    }
    CountEmpty(MIN_DICT_SIZE, []);
  }

  class XmlDict {
    var table: Table
    var nbElems: nat
    var limit: nat
    const strings: Strings
    const subdict: XmlDict?
    const seed: bv32
    ghost var interned: map<Data, Address>
    ghost var heap: set<Entry>    // the separately allocated entries

    constructor (seed: bv32)
      ensures DictOk(this) && interned == map[] && limit == 0 && subdict == null && this.seed == seed
      ensures fresh(table) && fresh(table.slots) && fresh(strings) && strings.owned == {} && strings.arrays == {} && table.live == {}
    {
      hide TableOk, StringsOk, ItemsOk;
      var t := EmptyTable();
      var s := EmptyStrings();
      table, strings, nbElems, limit, subdict, this.seed := t, s, 0, 0, null, seed;
      interned, heap := map[], {};
      EmptyOk(seed);
    }

    /** A dictionary in front of another one, whose seed it takes over. */
    constructor CreateSub(sub: XmlDict)
      requires DictOk(sub)
      ensures DictOk(this) && interned == map[] && limit == 0 && subdict == sub && Behind(this, sub)
      ensures fresh(table) && fresh(table.slots) && fresh(strings) && strings.owned == {} && strings.arrays == {} && table.live == {}
    {
      hide TableOk, StringsOk, ItemsOk;
      var t := EmptyTable();
      var s := EmptyStrings();
      table, strings, nbElems, limit, subdict, seed := t, s, 0, 0, sub, sub.seed;
      interned, heap := map[], {};
      EmptyOk(sub.seed);
    }

    /** Searches this dictionary alone. `last` and `nbi` as for a bucket. */
    method Find(okey: nat, name: Data) returns (found: Option<Address>, last: Entry?, nbi: nat)
      requires DictOk(this) && name != [] && okey == Key(|table.heads|, seed, name)
      ensures found == if name in interned then Some(interned[name]) else None
      ensures |table.chains| == |table.heads| > 0
      ensures found.None? ==> EndsAt(table.chains[okey % |table.heads|], last, nbi)
    {
      hide Placement, Counted, Kept, Key, TableOk, StringsOk, ReadableRest;
      Sizes(table);
      BucketReadable(table.items, seed, interned, strings, nbElems, okey % |table.heads|);
      found, last, nbi := FindIn(table, strings, okey, name, seed, interned);
    }

    /** Stores and enters a string that has not been found. */
    method Add(okey: nat, name: Data, last: Entry?) returns (ret: Option<Address>)
      requires DictOk(this) && 0 < |name| <= INT_MAX / 2 && name !in interned && okey == Key(|table.heads|, seed, name)
      requires |table.chains| == |table.heads| > 0 && exists nbi :: EndsAt(table.chains[okey % |table.heads|], last, nbi)
      modifies this`nbElems, this`interned, this`heap, table, table.slots, table.live
      modifies strings, strings.owned, strings.arrays
      ensures DictOk(this) && table == old(table) && table.slots == old(table.slots) && fresh(table.live - old(table.live))
      ensures fresh(strings.arrays - old(strings.arrays)) && fresh(strings.owned - old(strings.owned))
      ensures ret.None? ==> limit > 0 && interned == old(interned)
      ensures ret.Some? ==> ret.value !in old(strings.stored) && interned == old(interned)[name := ret.value]
    {
      hide ItemsOk, Key, EndsAt, TableOk, StringsOk;
      ghost var its, stored := table.items, strings.stored;
      ret := Store(strings, name, limit);
      if ret.Some? {
        NewStringStored(its, seed, interned, stored, nbElems, ret.value, name);
        Insert(okey, name, last, ret.value);
      }
    }

    method Insert(okey: nat, name: Data, last: Entry?, a: Address)
      requires DictOk(this) && 0 < |name| <= INT_MAX / 2 && name !in interned && okey == Key(|table.heads|, seed, name)
      requires |table.chains| == |table.heads| > 0 && exists nbi :: EndsAt(table.chains[okey % |table.heads|], last, nbi)
      requires a in strings.stored && strings.stored[a] == name
      modifies this`nbElems, this`interned, this`heap, table, table.slots, table.live
      ensures DictOk(this) && table.slots == old(table.slots) && fresh(table.live - old(table.live))
      ensures interned == old(interned)[name := a]
    {
      hide ItemsOk, Key, EndsAt, TableOk, StringsOk;
      Sizes(table);
      ghost var its := table.items;
      heap := EnterItem(table, last, a, okey, name, heap);
      AddedOk(its, seed, interned, strings.stored, nbElems, Item(name, a, okey));
      interned := interned[name := a];
      nbElems := nbElems + 1;
    }

    /** Makes the table six times as large. It can be asked for at two sizes only, and is never
        refused. */
    method GrowTable()
      requires DictOk(this) && |table.heads| <= MAX_DICT_HASH / 2 / MAX_HASH_LEN
      modifies this`table, this`heap, table.live
      ensures DictOk(this) && fresh(table) && fresh(table.slots)
      ensures forall e :: e in table.live ==> fresh(e) || e in old(table.live)
      ensures |table.heads| == MAX_HASH_LEN * 2 * old(|table.heads|)
    {
      hide ItemsOk, TableOk, StringsOk, Grown;
      Sizes(table);
      ghost var its := table.items;
      ItemsSize(its, seed, interned, strings.stored, nbElems);
      var size := MAX_HASH_LEN * 2 * |table.heads|;
      assert 8 <= size <= MAX_DICT_HASH;
      table, heap := GrowOut(table, |table.heads| != MIN_DICT_SIZE, size, seed, strings, interned, nbElems, heap);
      GrownOk(its, size, seed, interned, strings.stored, nbElems);
    }

    predicate TooLong(name: Data)
      reads this
    {
      (limit > 0 && |name| >= limit) || |name| > INT_MAX / 2
    }

    /** Where a string is already kept: here or, failing that, in the other dictionary. */
    ghost function Known(name: Data): Option<Address>
      reads this, if subdict == null then {} else {subdict}
    {
      if name in interned then Some(interned[name])
      else if subdict != null && name in subdict.interned then Some(subdict.interned[name])
      else None
    }

    /** Searches the other dictionary. The key can be used again unless exactly one of the two
        tables has grown. */
    method FindInSub(okey: nat, name: Data) returns (found: Option<Address>, nbi: nat)
      requires DictOk(this) && (subdict != null ==> Behind(this, subdict)) && name != [] && okey == Key(|table.heads|, seed, name)
      ensures found == if subdict != null && name in subdict.interned then Some(subdict.interned[name]) else None
    {
      hide FastKey, BigKey, TableOk, StringsOk, ItemsOk, EndsAt;
      found, nbi := None, 0;
      if subdict != null {
        var skey := okey;
        if (|table.heads| == MIN_DICT_SIZE) != (|subdict.table.heads| == MIN_DICT_SIZE) {
          skey := ComputeKey(|subdict.table.heads|, subdict.seed, name);
        }
        var last;
        found, last, nbi := subdict.Find(skey, name);
      }
    }

    method AddFirst(okey: nat, name: Data, last: Entry?) returns (ret: Option<Address>)
      requires DictOk(this) && (subdict != null ==> Behind(this, subdict))
      requires 0 < |name| <= INT_MAX / 2 && name !in interned && okey == Key(|table.heads|, seed, name)
      requires |table.chains| == |table.heads| > 0 && exists nbi :: EndsAt(table.chains[okey % |table.heads|], last, nbi)
      modifies this`nbElems, this`interned, this`heap, table, table.slots, table.live
      modifies strings, strings.owned, strings.arrays
      ensures DictOk(this) && (subdict != null ==> Behind(this, subdict))
      ensures table == old(table) && table.slots == old(table.slots) && fresh(table.live - old(table.live))
      ensures fresh(strings.owned - old(strings.owned)) && fresh(strings.arrays - old(strings.arrays))
      ensures ret.None? ==> limit > 0 && interned == old(interned)
      ensures ret.Some? ==> ret.value !in old(strings.stored) && interned == old(interned)[name := ret.value]
    {
      hide TableOk, StringsOk, ItemsOk, EndsAt, Key;
      ret := Add(okey, name, last);
      if subdict != null {
        assert TableOk(subdict.table);
        assert StringsOk(subdict.strings);
        assert Separate(this, subdict);
      }
    }

    method GrowFirst()
      requires DictOk(this) && (subdict != null ==> Behind(this, subdict))
      requires |table.heads| <= MAX_DICT_HASH / 2 / MAX_HASH_LEN
      modifies this`table, this`heap, table.live
      ensures DictOk(this) && (subdict != null ==> Behind(this, subdict)) && fresh(table) && fresh(table.slots)
      ensures forall e :: e in table.live ==> fresh(e) || e in old(table.live)
    {
      hide DictOk;
      GrowTable();
    }

    /** Interns a string: what is known already is found, anything else is stored and entered, at
        an address no other string has. Once the table has to be searched too far it grows. */
    method Lookup(name: Data) returns (ret: Option<Address>)
      requires DictOk(this) && (subdict != null ==> Behind(this, subdict)) && name != []
      modifies this`nbElems, this`interned, this`heap, this`table, table, table.slots, table.live
      modifies strings, strings.owned, strings.arrays
      ensures DictOk(this) && (subdict != null ==> Behind(this, subdict))
      ensures TooLong(name) ==> ret.None? && interned == old(interned)
      ensures !TooLong(name) ==>
        if old(Known(name)).Some? then ret == old(Known(name)) && interned == old(interned)
        else if ret.None? then limit > 0 && interned == old(interned)
        else ret.value !in old(strings.stored) && interned == old(interned)[name := ret.value]
      ensures table == old(table) || fresh(table)
      ensures fresh(table.slots - old(table.slots)) && fresh(table.live - old(table.live))
      ensures fresh(strings.owned - old(strings.owned)) && fresh(strings.arrays - old(strings.arrays))
    {
      hide DictOk, Behind, Key, EndsAt;
      if (limit > 0 && |name| >= limit) || |name| > INT_MAX / 2 {
        return None;
      }
      var okey := ComputeKey(|table.heads|, seed, name);
      var insert, nbi;
      ret, insert, nbi := Find(okey, name);
      if ret.Some? {
        return;
      }
      var more;
      ret, more := FindInSub(okey, name);
      if ret.Some? {
        return;
      }
      ret := AddFirst(okey, name, insert);
      if ret.None? {
        return;
      }
      nbi := nbi + more;
      if nbi > MAX_HASH_LEN && |table.heads| <= MAX_DICT_HASH / 2 / MAX_HASH_LEN {
        GrowFirst();
      }
    }

    /** The same search without entering anything. */
    method Exists(name: Data) returns (ret: Option<Address>)
      requires DictOk(this) && (subdict != null ==> Behind(this, subdict)) && name != []
      ensures ret == if TooLong(name) then None else Known(name)
    {
      hide DictOk, Behind, Key, EndsAt;
      if (limit > 0 && |name| >= limit) || |name| > INT_MAX / 2 {
        return None;
      }
      var okey := ComputeKey(|table.heads|, seed, name);
      var insert, nbi;
      ret, insert, nbi := Find(okey, name);
      if ret.None? {
        ret, nbi := FindInSub(okey, name);
      }
    }

    /** Whether an address is in this dictionary's pools or those of the one behind it. */
    method Owns(a: Address) returns (owns: bool)
      requires DictOk(this) && (subdict != null ==> Behind(this, subdict) && subdict.subdict == null)
      ensures (exists s :: s in interned && interned[s] == a) ==> owns
      ensures subdict != null && (exists s :: s in subdict.interned && subdict.interned[s] == a) ==> owns
      ensures owns ==> a.pool in strings.owned || (subdict != null && a.pool in subdict.strings.owned)
    {
      hide TableOk, ItemsOk;
      owns := OwnsIn(strings, a);
      InternedIsStored(this, a);
      if !owns && subdict != null {
        InternedIsStored(subdict, a);
        owns := OwnsIn(subdict.strings, a);
      }
    }

    /** Frees the entries of the table: afterwards none is left, and none was freed twice. */
    method FreeEntries()
      requires DictOk(this)
      modifies this`nbElems, this`heap
      ensures nbElems == 0 && heap == {}
    {
      var left := FreeCounted();
      nbElems := left;
    }

    method FreeCounted() returns (left: nat)
      requires DictOk(this)
      modifies this`heap
      ensures left == 0 && heap == {}
    {
      hide Placement, Counted, Kept;
      var n;
      n, heap := FreeAll(table, nbElems, heap);
      left := n;
    }
  }

  method OwnsIn(strings: Strings, a: Address) returns (owns: bool)
    requires StringsOk(strings)
    ensures a in strings.stored ==> owns
    ensures owns ==> a.pool in strings.owned
  {
    owns := strings.Owns(a);
  }

  lemma InternedIsStored(d: XmlDict, a: Address)
    requires DictOk(d)
    ensures (exists s :: s in d.interned && d.interned[s] == a) ==> a in d.strings.stored
  {
    hide TableOk, StringsOk, Placement, Counted, Total;
  }

  /** No two strings are known under the same address. */
  lemma KnownInjective(d: XmlDict, s: Data, t: Data)
    requires DictOk(d) && (d.subdict != null ==> Behind(d, d.subdict))
    requires d.Known(s).Some? && d.Known(t).Some?
    ensures d.Known(s) == d.Known(t) <==> s == t
  {
    hide TableOk, Placement, Counted, Total;
    Pooled(d, s);
    Pooled(d, t);
    if d.subdict != null {
      Pooled(d.subdict, s);
      Pooled(d.subdict, t);
    }
  }

  lemma Pooled(d: XmlDict, s: Data)
    requires DictOk(d)
    ensures s in d.interned ==> d.interned[s].pool in d.strings.owned
  {
    hide TableOk, Placement, Counted, Total;
  }

  /** Over any run of lookups, with the table growing or not, equal strings get equal addresses
      and different strings different ones; and each stays known under its address. */
  method LookupAll(d: XmlDict, names: seq<Data>) returns (addrs: seq<Address>)
    requires DictOk(d) && (d.subdict != null ==> Behind(d, d.subdict)) && d.limit == 0
    requires forall i :: 0 <= i < |names| ==> 0 < |names[i]| <= INT_MAX / 2
    modifies d`nbElems, d`interned, d`heap, d`table, d.table, d.table.slots, d.table.live
    modifies d.strings, d.strings.owned, d.strings.arrays
    ensures DictOk(d) && |addrs| == |names|
    ensures forall i :: 0 <= i < |names| ==> d.Known(names[i]) == Some(addrs[i])
    ensures forall i, j :: 0 <= i < |names| && 0 <= j < |names| ==> (names[i] == names[j] <==> addrs[i] == addrs[j])
  {
    hide DictOk, Behind;
    addrs := [];
    for i := 0 to |names|
      invariant DictOk(d) && (d.subdict != null ==> Behind(d, d.subdict)) && |addrs| == i
      invariant forall k :: 0 <= k < i ==> d.Known(names[k]) == Some(addrs[k])
      invariant d.table == old(d.table) || fresh(d.table)
      invariant fresh(d.table.slots - old(d.table.slots)) && fresh(d.table.live - old(d.table.live))
      invariant fresh(d.strings.owned - old(d.strings.owned)) && fresh(d.strings.arrays - old(d.strings.arrays))
    {
      var a := d.Lookup(names[i]);
      addrs := addrs + [a.value];
    }
    forall i, j | 0 <= i < |names| && 0 <= j < |names| ensures names[i] == names[j] <==> addrs[i] == addrs[j] {
      KnownInjective(d, names[i], names[j]);
    }
  }

  method GrowOut(table: Table, keepKeys: bool, size: nat, seed: bv32, strings: Strings,
                 ghost interned: map<Data, Address>, ghost nbElems: nat, ghost heap: set<Entry>)
      returns (dict: Table, ghost heap': set<Entry>)
    requires TableOk(table) && StringsOk(strings) && ItemsOk(table.items, seed, interned, strings.stored, nbElems)
    requires size > 0 && heap == table.live
    modifies table.live
    ensures TableOk(dict) && StringsOk(strings) && |dict.heads| == size && heap' == dict.live
    ensures dict.items == Grown(old(table.items), keepKeys, size, seed)
    ensures fresh(dict) && fresh(dict.slots) && forall e :: e in dict.live ==> fresh(e) || e in old(table.live)
  {
    hide Grown, ItemsOk;
    ItemsReadable(table.items, seed, interned, strings, nbElems);
    dict, heap' := Grow(table, keepKeys, size, seed, strings, table.items, heap);
    assert strings.Valid();
  }

  method Store(strings: Strings, name: Data, limit: nat) returns (ret: Option<Address>)
    requires StringsOk(strings) && |name| <= INT_MAX / 2
    modifies strings, strings.owned, strings.arrays
    ensures StringsOk(strings)
    ensures fresh(strings.arrays - old(strings.arrays)) && fresh(strings.owned - old(strings.owned))
    ensures ret.None? ==> limit > 0 && strings.stored == old(strings.stored)
    ensures ret.Some? ==> ret.value !in old(strings.stored) && strings.stored == old(strings.stored)[ret.value := name]
  {
    ret := strings.AddString(name, limit);
  }

  method EnterItem(table: Table, last: Entry?, a: Address, okey: nat, name: Data, ghost heap: set<Entry>)
      returns (ghost heap': set<Entry>)
    requires TableOk(table) && |table.heads| > 0 && heap == table.live
    requires |table.chains| == |table.heads| == |table.items|
    requires exists nbi :: EndsAt(table.chains[okey % |table.heads|], last, nbi)
    modifies table, table.slots, table.live
    ensures TableOk(table)
    ensures var b := okey % |table.heads|;
      table.items == old(table.items)[b := old(table.items)[b] + [Item(name, a, okey)]]
    ensures heap' == table.live && table.slots == old(table.slots) && fresh(table.live - old(table.live))
  {
    ghost var nbi :| EndsAt(table.chains[okey % |table.heads|], last, nbi);
    heap' := AddLast(table, okey % |table.heads|, last, a, |name|, okey, name, heap);
  }

  ghost predicate EndsAt(c: seq<Entry>, last: Entry?, nbi: nat) {
    if c == [] then last == null && nbi == 0 else last == c[|c| - 1] && nbi == |c| - 1
  }

  method FindIn(table: Table, strings: Strings, okey: nat, name: Data, ghost seed: bv32, ghost interned: map<Data, Address>)
      returns (found: Option<Address>, last: Entry?, nbi: nat)
    requires TableOk(table) && |table.heads| > 0 && name != [] && okey == Key(|table.heads|, seed, name)
    requires Placement(table.items, seed, interned) && Counted(table.items, interned)
    requires |table.items| == |table.heads| && ReadableRest(table.items[okey % |table.heads|], strings)
    ensures found == if name in interned then Some(interned[name]) else None
    ensures |table.chains| == |table.heads|
    ensures found.None? ==> EndsAt(table.chains[okey % |table.heads|], last, nbi)
  {
    BucketHas(table.items, seed, interned, name);
    hide Key, Counted, Placement, ReadableRest;
    found, last, nbi := table.Search(okey % |table.heads|, okey, name, strings);
  }
}
