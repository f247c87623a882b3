/** The contents of a hash table as values: buckets of items, what growing does to them, and why
    no item gets lost or doubled. */
module DictItems {
  import opened Bytes
  import opened Options
  import opened DictKeys
  import opened DictStrings

  /** What an entry stands for: a string, where it is stored, and its key. */
  datatype Item = Item(text: Data, name: Address, okey: nat)

  ghost function Inserted<T>(s: seq<T>, at: nat, x: T): seq<T>
    requires at <= |s|
  {
    s[..at] + [x] + s[at..]
  }

  /** An item goes behind the first one of its bucket. */
  ghost function PutSecond(its: seq<seq<Item>>, i: Item): seq<seq<Item>>
    requires |its| > 0
  {
    var b := i.okey % |its|;
    its[b := Inserted(its[b], if its[b] == [] then 0 else 1, i)]
  }

  ghost function PutAll(size: nat, p: seq<Item>): (its: seq<seq<Item>>)
    requires size > 0
    ensures |its| == size
  {
    if p == [] then seq(size, _ => []) else PutSecond(PutAll(size, p[..|p| - 1]), p[|p| - 1])
  }

  /** The heads of the buckets. */
  ghost function Firsts(its: seq<seq<Item>>): seq<Item> {
    if its == [] then []
    else
      var n := |its| - 1;
      Firsts(its[..n]) + if its[n] == [] then [] else [its[n][0]]
  }

  /** All the others. */
  ghost function Rests(its: seq<seq<Item>>): seq<Item> {
    if its == [] then []
    else
      var n := |its| - 1;
      Rests(its[..n]) + if its[n] == [] then [] else its[n][1..]
  }

  ghost function Rekeyed(i: Item, keepKeys: bool, size: nat, seed: bv32): Item {
    if keepKeys || i.text == [] then i else i.(okey := Key(size, seed, i.text))
  }

  ghost function RekeyedAll(p: seq<Item>, keepKeys: bool, size: nat, seed: bv32): (q: seq<Item>)
    ensures |q| == |p| && forall k :: 0 <= k < |p| ==> q[k] == Rekeyed(p[k], keepKeys, size, seed)
  {
    if p == [] then [] else RekeyedAll(p[..|p| - 1], keepKeys, size, seed) + [Rekeyed(p[|p| - 1], keepKeys, size, seed)]
  }

  /** The table after growing: first the heads are put in again, then all the others. */
  ghost function Grown(its: seq<seq<Item>>, keepKeys: bool, size: nat, seed: bv32): seq<seq<Item>>
    requires size > 0
  {
    PutAll(size, RekeyedAll(Firsts(its) + Rests(its), keepKeys, size, seed))
  }

  // ---------------------------------------------------------------- counting

  /** How often a string occurs. */
  ghost function Count(p: seq<Item>, s: Data): nat {
    if p == [] then 0 else Count(p[..|p| - 1], s) + if p[|p| - 1].text == s then 1 else 0
  }

  ghost function CountAll(its: seq<seq<Item>>, s: Data): nat {
    if its == [] then 0 else CountAll(its[..|its| - 1], s) + Count(its[|its| - 1], s)
  }

  ghost function Total(its: seq<seq<Item>>): nat {
    if its == [] then 0 else Total(its[..|its| - 1]) + |its[|its| - 1]|
  }

  lemma {:induction false} CountAppend(p: seq<Item>, q: seq<Item>, s: Data)
    ensures Count(p + q, s) == Count(p, s) + Count(q, s)
    decreases |q|
  {
    if q == [] {
      assert p + q == p;
    } else {
      assert (p + q)[..|p + q| - 1] == p + q[..|q| - 1];
      CountAppend(p, q[..|q| - 1], s);
    }
  }

  lemma CountInserted(p: seq<Item>, at: nat, i: Item, s: Data)
    requires at <= |p|
    ensures Count(Inserted(p, at, i), s) == Count(p, s) + if i.text == s then 1 else 0
  {
    CountAppend(p[..at], [i], s);
    CountAppend(p[..at] + [i], p[at..], s);
    CountAppend(p[..at], p[at..], s);
    assert p == p[..at] + p[at..];
    assert [i][..0] == [];
  }

  lemma {:induction false} CountAllUpdate(its: seq<seq<Item>>, b: nat, p: seq<Item>, s: Data)
    requires b < |its|
    ensures CountAll(its[b := p], s) + Count(its[b], s) == CountAll(its, s) + Count(p, s)
    ensures Total(its[b := p]) + |its[b]| == Total(its) + |p|
    decreases |its|
  {
    var n := |its| - 1;
    if b < n {
      assert its[b := p][..n] == its[..n][b := p];
      CountAllUpdate(its[..n], b, p, s);
    } else {
      assert its[b := p][..n] == its[..n];
    }
  }

  lemma {:induction false} CountEmpty(size: nat, s: Data)
    ensures CountAll(seq(size, _ => []), s) == 0 && Total(seq(size, _ => [])) == 0
  {
    if size > 0 {
      var e: seq<seq<Item>> := seq(size, _ => []);
      assert e[..size - 1] == seq(size - 1, _ => []);
      CountEmpty(size - 1, s);
    }
  }

  lemma {:induction false} CountPutAll(size: nat, p: seq<Item>, s: Data)
    requires size > 0
    ensures CountAll(PutAll(size, p), s) == Count(p, s) && Total(PutAll(size, p)) == |p|
    decreases |p|
  {
    if p == [] {
      CountEmpty(size, s);
    } else {
      var before, i := PutAll(size, p[..|p| - 1]), p[|p| - 1];
      CountPutAll(size, p[..|p| - 1], s);
      var b := i.okey % size;
      var at := if before[b] == [] then 0 else 1;
      CountInserted(before[b], at, i, s);
      CountAllUpdate(before, b, Inserted(before[b], at, i), s);
    }
  }

  lemma PartsStep(its: seq<seq<Item>>, s: Data) returns (head: seq<Item>, tail: seq<Item>)
    requires its != []
    ensures var n := |its| - 1;
      && its[n] == head + tail
      && Firsts(its) == Firsts(its[..n]) + head && Rests(its) == Rests(its[..n]) + tail
      && CountAll(its, s) == CountAll(its[..n], s) + Count(head + tail, s)
      && Total(its) == Total(its[..n]) + |its[n]|
  {
    hide Count;
    var last := its[|its| - 1];
    head, tail := if last == [] then [] else [last[0]], if last == [] then [] else last[1..];
    assert last == head + tail;
  }

  lemma {:induction false} CountParts(its: seq<seq<Item>>, s: Data)
    ensures Count(Firsts(its) + Rests(its), s) == CountAll(its, s)
    ensures |Firsts(its) + Rests(its)| == Total(its)
    decreases |its|
  {
    if its != [] {
      hide Count, CountAll, Total, Firsts, Rests;
      var front := its[..|its| - 1];
      var head, tail := PartsStep(its, s);
      CountParts(front, s);
      CountAppend(Firsts(front), Rests(front), s);
      CountAppend(Firsts(front), head, s);
      CountAppend(Rests(front), tail, s);
      CountAppend(head, tail, s);
      CountAppend(Firsts(its), Rests(its), s);
    }
  }

  lemma {:induction false} CountRekeyed(p: seq<Item>, keepKeys: bool, size: nat, seed: bv32, s: Data)
    ensures Count(RekeyedAll(p, keepKeys, size, seed), s) == Count(p, s)
    decreases |p|
  {
    if p != [] {
      var q := RekeyedAll(p, keepKeys, size, seed);
      assert q[..|p| - 1] == RekeyedAll(p[..|p| - 1], keepKeys, size, seed);
      CountRekeyed(p[..|p| - 1], keepKeys, size, seed, s);
    }
  }

  /** Growing keeps every string, as often as it was there. */
  lemma GrownCounts(its: seq<seq<Item>>, keepKeys: bool, size: nat, seed: bv32, s: Data)
    requires size > 0
    ensures CountAll(Grown(its, keepKeys, size, seed), s) == CountAll(its, s)
    ensures Total(Grown(its, keepKeys, size, seed)) == Total(its)
  {
    var p := Firsts(its) + Rests(its);
    CountParts(its, s);
    CountRekeyed(p, keepKeys, size, seed, s);
    CountPutAll(size, RekeyedAll(p, keepKeys, size, seed), s);
  }

  // ---------------------------------------------------------------- where the items are

  /** An item has the key the size of its table selects, and its string is registered. */
  ghost predicate ItemOk(i: Item, size: nat, seed: bv32, names: map<Data, Address>) {
    i.text != [] && i.okey == Key(size, seed, i.text) && i.text in names && names[i.text] == i.name
  }

  /** Every item is such, and in the bucket its key selects. */
  ghost predicate Placement(its: seq<seq<Item>>, seed: bv32, names: map<Data, Address>) {
    forall b, j :: 0 <= b < |its| && 0 <= j < |its[b]| ==>
      ItemOk(its[b][j], |its|, seed, names) && its[b][j].okey % |its| == b
  }

  ghost predicate AllOk(p: seq<Item>, size: nat, seed: bv32, names: map<Data, Address>) {
    forall k :: 0 <= k < |p| ==> ItemOk(p[k], size, seed, names)
  }

  lemma {:induction false} PutAllPlaces(size: nat, p: seq<Item>, seed: bv32, names: map<Data, Address>)
    requires size > 0 && AllOk(p, size, seed, names)
    ensures Placement(PutAll(size, p), seed, names)
    decreases |p|
  {
    hide ItemOk;
    if p != [] {
      var n := |p| - 1;
      PutAllPlaces(size, p[..n], seed, names);
      PutSecondPlaces(PutAll(size, p[..n]), p[n], seed, names);
    }
  }

  lemma PutSecondPlaces(its: seq<seq<Item>>, i: Item, seed: bv32, names: map<Data, Address>)
    requires |its| > 0 && Placement(its, seed, names) && ItemOk(i, |its|, seed, names)
    ensures Placement(PutSecond(its, i), seed, names)
  {
    hide ItemOk;
  }

  lemma {:induction false} PartsOk(its: seq<seq<Item>>, size: nat, seed: bv32, names: map<Data, Address>)
    requires forall b, j :: 0 <= b < |its| && 0 <= j < |its[b]| ==> ItemOk(its[b][j], size, seed, names)
    ensures AllOk(Firsts(its), size, seed, names) && AllOk(Rests(its), size, seed, names)
    decreases |its|
  {
    hide ItemOk;
    if its != [] {
      PartsOk(its[..|its| - 1], size, seed, names);
    }
  }

  /** Once the table has grown the keys are the good ones, and stay so. */
  lemma RekeyedOk(p: seq<Item>, oldSize: nat, size: nat, seed: bv32, names: map<Data, Address>)
    requires AllOk(p, oldSize, seed, names) && size != MIN_DICT_SIZE
    ensures AllOk(RekeyedAll(p, oldSize != MIN_DICT_SIZE, size, seed), size, seed, names)
  {
    hide FastKey, BigKey;
    var q := RekeyedAll(p, oldSize != MIN_DICT_SIZE, size, seed);
    forall k | 0 <= k < |p| ensures ItemOk(q[k], size, seed, names) {
      assert ItemOk(p[k], oldSize, seed, names);
    }
  }

  /** Growing puts every item where its new key says. */
  lemma GrownPlaces(its: seq<seq<Item>>, size: nat, seed: bv32, names: map<Data, Address>)
    requires size > 0 && size != MIN_DICT_SIZE && Placement(its, seed, names)
    ensures Placement(Grown(its, |its| != MIN_DICT_SIZE, size, seed), seed, names)
  {
    hide ItemOk;
    PartsOk(its, |its|, seed, names);
    var p := Firsts(its) + Rests(its);
    assert AllOk(p, |its|, seed, names);
    RekeyedOk(p, |its|, size, seed, names);
    PutAllPlaces(size, RekeyedAll(p, |its| != MIN_DICT_SIZE, size, seed), seed, names);
  }

  /** A string that occurs in the table occurs in the bucket of its key. */
  lemma {:induction false} CountHit(p: seq<Item>, s: Data) returns (j: nat)
    requires Count(p, s) > 0
    ensures j < |p| && p[j].text == s
    decreases |p|
  {
    var n := |p| - 1;
    if p[n].text == s {
      j := n;
    } else {
      j := CountHit(p[..n], s);
    }
  }

  lemma {:induction false} CountPositive(p: seq<Item>, s: Data, j: nat)
    requires j < |p| && p[j].text == s
    ensures Count(p, s) > 0
    decreases |p|
  {
    if j < |p| - 1 {
      CountPositive(p[..|p| - 1], s, j);
    }
  }

  lemma {:induction false} CountAllHit(its: seq<seq<Item>>, s: Data) returns (b: nat, j: nat)
    requires CountAll(its, s) > 0
    ensures b < |its| && j < |its[b]| && its[b][j].text == s
    decreases |its|
  {
    var n := |its| - 1;
    if Count(its[n], s) > 0 {
      b := n;
      j := CountHit(its[n], s);
    } else {
      b, j := CountAllHit(its[..n], s);
    }
  }

  lemma {:induction false} CountAllPositive(its: seq<seq<Item>>, s: Data, b: nat, j: nat)
    requires b < |its| && j < |its[b]| && its[b][j].text == s
    ensures CountAll(its, s) > 0
    decreases |its|
  {
    if b < |its| - 1 {
      CountAllPositive(its[..|its| - 1], s, b, j);
    } else {
      CountPositive(its[b], s, j);
    }
  }

  /** Searching the bucket of a string's key decides whether the table has the string. */
  lemma BucketDecides(its: seq<seq<Item>>, seed: bv32, names: map<Data, Address>, s: Data)
    requires |its| > 0 && Placement(its, seed, names) && s != []
    ensures var b := Key(|its|, seed, s) % |its|;
      CountAll(its, s) > 0 <==> exists j :: 0 <= j < |its[b]| && its[b][j].text == s
  {
    hide Key;
    var b := Key(|its|, seed, s) % |its|;
    if CountAll(its, s) > 0 {
      var b', j := CountAllHit(its, s);
    }
    if j :| 0 <= j < |its[b]| && its[b][j].text == s {
      CountAllPositive(its, s, b, j);
    }
  }

  lemma {:induction false} TotalGrows(its: seq<seq<Item>>, i: nat)
    requires i < |its|
    ensures Total(its[..i + 1]) == Total(its[..i]) + |its[i]|
  {
    assert its[..i + 1][..i] == its[..i];
  }

  /** Once everything has been counted, the remaining buckets are empty. */
  lemma {:induction false} NothingLeft(its: seq<seq<Item>>, i: nat, b: nat)
    requires i <= b < |its| && Total(its[..i]) == Total(its)
    ensures its[b] == []
    decreases |its|
  {
    TotalMonotone(its, i, b);
    TotalGrows(its, b);
    TotalMonotone(its, b + 1, |its|);
    assert its[..|its|] == its;
  }

  lemma {:induction false} TotalMonotone(its: seq<seq<Item>>, i: nat, k: nat)
    requires i <= k <= |its|
    ensures Total(its[..i]) <= Total(its[..k])
    decreases k - i
  {
    if i < k {
      TotalGrows(its, i);
      TotalMonotone(its, i + 1, k);
    }
  }
}
