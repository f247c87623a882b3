/** The circular doubly linked list with a sentinel, kept sorted by a comparator. */
module LinkedList {
  import opened ListSpec

  class Link<T(0)> {
    var next: Link<T>
    var prev: Link<T>
    var data: T

    constructor (data: T)
      ensures this.data == data
    {
      this.next, this.prev, this.data := this, this, data;
    }

    constructor Sentinel()
      ensures next == this && prev == this
    {
      next, prev := this, this;
    }
  }

  /** The ring: position 0 and position |nodes| + 1 are both the sentinel. */
  ghost function At<T(0)>(sentinel: Link<T>, nodes: seq<Link<T>>, i: nat): Link<T>
    requires i <= |nodes| + 1
  {
    if 1 <= i <= |nodes| then nodes[i - 1] else sentinel
  }

  ghost predicate Distinct<T(0)>(sentinel: Link<T>, nodes: seq<Link<T>>) {
    && sentinel !in nodes
    && (forall i, j :: 0 <= i < j < |nodes| ==> nodes[i] != nodes[j])
  }

  lemma AtDistinct<T(0)>(sentinel: Link<T>, nodes: seq<Link<T>>, i: nat, j: nat)
    requires Distinct(sentinel, nodes) && i <= |nodes| && j <= |nodes| && i != j
    ensures At(sentinel, nodes, i) != At(sentinel, nodes, j)
  {
  }

  /** The ring is linked in both directions. */
  ghost predicate Linked<T(0)>(sentinel: Link<T>, nodes: seq<Link<T>>)
    reads sentinel, nodes
  {
    && (forall i :: 0 <= i <= |nodes| ==> At(sentinel, nodes, i).next == At(sentinel, nodes, i + 1))
    && (forall i :: 0 <= i <= |nodes| ==> At(sentinel, nodes, i + 1).prev == At(sentinel, nodes, i))
  }

  lemma DistinctInserted<T(0)>(sentinel: Link<T>, nodes: seq<Link<T>>, k: nat, l: Link<T>)
    requires Distinct(sentinel, nodes) && k <= |nodes| && l != sentinel && l !in nodes
    ensures Distinct(sentinel, InsertAt(nodes, k, l))
    ensures forall n :: n in InsertAt(nodes, k, l) ==> n in nodes || n == l
  {
  }

  lemma DistinctRemoved<T(0)>(sentinel: Link<T>, nodes: seq<Link<T>>, k: nat)
    requires Distinct(sentinel, nodes) && k < |nodes|
    ensures Distinct(sentinel, RemoveAt(nodes, k))
    ensures forall n :: n in RemoveAt(nodes, k) ==> n in nodes
  {
  }

  /** The ring is linked as it should be, except perhaps forwards from position `k` and
      backwards from position `m`. */
  ghost predicate LinkedBut<T(0)>(sentinel: Link<T>, nodes: seq<Link<T>>, k: nat, m: nat)
    requires k <= |nodes| + 1 && m <= |nodes| + 1
    reads sentinel, nodes
  {
    && (forall i :: 0 <= i <= |nodes| ==>
          At(sentinel, nodes, i).next == At(sentinel, nodes, i + 1) || At(sentinel, nodes, i) == At(sentinel, nodes, k))
    && (forall i :: 0 <= i <= |nodes| ==>
          At(sentinel, nodes, i + 1).prev == At(sentinel, nodes, i) || At(sentinel, nodes, i + 1) == At(sentinel, nodes, m))
  }

  /** A new link between positions `k` and `k + 1`. */
  lemma RingWithNew<T(0)>(sentinel: Link<T>, was: seq<Link<T>>, k: nat, lkNew: Link<T>)
    requires Distinct(sentinel, was) && k <= |was| && LinkedBut(sentinel, was, k, k + 1)
    requires lkNew.prev == At(sentinel, was, k) && lkNew.next == At(sentinel, was, k + 1)
    requires At(sentinel, was, k).next == lkNew && At(sentinel, was, k + 1).prev == lkNew
    ensures Linked(sentinel, InsertAt(was, k, lkNew))
  {
    var now := InsertAt(was, k, lkNew);
    forall i | 0 <= i <= |now|
      ensures At(sentinel, now, i).next == At(sentinel, now, i + 1)
      ensures At(sentinel, now, i + 1).prev == At(sentinel, now, i)
    {
      var i' := if i <= k then i else i - 1;
      if i' != k {
        AtDistinct(sentinel, was, i', k);
        NextDistinct(sentinel, was, i', k);
      }
    }
  }

  /** Position `k + 1` bypassed. */
  lemma RingWithout<T(0)>(sentinel: Link<T>, was: seq<Link<T>>, k: nat)
    requires Distinct(sentinel, was) && k < |was| && LinkedBut(sentinel, was, k, k + 2)
    requires At(sentinel, was, k).next == At(sentinel, was, k + 2)
    requires At(sentinel, was, k + 2).prev == At(sentinel, was, k)
    ensures Linked(sentinel, RemoveAt(was, k))
  {
    var now := RemoveAt(was, k);
    forall i | 0 <= i <= |now|
      ensures At(sentinel, now, i).next == At(sentinel, now, i + 1)
      ensures At(sentinel, now, i + 1).prev == At(sentinel, now, i)
    {
      var i' := if i <= k then i else i + 1;
      if i != k {
        AtDistinct(sentinel, was, i', k);
        NextDistinct(sentinel, was, i', k + 1);
      }
    }
  }

  lemma NextDistinct<T(0)>(sentinel: Link<T>, nodes: seq<Link<T>>, i: nat, j: nat)
    requires Distinct(sentinel, nodes) && i <= |nodes| && j <= |nodes| && i != j
    ensures At(sentinel, nodes, i + 1) != At(sentinel, nodes, j + 1)
  {
  }

  /** Linked as `nodes` would be if read from the back. */
  ghost predicate LinkedBackwards<T(0)>(sentinel: Link<T>, nodes: seq<Link<T>>)
    reads sentinel, nodes
  {
    && (forall i :: 0 <= i <= |nodes| ==> At(sentinel, nodes, i + 1).next == At(sentinel, nodes, i))
    && (forall i :: 0 <= i <= |nodes| ==> At(sentinel, nodes, i).prev == At(sentinel, nodes, i + 1))
  }

  lemma RingReversed<T(0)>(sentinel: Link<T>, was: seq<Link<T>>)
    requires LinkedBackwards(sentinel, was)
    ensures Linked(sentinel, Reversed(was))
  {
    var n, now := |was|, Reversed(was);
    forall i | 0 <= i <= n
      ensures At(sentinel, now, i).next == At(sentinel, now, i + 1)
      ensures At(sentinel, now, i + 1).prev == At(sentinel, now, i)
    {
      assert At(sentinel, now, i + 1) == At(sentinel, was, n - i);
      assert At(sentinel, now, i) == At(sentinel, was, n - i + 1);
    }
  }

  lemma DistinctReversed<T(0)>(sentinel: Link<T>, nodes: seq<Link<T>>)
    requires Distinct(sentinel, nodes)
    ensures Distinct(sentinel, Reversed(nodes))
    ensures forall n :: n in Reversed(nodes) <==> n in nodes
  {
    assert forall i :: 0 <= i < |nodes| ==> nodes[i] == Reversed(nodes)[|nodes| - 1 - i];
  }

  class XmlList<T(0)> {
    const sentinel: Link<T>
    const linkCompare: (T, T) -> int
    ghost var nodes: seq<Link<T>>    // the links, without the sentinel, in list order
    ghost var contents: seq<T>       // their data

    ghost predicate Valid()
      reads this, sentinel, nodes
    {
      && |contents| == |nodes|
      && (forall i :: 0 <= i < |nodes| ==> nodes[i].data == contents[i])
      && Distinct(sentinel, nodes)
      && Linked(sentinel, nodes)
    }

    /** The objects a list is made of. */
    ghost function Repr(): set<object>
      reads this
    {
      {this, sentinel} + set n | n in nodes
    }

    constructor (compare: (T, T) -> int)
      ensures Valid() && contents == [] && linkCompare == compare && fresh(Repr())
    {
      sentinel := new Link.Sentinel();
      linkCompare := compare;
      nodes, contents := [], [];
    }

    // -------------------------------------------------------------- searching

    method LowerSearch(data: T) returns (lk: Link<T>)
      requires Valid()
      ensures lk == At(sentinel, nodes, Lower(linkCompare, contents, data) + 1)
    {
      ghost var k: nat := 0;
      lk := sentinel.next;
      assert sentinel == At(sentinel, nodes, 0);
      while lk != sentinel && linkCompare(lk.data, data) < 0
        invariant k <= |nodes| && lk == At(sentinel, nodes, k + 1)
        invariant k + Lower(linkCompare, contents[k..], data) == Lower(linkCompare, contents, data)
        decreases |nodes| - k
      {
        assert contents[k..][1..] == contents[k + 1..];
        lk, k := lk.next, k + 1;
      }
    }

    method HigherSearch(data: T) returns (lk: Link<T>)
      requires Valid()
      ensures lk == At(sentinel, nodes, Higher(linkCompare, contents, data))
    {
      ghost var k: nat := |nodes|;
      lk := sentinel.prev;
      assert sentinel == At(sentinel, nodes, k + 1) && contents[..k] == contents;
      while lk != sentinel && linkCompare(lk.data, data) > 0
        invariant k <= |nodes| && lk == At(sentinel, nodes, k)
        invariant Higher(linkCompare, contents[..k], data) == Higher(linkCompare, contents, data)
        decreases k
      {
        assert contents[..k][..k - 1] == contents[..k - 1];
        lk, k := lk.prev, k - 1;
      }
    }

    /** The first link with equal data, or null. */
    method LinkSearch(data: T) returns (lk: Link?<T>)
      requires Valid()
      ensures lk == if Hits(linkCompare, contents, data) then nodes[Lower(linkCompare, contents, data)] else null
    {
      lk := LowerSearch(data);
      if lk == sentinel || linkCompare(lk.data, data) != 0 {
        lk := null;
      }
    }

    // -------------------------------------------------------------- linking

    /** Makes both neighbours at position `k` point to a new link, and the link to them. */
    method Splice(place: Link<T>, ghost k: nat, lkNew: Link<T>)
      requires Linked(sentinel, nodes) && k <= |nodes| && place == At(sentinel, nodes, k)
      requires lkNew != sentinel && lkNew !in nodes
      modifies Repr() - {this}, lkNew
      ensures LinkedBut(sentinel, nodes, k, k + 1)
      ensures lkNew.prev == At(sentinel, nodes, k) && lkNew.next == At(sentinel, nodes, k + 1)
      ensures At(sentinel, nodes, k).next == lkNew && At(sentinel, nodes, k + 1).prev == lkNew
      ensures sentinel.data == old(sentinel.data) && lkNew.data == old(lkNew.data)
      ensures forall n :: n in nodes ==> n.data == old(n.data)
    {
      assert place.next == At(sentinel, nodes, k + 1);
      lkNew.next := place.next;
      place.next.prev := lkNew;
      place.next := lkNew;
      lkNew.prev := place;
    }

    /** Puts a new link behind position `k`. */
    method LinkAfter(place: Link<T>, ghost k: nat, data: T)
      requires Valid() && k <= |nodes| && place == At(sentinel, nodes, k)
      modifies Repr()
      ensures Valid() && contents == InsertAt(old(contents), k, data)
      ensures fresh(Repr() - old(Repr()))
    {
      hide Linked, LinkedBut, Distinct;
      ghost var was := nodes;
      var lkNew := new Link(data);
      Splice(place, k, lkNew);
      DistinctInserted(sentinel, was, k, lkNew);
      nodes := InsertAt(was, k, lkNew);
      contents := InsertAt(contents, k, data);
      RingWithNew(sentinel, was, k, lkNew);
    }

    /** Takes the link at position `k + 1` out of the ring. */
    method Unlink(lk: Link<T>, ghost k: nat)
      requires Valid() && k < |nodes| && lk == nodes[k]
      modifies Repr()
      ensures Valid() && contents == RemoveAt(old(contents), k)
      ensures Repr() <= old(Repr())
    {
      ghost var was := nodes;
      assert lk == At(sentinel, was, k + 1);
      assert lk.prev == At(sentinel, was, k) && lk.next == At(sentinel, was, k + 2);
      lk.prev.next := lk.next;
      lk.next.prev := lk.prev;
      assert LinkedBut(sentinel, was, k, k + 2);
      hide Linked, LinkedBut, Distinct;
      DistinctRemoved(sentinel, was, k);
      RingWithout(sentinel, was, k);
      nodes := RemoveAt(was, k);
      contents := RemoveAt(contents, k);
    }

    // -------------------------------------------------------------- the interface

    lemma FirstLink()
      requires Valid()
      ensures sentinel.next == sentinel <==> nodes == []
      ensures nodes != [] ==> sentinel.next == nodes[0]
    {
      assert At(sentinel, nodes, 0).next == At(sentinel, nodes, 1);
    }

    method Insert(data: T)
      requires Valid()
      modifies Repr()
      ensures Valid() && contents == Inserted(linkCompare, old(contents), data)
      ensures fresh(Repr() - old(Repr()))
    {
      ghost var k := Lower(linkCompare, contents, data);
      var lkPlace := LowerSearch(data);
      assert lkPlace.prev == At(sentinel, nodes, k);
      LinkAfter(lkPlace.prev, k, data);
    }

    method Append(data: T)
      requires Valid()
      modifies Repr()
      ensures Valid() && contents == Appended(linkCompare, old(contents), data)
      ensures fresh(Repr() - old(Repr()))
    {
      var lkPlace := HigherSearch(data);
      LinkAfter(lkPlace, Higher(linkCompare, contents, data), data);
    }

    method RemoveFirst(data: T) returns (removed: bool)
      requires Valid()
      modifies Repr()
      ensures Valid() && removed == Hits(linkCompare, old(contents), data)
      ensures contents == if removed then RemoveAt(old(contents), Lower(linkCompare, old(contents), data)) else old(contents)
      ensures Repr() <= old(Repr())
    {
      var lk := LinkSearch(data);
      removed := lk != null;
      if removed {
        Unlink(lk, Lower(linkCompare, contents, data));
      }
    }

    method RemoveAll(data: T) returns (count: nat)
      requires Valid()
      modifies Repr()
      ensures Valid() && (contents, count) == AllRemoved(linkCompare, old(contents), data)
      ensures Repr() <= old(Repr())
    {
      hide AllRemoved, Linked, Distinct, Lower, At;
      count := 0;
      RemoveStep(linkCompare, contents, data);
      var more := RemoveFirst(data);
      while more
        invariant Valid()
        invariant Repr() <= old(Repr())
        invariant AllRemoved(linkCompare, old(contents), data).0 == AllRemoved(linkCompare, contents, data).0
        invariant AllRemoved(linkCompare, old(contents), data).1
               == AllRemoved(linkCompare, contents, data).1 + count + (if more then 1 else 0)
        invariant !more ==> !Hits(linkCompare, contents, data)
        decreases |contents|, more
      {
        count := count + 1;
        RemoveStep(linkCompare, contents, data);
        more := RemoveFirst(data);
      }
      RemoveStep(linkCompare, contents, data);
      assert AllRemoved(linkCompare, old(contents), data)
          == (AllRemoved(linkCompare, old(contents), data).0, AllRemoved(linkCompare, old(contents), data).1);
    }

    method Clear()
      requires Valid()
      modifies Repr()
      ensures Valid() && contents == [] && nodes == []
    {
      while sentinel.next != sentinel
        invariant Valid()
        invariant Repr() <= old(Repr())
        decreases |nodes|
      {
        FirstLink();
        Unlink(sentinel.next, 0);
      }
      FirstLink();
    }

    /** Inserts every element of the other list, front to back. */
    method Copy(other: XmlList<T>)
      requires Valid() && other.Valid() && Repr() !! other.Repr()
      modifies Repr()
      ensures Valid() && other.Valid() && Repr() !! other.Repr()
      ensures other.nodes == old(other.nodes) && other.contents == old(other.contents)
      ensures contents == Copied(linkCompare, old(contents), other.contents)
      ensures fresh(Repr() - old(Repr()))
    {
      var lk := other.sentinel.next;
      ghost var j := 0;
      ghost var s := other.contents;
      assert other.sentinel == At(other.sentinel, other.nodes, 0);
      while lk != other.sentinel
        invariant Valid() && other.Valid() && Repr() !! other.Repr()
        invariant other.nodes == old(other.nodes) && other.contents == s
        invariant fresh(Repr() - old(Repr()))
        invariant j <= |other.nodes| && lk == At(other.sentinel, other.nodes, j + 1)
        invariant Copied(linkCompare, contents, s[j..]) == Copied(linkCompare, old(contents), s)
        decreases |other.nodes| - j
      {
        assert s[j..][1..] == s[j + 1..];
        Insert(lk.data);
        lk, j := lk.next, j + 1;
      }
    }

    method Dup() returns (cur: XmlList<T>)
      requires Valid()
      ensures fresh(cur.Repr())
      ensures cur.Valid() && Valid() && cur.linkCompare == linkCompare
      ensures cur.contents == Copied(linkCompare, [], contents)
    {
      cur := new XmlList(linkCompare);
      cur.Copy(this);
    }

    /** Moves every element of the other list into this one. */
    method Merge(other: XmlList<T>)
      requires Valid() && other.Valid() && Repr() !! other.Repr()
      modifies Repr(), other.Repr()
      ensures Valid() && other.Valid()
      ensures contents == Copied(linkCompare, old(contents), old(other.contents)) && other.contents == []
      ensures fresh(Repr() - old(Repr()))
    {
      Copy(other);
      other.Clear();
    }

    method Sort()
      requires Valid()
      modifies Repr()
      ensures Valid() && contents == SortedCopy(linkCompare, old(contents))
      ensures fresh(Repr() - {this, sentinel})
    {
      FirstLink();
      if sentinel.next == sentinel {
        return;
      }
      var temp := Dup();
      assert Repr() !! temp.Repr();
      Clear();
      Merge(temp);
    }

    /** Hands the elements to the walker in order, until it returns false or there are no more. */
    method Walk(walker: T -> bool) returns (s: seq<T>)
      requires Valid()
      ensures s == contents[..Visited(walker, contents)]
    {
      s := [];
      var lk := sentinel.next;
      FirstLink();
      while lk != sentinel
        invariant |s| <= |nodes| && s == contents[..|s|] && lk == At(sentinel, nodes, |s| + 1)
        invariant forall i :: 0 <= i < |s| ==> walker(contents[i])
        decreases |nodes| - |s|
      {
        s := s + [lk.data];
        if !walker(lk.data) {
          break;
        }
        lk := lk.next;
      }
      VisitedIs(walker, contents, |s|);
    }

    /** One pass that swaps the two links of every node. */
    method Reverse()
      requires Valid()
      modifies Repr()
      ensures Valid() && contents == Reversed(old(contents)) && nodes == Reversed(old(nodes))
    {
      hide Reversed, Linked;
      SwapLinks();
      RingReversed(sentinel, nodes);
      DistinctReversed(sentinel, nodes);
      nodes, contents := Reversed(nodes), Reversed(contents);
    }

    method SwapLinks()
      requires Valid()
      modifies Repr()
      ensures nodes == old(nodes) && contents == old(contents)
      ensures forall i :: 0 <= i < |nodes| ==> nodes[i].data == contents[i]
      ensures LinkedBackwards(sentinel, nodes)
    {
      ghost var n, was := |nodes|, nodes;
      ghost var j := 0;
      ghost var done: set<Link<T>> := {};
      var lkPrev := sentinel;
      var lk := sentinel.next;
      assert sentinel == At(sentinel, was, 0);
      while lk != sentinel
        invariant j <= n && nodes == was && contents == old(contents)
        invariant lkPrev == At(sentinel, was, j) && lk == At(sentinel, was, j + 1)
        invariant forall l: Link<T> :: l == sentinel || l in was ==>
          && l.data == old(l.data)
          && l.next == (if l in done then old(l.prev) else old(l.next))
          && l.prev == (if l in done then old(l.next) else old(l.prev))
        invariant forall i :: 0 <= i <= n ==> (At(sentinel, was, i) in done <==> i < j)
        decreases n - j
      {
        assert old(At(sentinel, was, j + 1).next == At(sentinel, was, j + 2));
        DoneGrows(sentinel, was, done, j);
        done := done + {lkPrev};
        lkPrev.next := lkPrev.prev;
        lkPrev.prev := lk;
        lkPrev := lk;
        lk := lk.next;
        j := j + 1;
      }
      assert old(At(sentinel, was, n).next == At(sentinel, was, n + 1));
      DoneGrows(sentinel, was, done, j);
      lkPrev.next := lkPrev.prev;
      lkPrev.prev := lk;
      forall i | 0 <= i <= n
        ensures At(sentinel, was, i + 1).next == At(sentinel, was, i)
        ensures At(sentinel, was, i).prev == At(sentinel, was, i + 1)
      {
        assert At(sentinel, was, if i == n then 0 else i + 1) == At(sentinel, was, i + 1);
        assert old(At(sentinel, was, i).next == At(sentinel, was, i + 1));
        assert old(At(sentinel, was, i + 1).prev == At(sentinel, was, i));
      }
    }
  }

  lemma DoneGrows<T(0)>(sentinel: Link<T>, nodes: seq<Link<T>>, done: set<Link<T>>, j: nat)
    requires Distinct(sentinel, nodes) && j <= |nodes|
    requires forall i :: 0 <= i <= |nodes| ==> (At(sentinel, nodes, i) in done <==> i < j)
    ensures forall i :: 0 <= i <= |nodes| ==> (At(sentinel, nodes, i) in done + {At(sentinel, nodes, j)} <==> i < j + 1)
  {
    forall i | 0 <= i <= |nodes| && i != j
      ensures At(sentinel, nodes, i) != At(sentinel, nodes, j)
    {
      AtDistinct(sentinel, nodes, i, j);
    }
  }
}
