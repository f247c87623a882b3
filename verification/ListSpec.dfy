/** What the operations of the sorted list mean on a sequence, and what follows from that:
    sorting is stable, and a list of pairwise different elements has one sorted arrangement. */
module ListSpec {

  /** The comparator is a total preorder on the elements of `dom`. */
  ghost predicate OrderOn<T>(cmp: (T, T) -> int, dom: set<T>) {
    && (forall x, y :: x in dom && y in dom ==> (cmp(x, y) < 0 <==> cmp(y, x) > 0))
    && (forall x, y, z :: x in dom && y in dom && z in dom && cmp(x, y) <= 0 && cmp(y, z) <= 0 ==> cmp(x, z) <= 0)
  }

  /** Elements that compare equal are the same element. */
  ghost predicate StrictOn<T>(cmp: (T, T) -> int, dom: set<T>) {
    forall x, y :: x in dom && y in dom && cmp(x, y) == 0 ==> x == y
  }

  ghost predicate Within<T>(s: seq<T>, dom: set<T>) {
    forall i :: 0 <= i < |s| ==> s[i] in dom
  }

  ghost predicate Sorted<T>(cmp: (T, T) -> int, s: seq<T>) {
    forall i, j :: 0 <= i < j < |s| ==> cmp(s[i], s[j]) <= 0
  }

  lemma Flip<T>(cmp: (T, T) -> int, dom: set<T>, x: T, y: T)
    requires OrderOn(cmp, dom) && x in dom && y in dom
    ensures cmp(x, y) < 0 <==> cmp(y, x) > 0
    ensures cmp(x, y) > 0 <==> cmp(y, x) < 0
    ensures cmp(x, x) == 0
  {
  }

  lemma Trans<T>(cmp: (T, T) -> int, dom: set<T>, x: T, y: T, z: T)
    requires OrderOn(cmp, dom) && x in dom && y in dom && z in dom
    requires cmp(x, y) <= 0 && cmp(y, z) <= 0
    ensures cmp(x, z) <= 0
  {
  }

  // ---------------------------------------------------------------- the operations

  /** How far a walk from the front gets while the elements are smaller than `x`. */
  function Lower<T>(cmp: (T, T) -> int, s: seq<T>, x: T): (k: nat)
    ensures k <= |s|
    ensures forall i :: 0 <= i < k ==> cmp(s[i], x) < 0
    ensures k < |s| ==> cmp(s[k], x) >= 0
  {
    if s == [] || cmp(s[0], x) >= 0 then 0 else 1 + Lower(cmp, s[1..], x)
  }

  /** How many elements are left in front by a walk from the back while they are larger. */
  function Higher<T>(cmp: (T, T) -> int, s: seq<T>, x: T): (k: nat)
    ensures k <= |s|
    ensures forall i :: k <= i < |s| ==> cmp(s[i], x) > 0
    ensures k > 0 ==> cmp(s[k - 1], x) <= 0
  {
    if s == [] || cmp(s[|s| - 1], x) <= 0 then |s| else Higher(cmp, s[..|s| - 1], x)
  }

  function InsertAt<T>(s: seq<T>, k: nat, x: T): seq<T>
    requires k <= |s|
  {
    s[..k] + [x] + s[k..]
  }

  function RemoveAt<T>(s: seq<T>, k: nat): seq<T>
    requires k < |s|
  {
    s[..k] + s[k + 1..]
  }

  function Inserted<T>(cmp: (T, T) -> int, s: seq<T>, x: T): seq<T> {
    InsertAt(s, Lower(cmp, s, x), x)
  }

  function Appended<T>(cmp: (T, T) -> int, s: seq<T>, x: T): seq<T> {
    InsertAt(s, Higher(cmp, s, x), x)
  }

  function Copied<T>(cmp: (T, T) -> int, cur: seq<T>, old_: seq<T>): seq<T>
    decreases |old_|
  {
    if old_ == [] then cur else Copied(cmp, Inserted(cmp, cur, old_[0]), old_[1..])
  }

  /** Duplicate, then merge the duplicate back. */
  function SortedCopy<T>(cmp: (T, T) -> int, s: seq<T>): seq<T> {
    Copied(cmp, [], Copied(cmp, [], s))
  }

  predicate Hits<T>(cmp: (T, T) -> int, s: seq<T>, x: T) {
    var k := Lower(cmp, s, x);
    k < |s| && cmp(s[k], x) == 0
  }

  function AllRemoved<T>(cmp: (T, T) -> int, s: seq<T>, x: T): (r: (seq<T>, nat))
    decreases |s|
  {
    if Hits(cmp, s, x) then
      var (rest, n) := AllRemoved(cmp, RemoveAt(s, Lower(cmp, s, x)), x);
      (rest, n + 1)
    else (s, 0)
  }

  function Reversed<T>(s: seq<T>): (r: seq<T>)
    ensures |r| == |s|
    ensures forall i :: 0 <= i < |s| ==> r[i] == s[|s| - 1 - i]
  {
    if s == [] then [] else Reversed(s[1..]) + [s[0]]
  }

  /** The elements that compare equal to `x`, in list order. */
  function Equals<T>(cmp: (T, T) -> int, s: seq<T>, x: T): seq<T> {
    if s == [] then [] else (if cmp(s[0], x) == 0 then [s[0]] else []) + Equals(cmp, s[1..], x)
  }

  function Others<T>(cmp: (T, T) -> int, s: seq<T>, x: T): seq<T> {
    if s == [] then [] else (if cmp(s[0], x) == 0 then [] else [s[0]]) + Others(cmp, s[1..], x)
  }

  // ---------------------------------------------------------------- inserting

  lemma {:induction false} EqualsAppend<T>(cmp: (T, T) -> int, s: seq<T>, t: seq<T>, x: T)
    ensures Equals(cmp, s + t, x) == Equals(cmp, s, x) + Equals(cmp, t, x)
  {
    if s == [] {
      assert s + t == t;
    } else {
      assert (s + t)[1..] == s[1..] + t;
      EqualsAppend(cmp, s[1..], t, x);
      var head := if cmp(s[0], x) == 0 then [s[0]] else [];
      assert head + (Equals(cmp, s[1..], x) + Equals(cmp, t, x)) == (head + Equals(cmp, s[1..], x)) + Equals(cmp, t, x);
    }
  }

  lemma {:induction false} OthersAppend<T>(cmp: (T, T) -> int, s: seq<T>, t: seq<T>, x: T)
    ensures Others(cmp, s + t, x) == Others(cmp, s, x) + Others(cmp, t, x)
  {
    if s == [] {
      assert s + t == t;
    } else {
      assert (s + t)[1..] == s[1..] + t;
      OthersAppend(cmp, s[1..], t, x);
      var head := if cmp(s[0], x) == 0 then [] else [s[0]];
      assert head + (Others(cmp, s[1..], x) + Others(cmp, t, x)) == (head + Others(cmp, s[1..], x)) + Others(cmp, t, x);
    }
  }

  lemma {:induction false} NoEquals<T>(cmp: (T, T) -> int, s: seq<T>, x: T)
    requires forall i :: 0 <= i < |s| ==> cmp(s[i], x) != 0
    ensures Equals(cmp, s, x) == [] && Others(cmp, s, x) == s
  {
    if s != [] {
      NoEquals(cmp, s[1..], x);
    }
  }

  lemma InsertAtIsPermutation<T>(s: seq<T>, k: nat, x: T)
    requires k <= |s|
    ensures multiset(InsertAt(s, k, x)) == multiset(s) + multiset{x}
  {
    assert s == s[..k] + s[k..];
  }

  lemma EqualsOfInsertAt<T>(cmp: (T, T) -> int, s: seq<T>, k: nat, y: T, x: T)
    requires k <= |s|
    ensures Equals(cmp, InsertAt(s, k, y), x)
         == Equals(cmp, s[..k], x) + Equals(cmp, [y], x) + Equals(cmp, s[k..], x)
    ensures Equals(cmp, s, x) == Equals(cmp, s[..k], x) + Equals(cmp, s[k..], x)
  {
    EqualsAppend(cmp, s[..k] + [y], s[k..], x);
    EqualsAppend(cmp, s[..k], [y], x);
    EqualsAppend(cmp, s[..k], s[k..], x);
    assert s == s[..k] + s[k..];
  }

  lemma EqualsOfOne<T>(cmp: (T, T) -> int, y: T, x: T)
    ensures Equals(cmp, [y], x) == if cmp(y, x) == 0 then [y] else []
    ensures Others(cmp, [y], x) == if cmp(y, x) == 0 then [] else [y]
  {
  }

  lemma InsertAtSorted<T>(cmp: (T, T) -> int, dom: set<T>, s: seq<T>, k: nat, y: T)
    requires k <= |s| && Within(s, dom) && y in dom && Sorted(cmp, s)
    requires forall i :: 0 <= i < k ==> cmp(s[i], y) <= 0
    requires forall i :: k <= i < |s| ==> cmp(y, s[i]) <= 0
    ensures Sorted(cmp, InsertAt(s, k, y)) && Within(InsertAt(s, k, y), dom)
  {
    var t := InsertAt(s, k, y);
    forall i, j | 0 <= i < j < |t| ensures cmp(t[i], t[j]) <= 0 {
      var i', j' := if i < k then i else i - 1, if j < k then j else j - 1;
      if i != k && j != k {
        assert t[i] == s[i'] && t[j] == s[j'];
      }
    }
  }

  /** An insertion keeps the order and puts the new element before its equals. */
  lemma InsertKeepsOrder<T>(cmp: (T, T) -> int, dom: set<T>, s: seq<T>, y: T, x: T)
    requires OrderOn(cmp, dom) && Within(s, dom) && y in dom && x in dom && Sorted(cmp, s)
    ensures Sorted(cmp, Inserted(cmp, s, y)) && Within(Inserted(cmp, s, y), dom)
    ensures Equals(cmp, Inserted(cmp, s, y), x) == Equals(cmp, [y], x) + Equals(cmp, s, x)
  {
    hide OrderOn, Sorted, Equals;
    var k := Lower(cmp, s, y);
    LowerBounds(cmp, dom, s, y);
    InsertAtSorted(cmp, dom, s, k, y);
    EqualsOfInsertAt(cmp, s, k, y, x);
    EqualsOfOne(cmp, y, x);
    if cmp(y, x) == 0 {
      BelowDiffers(cmp, dom, s[..k], y, x);
    }
  }

  lemma LowerBounds<T>(cmp: (T, T) -> int, dom: set<T>, s: seq<T>, y: T)
    requires OrderOn(cmp, dom) && Within(s, dom) && y in dom && Sorted(cmp, s)
    ensures forall i :: Lower(cmp, s, y) <= i < |s| ==> cmp(y, s[i]) <= 0
  {
    hide OrderOn;
    var k := Lower(cmp, s, y);
    forall i | k <= i < |s| ensures cmp(y, s[i]) <= 0 {
      Flip(cmp, dom, s[k], y);
      if i > k {
        Trans(cmp, dom, y, s[k], s[i]);
      }
    }
  }

  lemma BelowDiffers<T>(cmp: (T, T) -> int, dom: set<T>, s: seq<T>, y: T, x: T)
    requires OrderOn(cmp, dom) && Within(s, dom) && y in dom && x in dom && cmp(y, x) == 0
    requires forall i :: 0 <= i < |s| ==> cmp(s[i], y) != 0
    ensures Equals(cmp, s, x) == []
  {
    hide OrderOn, Equals;
    forall i | 0 <= i < |s| ensures cmp(s[i], x) != 0 {
      var z := s[i];
      Flip(cmp, dom, z, y);
      Flip(cmp, dom, x, y);
      Flip(cmp, dom, z, x);
      if cmp(z, x) == 0 {
        if cmp(z, y) > 0 {
          Trans(cmp, dom, z, x, y);
        } else {
          Trans(cmp, dom, y, x, z);
        }
      }
    }
    NoEquals(cmp, s, x);
  }

  /** An append keeps the order and puts the new element behind its equals. */
  lemma AppendKeepsOrder<T>(cmp: (T, T) -> int, dom: set<T>, s: seq<T>, y: T, x: T)
    requires OrderOn(cmp, dom) && Within(s, dom) && y in dom && x in dom && Sorted(cmp, s)
    ensures Sorted(cmp, Appended(cmp, s, y)) && Within(Appended(cmp, s, y), dom)
    ensures Equals(cmp, Appended(cmp, s, y), x) == Equals(cmp, s, x) + Equals(cmp, [y], x)
  {
    hide OrderOn, Sorted, Equals;
    var k := Higher(cmp, s, y);
    HigherBounds(cmp, dom, s, y);
    InsertAtSorted(cmp, dom, s, k, y);
    EqualsOfInsertAt(cmp, s, k, y, x);
    EqualsOfOne(cmp, y, x);
    if cmp(y, x) == 0 {
      BelowDiffers(cmp, dom, s[k..], y, x);
    }
  }

  lemma HigherBounds<T>(cmp: (T, T) -> int, dom: set<T>, s: seq<T>, y: T)
    requires OrderOn(cmp, dom) && Within(s, dom) && y in dom && Sorted(cmp, s)
    ensures forall i :: 0 <= i < Higher(cmp, s, y) ==> cmp(s[i], y) <= 0
    ensures forall i :: Higher(cmp, s, y) <= i < |s| ==> cmp(y, s[i]) <= 0
  {
    hide OrderOn;
    var k := Higher(cmp, s, y);
    forall i | 0 <= i < k ensures cmp(s[i], y) <= 0 {
      if i < k - 1 {
        Trans(cmp, dom, s[i], s[k - 1], y);
      }
    }
    forall i | k <= i < |s| ensures cmp(y, s[i]) <= 0 {
      Flip(cmp, dom, s[i], y);
    }
  }

  // ---------------------------------------------------------------- copying and sorting

  lemma ReversedAppend<T>(s: seq<T>, t: seq<T>)
    ensures Reversed(s + t) == Reversed(t) + Reversed(s)
  {
    var l, r := Reversed(s + t), Reversed(t) + Reversed(s);
    forall i | 0 <= i < |l| ensures l[i] == r[i] {
    }
    assert l == r;
  }

  lemma ReversedTwice<T>(s: seq<T>)
    ensures Reversed(Reversed(s)) == s
  {
    assert Reversed(Reversed(s)) == s;
  }

  lemma {:induction false} CopiedIsPermutation<T>(cmp: (T, T) -> int, cur: seq<T>, old_: seq<T>)
    ensures multiset(Copied(cmp, cur, old_)) == multiset(cur) + multiset(old_)
    decreases |old_|
  {
    if old_ != [] {
      var k := Lower(cmp, cur, old_[0]);
      InsertAtIsPermutation(cur, k, old_[0]);
      CopiedIsPermutation(cmp, InsertAt(cur, k, old_[0]), old_[1..]);
      assert old_ == [old_[0]] + old_[1..];
    }
  }

  lemma {:induction false} CopiedSnoc<T>(cmp: (T, T) -> int, cur: seq<T>, old_: seq<T>, x: T)
    ensures Copied(cmp, cur, old_ + [x]) == Inserted(cmp, Copied(cmp, cur, old_), x)
    decreases |old_|
  {
    if old_ == [] {
      assert [x][1..] == [] && [] + [x] == [x];
    } else {
      assert (old_ + [x])[1..] == old_[1..] + [x];
      CopiedSnoc(cmp, Inserted(cmp, cur, old_[0]), old_[1..], x);
    }
  }

  lemma {:induction false} CopySorts<T>(cmp: (T, T) -> int, dom: set<T>, cur: seq<T>, old_: seq<T>)
    requires OrderOn(cmp, dom) && Within(cur, dom) && Within(old_, dom) && Sorted(cmp, cur)
    ensures Sorted(cmp, Copied(cmp, cur, old_)) && Within(Copied(cmp, cur, old_), dom)
    decreases |old_|
  {
    hide OrderOn, Sorted, Equals, Inserted;
    if old_ != [] {
      InsertKeepsOrder(cmp, dom, cur, old_[0], old_[0]);
      CopySorts(cmp, dom, Inserted(cmp, cur, old_[0]), old_[1..]);
    }
  }

  /** Copying into a sorted list reverses each run of equal elements. */
  lemma {:induction false} CopyReversesRuns<T>(cmp: (T, T) -> int, dom: set<T>, cur: seq<T>, old_: seq<T>, x: T)
    requires OrderOn(cmp, dom) && Within(cur, dom) && Within(old_, dom) && x in dom && Sorted(cmp, cur)
    ensures Equals(cmp, Copied(cmp, cur, old_), x) == Reversed(Equals(cmp, old_, x)) + Equals(cmp, cur, x)
    decreases |old_|
  {
    hide OrderOn, Sorted, Equals, Inserted;
    if old_ == [] {
      NoEquals(cmp, old_, x);
      assert [] + Equals(cmp, cur, x) == Equals(cmp, cur, x);
    } else {
      var y := old_[0];
      var next := Inserted(cmp, cur, y);
      InsertKeepsOrder(cmp, dom, cur, y, x);
      CopyReversesRuns(cmp, dom, next, old_[1..], x);
      EqualsOfOne(cmp, y, x);
      EqualsAppend(cmp, [y], old_[1..], x);
      assert old_ == [y] + old_[1..];
      ReversedAround(Equals(cmp, [y], x), Equals(cmp, old_[1..], x), Equals(cmp, cur, x));
    }
  }

  lemma ReversedAround<T>(head: seq<T>, tail: seq<T>, cur: seq<T>)
    requires |head| <= 1
    ensures Reversed(head + tail) + cur == Reversed(tail) + (head + cur)
  {
    ReversedAppend(head, tail);
    assert Reversed(head) == head;
    assert Reversed(tail) + (head + cur) == (Reversed(tail) + head) + cur;
  }

  /** Sorting yields a sorted permutation and is stable. */
  lemma SortIsStable<T>(cmp: (T, T) -> int, dom: set<T>, s: seq<T>, x: T)
    requires OrderOn(cmp, dom) && Within(s, dom) && x in dom
    ensures Sorted(cmp, SortedCopy(cmp, s))
    ensures multiset(SortedCopy(cmp, s)) == multiset(s)
    ensures Equals(cmp, SortedCopy(cmp, s), x) == Equals(cmp, s, x)
  {
    hide OrderOn;
    var once := Copied(cmp, [], s);
    CopySorts(cmp, dom, [], s);
    CopySorts(cmp, dom, [], once);
    CopyReversesRuns(cmp, dom, [], s, x);
    CopyReversesRuns(cmp, dom, [], once, x);
    CopiedIsPermutation(cmp, [], s);
    CopiedIsPermutation(cmp, [], once);
    assert Reversed(Equals(cmp, s, x)) + [] == Reversed(Equals(cmp, s, x));
    assert Equals(cmp, once, x) == Reversed(Equals(cmp, s, x));
    ReversedTwice(Equals(cmp, s, x));
  }

  lemma {:induction false} EqualsMember<T>(cmp: (T, T) -> int, s: seq<T>, i: nat, x: T)
    requires i < |s| && cmp(s[i], x) == 0
    ensures Equals(cmp, s, x) != []
  {
    if cmp(s[0], x) != 0 {
      EqualsMember(cmp, s[1..], i - 1, x);
    }
  }

  lemma {:induction false} EqualsSource<T>(cmp: (T, T) -> int, s: seq<T>, x: T) returns (i: nat)
    requires Equals(cmp, s, x) != []
    ensures i < |s| && cmp(s[i], x) == 0
  {
    if cmp(s[0], x) == 0 {
      i := 0;
    } else {
      i := EqualsSource(cmp, s[1..], x);
      i := i + 1;
    }
  }

  lemma HeadNotAbove<T>(cmp: (T, T) -> int, dom: set<T>, a: seq<T>, b: seq<T>)
    requires OrderOn(cmp, dom) && Within(a, dom) && Within(b, dom) && Sorted(cmp, b)
    requires a != [] && Equals(cmp, a, a[0]) == Equals(cmp, b, a[0])
    ensures b != [] && cmp(b[0], a[0]) <= 0
  {
    hide OrderOn;
    var x := a[0];
    Flip(cmp, dom, x, x);
    EqualsMember(cmp, a, 0, x);
    var i := EqualsSource(cmp, b, x);
    if i > 0 {
      Trans(cmp, dom, b[0], b[i], x);
    }
  }

  /** A sorted list is determined by its runs of equal elements: there is only one stable
      sorting. */
  lemma {:induction false} SortedIsUnique<T>(cmp: (T, T) -> int, dom: set<T>, a: seq<T>, b: seq<T>)
    requires OrderOn(cmp, dom) && Within(a, dom) && Within(b, dom) && Sorted(cmp, a) && Sorted(cmp, b)
    requires forall x :: x in dom ==> Equals(cmp, a, x) == Equals(cmp, b, x)
    ensures a == b
    decreases |a|
  {
    hide OrderOn;
    if a == [] {
      if b != [] {
        HeadNotAbove(cmp, dom, b, a);
      }
    } else {
      HeadNotAbove(cmp, dom, a, b);
      HeadNotAbove(cmp, dom, b, a);
      SameHead(cmp, dom, a, b);
      forall y | y in dom ensures Equals(cmp, a[1..], y) == Equals(cmp, b[1..], y) {
        SameTail(cmp, a, b, y);
      }
      SortedIsUnique(cmp, dom, a[1..], b[1..]);
      assert a == [a[0]] + a[1..] && b == [b[0]] + b[1..];
    }
  }

  lemma SameHead<T>(cmp: (T, T) -> int, dom: set<T>, a: seq<T>, b: seq<T>)
    requires OrderOn(cmp, dom) && a != [] && b != [] && a[0] in dom && b[0] in dom
    requires cmp(a[0], b[0]) <= 0 && cmp(b[0], a[0]) <= 0
    requires Equals(cmp, a, a[0]) == Equals(cmp, b, a[0])
    ensures a[0] == b[0]
  {
    hide OrderOn;
    Flip(cmp, dom, a[0], b[0]);
    Flip(cmp, dom, a[0], a[0]);
    assert Equals(cmp, a, a[0])[0] == a[0];
    assert Equals(cmp, b, a[0])[0] == b[0];
  }

  lemma SameTail<T>(cmp: (T, T) -> int, a: seq<T>, b: seq<T>, y: T)
    requires a != [] && b != [] && a[0] == b[0] && Equals(cmp, a, y) == Equals(cmp, b, y)
    ensures Equals(cmp, a[1..], y) == Equals(cmp, b[1..], y)
  {
    var head := if cmp(a[0], y) == 0 then [a[0]] else [];
    assert Equals(cmp, a, y)[|head|..] == Equals(cmp, a[1..], y);
    assert Equals(cmp, b, y)[|head|..] == Equals(cmp, b[1..], y);
  }

  lemma {:induction false} EqualsOfStrict<T>(cmp: (T, T) -> int, dom: set<T>, s: seq<T>, x: T)
    requires OrderOn(cmp, dom) && StrictOn(cmp, dom) && Within(s, dom) && x in dom
    ensures Equals(cmp, s, x) == seq(multiset(s)[x], _ => x)
  {
    if s != [] {
      assert s == [s[0]] + s[1..];
      assert cmp(x, x) == 0;
      EqualsOfStrict(cmp, dom, s[1..], x);
    }
  }

  /** With a strict order the sorted arrangement does not depend on the order of insertion. */
  lemma CopyIgnoresOrder<T>(cmp: (T, T) -> int, dom: set<T>, s: seq<T>, t: seq<T>)
    requires OrderOn(cmp, dom) && StrictOn(cmp, dom) && Within(s, dom)
    requires multiset(s) == multiset(t)
    ensures Copied(cmp, [], s) == Copied(cmp, [], t)
  {
    forall i | 0 <= i < |t| ensures t[i] in dom {
      assert t[i] in multiset(s);
    }
    var a, b := Copied(cmp, [], s), Copied(cmp, [], t);
    CopySorts(cmp, dom, [], s);
    CopySorts(cmp, dom, [], t);
    CopiedIsPermutation(cmp, [], s);
    CopiedIsPermutation(cmp, [], t);
    forall x | x in dom ensures Equals(cmp, a, x) == Equals(cmp, b, x) {
      EqualsOfStrict(cmp, dom, a, x);
      EqualsOfStrict(cmp, dom, b, x);
    }
    SortedIsUnique(cmp, dom, a, b);
  }

  function Mapped<T>(f: T -> T, s: seq<T>): (r: seq<T>)
    ensures |r| == |s| && forall i :: 0 <= i < |s| ==> r[i] == f(s[i])
  {
    seq(|s|, i requires 0 <= i < |s| => f(s[i]))
  }

  /** `f` does not change how two elements compare. */
  ghost predicate KeepsOrder<T>(cmp: (T, T) -> int, f: T -> T, dom: set<T>) {
    forall a, b :: a in dom && b in dom ==> (cmp(f(a), f(b)) >= 0 <==> cmp(a, b) >= 0)
  }

  lemma {:induction false} LowerMapped<T>(cmp: (T, T) -> int, f: T -> T, dom: set<T>, s: seq<T>, x: T)
    requires Within(s, dom) && x in dom && KeepsOrder(cmp, f, dom)
    ensures Lower(cmp, Mapped(f, s), f(x)) == Lower(cmp, s, x)
  {
    if s != [] {
      LowerMapped(cmp, f, dom, s[1..], x);
      assert Mapped(f, s)[1..] == Mapped(f, s[1..]);
    }
  }

  lemma InsertedMapped<T>(cmp: (T, T) -> int, f: T -> T, dom: set<T>, s: seq<T>, x: T)
    requires Within(s, dom) && x in dom && KeepsOrder(cmp, f, dom)
    ensures Within(Inserted(cmp, s, x), dom)
    ensures Mapped(f, Inserted(cmp, s, x)) == Inserted(cmp, Mapped(f, s), f(x))
  {
    hide Lower, KeepsOrder;
    LowerMapped(cmp, f, dom, s, x);
  }

  /** Such a map can be applied before or after copying. */
  lemma {:induction false} CopiedMapped<T>(cmp: (T, T) -> int, f: T -> T, dom: set<T>, cur: seq<T>, old_: seq<T>)
    requires Within(cur, dom) && Within(old_, dom) && KeepsOrder(cmp, f, dom)
    ensures Mapped(f, Copied(cmp, cur, old_)) == Copied(cmp, Mapped(f, cur), Mapped(f, old_))
    decreases |old_|
  {
    hide KeepsOrder, Inserted;
    if old_ != [] {
      InsertedMapped(cmp, f, dom, cur, old_[0]);
      CopiedMapped(cmp, f, dom, Inserted(cmp, cur, old_[0]), old_[1..]);
      assert Mapped(f, old_)[1..] == Mapped(f, old_[1..]);
    }
  }

  // ---------------------------------------------------------------- walking

  /** How many elements a walker is given: all up to the first that it returns false for. */
  function Visited<T>(walker: T -> bool, s: seq<T>): (k: nat)
    ensures k <= |s|
    ensures forall i :: 0 <= i < k - 1 ==> walker(s[i])
    ensures k < |s| ==> k > 0 && !walker(s[k - 1])
  {
    if s == [] then 0 else if !walker(s[0]) then 1 else 1 + Visited(walker, s[1..])
  }

  lemma {:induction false} VisitedIs<T>(walker: T -> bool, s: seq<T>, k: nat)
    requires k <= |s| && forall i :: 0 <= i < k - 1 ==> walker(s[i])
    requires if k == 0 then s == [] else k == |s| || !walker(s[k - 1])
    ensures Visited(walker, s) == k
  {
    if k > 1 {
      VisitedIs(walker, s[1..], k - 1);
    }
  }

  // ---------------------------------------------------------------- removing

  /** On a sorted list a removal takes the first of the equal elements, if there is one. */
  lemma RemoveFirstFinds<T>(cmp: (T, T) -> int, dom: set<T>, s: seq<T>, x: T)
    requires OrderOn(cmp, dom) && Within(s, dom) && x in dom && Sorted(cmp, s)
    ensures Hits(cmp, s, x) <==> Equals(cmp, s, x) != []
    ensures Hits(cmp, s, x) ==>
      var t := RemoveAt(s, Lower(cmp, s, x));
      && Sorted(cmp, t) && Within(t, dom)
      && Equals(cmp, t, x) == Equals(cmp, s, x)[1..] && Others(cmp, t, x) == Others(cmp, s, x)
  {
    hide Equals, Others, OrderOn, Sorted;
    var k := Lower(cmp, s, x);
    NoEquals(cmp, s[..k], x);
    if Hits(cmp, s, x) {
      RemovedParts(cmp, s, k, x);
      RemoveAtSorted(cmp, dom, s, k);
    } else {
      NoHit(cmp, dom, s, x);
    }
  }

  lemma RemoveAtSorted<T>(cmp: (T, T) -> int, dom: set<T>, s: seq<T>, k: nat)
    requires k < |s| && Within(s, dom) && Sorted(cmp, s)
    ensures Sorted(cmp, RemoveAt(s, k)) && Within(RemoveAt(s, k), dom)
  {
  }

  lemma NoHit<T>(cmp: (T, T) -> int, dom: set<T>, s: seq<T>, x: T)
    requires OrderOn(cmp, dom) && Within(s, dom) && x in dom && Sorted(cmp, s)
    requires !Hits(cmp, s, x)
    ensures Equals(cmp, s, x) == []
  {
    hide Equals, OrderOn;
    var k := Lower(cmp, s, x);
    var front, back := s[..k], s[k..];
    assert s == front + back;
    NoEquals(cmp, front, x);
    EqualsAppend(cmp, front, back, x);
    if back == [] {
      NoEquals(cmp, back, x);
    } else {
      AboveDiffers(cmp, dom, back, x);
    }
  }

  lemma RemovedParts<T>(cmp: (T, T) -> int, s: seq<T>, k: nat, x: T)
    requires k < |s| && cmp(s[k], x) == 0
    requires Equals(cmp, s[..k], x) == []
    ensures Equals(cmp, s, x) == [s[k]] + Equals(cmp, RemoveAt(s, k), x)
    ensures Others(cmp, s, x) == Others(cmp, RemoveAt(s, k), x)
  {
    hide Equals, Others;
    var front, back := s[..k], s[k + 1..];
    assert s == front + ([s[k]] + back);
    EqualsAppend(cmp, front, [s[k]] + back, x);
    EqualsAppend(cmp, [s[k]], back, x);
    EqualsAppend(cmp, front, back, x);
    OthersAppend(cmp, front, [s[k]] + back, x);
    OthersAppend(cmp, [s[k]], back, x);
    OthersAppend(cmp, front, back, x);
    EqualsOfOne(cmp, s[k], x);
  }

  lemma AboveDiffers<T>(cmp: (T, T) -> int, dom: set<T>, s: seq<T>, x: T)
    requires OrderOn(cmp, dom) && Within(s, dom) && x in dom && Sorted(cmp, s)
    requires s != [] && cmp(s[0], x) > 0
    ensures Equals(cmp, s, x) == []
  {
    hide OrderOn, Equals;
    forall i | 0 <= i < |s| ensures cmp(s[i], x) != 0 {
      if i > 0 && cmp(s[i], x) == 0 {
        Trans(cmp, dom, s[0], s[i], x);
      }
    }
    NoEquals(cmp, s, x);
  }

  lemma RemoveStep<T>(cmp: (T, T) -> int, s: seq<T>, x: T)
    ensures Hits(cmp, s, x) ==>
      var t := RemoveAt(s, Lower(cmp, s, x));
      && AllRemoved(cmp, s, x).0 == AllRemoved(cmp, t, x).0
      && AllRemoved(cmp, s, x).1 == AllRemoved(cmp, t, x).1 + 1
    ensures !Hits(cmp, s, x) ==> AllRemoved(cmp, s, x) == (s, 0)
  {
  }

  /** On a sorted list removing all keeps exactly the other elements, in order, and the number
      returned is the number of equal ones. */
  lemma {:induction false} RemoveAllCounts<T>(cmp: (T, T) -> int, dom: set<T>, s: seq<T>, x: T)
    requires OrderOn(cmp, dom) && Within(s, dom) && x in dom && Sorted(cmp, s)
    ensures AllRemoved(cmp, s, x) == (Others(cmp, s, x), |Equals(cmp, s, x)|)
    decreases |s|
  {
    RemoveFirstFinds(cmp, dom, s, x);
    if Hits(cmp, s, x) {
      RemoveAllCounts(cmp, dom, RemoveAt(s, Lower(cmp, s, x)), x);
    } else {
      OthersWhenNone(cmp, s, x);
    }
  }

  lemma {:induction false} OthersWhenNone<T>(cmp: (T, T) -> int, s: seq<T>, x: T)
    requires Equals(cmp, s, x) == []
    ensures Others(cmp, s, x) == s
  {
    if s != [] {
      OthersWhenNone(cmp, s[1..], x);
    }
  }
}
