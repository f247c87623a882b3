/** The string pools of a dictionary: strings are written one after the other, each with its NUL,
    and stay where they are. */
module DictStrings {
  import opened Bytes
  import opened Options

  const INT_MAX := 0x7fff_ffff
  const FIRST_POOL_SIZE := 1000

  class Pool {
    const array_: array<Byte>
    var free: nat         // where the next string goes
    var nbStrings: nat

    ghost predicate Valid()
      reads this
    {
      free <= array_.Length
    }

    ghost function Used(): Data
      requires Valid()
      reads this, array_
    {
      array_[..free]
    }

    constructor (size: nat)
      ensures Valid() && fresh(array_) && array_.Length == size && free == 0
    {
      array_ := new Byte[size](_ => 0);
      free, nbStrings := 0, 0;
    }

    lemma UsedSlice(at: nat, len: nat)
      requires Valid() && at + len <= free
      ensures array_[at..at + len] == Used()[at..at + len]
    {
    }

    /** Appends a string and its NUL. */
    method Write(name: Data)
      requires Valid() && array_.Length - free > |name|
      modifies this, array_
      ensures Valid() && Used() == old(Used()) + name + [0]
    {
      ghost var before := Used();
      Memcpy(array_, free, name);
      array_[free + |name|] := 0;
      free := free + |name| + 1;
      nbStrings := nbStrings + 1;
      assert array_[..free] == before + name + [0];
    }
  }

  /** A pointer into a pool. */
  datatype Address = Address(pool: Pool, at: nat)

  /** The string and its NUL are there. */
  ghost predicate At(used: Data, at: nat, s: Data) {
    at + |s| < |used| && used[at..at + |s|] == s && used[at + |s|] == 0
  }

  lemma AtLonger(used: Data, longer: Data, at: nat, s: Data)
    requires At(used, at, s) && used <= longer
    ensures At(longer, at, s)
  {
    assert longer[at..at + |s|] == longer[..|used|][at..at + |s|];
  }

  lemma NewAt(used: Data, s: Data)
    ensures At(used + s + [0], |used|, s)
  {
    assert (used + s + [0])[|used|..|used| + |s|] == s;
  }

  ghost predicate Apart(a: Address, s: Data, b: Address, t: Data) {
    a.pool == b.pool ==> a.at + |s| < b.at || b.at + |t| < a.at
  }

  /** No two strings overlap. */
  ghost predicate AllApart(stored: map<Address, Data>) {
    forall a, b :: a in stored && b in stored && a != b ==> Apart(a, stored[a], b, stored[b])
  }

  /** A string behind all others in its pool is apart from them. */
  lemma NewApart(stored: map<Address, Data>, a: Address, s: Data)
    requires AllApart(stored) && forall b :: b in stored && b.pool == a.pool ==> b.at + |stored[b]| < a.at
    ensures a !in stored && AllApart(stored[a := s])
  {
  }

  /** The sizes of all pools together. */
  function TotalSize(pools: seq<Pool>): nat {
    if pools == [] then 0 else TotalSize(pools[..|pools| - 1]) + pools[|pools| - 1].array_.Length
  }

  class Strings {
    var pools: seq<Pool>                  // the newest first
    ghost var owned: set<Pool>            // the same as a set
    ghost var arrays: set<array<Byte>>    // and their memory
    ghost var stored: map<Address, Data>  // the strings handed out

    ghost predicate Valid()
      reads this, owned, arrays
    {
      && (forall i :: 0 <= i < |pools| ==> pools[i] in owned && pools[i].array_ in arrays && pools[i].Valid())
      && (forall i, j :: 0 <= i < j < |pools| ==> pools[i] != pools[j] && pools[i].array_ != pools[j].array_)
      && (forall a :: a in stored ==> a.pool in pools && a.pool in owned && At(a.pool.Used(), a.at, stored[a]))
      && AllApart(stored)
    }

    /** No pool has room for a string of this length and its NUL. */
    ghost predicate Full(namelen: nat)
      reads this, pools
    {
      forall i :: 0 <= i < |pools| ==> pools[i].array_.Length <= pools[i].free + namelen
    }

    constructor ()
      ensures Valid() && stored == map[] && pools == [] && owned == {} && arrays == {}
    {
      pools, owned, arrays, stored := [], {}, {}, map[];
    }

    /** The first pool with room for the string and its NUL; otherwise the largest size seen and
        the sum of all sizes. */
    method FindPool(namelen: nat) returns (pool: Pool?, size: nat, total: nat)
      requires Valid()
      ensures pool != null ==> pool in pools && pool.array_.Length - pool.free > namelen
      ensures pool == null <==> Full(namelen)
      ensures pool == null ==> total == TotalSize(pools) && forall i :: 0 <= i < |pools| ==> pools[i].array_.Length <= size
      ensures pool == null && size != 0 ==> exists i :: 0 <= i < |pools| && pools[i].array_.Length == size
    {
      pool, size, total := null, 0, 0;
      for i := 0 to |pools|
        invariant pool == null && total == TotalSize(pools[..i])
        invariant forall j :: 0 <= j < i ==> pools[j].array_.Length <= size && pools[j].array_.Length <= pools[j].free + namelen
        invariant size != 0 ==> exists j :: 0 <= j < i && pools[j].array_.Length == size
      {
        assert pools[..i + 1][..i] == pools[..i];
        if pools[i].array_.Length - pools[i].free > namelen {
          pool := pools[i];
          return;
        }
        if pools[i].array_.Length > size {
          size := pools[i].array_.Length;
        }
        total := total + pools[i].array_.Length;
      }
      assert pools[..|pools|] == pools;
    }

    /** The size of a new pool. Up to the longest string there is, four times its length does not
        leave 32 bits, so the string and its NUL always fit. */
    method PoolSize(largest: nat, namelen: nat) returns (size: nat)
      requires namelen <= INT_MAX / 2
      ensures size > namelen && size >= 4 * namelen
      ensures size >= if largest == 0 then FIRST_POOL_SIZE else 4 * largest
    {
      size := if largest == 0 then FIRST_POOL_SIZE else largest * 4;
      var wanted := (4 * namelen) % 0x1_0000_0000;
      if size < wanted {
        size := wanted;
      }
    }

    method Put(pool: Pool, name: Data) returns (ret: Address)
      requires Valid() && pool in pools && pool.array_.Length - pool.free > |name|
      modifies this`stored, pool, pool.array_
      ensures Valid() && ret !in old(stored) && stored == old(stored)[ret := name]
    {
      hide At, AllApart;
      ghost var before, was := pool.Used(), stored;
      ret := Address(pool, pool.free);
      StoredBelow(pool);
      NewApart(was, ret, name);
      pool.Write(name);
      NewAt(before, name);
      forall a | a in was ensures At(a.pool.Used(), a.at, was[a]) {
        if a.pool == pool {
          AtLonger(before, pool.Used(), a.at, was[a]);
        }
      }
      stored := was[ret := name];
      assert At(ret.pool.Used(), ret.at, name);
    }

    lemma StoredBelow(pool: Pool)
      requires Valid() && pool in pools
      ensures forall a :: a in stored && a.pool == pool ==> a.at + |stored[a]| < pool.free
    {
    }

    method AddPool(largest: nat, namelen: nat) returns (pool: Pool)
      requires Valid() && namelen <= INT_MAX / 2
      modifies this`pools, this`owned, this`arrays
      ensures Valid() && stored == old(stored) && pool in pools
      ensures fresh(arrays - old(arrays)) && fresh(owned - old(owned))
      ensures pool.array_.Length - pool.free > namelen
    {
      hide At, AllApart, TotalSize;
      var size := PoolSize(largest, namelen);
      pool := new Pool(size);
      pools := [pool] + pools;
      owned, arrays := owned + {pool}, arrays + {pool.array_};
    }

    /** Stores a string at an address of its own, unless the limit on the pools is exceeded. What
        was stored before stays where and what it is. */
    method AddString(name: Data, limit: nat) returns (ret: Option<Address>)
      requires Valid() && |name| <= INT_MAX / 2
      modifies this, owned, arrays
      ensures Valid()
      ensures fresh(arrays - old(arrays)) && fresh(owned - old(owned))
      ensures ret.None? <==> old(Full(|name|)) && 0 < limit < old(TotalSize(pools))
      ensures ret.None? ==> stored == old(stored)
      ensures ret.Some? ==> ret.value !in old(stored) && stored == old(stored)[ret.value := name]
    {
      hide At, AllApart, TotalSize;
      var pool, largest, total := FindPool(|name|);
      if pool == null {
        if limit > 0 && total > limit {
          return None;
        }
        pool := AddPool(largest, |name|);
      }
      var a := Put(pool, name);
      ret := Some(a);
    }

    /** Whether a pointer is into the used part of one of the pools. */
    method Owns(a: Address) returns (owns: bool)
      requires Valid()
      ensures owns <==> a.pool in pools && a.at <= a.pool.free
      ensures a in stored ==> owns
    {
      for i := 0 to |pools|
        invariant forall j :: 0 <= j < i ==> !(pools[j] == a.pool && a.at <= a.pool.free)
      {
        if pools[i] == a.pool && a.at <= pools[i].free {
          return true;
        }
      }
      owns := false;
    }
  }
}
