/** The growable buffer: bytes at a sliding offset in an allocation, always followed by a NUL,
    with a second copy of the two counters for callers compiled against the old structure. */
module Buf {
  import opened Bytes

  const BASE_BUFFER_SIZE := 4096
  const INT_MAX := 0x7fff_ffff
  const UINT_RANGE := 0x1_0000_0000

  datatype Scheme = DoubleIt | Exact | Immutable | IO | Hybrid

  function Capped(n: nat): nat {
    if n < INT_MAX then n else INT_MAX
  }

  class XmlBuf {
    var mem: array?<Byte>    // the allocation; NULL for a buffer created with size 0
    var start: nat           // where content starts in it
    var contentIO: bool      // whether the start of the allocation is remembered separately
    var alloc: Scheme
    var use: nat
    var size: nat            // counted from content on
    var compatUse: nat
    var compatSize: nat

    /** Within the allocation, with room for the NUL; both copies of the counters agree. */
    ghost predicate Valid()
      reads this
    {
      && compatUse == Capped(use) && compatSize == Capped(size)
      && (mem == null ==> use == size == start == 0)
      && (mem != null ==> start + size <= mem.Length)
      && (alloc == Immutable ==> use <= size)
      && (alloc != Immutable ==> use < size || use == size == start == 0)
      && (alloc != Immutable && !contentIO ==> start == 0)
      && (contentIO ==> mem != null && alloc == IO)
    }

    ghost function Contents(): Data
      requires Valid()
      reads this, mem
    {
      if mem == null then [] else mem[start..start + use]
    }

    /** Content is a C string of length `use`. Only a buffer created with size 0 and never
        written to since is not. */
    ghost predicate Terminated()
      reads this, mem
    {
      mem != null && start + use < mem.Length && use < size && mem[start + use] == 0
    }

    /** What every operation keeps from the creation on, with any size: a NUL follows the content as
        soon as there has been any, and memory has room for one. */
    ghost predicate Sealed()
      reads this, mem
    {
      (use > 0 || start > 0 ==> Terminated()) && (mem != null ==> size > 0)
    }

    constructor (scheme: Scheme)
      requires scheme != Immutable
      ensures Valid() && Contents() == [] && Terminated() && fresh(mem) && alloc == scheme
    {
      var content := new Byte[BASE_BUFFER_SIZE](_ => 0);
      mem, start, contentIO, alloc := content, 0, false, scheme;
      use, size, compatUse, compatSize := 0, BASE_BUFFER_SIZE, 0, BASE_BUFFER_SIZE;
    }

    constructor CreateSize(scheme: Scheme, wanted: nat)
      requires scheme != Immutable && wanted + 2 < INT_MAX
      ensures Valid() && Contents() == [] && alloc == scheme
      ensures if wanted == 0 then mem == null else Terminated() && fresh(mem)
      ensures Sealed()
    {
      start, contentIO, alloc := 0, false, scheme;
      use, compatUse := 0, 0;
      if wanted == 0 {
        mem, size, compatSize := null, 0, 0;
      } else {
        var content := new Byte[wanted + 2](_ => 0);
        mem, size, compatSize := content, wanted + 2, wanted + 2;
      }
    }

    constructor CreateStatic(static_: array<Byte>)
      requires static_.Length > 0
      ensures Valid() && Contents() == static_[..] && alloc == Immutable && mem == static_
    {
      mem, start, contentIO, alloc := static_, 0, false, Immutable;
      use, size := static_.Length, static_.Length;
      compatUse, compatSize := Capped(static_.Length), Capped(static_.Length);
    }

    // -------------------------------------------------------------- the second copy

    method UpdateCompat()
      modifies this`compatUse, this`compatSize
      ensures compatUse == Capped(use) && compatSize == Capped(size)
    {
      compatSize := if size < INT_MAX then size else INT_MAX;
      compatUse := if use < INT_MAX then use else INT_MAX;
    }

    /** Takes over a change made to the copies. While they agree with the counters, as they do
        between any two operations, it changes nothing. */
    method CheckCompat()
      modifies this`use, this`size
      ensures size == if compatSize != old(size) && compatSize < INT_MAX then compatSize else old(size)
      ensures use == if compatUse != old(use) && compatUse < INT_MAX then compatUse else old(use)
      ensures compatSize == Capped(old(size)) ==> size == old(size)
      ensures compatUse == Capped(old(use)) ==> use == old(use)
    {
      if size != compatSize {
        if compatSize < INT_MAX {
          size := compatSize;
        }
      }
      if use != compatUse {
        if compatUse < INT_MAX {
          use := compatUse;
        }
      }
    }

    /** Only a buffer that owns its memory can be switched, to IO only once, and that switch
        reports failure although it is done. */
    method SetAllocationScheme(scheme: Scheme) returns (ret: int)
      requires Valid()
      modifies this`alloc, this`contentIO
      ensures Valid() && Contents() == old(Contents()) && (Terminated() <==> old(Terminated()))
      ensures ret == if old(alloc) == Immutable || old(alloc) == IO || scheme == IO then -1 else 0
      ensures alloc == if old(alloc) == Immutable || old(alloc) == IO then old(alloc) else scheme
    {
      if alloc == Immutable || alloc == IO {
        return -1;
      }
      if scheme != IO {
        alloc := scheme;
        return 0;
      }
      alloc := IO;
      contentIO := mem != null;
      ret := -1;
    }

    // -------------------------------------------------------------- growing

    /** realloc: the bytes that fit are kept, and the content pointer moves along. */
    method Realloc(length: nat)
      modifies this`mem
      ensures mem != null && fresh(mem) && mem.Length == length
      ensures old(mem) != null ==>
        forall i :: 0 <= i < length && i < old(mem).Length ==> mem[i] == old(mem)[i]
    {
      var newbuf := new Byte[length](_ => 0);
      if mem != null {
        forall i | 0 <= i < length && i < mem.Length {
          newbuf[i] := mem[i];
        }
      }
      mem := newbuf;
    }

    method GrowInternal(len: nat) returns (room: nat)
      requires Valid()
      modifies this
      ensures Valid() && alloc == old(alloc) && contentIO == old(contentIO)
      ensures Contents() == old(Contents()) && (old(Terminated()) ==> Terminated())
      ensures mem == old(mem) || fresh(mem)
      ensures if alloc == Immutable then room == 0 else room == size - use > len || (len == 0 && room == size - use)
      ensures start == old(start) && size >= old(size)
    {
      CheckCompat();
      if alloc == Immutable {
        return 0;
      }
      if use + len < size {
        return size - use;
      }
      var newSize := if size > len then size * 2 else use + len + 100;
      GrowTo(newSize);
      room := size - use;
    }

    method GrowTo(newSize: nat)
      requires Valid() && alloc != Immutable && size <= newSize && use < newSize
      modifies this`mem, this`size, this`compatUse, this`compatSize
      ensures Valid() && size == newSize && fresh(mem)
      ensures Contents() == old(Contents()) && (old(Terminated()) ==> Terminated())
    {
      Realloc(start + newSize);
      size := newSize;
      UpdateCompat();
    }

    method Grow(len: int) returns (ret: int)
      requires Valid()
      modifies this
      ensures Valid() && alloc == old(alloc) && contentIO == old(contentIO)
      ensures Contents() == old(Contents()) && (old(Terminated()) ==> Terminated())
      ensures mem == old(mem) || fresh(mem)
      ensures ret == if len < 0 then -1 else if len == 0 || alloc == Immutable then 0 else size - use
      ensures len > 0 && alloc != Immutable ==> ret > len
      ensures start == old(start) && size >= old(size) && (len <= 0 ==> mem == old(mem) && size == old(size))
    {
      if len < 0 {
        return -1;
      }
      if len == 0 {
        return 0;
      }
      ret := GrowInternal(len);
    }

    /** The size to ask for. Below 2 GiB the doubling does not leave 32 bits. */
    method NewSize(wanted: nat) returns (newSize: nat)
      requires Valid() && alloc != Immutable && size <= wanted < UINT_RANGE / 2
      ensures wanted <= newSize < UINT_RANGE && (use > 0 ==> use < newSize)
      ensures newSize > 0 <==> wanted > 0 || alloc != Hybrid
    {
      match alloc
      case IO | DoubleIt =>
        newSize := Doubled(if size > 0 then (size * 2) % UINT_RANGE else wanted + 10, wanted);
      case Exact =>
        newSize := (wanted + 10) % UINT_RANGE;
      case Hybrid =>
        if use < BASE_BUFFER_SIZE {
          newSize := wanted;
        } else {
          newSize := Doubled((size * 2) % UINT_RANGE, wanted);
        }
    }

    static method Doubled(first: nat, wanted: nat) returns (newSize: nat)
      requires 0 < first < UINT_RANGE && wanted < UINT_RANGE / 2
      ensures wanted <= newSize < UINT_RANGE && first <= newSize
    {
      newSize := first;
      while wanted > newSize
        invariant first <= newSize < UINT_RANGE
        decreases wanted - newSize
      {
        newSize := newSize * 2;
      }
    }

    /** Moves the content back to the start of the allocation. */
    method MoveToStart()
      requires mem != null && start > 0 && start + use <= mem.Length
      modifies this`start, mem
      ensures start == 0 && mem[..use] == old(mem[start..start + use]) && mem[use] == 0
    {
      Memmove(mem, 0, start, use);
      assert mem[..use] == mem[0..0 + use];
      start := 0;
      mem[use] := 0;
    }

    /** A new allocation for a buffer that owns its memory: if it is far from full only the used
        part is copied, otherwise all of it is reallocated. */
    method Replace(newSize: nat)
      requires Valid() && alloc != Immutable && !contentIO && (use > 0 ==> use < newSize) && size <= newSize
      modifies this`mem
      ensures mem != null && fresh(mem) && mem.Length == newSize
      ensures mem[..use] == old(Contents())
      ensures old(Terminated()) ==> use < newSize && mem[use] == 0
    {
      if mem != null && size - use >= 100 {
        var rebuf := new Byte[newSize](_ => 0);
        Memcpy(rebuf, 0, mem[..use]);
        assert rebuf[..use] == rebuf[0..0 + use];
        rebuf[use] := 0;
        mem := rebuf;
      } else {
        Realloc(newSize);
      }
    }

    /** Gives the content `newSize` bytes from its start. In IO mode it may move back to the
        start of the allocation instead. */
    method Reallocate(newSize: nat)
      requires Valid() && alloc != Immutable && size <= newSize && (use > 0 ==> use < newSize)
      modifies this`mem, this`start, mem
      ensures mem != null && start + newSize <= mem.Length && start <= old(start) && (contentIO || start == 0)
      ensures mem == old(mem) || fresh(mem)
      ensures mem[start..start + use] == old(Contents())
      ensures old(Terminated()) ==> use < newSize && start + use < mem.Length && mem[start + use] == 0
    {
      if contentIO {
        if start > newSize {
          MoveToStart();
        } else {
          Realloc(start + newSize);
        }
      } else {
        Replace(newSize);
      }
    }

    method SetSize(newSize: nat)
      requires Valid() && alloc != Immutable && size <= newSize && (use < newSize || use == newSize == size)
      modifies this`mem, this`start, this`size, this`compatUse, this`compatSize, mem
      ensures Valid() && mem != null && size == newSize && (mem == old(mem) || fresh(mem))
      ensures start <= old(start)
      ensures Contents() == old(Contents()) && (old(Terminated()) ==> Terminated())
    {
      Reallocate(newSize);
      size := newSize;
      UpdateCompat();
    }

    /** Makes room for `wanted` bytes, unless the buffer is static. */
    method Resize(wanted: nat) returns (ok: bool)
      requires Valid() && wanted < UINT_RANGE / 2
      modifies this, mem
      ensures Valid() && alloc == old(alloc) && contentIO == old(contentIO)
      ensures Contents() == old(Contents()) && (old(Terminated()) ==> Terminated())
      ensures mem == old(mem) || fresh(mem)
      ensures ok == (alloc != Immutable) && (ok ==> wanted <= size && (wanted > 0 ==> mem != null))
      ensures ok ==> (size > 0 <==> old(size) > 0 || wanted > 0 || alloc != Hybrid) && start <= old(start)
    {
      CheckCompat();
      if alloc == Immutable {
        return false;
      }
      if wanted < size {
        return true;
      }
      var newSize := NewSize(wanted);
      SetSize(newSize);
      ok := true;
    }

    // -------------------------------------------------------------- changing the content

    method Reserve(needSize: nat)
      requires Valid() && alloc != Immutable && 0 < needSize < UINT_RANGE / 2
      modifies this, mem
      ensures Valid() && alloc == old(alloc) && contentIO == old(contentIO)
      ensures Contents() == old(Contents()) && (old(Terminated()) ==> Terminated())
      ensures mem != null && (mem == old(mem) || fresh(mem)) && needSize <= size
    {
      if needSize > size {
        var _ := Resize(needSize);
      }
    }

    method PutLast(str: Data)
      requires Valid() && alloc != Immutable && mem != null && use + |str| < size
      modifies this`use, this`compatUse, this`compatSize, mem
      ensures Valid() && Contents() == old(Contents()) + str && Terminated()
    {
      ghost var content := Contents();
      Memcpy(mem, start + use, str);
      Appended(mem, start, content, str);
      use := use + |str|;
      mem[start + use] := 0;
      UpdateCompat();
    }

    method PutFirst(str: Data)
      requires Valid() && alloc != Immutable && mem != null && use + |str| < size
      modifies this`use, this`compatUse, this`compatSize, mem
      ensures Valid() && Contents() == str + old(Contents()) && Terminated()
    {
      ShiftIn(mem, start, use, str);
      use := use + |str|;
      mem[start + use] := 0;
      UpdateCompat();
    }

    /** Uses the space before the content. */
    method PutBefore(str: Data)
      requires Valid() && contentIO && start > |str|
      modifies this`start, this`use, this`size, this`compatUse, this`compatSize, mem
      ensures Valid() && Contents() == str + old(Contents()) && (old(Terminated()) ==> Terminated())
    {
      ghost var content, end := Contents(), start + use;
      PutInFront(mem, start, use, str);
      assert end < mem.Length ==> mem[end] == old(mem[start + use]);
      start, use, size := start - |str|, use + |str|, size + |str|;
      UpdateCompat();
      assert start + use == end;
      assert mem[start..end] == str + content;
    }

    method Add(str: Data) returns (ret: int)
      requires Valid() && use + |str| + 2 < UINT_RANGE / 2
      modifies this, mem
      ensures Valid() && alloc == old(alloc) && (mem == old(mem) || fresh(mem))
      ensures ret == (if alloc == Immutable then -1 else 0)
      ensures Contents() == if alloc == Immutable then old(Contents()) else old(Contents()) + str
      ensures old(Terminated()) || (alloc != Immutable && str != []) ==> Terminated()
      ensures str == [] ==> size == old(size) && mem == old(mem) && start == old(start)
    {
      CheckCompat();
      if alloc == Immutable {
        return -1;
      }
      if |str| == 0 {
        assert Contents() + str == Contents();
        return 0;
      }
      Reserve(use + |str| + 2);
      PutLast(str);
      ret := 0;
    }

    method AddHead(str: Data) returns (ret: int)
      requires Valid() && use + |str| + 2 < UINT_RANGE / 2
      modifies this, mem
      ensures Valid() && alloc == old(alloc) && (mem == old(mem) || fresh(mem))
      ensures ret == (if alloc == Immutable then -1 else 0)
      ensures Contents() == if alloc == Immutable then old(Contents()) else str + old(Contents())
      ensures old(Terminated()) || (alloc != Immutable && str != [] && !(old(contentIO) && old(start) > |str|)) ==> Terminated()
      ensures str == [] ==> size == old(size) && mem == old(mem) && start == old(start)
    {
      CheckCompat();
      if alloc == Immutable {
        return -1;
      }
      if |str| == 0 {
        assert str + Contents() == Contents();
        return 0;
      }
      ret := 0;
      if contentIO && start > |str| {
        PutBefore(str);
      } else {
        Reserve(use + |str| + 2);
        PutFirst(str);
      }
    }

    /** Moves the content pointer on; in IO mode the content goes back to the start once no more
        is left behind it than before it. */
    method Advance(len: nat)
      requires Valid() && (alloc == Immutable || contentIO) && 0 < len <= use
      modifies this`start, this`use, this`size, mem
      ensures mem != null && start + size <= mem.Length && use == old(use) - len
      ensures start + use <= mem.Length && if alloc == Immutable then use <= size else use < size
      ensures mem[start..start + use] == old(Contents())[len..]
      ensures old(Terminated()) ==> use < size && mem[start + use] == 0
    {
      ghost var content := Contents();
      use := use - len;
      start := start + len;
      size := size - len;
      assert mem[start..start + use] == content[len..];
      if contentIO && start >= size {
        var startBuf := start;
        MoveToStart();
        size := size + startBuf;
      }
    }

    method MoveDown(len: nat)
      requires Valid() && alloc != Immutable && !contentIO && 0 < len <= use
      modifies this`use, mem
      ensures mem != null && use == old(use) - len
      ensures mem[start..start + use] == old(Contents())[len..] && mem[start + use] == 0
    {
      ghost var content := Contents();
      use := use - len;
      Memmove(mem, 0, len, use);
      assert mem[0..0 + use] == content[len..];
      mem[use] := 0;
    }

    method TakeFront(len: nat)
      requires Valid() && 0 < len <= use
      modifies this`start, this`use, this`size, this`compatUse, this`compatSize, mem
      ensures Valid() && Contents() == old(Contents())[len..] && (old(Terminated()) ==> Terminated())
    {
      if alloc == Immutable || contentIO {
        Advance(len);
      } else {
        MoveDown(len);
      }
      UpdateCompat();
    }

    /** Removes bytes at the front. */
    method Shrink(len: nat) returns (removed: nat)
      requires Valid()
      modifies this, mem
      ensures Valid() && alloc == old(alloc) && mem == old(mem)
      ensures removed == if len <= old(use) then len else 0
      ensures Contents() == old(Contents())[removed..] && (old(Terminated()) ==> Terminated())
      ensures removed == 0 ==> size == old(size) && start == old(start)
    {
      CheckCompat();
      if len == 0 {
        return 0;
      }
      if len > use {
        return 0;
      }
      TakeFront(len);
      removed := len;
    }

    /** Removes bytes at the end. The new NUL has to be within the memory there is: it is not when a
        buffer without memory, or a static one, is to lose nothing. */
    method Erase(len: nat) returns (ret: int)
      requires Valid() && (len <= use ==> use - len < size)
      modifies this, mem
      ensures Valid() && alloc == old(alloc) && mem == old(mem) && size == old(size) && start == old(start)
      ensures ret == if len <= old(use) then 0 else -1
      ensures Contents() == if ret == 0 then old(Contents())[..old(use) - len] else old(Contents())
      ensures old(Terminated()) || ret == 0 ==> Terminated()
    {
      CheckCompat();
      if len > use {
        return -1;
      }
      use := use - len;
      mem[start + use] := 0;
      UpdateCompat();
      ret := 0;
    }

    /** In IO mode the space before the content becomes usable again. */
    method Empty()
      requires Valid() && alloc != Immutable && (mem != null ==> size > 0)
      modifies this, mem
      ensures Valid() && alloc == old(alloc) && mem == old(mem)
      ensures Contents() == [] && (mem != null ==> Terminated() && start == 0)
    {
      if mem == null {
        return;
      }
      CheckCompat();
      use := 0;
      if contentIO {
        size := size + start;
        start := 0;
        mem[0] := 0;
      } else {
        mem[0] := 0;
      }
      UpdateCompat();
    }
  }

  /** Puts `str` before `n` bytes that make room by moving up. */
  method ShiftIn(a: array<Byte>, at: nat, n: nat, str: Data)
    requires at + |str| + n <= a.Length
    modifies a
    ensures a[at..at + |str| + n] == str + old(a[at..at + n])
  {
    ghost var content := a[at..at + n];
    Memmove(a, at + |str|, at, n);
    ghost var moved := a[..];
    assert moved[at + |str|..at + |str| + n] == content;
    Memcpy(a, at, str);
    assert a[at + |str|..at + |str| + n] == moved[at + |str|..at + |str| + n];
    Appended(a, at, str, content);
  }

  /** Puts `str` right before the `n` bytes at `at`. */
  method PutInFront(a: array<Byte>, at: nat, n: nat, str: Data)
    requires |str| <= at && at + n <= a.Length
    modifies a
    ensures a[at - |str|..at + n] == str + old(a[at..at + n])
    ensures forall i :: at <= i < a.Length ==> a[i] == old(a[i])
  {
    ghost var content := a[at..at + n];
    Memcpy(a, at - |str|, str);
    assert a[at..at + n] == content;
    Appended(a, at - |str|, str, content);
  }

  lemma Appended(a: array<Byte>, start: nat, s: Data, t: Data)
    requires start + |s| + |t| <= a.Length
    requires a[start..start + |s|] == s && a[start + |s|..start + |s| + |t|] == t
    ensures a[start..start + |s| + |t|] == s + t
  {
    assert a[start..start + |s| + |t|] == a[start..start + |s|] + a[start + |s|..start + |s| + |t|];
  }

  // ---------------------------------------------------------------- any sequence of operations

  datatype Op = Append(str: Data) | Prepend(str: Data) | DropFirst(len: nat) | DropLast(len: nat) | Clear
    | MoreRoom(room: int) | MinSize(wanted: nat) | Use(scheme: Scheme)

  /** What can be seen of a buffer: its bytes, whether it has got memory, its scheme. */
  datatype View = View(s: Data, started: bool, alloc: Scheme)

  ghost function ViewOf(buf: XmlBuf): View
    requires buf.Valid()
    reads buf, buf.mem
  {
    View(buf.Contents(), buf.size > 0, buf.alloc)
  }

  /** What an operation means on the bytes alone. */
  function After(v: View, op: Op): View {
    match op
    case Append(str) => v.(s := v.s + str, started := v.started || str != [])
    case Prepend(str) => v.(s := str + v.s, started := v.started || str != [])
    case DropFirst(len) => if len <= |v.s| then v.(s := v.s[len..]) else v
    case DropLast(len) => if len <= |v.s| then v.(s := v.s[..|v.s| - len]) else v
    case Clear => v.(s := [])
    case MoreRoom(room) => v.(started := v.started || room > 0)
    case MinSize(wanted) => v.(started := v.started || wanted > 0 || v.alloc != Hybrid)
    case Use(scheme) => if v.alloc == IO then v else v.(alloc := scheme)
  }

  function AfterAll(v: View, ops: seq<Op>): View
    decreases |ops|
  {
    if ops == [] then v else AfterAll(After(v, ops[0]), ops[1..])
  }

  /** The scheme stays a mutable one and nothing grows to 2 GiB. A buffer without memory cannot have
      nothing dropped off its end, and the hybrid scheme cannot give it a size of 0: both would put a
      NUL where there is no memory, at once or when the buffer is cleared. */
  predicate Allowed(v: View, op: Op) {
    match op
    case Append(str) => |v.s| + |str| + 2 < UINT_RANGE / 2
    case Prepend(str) => |v.s| + |str| + 2 < UINT_RANGE / 2
    case DropLast(len) => v.started || len > |v.s|
    case MinSize(wanted) => wanted < UINT_RANGE / 2 && (v.started || wanted > 0 || v.alloc != Hybrid)
    case Use(scheme) => scheme != Immutable
    case _ => true
  }

  predicate AllAllowed(v: View, ops: seq<Op>)
    decreases |ops|
  {
    ops != [] ==> Allowed(v, ops[0]) && AllAllowed(After(v, ops[0]), ops[1..])
  }

  method Perform(buf: XmlBuf, op: Op)
    requires buf.Valid() && buf.Sealed() && buf.alloc != Immutable && Allowed(ViewOf(buf), op)
    modifies buf, buf.mem
    ensures buf.Valid() && buf.Sealed() && buf.alloc != Immutable && (old(buf.Terminated()) ==> buf.Terminated())
    ensures buf.mem == old(buf.mem) || fresh(buf.mem)
    ensures ViewOf(buf) == After(old(ViewOf(buf)), op)
  {
    match op
    case Append(str) => var _ := buf.Add(str);
    case Prepend(str) => var _ := buf.AddHead(str);
    case DropFirst(len) => var _ := buf.Shrink(len);
    case DropLast(len) => var _ := buf.Erase(len);
    case Clear => buf.Empty();
    case MoreRoom(room) => var _ := buf.Grow(room);
    case MinSize(wanted) => var _ := buf.Resize(wanted);
    case Use(scheme) => var _ := buf.SetAllocationScheme(scheme);
  }

  /** Every sequence of operations, whatever the schemes and the size at creation, has the meaning it
      has on plain bytes, and leaves a NUL-terminated string within its allocation. */
  method PerformAll(buf: XmlBuf, ops: seq<Op>)
    requires buf.Valid() && buf.Sealed() && buf.alloc != Immutable && AllAllowed(ViewOf(buf), ops)
    modifies buf, buf.mem
    ensures buf.Valid() && buf.Sealed() && buf.alloc != Immutable && (old(buf.Terminated()) ==> buf.Terminated())
    ensures ViewOf(buf) == AfterAll(old(ViewOf(buf)), ops)
  {
    hide After, Allowed;
    ghost var v := ViewOf(buf);
    assert ops[0..] == ops;
    for i := 0 to |ops|
      invariant buf.Valid() && buf.Sealed() && buf.alloc != Immutable && (old(buf.Terminated()) ==> buf.Terminated())
      invariant buf.mem == old(buf.mem) || fresh(buf.mem)
      invariant AllAllowed(ViewOf(buf), ops[i..])
      invariant AfterAll(ViewOf(buf), ops[i..]) == AfterAll(v, ops)
    {
      assert ops[i..][1..] == ops[i + 1..];
      Perform(buf, ops[i]);
    }
  }
}
