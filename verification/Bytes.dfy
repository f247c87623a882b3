/** Bytes, byte strings, and copying them within and into memory. */
module Bytes {
  type Byte = b: int | 0 <= b < 256
  type Data = seq<Byte>

  /** memmove within one array: the ranges may overlap. */
  method Memmove(a: array<Byte>, dst: nat, src: nat, n: nat)
    requires dst + n <= a.Length && src + n <= a.Length
    modifies a
    ensures a[dst..dst + n] == old(a[src..src + n])
    ensures forall i :: 0 <= i < a.Length && !(dst <= i < dst + n) ==> a[i] == old(a[i])
  {
    forall i | 0 <= i < n {
      a[dst + i] := a[src + i];
    }
  }

  /** memcpy of a value into an array. */
  method Memcpy(a: array<Byte>, dst: nat, data: Data)
    requires dst + |data| <= a.Length
    modifies a
    ensures a[dst..dst + |data|] == data
    ensures forall i :: 0 <= i < a.Length && !(dst <= i < dst + |data|) ==> a[i] == old(a[i])
  {
    forall i | 0 <= i < |data| {
      a[dst + i] := data[i];
    }
  }
}
