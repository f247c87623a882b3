/** The two hash keys of the dictionary: a cheap one for the initial table, a good one after it
    has grown. */
module DictKeys {
  import opened Bytes

  const MIN_DICT_SIZE := 128
  const COLON: Byte := ':' as int

  // ---------------------------------------------------------------- the cheap key

  function Sum(s: Data): nat {
    if s == [] then 0 else Sum(s[..|s| - 1]) + s[|s| - 1]
  }

  /** The first byte weighs most; of a long name the first ten bytes and the last one count. */
  function FastKey(name: Data): nat
    requires name != []
  {
    name[0] as int * 32 + (if |name| > 10 then name[|name| - 1] else 0) + Sum(name[1..if |name| > 10 then 10 else |name|])
  }

  method ComputeFastKey(name: Data) returns (value: nat)
    requires name != []
    ensures value == FastKey(name)
  {
    value := name[0] as int * 32;
    var namelen := |name|;
    if namelen > 10 {
      value := value + name[namelen - 1];
      namelen := 10;
    }
    ghost var first := value;
    ghost var n := namelen;
    while namelen >= 2
      invariant 1 <= namelen <= n <= |name|
      invariant value + Sum(name[1..namelen]) == first + Sum(name[1..n])
    {
      assert name[1..namelen][..namelen - 2] == name[1..namelen - 1];
      value := value + name[namelen - 1];
      namelen := namelen - 1;
    }
  }

  // ---------------------------------------------------------------- the good key

  function Mix(hash: bv32, b: Byte): bv32 {
    var h1 := hash + b as bv32;
    var h2 := h1 + (h1 << 10);
    h2 ^ (h2 >> 6)
  }

  function MixAll(hash: bv32, s: Data): bv32
    decreases |s|
  {
    if s == [] then hash else MixAll(Mix(hash, s[0]), s[1..])
  }

  function Finish(hash: bv32): bv32 {
    var h1 := hash + (hash << 3);
    var h2 := h1 ^ (h1 >> 11);
    h2 + (h2 << 15)
  }

  function BigKey(name: Data, seed: bv32): bv32 {
    if name == [] then 0 else Finish(MixAll(seed, name))
  }

  method MixLoop(hash: bv32, s: Data) returns (r: bv32)
    ensures r == MixAll(hash, s)
  {
    hide Mix;
    r := hash;
    assert s[0..] == s;
    for i := 0 to |s|
      invariant MixAll(r, s[i..]) == MixAll(hash, s)
    {
      assert s[i..][1..] == s[i + 1..];
      r := Mix(r, s[i]);
    }
  }

  method ComputeBigKey(name: Data, seed: bv32) returns (hash: bv32)
    ensures hash == BigKey(name, seed)
  {
    hide Finish;
    if |name| <= 0 {
      return 0;
    }
    hash := MixLoop(seed, name);
    hash := Finish(hash);
  }

  /** The key of a qualified name, from its two parts. */
  method ComputeBigQKey(prefix: Data, name: Data, seed: bv32) returns (hash: bv32)
    ensures hash == BigKey(prefix + [COLON] + name, seed)
  {
    hide Mix, Finish, MixAll;
    hash := MixLoop(seed, prefix);
    MixAppend(seed, prefix, [COLON]);
    MixOne(hash, COLON);
    hash := Mix(hash, COLON);
    MixAppend(seed, prefix + [COLON], name);
    hash := MixLoop(hash, name);
    hash := Finish(hash);
  }

  lemma {:induction false} MixAppend(hash: bv32, s: Data, t: Data)
    ensures MixAll(hash, s + t) == MixAll(MixAll(hash, s), t)
    decreases |s|
  {
    hide Mix;
    if s == [] {
      assert s + t == t;
    } else {
      assert (s + t)[1..] == s[1..] + t;
      MixAppend(Mix(hash, s[0]), s[1..], t);
    }
  }

  /** The hash of the text "a", as published with the hash function. */
  lemma BigKeyOfA()
    ensures BigKey(['a' as int], 0) == 0xca2e_9442
  {
    MixOne(0, 'a' as int);
    assert Mix(0, 'a' as int) == 0x1_8270;
    assert Finish(0x1_8270) == 0xca2e_9442;
  }

  lemma MixOne(hash: bv32, b: Byte)
    ensures MixAll(hash, [b]) == Mix(hash, b)
  {
    hide Mix;
    assert [b][1..] == [];
  }

  // ---------------------------------------------------------------- the key in use

  /** The key the size of the table selects. Only the good key depends on the seed. */
  function Key(size: nat, seed: bv32, name: Data): nat
    requires name != []
  {
    if size == MIN_DICT_SIZE then FastKey(name) else BigKey(name, seed) as nat
  }

  method ComputeKey(size: nat, seed: bv32, name: Data) returns (key: nat)
    requires name != []
    ensures key == Key(size, seed, name)
  {
    hide FastKey, BigKey;
    if size == MIN_DICT_SIZE {
      key := ComputeFastKey(name);
    } else {
      var hash := ComputeBigKey(name, seed);
      key := hash as nat;
    }
  }
}
