/**
  `ConcurrentMap` of `maputil/concurrent_map.go`: a map split into shards,
  a key's shard chosen by the 32-bit FNV-1 hash of its text. The locks are
  left out, so each operation is modelled as one atomic step. Keys are
  their `%v` text as bytes.
 */
module ConcurrentMaps {
  import opened Wrappers

  newtype Byte = x: int | 0 <= x < 256
  type Bytes = seq<Byte>

  const OffsetBasis := 2166136261
  const Prime := 16777619
  const TwoTo32 := 0x1_0000_0000
  const DefaultShardCount := 32

  function Pow2(n: nat): (p: nat)
    ensures p >= 1
  {
    if n == 0 then 1 else 2 * Pow2(n - 1)
  }

  /** Bitwise exclusive or of the low `n` bits of `a` and `b`. */
  function Xor(a: nat, b: nat, n: nat): (r: nat)
    ensures r < Pow2(n)
  {
    if n == 0 then 0 else 2 * Xor(a / 2, b / 2, n - 1) + (a % 2 + b % 2) % 2
  }

  /** `x ^ b` for a 32-bit `x` and a byte `b`: only the low byte changes. */
  function XorByte(x: int, b: Byte): (r: int)
    requires 0 <= x < TwoTo32
    ensures 0 <= r < TwoTo32 && r / 256 == x / 256 && r % 256 == Xor(x % 256, b as int, 8)
  {
    assert Pow2(8) == 256;
    (x / 256) * 256 + Xor(x % 256, b as int, 8)
  }

  /** 32-bit FNV-1: from the offset basis, each byte first multiplies the
      hash by the prime modulo 2^32, then is XOR-ed in. */
  function Fnv1(s: Bytes): (h: int)
    ensures 0 <= h < TwoTo32
  {
    if |s| == 0 then OffsetBasis else XorByte((Fnv1(s[..|s| - 1]) * Prime) % TwoTo32, s[|s| - 1])
  }

  /** `fnv32` (concurrent_map.go:132-141): the hashing loop over `uint32`,
      whose multiplication wraps. */
  method Fnv32(key: Bytes) returns (hash: int)
    ensures 0 <= hash < TwoTo32
    ensures hash == Fnv1(key)
  {
    hash := OffsetBasis;
    for i := 0 to |key|
      invariant hash == Fnv1(key[..i])
    {
      hash := (hash * Prime) % TwoTo32;
      hash := XorByte(hash, key[i]);
      assert key[..i + 1][..i] == key[..i];
    }
    assert key[..|key|] == key;
  }

  /** The published 32-bit FNV-1 value of "a". */
  lemma Fnv1OfA()
    ensures Fnv1([0x61]) == 0x050c5d7e
  {
    var a: Bytes := [0x61];
    assert a[..0] == [];
    var h := FirstProduct();
    assert Fnv1(a) == XorByte(h, 0x61);
    LowByteXor();
  }

  /** The offset basis times the prime, modulo 2^32. */
  lemma FirstProduct() returns (h: int)
    ensures h == (OffsetBasis * Prime) % TwoTo32 == 0x050c5d1f
    ensures h / 256 == 0x050c5d && h % 256 == 0x1f
  {
    h := (OffsetBasis * Prime) % TwoTo32;
  }

  /** 0x1f XOR 0x61, bit by bit. */
  lemma LowByteXor()
    ensures Xor(0x1f, 0x61, 8) == 0x7e
  {
    assert Xor(0, 0, 1) == 0;
    assert Xor(0, 1, 2) == 1;
    assert Xor(0, 3, 3) == 3;
    assert Xor(1, 6, 4) == 7;
    assert Xor(3, 12, 5) == 15;
    assert Xor(7, 24, 6) == 31;
    assert Xor(15, 48, 7) == 63;
  }

  datatype ConcurrentMap<V> = ConcurrentMap(shardCount: nat, maps: seq<map<Bytes, V>>)

  /** `getShard` (concurrent_map.go:127-130). */
  function Shard(key: Bytes, shardCount: nat): (shard: nat)
    requires shardCount > 0
    ensures shard < shardCount
  {
    (Fnv1(key) as int) % shardCount
  }

  /** One map per shard, and every key lives in its own shard. */
  ghost predicate Valid<V>(cm: ConcurrentMap<V>) {
    cm.shardCount > 0 && |cm.maps| == cm.shardCount
    && forall i, k :: 0 <= i < |cm.maps| && k in cm.maps[i] ==> Shard(k, cm.shardCount) == i
  }

  /** The keys of all shards. */
  ghost function AllKeys<V>(maps: seq<map<Bytes, V>>): set<Bytes> {
    set i, k | 0 <= i < |maps| && k in maps[i] :: k
  }

  /** The bindings of all shards together, each key read from its shard. */
  ghost function View<V>(cm: ConcurrentMap<V>): map<Bytes, V>
    requires Valid(cm)
  {
    map k | k in AllKeys(cm.maps) && k in cm.maps[Shard(k, cm.shardCount)] :: cm.maps[Shard(k, cm.shardCount)][k]
  }

  /** `NewConcurrentMap` (concurrent_map.go:18-34): a non-positive shard
      count becomes 32; every shard starts empty. */
  function New<V>(shardCount: int): (cm: ConcurrentMap<V>)
    ensures Valid(cm) && View(cm) == map[]
    ensures cm.shardCount == if shardCount <= 0 then DefaultShardCount else shardCount
  {
    var n := if shardCount <= 0 then DefaultShardCount else shardCount;
    ConcurrentMap(n, seq(n, _ => map[]))
  }

  /** A key is bound in the view exactly as in its own shard. */
  lemma ViewAt<V>(cm: ConcurrentMap<V>, k: Bytes)
    requires Valid(cm)
    ensures k in View(cm) <==> k in cm.maps[Shard(k, cm.shardCount)]
    ensures k in View(cm) ==> View(cm)[k] == cm.maps[Shard(k, cm.shardCount)][k]
  {
    var i := Shard(k, cm.shardCount);
    if k in cm.maps[i] {
      assert k in AllKeys(cm.maps);
    }
  }

  /** Replacing the shard of `key` by one that differs only at `key` keeps
      the map valid, and its view differs only at `key`. */
  lemma ShardUpdate<V>(cm: ConcurrentMap<V>, key: Bytes, m: map<Bytes, V>, r: ConcurrentMap<V>)
    requires Valid(cm)
    requires r == ConcurrentMap(cm.shardCount, cm.maps[Shard(key, cm.shardCount) := m])
    requires forall k :: k != key ==> (k in m <==> k in cm.maps[Shard(key, cm.shardCount)])
    requires forall k :: k != key && k in m ==> m[k] == cm.maps[Shard(key, cm.shardCount)][k]
    ensures Valid(r)
    ensures forall k :: k != key ==> (k in View(r) <==> k in View(cm))
    ensures forall k :: k != key && k in View(r) ==> View(r)[k] == View(cm)[k]
    ensures key in View(r) <==> key in m
    ensures key in m ==> View(r)[key] == m[key]
  {
    forall k
      ensures k != key ==> (k in View(r) <==> k in View(cm))
      ensures k != key && k in View(r) ==> View(r)[k] == View(cm)[k]
      ensures k == key ==> (k in View(r) <==> k in m)
      ensures k == key && k in m ==> View(r)[k] == m[k]
    {
      ViewAt(cm, k);
      ViewAt(r, k);
    }
  }

  /** `Set` (concurrent_map.go:37-44). */
  function Set<V>(cm: ConcurrentMap<V>, key: Bytes, value: V): (r: ConcurrentMap<V>)
    requires Valid(cm)
    ensures Valid(r) && View(r) == View(cm)[key := value]
  {
    var s := Shard(key, cm.shardCount);
    var r := ConcurrentMap(cm.shardCount, cm.maps[s := cm.maps[s][key := value]]);
    ShardUpdate(cm, key, cm.maps[s][key := value], r);
    r
  }

  /** `Get` (concurrent_map.go:47-55). */
  function Get<V>(cm: ConcurrentMap<V>, key: Bytes): (r: Option<V>)
    requires Valid(cm)
    ensures r.Some? <==> key in View(cm)
    ensures r.Some? ==> r.value == View(cm)[key]
  {
    var s := Shard(key, cm.shardCount);
    ViewAt(cm, key);
    if key in cm.maps[s] then Some(cm.maps[s][key]) else None
  }

  /** `Delete` (concurrent_map.go:82-88). */
  function Delete<V>(cm: ConcurrentMap<V>, key: Bytes): (r: ConcurrentMap<V>)
    requires Valid(cm)
    ensures Valid(r) && View(r) == View(cm) - {key}
  {
    var s := Shard(key, cm.shardCount);
    var r := ConcurrentMap(cm.shardCount, cm.maps[s := cm.maps[s] - {key}]);
    ShardUpdate(cm, key, cm.maps[s] - {key}, r);
    r
  }

  /** `GetOrSet` (concurrent_map.go:58-79): the existing value with `true`
      and no change, or `value` with `false` after storing it. */
  function GetOrSet<V>(cm: ConcurrentMap<V>, key: Bytes, value: V): (r: (V, bool, ConcurrentMap<V>))
    requires Valid(cm)
    ensures Valid(r.2)
    ensures r.1 <==> key in View(cm)
    ensures r.1 ==> r.0 == View(cm)[key] && r.2 == cm
    ensures !r.1 ==> r.0 == value && View(r.2) == View(cm)[key := value]
  {
    match Get(cm, key)
    case Some(actual) => (actual, true, cm)
    case None => (value, false, Set(cm, key, value))
  }

  /** `GetAndDelete` (concurrent_map.go:91-103): the value and `true`
      after removing the key, or no value and no change. */
  function GetAndDelete<V>(cm: ConcurrentMap<V>, key: Bytes): (r: (Option<V>, ConcurrentMap<V>))
    requires Valid(cm)
    ensures Valid(r.1) && View(r.1) == View(cm) - {key}
    ensures r.0.Some? <==> key in View(cm)
    ensures r.0.Some? ==> r.0.value == View(cm)[key]
    ensures r.0.None? ==> r.1 == cm
  {
    match Get(cm, key)
    case Some(actual) => (Some(actual), Delete(cm, key))
    case None => (None, cm)
  }

  /** `Has` (concurrent_map.go:106-109). */
  function Has<V>(cm: ConcurrentMap<V>, key: Bytes): (b: bool)
    requires Valid(cm)
    ensures b <==> key in View(cm)
  {
    Get(cm, key).Some?
  }

  /** Reading back: `Get` after `Set` sees the value, after `Delete` sees
      nothing, and other keys are unaffected. */
  lemma GetAfterSetAndDelete<V>(cm: ConcurrentMap<V>, key: Bytes, value: V, other: Bytes)
    requires Valid(cm)
    ensures Get(Set(cm, key, value), key) == Some(value)
    ensures Get(Delete(cm, key), key) == None
    ensures other != key ==> Get(Set(cm, key, value), other) == Get(cm, other)
    ensures other != key ==> Get(Delete(cm, key), other) == Get(cm, other)
  {
  }
}
