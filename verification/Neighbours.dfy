/** The neighbour table: MAC addresses by IPv4 or IPv6 address, in 65536 hash buckets. */
module Neighbours {
  import opened Common

  const HASH_SIZE: nat := 0x10000
  const GOLDEN_32: nat := 0x9e370001
  const GOLDEN_64: nat := 0x9e37fffffffc0001

  type Mac = seq<nat>

  /** A 32-bit address, or the two 64-bit halves of a longer one, as the host loads them. */
  datatype Key = V4(addr: nat) | V6(first: nat, second: nat)

  datatype Entry = Entry(key: Key, mac: Mac)

  predicate KeyOk(key: Key, v6: bool) {
    match key
    case V4(a) => !v6 && a < TWO32
    case V6(a, b) => v6 && a < TWO64 && b < TWO64
  }

  /** The top 16 bits of the product with a constant, in 32 or 64 bits. */
  function Hash(key: Key): (h: nat)
    ensures h < HASH_SIZE
  {
    match key
    case V4(a) =>
      var x: int := (a * GOLDEN_32) % TWO32;
      x / 0x1_0000
    case V6(a, b) =>
      var x: int := (((a * b) % TWO64) * GOLDEN_64) % TWO64;
      x / 0x1_0000_0000_0000
  }

  /** Of the lower 32 bits of an IPv4 key times 0x9e370001, the hash is the upper 16. */
  lemma HashV4(a: nat) returns (high: int, low: int)
    ensures a * 0x9e37_0001 == 0x1_0000_0000 * high + 0x1_0000 * Hash(V4(a)) + low && 0 <= low < 0x1_0000
  {
    var x: int := a * GOLDEN_32;
    var y: int := x % TWO32;
    high, low := x / TWO32, y % 0x1_0000;
  }

  /** Of the lower 64 bits of the product of the halves of an IPv6 key and
      0x9e37fffffffc0001, the hash is the upper 16. */
  lemma HashV6(a: nat, b: nat) returns (wrap: int, high: int, low: int)
    ensures var product := a * b - 0x1_0000_0000_0000_0000 * wrap;
            && 0 <= product < 0x1_0000_0000_0000_0000
            && product * 0x9e37_ffff_fffc_0001
               == 0x1_0000_0000_0000_0000 * high + 0x1_0000_0000_0000 * Hash(V6(a, b)) + low
            && 0 <= low < 0x1_0000_0000_0000
  {
    var m: int := a * b;
    wrap := m / TWO64;
    var x: int := (m % TWO64) * GOLDEN_64;
    var y: int := x % TWO64;
    high, low := x / TWO64, y % 0x1_0000_0000_0000;
  }

  /** What a bucket holds for a key. */
  function Held(bucket: seq<Entry>, key: Key): Option<Mac> {
    if bucket == [] then None
    else if bucket[0].key == key then Some(bucket[0].mac)
    else Held(bucket[1..], key)
  }

  function Get(contents: map<Key, Mac>, key: Key): Option<Mac> {
    if key in contents then Some(contents[key]) else None
  }

  /** Every entry is in its own bucket, and no key is there twice. */
  ghost predicate BucketOk(bucket: seq<Entry>, h: nat, v6: bool) {
    && (forall i | 0 <= i < |bucket| :: Hash(bucket[i].key) == h && KeyOk(bucket[i].key, v6))
    && (forall i, j | 0 <= i < j < |bucket| :: bucket[i].key != bucket[j].key)
  }

  lemma AddHead(bucket: seq<Entry>, e: Entry, key: Key)
    ensures Held([e] + bucket, key) == if key == e.key then Some(e.mac) else Held(bucket, key)
  {
    assert ([e] + bucket)[1..] == bucket;
  }

  /** A bucket holds for a key what its first entry with that key says. */
  lemma {:induction false} FirstMatch(bucket: seq<Entry>, key: Key, i: nat)
    requires i <= |bucket| && (i < |bucket| ==> bucket[i].key == key)
    requires forall j | 0 <= j < i :: bucket[j].key != key
    ensures Held(bucket, key) == if i < |bucket| then Some(bucket[i].mac) else None
  {
    if i > 0 {
      FirstMatch(bucket[1..], key, i - 1);
    }
  }

  lemma {:induction false} TakeOut(bucket: seq<Entry>, i: nat, key: Key)
    requires i < |bucket| && forall j | 0 <= j < |bucket| && j != i :: bucket[j].key != bucket[i].key
    ensures Held(bucket[..i] + bucket[i + 1..], key) == if key == bucket[i].key then None else Held(bucket, key)
  {
    var rest, now := bucket[1..], bucket[..i] + bucket[i + 1..];
    if i == 0 {
      assert now == rest;
      if key == bucket[0].key {
        FirstMatch(rest, key, |rest|);
      }
    } else {
      TakeOut(rest, i - 1, key);
      assert now[1..] == rest[..i - 1] + rest[i..];
    }
  }

  class Table {
    const v6: bool
    const heads: array<seq<Entry>>
    ghost var contents: map<Key, Mac>

    constructor (v6: bool)
      ensures Valid() && contents == map[] && this.v6 == v6 && fresh(heads)
    {
      this.v6 := v6;
      heads := new seq<Entry>[HASH_SIZE];
      contents := map[];
      new;
      for i := 0 to HASH_SIZE
        modifies heads
        invariant forall j | 0 <= j < i :: heads[j] == []
      {
        heads[i] := [];
      }
    }

    ghost predicate Valid()
      reads this, heads
    {
      && heads.Length == HASH_SIZE
      && (forall h | 0 <= h < HASH_SIZE :: BucketOk(heads[h], h, v6))
      && (forall key :: Held(heads[Hash(key)], key) == Get(contents, key))
    }

    /** Look a key up: what the map holds for it. */
    method Lookup(key: Key) returns (mac: Option<Mac>)
      requires Valid() && KeyOk(key, v6)
      ensures mac == Get(contents, key)
    {
      var bucket := heads[Hash(key)];
      var i := Search(bucket, key);
      mac := if i < |bucket| then Some(bucket[i].mac) else None;
    }

    static method Search(bucket: seq<Entry>, key: Key) returns (i: nat)
      ensures i <= |bucket| && (i < |bucket| ==> bucket[i].key == key)
      ensures forall j | 0 <= j < i :: bucket[j].key != key
      ensures Held(bucket, key) == if i < |bucket| then Some(bucket[i].mac) else None
    {
      i := 0;
      while i < |bucket| && bucket[i].key != key
        invariant i <= |bucket| && forall j | 0 <= j < i :: bucket[j].key != key
      {
        i := i + 1;
      }
      FirstMatch(bucket, key, i);
    }

    /** Add an entry, at the head of its bucket, unless its key is there already: the first
        one added wins. `memory` says whether an entry can be allocated. */
    method Add(key: Key, mac: Mac, memory: bool) returns (ok: bool)
      requires Valid() && KeyOk(key, v6)
      modifies this, heads
      ensures Valid()
      ensures ok <==> memory && key !in old(contents)
      ensures contents == if ok then old(contents)[key := mac] else old(contents)
    {
      if !memory {
        return false;
      }
      hide Hash, Held;
      var h := Hash(key);
      var bucket := heads[h];
      var i := Search(bucket, key);
      if i < |bucket| {
        return false;
      }
      var e := Entry(key, mac);
      heads[h] := [e] + bucket;
      contents := contents[key := mac];
      forall k
        ensures Held(heads[Hash(k)], k) == Get(contents, k)
      {
        AddHead(bucket, e, k);
      }
      AddOk(bucket, e, h, v6);
      ok := true;
    }

    method Delete(key: Key) returns (ok: bool)
      requires Valid() && KeyOk(key, v6)
      modifies this, heads
      ensures Valid()
      ensures ok <==> key in old(contents)
      ensures contents == old(contents) - {key}
    {
      hide Hash, Held;
      var h := Hash(key);
      var bucket := heads[h];
      var i := Search(bucket, key);
      if i == |bucket| {
        return false;
      }
      heads[h] := bucket[..i] + bucket[i + 1..];
      contents := contents - {key};
      forall k
        ensures Held(heads[Hash(k)], k) == Get(contents, k)
      {
        TakeOut(bucket, i, k);
      }
      ok := true;
    }

    method DeleteAll()
      requires Valid()
      modifies this, heads
      ensures Valid() && contents == map[]
    {
      for h := 0 to HASH_SIZE
        modifies heads
        invariant forall j | 0 <= j < h :: heads[j] == []
      {
        while heads[h] != []
          modifies heads
          invariant forall j | 0 <= j < h :: heads[j] == []
          decreases |heads[h]|
        {
          heads[h] := heads[h][1..];
        }
      }
      contents := map[];
    }
  }

  lemma AddOk(bucket: seq<Entry>, e: Entry, h: nat, v6: bool)
    requires BucketOk(bucket, h, v6) && Hash(e.key) == h && KeyOk(e.key, v6)
    requires forall i | 0 <= i < |bucket| :: bucket[i].key != e.key
    ensures BucketOk([e] + bucket, h, v6)
  {
  }
}
