/**
 The shared-memory map stores its entries under a hash of the key.  For an injective hash
 it cannot be told from a map keyed by the key itself, over any sequence of operations.
 */
module HashedKeys {
  import opened Options
  import opened Bytes
  import opened Lists
  import opened ChunkAllocators
  import opened RecencyMaps
  import opened HashMaps
  import opened Murmur

  const MURMURHASH_SEED: u32 := 17

  type int32 = x: int | -TWO_31 <= x < TWO_31

  /** The key structs of the statistics: two packed ints, eight bytes. */
  datatype IntPair = IntPair(first: int32, second: int32)

  function EncodeInt(x: int32): (s: seq<byte>)
    ensures |s| == 4
  {
    EncodeU32(if x < 0 then x + TWO_32 else x)
  }

  lemma EncodeIntInjective(x: int32, y: int32)
    requires EncodeInt(x) == EncodeInt(y)
    ensures x == y
  {
    hide EncodeU32, DecodeU32;
    assert DecodeU32(EncodeInt(x)) == DecodeU32(EncodeInt(y));
  }

  function KeyBytes(k: IntPair): (s: seq<byte>)
    ensures |s| == 8
  {
    EncodeInt(k.first) + EncodeInt(k.second)
  }

  /** get_hash_key: the 16 bytes under which a key is stored. */
  function KeyHash(k: IntPair): Key {
    var h := Hash(KeyBytes(k), MURMURHASH_SEED);
    EncodeU64(h.h1) + EncodeU64(h.h2)
  }

  /** No two keys of the three statistics maps share a hash. */
  lemma KeyHashInjective(k: IntPair, j: IntPair)
    requires KeyHash(k) == KeyHash(j)
    ensures k == j
  {
    hide Hash, EncodeU64, EncodeInt;
    var g, h := Hash(KeyBytes(k), MURMURHASH_SEED), Hash(KeyBytes(j), MURMURHASH_SEED);
    assert KeyHash(k)[..8] == EncodeU64(g.h1) && KeyHash(k)[8..] == EncodeU64(g.h2);
    assert KeyHash(j)[..8] == EncodeU64(h.h1) && KeyHash(j)[8..] == EncodeU64(h.h2);
    EncodeU64Injective(g.h1, h.h1);
    EncodeU64Injective(g.h2, h.h2);
    HashInjective(KeyBytes(k), KeyBytes(j), MURMURHASH_SEED);
    assert KeyBytes(k)[..4] == EncodeInt(k.first) && KeyBytes(k)[4..] == EncodeInt(k.second);
    assert KeyBytes(j)[..4] == EncodeInt(j.first) && KeyBytes(j)[4..] == EncodeInt(j.second);
    EncodeIntInjective(k.first, j.first);
    EncodeIntInjective(k.second, j.second);
  }

  /** The entries of a map by key, stored under their hashes. */
  function Hashed<V>(es: seq<Entry<IntPair, V>>): (r: seq<Entry<Key, V>>)
    ensures |r| == |es|
  {
    seq(|es|, i requires 0 <= i < |es| => HashedEntry(es[i]))
  }

  function HashedEntry<V>(e: Entry<IntPair, V>): Entry<Key, V> {
    Entry(KeyHash(e.key), e.value, e.len, e.dirty)
  }

  lemma {:induction false} HashedIndex<V>(es: seq<Entry<IntPair, V>>, k: IntPair)
    ensures IndexOf(Hashed(es), KeyHash(k)) == IndexOf(es, k)
  {
    hide KeyHash;
    if es != [] {
      assert Hashed(es)[1..] == Hashed(es[1..]);
      HashedIndex(es[1..], k);
      if KeyHash(es[0].key) == KeyHash(k) {
        KeyHashInjective(es[0].key, k);
      }
    }
  }

  lemma {:induction false} HashedUsed<V>(es: seq<Entry<IntPair, V>>, size: Positive)
    ensures Used(Hashed(es), size) == Used(es, size)
  {
    hide KeyHash;
    if es != [] {
      assert Hashed(es)[1..] == Hashed(es[1..]);
      HashedUsed(es[1..], size);
    }
  }

  lemma HashedFits<V>(es: seq<Entry<IntPair, V>>, lim: Limits, k: IntPair, len: nat)
    ensures Fits(Hashed(es), lim, KeyHash(k), len) <==> Fits(es, lim, k, len)
  {
    hide KeyHash, Used, IndexOf;
    HashedIndex(es, k);
    HashedUsed(es, lim.chunkSize);
  }

  lemma HashedCons<V>(e: Entry<IntPair, V>, es: seq<Entry<IntPair, V>>)
    ensures Hashed([e] + es) == [HashedEntry(e)] + Hashed(es)
  {
    hide HashedEntry;
  }

  lemma HashedWithout<V>(es: seq<Entry<IntPair, V>>, i: nat)
    requires i < |es|
    ensures Hashed(Without(es, i)) == Without(Hashed(es), i)
  {
    hide HashedEntry;
  }

  lemma HashedFront<V>(es: seq<Entry<IntPair, V>>, i: nat)
    requires i < |es|
    ensures Hashed(ToFront(es, i)) == ToFront(Hashed(es), i)
  {
    hide HashedEntry;
  }

  /** Looking up, touching and dropping a key commute with hashing. */
  lemma HashedGet<V>(es: seq<Entry<IntPair, V>>, lim: Limits, k: IntPair)
    ensures Touch(Hashed(es), KeyHash(k)) == Hashed(Touch(es, k))
    ensures Drop(Hashed(es), KeyHash(k)) == Hashed(Drop(es, k))
    ensures Lookup(Hashed(es), KeyHash(k)) ==
      match Lookup(es, k) case None => None case Some(e) => Some(Entry(KeyHash(k), e.value, e.len, e.dirty))
  {
    hide KeyHash, IndexOf, Without, ToFront;
    HashedIndex(es, k);
    var i := IndexOf(es, k);
    if i >= 0 {
      HashedWithout(es, i);
      HashedFront(es, i);
    }
  }

  /** And so does storing. */
  lemma HashedSet<V>(es: seq<Entry<IntPair, V>>, lim: Limits, k: IntPair, v: V, len: nat, dirty: bool)
    ensures Set(Hashed(es), lim, KeyHash(k), v, len, dirty) == Hashed(Set(es, lim, k, v, len, dirty))
  {
    hide KeyHash, Fits, Touch, Drop, Lookup, Hashed;
    HashedGet(es, lim, k);
    HashedFits(es, lim, k, len);
    HashedCons(Entry(k, v, len, dirty), Drop(es, k));
  }

  datatype MapOp<K, V> = Find(key: K) | Get(key: K) | Insert(key: K, value: V, len: nat) | Erase(key: K)

  datatype MapResult<V> = Missing | Present | Value(value: V) | Done | Full

  /** What a map operation does to the cache, and what it returns. */
  function MapStep<K(==), V>(es: seq<Entry<K, V>>, lim: Limits, op: MapOp<K, V>): (seq<Entry<K, V>>, MapResult<V>) {
    match op
    case Find(k) => (Touch(es, k), if Lookup(es, k).Some? then Present else Missing)
    case Get(k) => (Touch(es, k), if Lookup(es, k).Some? then Value(Lookup(es, k).value.value) else Missing)
    case Insert(k, v, len) => (Set(es, lim, k, v, len, true), if Fits(es, lim, k, len) then Done else Full)
    case Erase(k) => (Drop(es, k), if Lookup(es, k).Some? then Done else Missing)
  }

  function HashedOp<V>(op: MapOp<IntPair, V>): MapOp<Key, V> {
    match op
    case Find(k) => Find(KeyHash(k))
    case Get(k) => Get(KeyHash(k))
    case Insert(k, v, len) => Insert(KeyHash(k), v, len)
    case Erase(k) => Erase(KeyHash(k))
  }

  ghost function MapRun<K, V>(es: seq<Entry<K, V>>, lim: Limits, ops: seq<MapOp<K, V>>)
    : (seq<Entry<K, V>>, seq<MapResult<V>>)
    decreases |ops|
  {
    if ops == [] then (es, [])
    else
      var (es1, r) := MapStep(es, lim, ops[0]);
      var (es2, rs) := MapRun(es1, lim, ops[1..]);
      (es2, [r] + rs)
  }

  lemma {:induction false} MapRunSnoc<K, V>(es: seq<Entry<K, V>>, lim: Limits, ops: seq<MapOp<K, V>>, op: MapOp<K, V>)
    ensures |MapRun(es, lim, ops).1| == |ops|
    ensures var (now, rs) := MapRun(es, lim, ops);
      var (after, r) := MapStep(now, lim, op);
      MapRun(es, lim, ops + [op]) == (after, rs + [r])
    decreases |ops|
  {
    hide MapStep;
    if ops == [] {
      var (es1, r1) := MapStep(es, lim, op);
      assert [op][1..] == [] && [] + [op] == [op] && MapRun(es1, lim, []) == (es1, []) && [r1] + [] == [] + [r1];
    } else {
      var (es1, r1) := MapStep(es, lim, ops[0]);
      MapRunSnoc(es1, lim, ops[1..], op);
      assert (ops + [op])[1..] == ops[1..] + [op];
      assert [r1] + (MapRun(es1, lim, ops[1..]).1 + [MapStep(MapRun(es1, lim, ops[1..]).0, lim, op).1]) ==
        [r1] + MapRun(es1, lim, ops[1..]).1 + [MapStep(MapRun(es1, lim, ops[1..]).0, lim, op).1];
    }
  }

  /** What operations with these results leave in a dictionary: the inserts that were done and not erased. */
  ghost function Dictionary<K, V>(ops: seq<MapOp<K, V>>, rs: seq<MapResult<V>>): map<K, V>
    requires |ops| == |rs|
  {
    if ops == [] then map[]
    else
      var before := Dictionary(ops[..|ops| - 1], rs[..|rs| - 1]);
      match ops[|ops| - 1]
      case Insert(k, v, _) => if rs[|rs| - 1] == Done then before[k := v] else before
      case Erase(k) => before - {k}
      case _ => before
  }

  /** The map holds what the dictionary holds. */
  ghost predicate HoldsDictionary<K(!new), V>(es: seq<Entry<K, V>>, d: map<K, V>) {
    && DistinctKeys(es)
    && forall k :: (Lookup(es, k).Some? <==> k in d) && (k in d ==> Lookup(es, k).value.value == d[k])
  }

  lemma DictionaryStep<K(!new), V>(es: seq<Entry<K, V>>, lim: Limits, op: MapOp<K, V>, d: map<K, V>)
    requires HoldsDictionary(es, d) && WithinLimits(es, lim)
    ensures var (after, r) := MapStep(es, lim, op);
      && WithinLimits(after, lim)
      && HoldsDictionary(after,
           if op.Insert? && r == Done then d[op.key := op.value] else if op.Erase? then d - {op.key} else d)
  {
    hide Lookup, Set, Drop, Touch, Fits, WithinLimits, DistinctKeys;
    var after, k := MapStep(es, lim, op).0, op.key;
    TouchLaws(es, lim, k);
    DropStaysWithin(es, lim, k);
    if op.Insert? {
      StepsStayWithin(es, lim, k, op.value, op.len, true);
    }
    WithinDistinct(after, lim);
    forall j: K ensures Lookup(after, j) ==
        match op
        case Insert(_, v, len) =>
          if j == k && Fits(es, lim, k, len) then Some(Entry(k, v, len, true)) else Lookup(es, j)
        case Erase(_) => if j == k then None else Lookup(es, j)
        case _ => Lookup(es, j)
    {
      LookupDrop(es, k, j);
      if op.Insert? {
        LookupAfter(es, lim, k, op.value, op.len, true, j);
      }
    }
  }

  /** After any run on an empty map, it holds what its results say. */
  lemma {:induction false} RunIsDictionary<K(!new), V>(lim: Limits, ops: seq<MapOp<K, V>>)
    ensures var (es, rs) := MapRun<K, V>([], lim, ops);
      |rs| == |ops| && WithinLimits(es, lim) && HoldsDictionary(es, Dictionary(ops, rs))
    decreases |ops|
  {
    hide MapStep, HoldsDictionary, WithinLimits;
    if ops == [] {
      EmptyDictionary<K, V>(lim);
    } else {
      var front, op := ops[..|ops| - 1], ops[|ops| - 1];
      RunIsDictionary(lim, front);
      MapRunSnoc([], lim, front, op);
      assert front + [op] == ops;
      var (es, rs) := MapRun<K, V>([], lim, front);
      var (after, r) := MapStep(es, lim, op);
      assert (rs + [r])[..|rs|] == rs;
      DictionaryStep(es, lim, op, Dictionary(front, rs));
    }
  }

  lemma EmptyDictionary<K(!new), V>(lim: Limits)
    ensures WithinLimits<K, V>([], lim) && HoldsDictionary<K, V>([], map[])
  {
  }

  /** So after any run every answer is that of the dictionary. */
  lemma DictionaryAnswers<K(!new), V>(lim: Limits, ops: seq<MapOp<K, V>>, op: MapOp<K, V>)
    ensures var (es, rs) := MapRun<K, V>([], lim, ops);
      && |rs| == |ops|
      && var d := Dictionary(ops, rs);
      MapStep(es, lim, op).1 ==
        match op
        case Find(k) => if k in d then Present else Missing
        case Get(k) => if k in d then Value(d[k]) else Missing
        case Erase(k) => if k in d then Done else Missing
        case Insert(k, v, len) => if Fits(es, lim, k, len) then Done else Full
  {
    hide MapRun, Dictionary, Lookup, Fits, WithinLimits, DistinctKeys;
    RunIsDictionary(lim, ops);
  }

  function HashedOps<V>(ops: seq<MapOp<IntPair, V>>): (r: seq<MapOp<Key, V>>)
    ensures |r| == |ops|
  {
    seq(|ops|, i requires 0 <= i < |ops| => HashedOp(ops[i]))
  }

  lemma HashedMapStep<V>(es: seq<Entry<IntPair, V>>, lim: Limits, op: MapOp<IntPair, V>)
    ensures MapStep(Hashed(es), lim, HashedOp(op)) == (Hashed(MapStep(es, lim, op).0), MapStep(es, lim, op).1)
  {
    hide KeyHash, Touch, Drop, Set, Lookup, Fits, Hashed;
    match op
    case Find(k) => HashedGet(es, lim, k);
    case Get(k) => HashedGet(es, lim, k);
    case Insert(k, v, len) =>
      HashedSet(es, lim, k, v, len, true);
      HashedFits(es, lim, k, len);
    case Erase(k) => HashedGet(es, lim, k);
  }

  /** Over every run, the hash-keyed map returns what the map by key returns, and holds the same entries. */
  lemma {:induction false} HashedMapIsExact<V>(es: seq<Entry<IntPair, V>>, lim: Limits, ops: seq<MapOp<IntPair, V>>)
    ensures MapRun(Hashed(es), lim, HashedOps(ops)) == (Hashed(MapRun(es, lim, ops).0), MapRun(es, lim, ops).1)
    decreases |ops|
  {
    hide KeyHash, Hashed, MapStep, HashedOp;
    if ops != [] {
      HashedMapStep(es, lim, ops[0]);
      HashedMapIsExact(MapStep(es, lim, ops[0]).0, lim, ops[1..]);
      assert HashedOps(ops)[1..] == HashedOps(ops[1..]);
    }
  }
}
