/** The shared-memory map over the cache, and the iterator that walks it from its oldest entry. */
module ShmMaps {
  import opened Options
  import opened Bytes
  import opened Lists
  import opened ChunkAllocators
  import opened RecencyMaps
  import opened HashMaps
  import Recovery
  import opened CacheAccesses
  import opened Murmur
  import opened HashedKeys

  type MapEntry = Entry<IntPair, seq<byte>>

  ghost predicate AllOfSize<K>(es: seq<Entry<K, seq<byte>>>, size: nat) {
    forall i :: 0 <= i < |es| ==> es[i].len == |es[i].value| == size
  }

  lemma FrontKeepsSize<K>(es: seq<Entry<K, seq<byte>>>, i: nat, size: nat)
    requires AllOfSize(es, size) && i < |es|
    ensures AllOfSize(ToFront(es, i), size) && AllOfSize(Without(es, i), size)
  {
  }

  lemma StepKeepsSize(es: seq<MapEntry>, lim: Limits, op: MapOp<IntPair, seq<byte>>, size: nat)
    requires AllOfSize(es, size)
    requires op.Insert? ==> op.len == |op.value| == size
    ensures AllOfSize(MapStep(es, lim, op).0, size)
  {
    hide Fits, IndexOf, ToFront, Without, Lookup;
    var i := IndexOf(es, op.key);
    if i >= 0 {
      FrontKeepsSize(es, i, size);
    }
  }

  /** What an entry looks up to is the same under its hash. */
  lemma LookupSize(es: seq<MapEntry>, lim: Limits, k: IntPair, size: nat)
    requires AllOfSize(es, size)
    ensures Lookup(Hashed(es), KeyHash(k)).Some? <==> Lookup(es, k).Some?
    ensures Lookup(es, k).Some? ==>
      var e := Lookup(Hashed(es), KeyHash(k)).value; e.value == Lookup(es, k).value.value && e.len == |e.value| == size
    ensures Touch(Hashed(es), KeyHash(k)) == Hashed(Touch(es, k))
    ensures Drop(Hashed(es), KeyHash(k)) == Hashed(Drop(es, k))
  {
    hide KeyHash, Hashed, Touch, Drop, IndexOf;
    HashedGet(es, lim, k);
  }

  class ShmMap {
    const ca: CacheAccess
    const size: Positive
    var hashKey: Key

    /** The entries by key; the cache holds them by hash. */
    ghost var entries: seq<MapEntry>

    ghost function Repr(): set<object> {
      {this} + ca.Repr()
    }

    ghost predicate Valid()
      reads this, Repr()
    {
      && this !in ca.Repr() && ca.Valid() && ca.dumpMin < 0 && LenOk(size, ca.Lim().chunkSize)
      && ca.View() == Hashed(entries) && AllOfSize(entries, size)
    }

    constructor (c: CacheAccess, valueSize: Positive, ghost es: seq<MapEntry>)
      requires c.Valid() && c.dumpMin < 0 && LenOk(valueSize, c.Lim().chunkSize)
      requires c.View() == Hashed(es) && AllOfSize(es, valueSize)
      ensures Valid() && ca == c && size == valueSize && entries == es
    {
      hide CacheAccess.Valid, CacheAccess.View, KeyHash, Hashed;
      ca, size, entries := c, valueSize, es;
      hashKey := ZERO_KEY;
    }

    /** cache_key: the hash of a key, kept for the operations that follow. */
    method CacheKey(key: IntPair)
      requires Valid()
      modifies this`hashKey
      ensures Valid() && hashKey == KeyHash(key)
    {
      hide CacheAccess.Valid, CacheAccess.View, Hash, EncodeU64, Hashed;
      var h := MurmurHash3X64128(KeyBytes(key), MURMURHASH_SEED);
      hashKey := EncodeU64(h.h1) + EncodeU64(h.h2);
    }

    /** find, of the key that was cached. */
    method FindCached(ghost key: IntPair) returns (ret: int)
      requires Valid() && hashKey == KeyHash(key)
      modifies ca.Repr(), this`entries
      ensures Valid() && hashKey == old(hashKey) && (ret == FOUND || ret == NOT_FOUND)
      ensures (entries, if ret == FOUND then Present else Missing) == MapStep(old(entries), ca.Lim(), MapOp.Find(key))
    {
      hide CacheAccess.Valid, CacheAccess.View, KeyHash, Hashed, Touch, Drop, Lookup, AllOfSize;
      LookupSize(entries, ca.Lim(), key, size);
      StepKeepsSize(entries, ca.Lim(), MapOp.Find(key), size);
      var dataLen, dirty;
      ret, dataLen, dirty := ca.GetKey(hashKey);
      entries := Touch(entries, key);
    }

    method Find(key: IntPair) returns (ret: int)
      requires Valid()
      modifies Repr()
      ensures Valid() && (ret == FOUND || ret == NOT_FOUND)
      ensures (entries, if ret == FOUND then Present else Missing) == MapStep(old(entries), ca.Lim(), MapOp.Find(key))
    {
      hide Valid, KeyHash, MapStep;
      CacheKey(key);
      ret := FindCached(key);
    }

    /** get: the value goes to the caller's buffer, which a miss leaves alone. */
    method GetCached(ghost key: IntPair, value: array<byte>) returns (ret: int)
      requires Valid() && hashKey == KeyHash(key) && value !in Repr() && value.Length == size
      modifies ca.Repr(), this`entries, value
      ensures Valid() && hashKey == old(hashKey)
      ensures (entries, if ret == FOUND then Value(value[..]) else Missing) ==
        MapStep(old(entries), ca.Lim(), MapOp.Get(key))
      ensures ret != FOUND ==> value[..] == old(value[..])
    {
      hide CacheAccess.Valid, CacheAccess.View, KeyHash, Hashed, Touch, Drop, Lookup, AllOfSize;
      LookupSize(entries, ca.Lim(), key, size);
      StepKeepsSize(entries, ca.Lim(), MapOp.Get(key), size);
      var dataLen, dirty;
      SignedLength(size);
      ret, dataLen, dirty := ca.Get(hashKey, value, size);
      if ret == FOUND {
        assert value[..] == Lookup(entries, key).value.value;
      }
      entries := Touch(entries, key);
    }

    method Get(key: IntPair, value: array<byte>) returns (ret: int)
      requires Valid() && value !in Repr() && value.Length == size
      modifies Repr(), value
      ensures Valid()
      ensures (entries, if ret == FOUND then Value(value[..]) else Missing) ==
        MapStep(old(entries), ca.Lim(), MapOp.Get(key))
      ensures ret != FOUND ==> value[..] == old(value[..])
    {
      hide Valid, KeyHash, MapStep;
      CacheKey(key);
      ret := GetCached(key, value);
    }

    method InsertCached(ghost key: IntPair, value: seq<byte>) returns (ret: int)
      requires Valid() && hashKey == KeyHash(key) && |value| == size
      modifies ca.Repr(), this`entries
      ensures Valid() && hashKey == old(hashKey)
      ensures (entries, if ret == 0 then Done else Full) ==
        MapStep(old(entries), ca.Lim(), MapOp.Insert(key, value, size))
    {
      hide CacheAccess.Valid, CacheAccess.View, KeyHash, Hashed, Touch, Drop, Lookup, AllOfSize, RecencyMaps.Set, Fits;
      HashedSet(entries, ca.Lim(), key, value, size, true);
      HashedFits(entries, ca.Lim(), key, size);
      StepKeepsSize(entries, ca.Lim(), MapOp.Insert(key, value, size), size);
      ret := ca.Set(hashKey, value, true);
      entries := RecencyMaps.Set(entries, ca.Lim(), key, value, size, true);
    }

    method Insert(key: IntPair, value: seq<byte>) returns (ret: int)
      requires Valid() && |value| == size
      modifies Repr()
      ensures Valid()
      ensures (entries, if ret == 0 then Done else Full) ==
        MapStep(old(entries), ca.Lim(), MapOp.Insert(key, value, size))
    {
      hide Valid, KeyHash, MapStep;
      CacheKey(key);
      ret := InsertCached(key, value);
    }

    method EraseCached(ghost key: IntPair) returns (ret: int)
      requires Valid() && hashKey == KeyHash(key)
      modifies ca.Repr(), this`entries
      ensures Valid() && hashKey == old(hashKey)
      ensures (entries, if ret == 0 then Done else Missing) == MapStep(old(entries), ca.Lim(), MapOp.Erase(key))
    {
      hide CacheAccess.Valid, CacheAccess.View, KeyHash, Hashed, Touch, Drop, Lookup, AllOfSize;
      LookupSize(entries, ca.Lim(), key, size);
      StepKeepsSize(entries, ca.Lim(), MapOp.Erase(key), size);
      ret := ca.Del(hashKey);
      entries := Drop(entries, key);
    }

    method Erase(key: IntPair) returns (ret: int)
      requires Valid()
      modifies Repr()
      ensures Valid()
      ensures (entries, if ret == 0 then Done else Missing) == MapStep(old(entries), ca.Lim(), MapOp.Erase(key))
    {
      hide Valid, KeyHash, MapStep;
      CacheKey(key);
      ret := EraseCached(key);
    }
  }

  /** Whether a map whose values take size bytes accepts the operation. */
  ghost predicate OfSize(op: MapOp<IntPair, seq<byte>>, size: nat) {
    op.Insert? ==> op.len == |op.value| == size
  }

  method Perform(m: ShmMap, op: MapOp<IntPair, seq<byte>>, buf: array<byte>) returns (r: MapResult<seq<byte>>)
    requires m.Valid() && buf !in m.Repr() && buf.Length == m.size && OfSize(op, m.size)
    modifies m.Repr(), buf
    ensures m.Valid()
    ensures (m.entries, r) == MapStep(old(m.entries), m.ca.Lim(), op)
  {
    hide ShmMap.Valid, MapStep;
    match op
    case Find(k) =>
      var ret := m.Find(k);
      r := if ret == FOUND then Present else Missing;
    case Get(k) =>
      var ret := m.Get(k, buf);
      r := if ret == FOUND then Value(buf[..]) else Missing;
    case Insert(k, v, len) =>
      var ret := m.Insert(k, v);
      r := if ret == 0 then Done else Full;
    case Erase(k) =>
      var ret := m.Erase(k);
      r := if ret == 0 then Done else Missing;
  }

  lemma MapRunStep<K, V>(es: seq<Entry<K, V>>, lim: Limits, ops: seq<MapOp<K, V>>, es': seq<Entry<K, V>>,
                         r: MapResult<V>)
    requires ops != [] && (es', r) == MapStep(es, lim, ops[0])
    ensures MapRun(es, lim, ops) == (MapRun(es', lim, ops[1..]).0, [r] + MapRun(es', lim, ops[1..]).1)
  {
  }

  /** Any sequence of calls gives the results of a bounded map keyed by the keys themselves. */
  method PerformAll(m: ShmMap, ops: seq<MapOp<IntPair, seq<byte>>>) returns (rs: seq<MapResult<seq<byte>>>)
    requires m.Valid() && forall i :: 0 <= i < |ops| ==> OfSize(ops[i], m.size)
    modifies m.Repr()
    ensures m.Valid()
    ensures (m.entries, rs) == MapRun(old(m.entries), m.ca.Lim(), ops)
  {
    hide ShmMap.Valid, MapStep, MapRun;
    var buf := new byte[m.size];
    rs := [];
    ghost var goal := MapRun(m.entries, m.ca.Lim(), ops);
    assert ops[0..] == ops;
    for i := 0 to |ops|
      invariant m.Valid()
      invariant goal.0 == MapRun(m.entries, m.ca.Lim(), ops[i..]).0
      invariant goal.1 == rs + MapRun(m.entries, m.ca.Lim(), ops[i..]).1
    {
      ghost var was := m.entries;
      var r := Perform(m, ops[i], buf);
      MapRunStep(was, m.ca.Lim(), ops[i..], m.entries, r);
      assert ops[i..][1..] == ops[i + 1..];
      ghost var rest := MapRun(m.entries, m.ca.Lim(), ops[i + 1..]).1;
      assert rs + ([r] + rest) == (rs + [r]) + rest;
      rs := rs + [r];
    }
    assert ops[|ops|..] == [] && rs + [] == rs;
    MapRunEmpty(m.entries, m.ca.Lim());
  }

  lemma MapRunEmpty<K, V>(es: seq<Entry<K, V>>, lim: Limits)
    ensures MapRun(es, lim, []) == (es, [])
  {
  }

  /** The list with its part from m on moved to the front. */
  ghost function Rotated<T>(s: seq<T>, m: nat): (r: seq<T>)
    requires m <= |s|
    ensures |r| == |s|
  {
    s[m..] + s[..m]
  }

  lemma RotatedKeys(es: seq<CacheEntry>, m: nat)
    requires DistinctKeys(es) && m <= |es|
    ensures DistinctKeys(Rotated(es, m))
  {
    var v := Rotated(es, m);
    assert forall i :: 0 <= i < |es| ==> v[i] == es[if i < |es| - m then m + i else i + m - |es|];
  }

  /** A hit on the oldest entry turns the recency list by one. */
  lemma RotateStep(es: seq<CacheEntry>, m: nat)
    requires DistinctKeys(es) && 0 < m <= |es|
    ensures var v := Rotated(es, m);
      && v[|v| - 1] == es[m - 1] && Lookup(v, es[m - 1].key) == Some(es[m - 1])
      && Touch(v, es[m - 1].key) == Rotated(es, m - 1)
  {
    hide DistinctKeys, IndexOf;
    var v := Rotated(es, m);
    RotatedKeys(es, m);
    IndexOfAt(v, |v| - 1);
    assert ToFront(v, |v| - 1) == Rotated(es, m - 1);
  }

  /**
   What the buffer of an iterator shows at entry m: a value that is too long leaves it as it was,
   a shorter one changes the front.
   */
  ghost function Shown(es: seq<CacheEntry>, m: nat, data: seq<byte>): (r: seq<byte>)
    requires m <= |es|
    ensures |r| == |data|
    decreases |es| - m
  {
    if m == |es| then data
    else if |es[m].value| > |data| then Shown(es, m + 1, data)
    else Overwrite(Shown(es, m + 1, data), 0, es[m].value)
  }

  /** A value of the size of the buffer is shown as it is. */
  lemma ShownInFull(es: seq<CacheEntry>, m: nat, data: seq<byte>)
    requires m < |es| && |es[m].value| == |data|
    ensures Shown(es, m, data) == es[m].value
  {
  }

  class ShmMapIterator {
    var ca: CacheAccess?
    var firstKey: Key
    var curKey: Key
    const curData: array<byte>
    var curFlag: int

    constructor (valueSize: Positive)
      ensures ca == null && curFlag == -1 && fresh(curData) && curData.Length == valueSize
    {
      ca, curFlag := null, -1;
      firstKey, curKey := ZERO_KEY, ZERO_KEY;
      curData := new byte[valueSize](_ => 0);
    }

    /**
     The iterator has come to entry m of es, the entries from m on being in front by now;
     data is what the buffer held before.
     */
    ghost predicate At(c: CacheAccess, es: seq<CacheEntry>, m: nat, data: seq<byte>)
      requires m < |es|
      reads this, curData, c, c.Repr()
    {
      && ca == c && this !in c.Repr() && curData !in c.Repr() && c.Valid()
      && DistinctKeys(es) && Recovery.Sized(es) && |data| == curData.Length < TWO_31
      && c.View() == Rotated(es, m)
      && firstKey == es[|es| - 1].key && curKey == es[m].key
      && curFlag == (if es[m].len <= |data| then FOUND else ERROR_INVALID_PARAM)
      && curData[..] == Shown(es, m, data)
    }

    /** Gets the entry in front of those seen; the hit moves it to the front. */
    method Fetch(c: CacheAccess, ghost es: seq<CacheEntry>, ghost m: nat, ghost data: seq<byte>)
      requires m < |es| && ca == c && this !in c.Repr() && curData !in c.Repr() && c.Valid()
      requires DistinctKeys(es) && Recovery.Sized(es) && |data| == curData.Length < TWO_31
      requires c.View() == Rotated(es, m + 1)
      requires firstKey == es[|es| - 1].key && curKey == es[m].key && curData[..] == Shown(es, m + 1, data)
      modifies this`curFlag, curData, c.cache.Repr()
      ensures At(c, es, m, data)
    {
      hide CacheAccess.Valid, CacheAccess.View, DistinctKeys, Rotated, Touch, Lookup;
      RotateStep(es, m + 1);
      var dataLen, dirty;
      SignedLength(curData.Length);
      curFlag, dataLen, dirty := c.Get(curKey, curData, curData.Length);
    }

    /** init_begin: the oldest entry comes first. */
    method InitBegin(c: CacheAccess)
      requires c.Valid() && this !in c.Repr() && curData !in c.Repr() && curData.Length < TWO_31
      modifies this, curData, c.cache.Repr()
      ensures c.Valid()
      ensures old(c.View()) == [] ==> ca == null && c.View() == []
      ensures old(c.View()) != [] ==> At(c, old(c.View()), |old(c.View())| - 1, old(curData[..]))
    {
      hide CacheAccess.Valid, CacheAccess.View, DistinctKeys, Rotated, Touch, Lookup;
      ghost var es, data := c.View(), curData[..];
      ca := c;
      var dataLen, dirty;
      curFlag, firstKey, dataLen, dirty := c.OldestKey();
      if curFlag != 0 {
        ca := null;
        return;
      }
      c.EntriesSized();
      RotateAll(es);
      curKey := firstKey;
      Fetch(c, es, |es| - 1, data);
    }

    /** operator++: on to the entry that is oldest now, unless that is where the walk began. */
    method Next(c: CacheAccess, ghost es: seq<CacheEntry>, ghost m: nat, ghost data: seq<byte>)
      requires m < |es| && At(c, es, m, data)
      modifies this, curData, c.cache.Repr()
      ensures c.Valid()
      ensures m == 0 ==> ca == null && c.View() == es
      ensures m > 0 ==> At(c, es, m - 1, data)
    {
      hide CacheAccess.Valid, CacheAccess.View, Rotated, Touch, Lookup, Shown, Recovery.Sized;
      var dataLen, dirty;
      if m == 0 {
        RotateAll(es);
      } else {
        RotateStep(es, m);
      }
      curFlag, curKey, dataLen, dirty := c.OldestKey();
      if curFlag != 0 || firstKey == curKey {
        ca := null;
      } else {
        Fetch(c, es, m - 1, data);
      }
    }

    /** extract: the value, if the iterator has one; here with its key. */
    method Extract(c: CacheAccess, ghost es: seq<CacheEntry>, ghost m: nat, ghost data: seq<byte>)
      returns (visit: (Key, Option<seq<byte>>))
      requires m < |es| && At(c, es, m, data)
      ensures visit == VisitAt(es, m, data)
    {
      hide CacheAccess.Valid, CacheAccess.View, Rotated, Shown;
      visit := (curKey, if curFlag == 0 then Some(curData[..]) else None);
    }

    /** The body of a loop over the map. */
    method VisitAndNext(c: CacheAccess, ghost es: seq<CacheEntry>, ghost m: nat, ghost data: seq<byte>)
      returns (visit: (Key, Option<seq<byte>>))
      requires m < |es| && At(c, es, m, data)
      modifies this, curData, c.cache.Repr()
      ensures visit == VisitAt(es, m, data) && c.Valid()
      ensures m == 0 ==> ca == null && c.View() == es
      ensures m > 0 ==> At(c, es, m - 1, data)
    {
      hide VisitAt, CacheAccess.Valid, CacheAccess.View, DistinctKeys, Rotated, Shown, Recovery.Sized;
      visit := Extract(c, es, m, data);
      Next(c, es, m, data);
    }
  }

  lemma RotateAll(es: seq<CacheEntry>)
    ensures Rotated(es, |es|) == es && Rotated(es, 0) == es
  {
  }

  ghost function VisitAt(es: seq<CacheEntry>, i: nat, data: seq<byte>): (Key, Option<seq<byte>>)
    requires i < |es|
  {
    (es[i].key, if es[i].len <= |data| then Some(Shown(es, i, data)) else None)
  }

  ghost function Visits(es: seq<CacheEntry>, data: seq<byte>): (r: seq<(Key, Option<seq<byte>>)>)
    ensures |r| == |es|
  {
    seq(|es|, i requires 0 <= i < |es| => VisitAt(es, i, data))
  }

  lemma VisitsStep(es: seq<CacheEntry>, data: seq<byte>, m: nat)
    requires m < |es|
    ensures Reverse(Visits(es, data)[m..]) == Reverse(Visits(es, data)[m + 1..]) + [VisitAt(es, m, data)]
  {
    hide VisitAt;
    assert Visits(es, data)[m..][1..] == Visits(es, data)[m + 1..];
  }

  function Pairs(es: seq<CacheEntry>): (r: seq<(Key, Option<seq<byte>>)>)
    ensures |r| == |es|
  {
    seq(|es|, i requires 0 <= i < |es| => (es[i].key, Some(es[i].value)))
  }

  /** If all values have the size of the buffer, each is seen as it is. */
  lemma VisitsArePairs(es: seq<CacheEntry>, data: seq<byte>)
    requires AllOfSize(es, |data|)
    ensures Visits(es, data) == Pairs(es)
  {
    hide Shown;
    forall i | 0 <= i < |es| ensures VisitAt(es, i, data) == Pairs(es)[i] {
      ShownInFull(es, i, data);
    }
  }

  lemma VisitsEnds(es: seq<CacheEntry>, data: seq<byte>)
    ensures Reverse(Visits(es, data)[|es|..]) == [] && Visits(es, data)[0..] == Visits(es, data)
  {
    assert Visits(es, data)[|es|..] == [];
  }

  /** The loop, from where begin() leaves the iterator. */
  method Walk(it: ShmMapIterator, c: CacheAccess, ghost es: seq<CacheEntry>, ghost data: seq<byte>)
    returns (seen: seq<(Key, Option<seq<byte>>)>)
    requires c.Valid() && if es == [] then it.ca == null && c.View() == es else it.At(c, es, |es| - 1, data)
    modifies it, it.curData, c.cache.Repr()
    ensures c.Valid() && c.View() == es && seen == Reverse(Visits(es, data))
  {
    hide CacheAccess.Valid, CacheAccess.View, Visits, VisitAt, Reverse, DistinctKeys, Rotated, Shown, Recovery.Sized;
    seen := [];
    ghost var m: int := |es| - 1;
    VisitsEnds(es, data);
    while it.ca != null
      invariant -1 <= m < |es| && c.Valid()
      invariant m < 0 ==> it.ca == null && c.View() == es
      invariant m >= 0 ==> it.At(c, es, m, data)
      invariant seen == Reverse(Visits(es, data)[m + 1..])
      decreases m
    {
      VisitsStep(es, data, m);
      var visit := it.VisitAndNext(c, es, m, data);
      seen := seen + [visit];
      m := m - 1;
    }
  }

  /** The loop from begin() to end(): every entry once, from the oldest to the newest, and the order is as before. */
  method ForEach(c: CacheAccess, valueSize: Positive)
    returns (seen: seq<(Key, Option<seq<byte>>)>, ghost data: seq<byte>)
    requires c.Valid()
    modifies c.cache.Repr()
    ensures c.Valid() && c.View() == old(c.View())
    ensures |data| == valueSize && seen == Reverse(Visits(c.View(), data))
    ensures AllOfSize(c.View(), valueSize) ==> seen == Reverse(Pairs(c.View()))
  {
    hide CacheAccess.Valid, CacheAccess.View, AllOfSize, Pairs, Visits, Reverse, DistinctKeys, Rotated, Shown,
      Recovery.Sized;
    ghost var es := c.View();
    var it := new ShmMapIterator(valueSize);
    assert it !in c.Repr() && it.curData !in c.Repr();
    assert c.Valid() && c.View() == es;
    data := it.curData[..];
    it.InitBegin(c);
    seen := Walk(it, c, es, data);
    if AllOfSize(es, valueSize) {
      VisitsArePairs(es, data);
    }
  }
}
