/**
 The recorders on the real map: a record is stored as the bytes of its struct, the key and then the statistics.
 How a computer represents the statistics in 64 bytes is a parameter.
 */
module StatMaps {
  import opened Options
  import opened Bytes
  import opened Lists
  import opened ChunkAllocators
  import opened RecencyMaps
  import opened HashMaps
  import opened CacheAccesses
  import opened HashedKeys
  import opened ShmMaps
  import opened Statistics
  import opened Recorders

  const STAT_LEN := 64

  type StatBytes = s: seq<byte> | |s| == STAT_LEN witness seq(STAT_LEN, _ => 0)

  /** How statistics are laid out in memory and read again. */
  datatype Layout = Layout(pack: Stat -> StatBytes, unpack: StatBytes -> Stat) {
    ghost predicate Exact(s: Stat) {
      unpack(pack(s)) == s
    }
  }

  type StatEntry = Entry<IntPair, Stat>

  function RecordBytes(y: Layout, k: IntPair, s: Stat): (r: seq<byte>)
    ensures |r| == RECORD_LEN && r[..8] == KeyBytes(k) && r[8..] == y.pack(s)
  {
    KeyBytes(k) + y.pack(s)
  }

  function PackedEntry(y: Layout, e: StatEntry): MapEntry {
    Entry(e.key, RecordBytes(y, e.key, e.value), e.len, e.dirty)
  }

  /** The entries as they are stored. */
  function Packed(y: Layout, es: seq<StatEntry>): (r: seq<MapEntry>)
    ensures |r| == |es|
  {
    seq(|es|, i requires 0 <= i < |es| => PackedEntry(y, es[i]))
  }

  lemma {:induction false} PackedIndex(y: Layout, es: seq<StatEntry>, k: IntPair)
    ensures IndexOf(Packed(y, es), k) == IndexOf(es, k)
  {
    hide RecordBytes;
    if es != [] {
      assert Packed(y, es)[1..] == Packed(y, es[1..]);
      PackedIndex(y, es[1..], k);
    }
  }

  lemma {:induction false} PackedUsed(y: Layout, es: seq<StatEntry>, size: Positive)
    ensures Used(Packed(y, es), size) == Used(es, size)
  {
    hide RecordBytes;
    if es != [] {
      assert Packed(y, es)[1..] == Packed(y, es[1..]);
      PackedUsed(y, es[1..], size);
    }
  }

  lemma PackedParts(y: Layout, es: seq<StatEntry>, i: nat)
    requires i < |es|
    ensures Packed(y, ToFront(es, i)) == ToFront(Packed(y, es), i)
    ensures Packed(y, Without(es, i)) == Without(Packed(y, es), i)
  {
    hide PackedEntry;
  }

  lemma PackedCons(y: Layout, e: StatEntry, es: seq<StatEntry>)
    ensures Packed(y, [e] + es) == [PackedEntry(y, e)] + Packed(y, es)
  {
    hide PackedEntry;
  }

  /** Looking a key up, and touching it, is the same on the stored entries. */
  lemma PackedGet(y: Layout, es: seq<StatEntry>, k: IntPair)
    ensures Touch(Packed(y, es), k) == Packed(y, Touch(es, k)) && Drop(Packed(y, es), k) == Packed(y, Drop(es, k))
    ensures Lookup(Packed(y, es), k) == match Lookup(es, k) case None => None case Some(e) => Some(PackedEntry(y, e))
  {
    hide IndexOf, Without, ToFront, PackedEntry;
    PackedIndex(y, es, k);
    var i := IndexOf(es, k);
    if i >= 0 {
      PackedParts(y, es, i);
    }
  }

  lemma PackedFits(y: Layout, es: seq<StatEntry>, lim: Limits, k: IntPair, len: nat)
    ensures Fits(Packed(y, es), lim, k, len) <==> Fits(es, lim, k, len)
  {
    hide Used, IndexOf, RecordBytes;
    PackedIndex(y, es, k);
    PackedUsed(y, es, lim.chunkSize);
  }

  /** And so is storing. */
  lemma PackedSet(y: Layout, es: seq<StatEntry>, lim: Limits, k: IntPair, s: Stat)
    ensures Set(Packed(y, es), lim, k, RecordBytes(y, k, s), RECORD_LEN, true) ==
      Packed(y, Set(es, lim, k, s, RECORD_LEN, true))
  {
    hide Fits, Touch, Drop, Lookup, Packed, RecordBytes;
    PackedGet(y, es, k);
    PackedFits(y, es, lim, k, RECORD_LEN);
    PackedCons(y, Entry(k, s, RECORD_LEN, true), Drop(es, k));
  }

  /** The statistics map of a segment. */
  class StatMap {
    const shm: ShmMap
    const layout: Layout

    /** The records; the map holds their bytes. */
    ghost var stats: seq<StatEntry>

    ghost predicate Valid()
      reads this, shm.Repr()
    {
      this !in shm.Repr() && shm.Valid() && shm.size == RECORD_LEN && shm.entries == Packed(layout, stats)
    }

    /** A segment after its reset. */
    constructor (c: CacheAccess, y: Layout)
      requires c.Valid() && c.dumpMin < 0 && c.View() == [] && LenOk(RECORD_LEN, c.Lim().chunkSize)
      ensures Valid() && shm.ca == c && layout == y && stats == [] && fresh(shm)
    {
      hide CacheAccess.Valid, CacheAccess.View, AllOfSize, Hashed, Packed;
      NothingStored(y);
      shm := new ShmMap(c, RECORD_LEN, []);
      layout, stats := y, [];
    }

    lemma Contents()
      requires Valid()
      ensures shm.ca.View() == Hashed(Packed(layout, stats))
    {
    }

    ghost function Lim(): Limits {
      shm.ca.Lim()
    }

    /** find, of the key that was cached. */
    method FindRecord(ghost key: IntPair) returns (rv: int)
      requires Valid() && shm.hashKey == KeyHash(key)
      modifies this`stats, shm`entries, shm.ca.Repr()
      ensures Valid() && shm.hashKey == old(shm.hashKey) && stats == Touch(old(stats), key)
      ensures rv == if Lookup(old(stats), key).Some? then 0 else 1
    {
      hide ShmMap.Valid, KeyHash, Touch, Lookup, Packed, PackedEntry;
      PackedGet(layout, stats, key);
      rv := shm.FindCached(key);
      stats := Touch(stats, key);
    }

    /** get: the bytes of the key in the record, and its statistics. */
    method GetRecord(ghost key: IntPair) returns (ret: int, keyBytes: seq<byte>, s: Stat)
      requires Valid() && shm.hashKey == KeyHash(key)
      requires Lookup(stats, key).Some? && layout.Exact(Lookup(stats, key).value.value)
      modifies this`stats, shm`entries, shm.ca.Repr()
      ensures Valid() && shm.hashKey == old(shm.hashKey) && stats == Touch(old(stats), key)
      ensures ret == 0 && keyBytes == KeyBytes(key) && s == Lookup(old(stats), key).value.value
    {
      hide ShmMap.Valid, KeyHash, Touch, Lookup, Packed, RecordBytes, KeyBytes;
      PackedGet(layout, stats, key);
      FoundKey(stats, key);
      var bytes := new byte[RECORD_LEN];
      ret := shm.GetCached(key, bytes);
      keyBytes, s := bytes[..8], layout.unpack(bytes[8..]);
      stats := Touch(stats, key);
    }

    /** insert. */
    method InsertRecord(ghost key: IntPair, keyBytes: seq<byte>, s: Stat) returns (ret: int)
      requires Valid() && shm.hashKey == KeyHash(key) && keyBytes == KeyBytes(key)
      modifies this`stats, shm`entries, shm.ca.Repr()
      ensures Valid() && shm.hashKey == old(shm.hashKey)
      ensures stats == RecencyMaps.Set(old(stats), Lim(), key, s, RECORD_LEN, true)
      ensures ret == 0 <==> Fits(old(stats), Lim(), key, RECORD_LEN)
    {
      hide ShmMap.Valid, KeyHash, RecencyMaps.Set, Fits, Packed, KeyBytes;
      PackedSet(layout, stats, Lim(), key, s);
      PackedFits(layout, stats, Lim(), key, RECORD_LEN);
      ret := shm.InsertCached(key, keyBytes + layout.pack(s));
      stats := RecencyMaps.Set(stats, Lim(), key, s, RECORD_LEN, true);
    }

    /** A record for a key that has none. */
    method NewRecord(key: IntPair, op: CommStat, diff: real)
      requires Valid() && shm.hashKey == KeyHash(key)
      requires op.timeBucket.Length == TIME_BUCKET_SIZE && op !in shm.Repr() && op.timeBucket !in shm.Repr()
      modifies this`stats, shm`entries, shm.ca.Repr(), op, op.timeBucket
      ensures Valid() && stats == RecencyMaps.Set(old(stats), Lim(), key, Added(EMPTY_STAT, diff), RECORD_LEN, true)
    {
      hide ShmMap.Valid, Packed, KeyHash, Added, RecencyMaps.Set, Fits, KeyBytes;
      op.Add(diff, true);
      var s := op.Store();
      var _ := InsertRecord(key, KeyBytes(key), s);
    }

    /** The update of a record that is there. */
    method UpdateRecord(ghost key: IntPair, diff: real)
      requires Valid() && shm.hashKey == KeyHash(key)
      requires Lookup(stats, key).Some? && layout.Exact(Lookup(stats, key).value.value)
      modifies this`stats, shm`entries, shm.ca.Repr()
      ensures Valid()
      ensures stats ==
        RecencyMaps.Set(Touch(old(stats), key), Lim(), key, Added(Lookup(old(stats), key).value.value, diff),
        RECORD_LEN, true)
    {
      hide ShmMap.Valid, Packed, KeyHash, Added, Touch, RecencyMaps.Set, Fits, Lookup, Layout.Exact, KeyBytes;
      var r, keyBytes, s := GetRecord(key);
      var t := Increment(s, diff);
      r := InsertRecord(key, keyBytes, t);
    }

    /**
     cdb_ins_dml_add, cdb_ins_conn_add and cdb_ins_client_dml_add: find, then insert a fresh record,
     or get, add and insert again.
     */
    method AddRecord(enabled: bool, key: IntPair, op: CommStat, begin: u64, end: u64)
      requires Valid() && op.timeBucket.Length == TIME_BUCKET_SIZE && op !in shm.Repr() && op.timeBucket !in shm.Repr()
      requires Lookup(stats, key).Some? ==> layout.Exact(Lookup(stats, key).value.value)
      modifies this, shm.Repr(), op, op.timeBucket
      ensures Valid() && stats == if enabled then Record(old(stats), Lim(), Event(key, begin, end)) else old(stats)
    {
      hide ShmMap.Valid, Packed, KeyHash, Added, Elapsed, Touch, RecencyMaps.Set, Fits, Lookup, Layout.Exact, KeyBytes;
      if !enabled {
        return;
      }
      var diff := Elapsed(begin, end);
      CacheKey(key);
      TouchFinds(stats, key);
      var rv := FindRecord(key);
      if rv > 0 {
        NewRecord(key, op, diff);
      } else if rv == 0 {
        UpdateRecord(key, diff);
      }
    }

    method CacheKey(key: IntPair)
      requires Valid()
      modifies shm`hashKey
      ensures Valid() && shm.hashKey == KeyHash(key)
    {
      hide ShmMap.Valid, KeyHash, Packed;
      shm.CacheKey(key);
    }
  }

  /** One more time in the copy of a record. */
  method Increment(s: Stat, diff: real) returns (t: Stat)
    ensures t == Added(s, diff)
  {
    hide Added;
    var entry := new CommStat();
    entry.Load(s);
    entry.Add(diff, false);
    t := entry.Store();
  }

  lemma FoundKey(es: seq<StatEntry>, k: IntPair)
    ensures Lookup(es, k).Some? ==> Lookup(es, k).value.key == k
  {
  }

  lemma NothingStored(y: Layout)
    ensures Packed(y, []) == [] && Hashed<seq<byte>>([]) == [] && AllOfSize<IntPair>([], RECORD_LEN)
  {
  }

  lemma TouchFinds(es: seq<StatEntry>, k: IntPair)
    ensures Lookup(Touch(es, k), k) == Lookup(es, k)
  {
  }

  /** The layout represents all statistics that the events lead to. */
  ghost predicate Represents(y: Layout, events: seq<Event<IntPair>>) {
    forall i, k :: 0 <= i <= |events| ==> y.Exact(Summary(TimesOf(events[..i], k)))
  }

  /** What must be stored under the hash of a key. */
  ghost function StoredUnder(y: Layout, events: seq<Event<IntPair>>, lim: Limits, k: IntPair): Option<CacheEntry> {
    if k in Recorded(events, lim)
    then Some(Entry(KeyHash(k), RecordBytes(y, k, Summary(TimesOf(events, k))), RECORD_LEN, true))
    else None
  }

  /**
   The entries under the hashes of their keys, as bytes: exactly those seen first,
   each with the statistics of all its own times.
   */
  lemma StoredRecordsAreExact(y: Layout, lim: Limits, events: seq<Event<IntPair>>, k: IntPair)
    ensures var stored := Hashed(Packed(y, RecordAll(lim, events)));
      && |stored| == |Recorded(events, lim)|
      && Lookup(stored, KeyHash(k)) == StoredUnder(y, events, lim, k)
  {
    hide Record, RecordAll, KeyHash, Summary, TimesOf, Recorded, Hashed, Packed, Lookup, Touch, Drop, RecordBytes;
    var es := RecordAll(lim, events);
    RecordsAreExact(lim, events);
    PackedGet(y, es, k);
    HashedGet(Packed(y, es), lim, k);
    assert Lookup(es, k) == Expected(events, lim, k);
  }

  /** What is stored for a key before event i is represented. */
  lemma StoredIsExact(y: Layout, lim: Limits, events: seq<Event<IntPair>>, i: nat, k: IntPair)
    requires Represents(y, events) && i <= |events|
    ensures var found := Lookup(RecordAll(lim, events[..i]), k); found.Some? ==> y.Exact(found.value.value)
  {
    hide Record, RecordAll, Summary, TimesOf, Recorded, Lookup, Layout.Exact;
    RecordsAreExact(lim, events[..i]);
    assert Lookup(RecordAll(lim, events[..i]), k) == Expected(events[..i], lim, k);
  }

  /** A segment from its reset on: whatever is recorded, each stored record is exact. */
  method RecordEvents(c: CacheAccess, y: Layout, events: seq<Event<IntPair>>) returns (m: StatMap)
    requires c.Valid() && c.dumpMin < 0 && c.View() == [] && LenOk(RECORD_LEN, c.Lim().chunkSize)
    requires Represents(y, events)
    modifies c.Repr()
    ensures m.Valid() && m.shm.ca == c && |c.View()| == |Recorded(events, c.Lim())|
    ensures forall k :: Lookup(c.View(), KeyHash(k)) == StoredUnder(y, events, c.Lim(), k)
  {
    hide CacheAccess.Valid, KeyHash, Record, RecordAll, Recorded, TimesOf, Summary, Lookup, Represents, Layout.Exact,
      StoredUnder, Packed, Hashed, StatMap.Valid;
    m := new StatMap(c, y);
    ghost var lim := c.Lim();
    RecordNone<IntPair>(lim);
    assert events[..0] == [];
    for i := 0 to |events|
      invariant fresh(m) && fresh(m.shm) && m.shm.ca == c && m.layout == y && m.Valid()
      invariant m.stats == RecordAll(lim, events[..i])
    {
      var op := new CommStat();
      StoredIsExact(y, lim, events, i, events[i].key);
      m.AddRecord(true, events[i].key, op, events[i].begin, events[i].end);
      RecordAllSnoc(lim, events[..i], events[i]);
      assert events[..i] + [events[i]] == events[..i + 1];
    }
    assert events[..|events|] == events;
    m.Contents();
    forall k ensures Lookup(c.View(), KeyHash(k)) == StoredUnder(y, events, lim, k) {
      StoredRecordsAreExact(y, lim, events, k);
    }
    StoredRecordsAreExact(y, lim, events, IntPair(0, 0));
  }
}
