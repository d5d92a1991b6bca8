/** The recorders: each timing is added to the record of its key in a bounded shared-memory map. */
module Recorders {
  import opened Options
  import opened Bytes
  import opened Lists
  import opened ChunkAllocators
  import opened RecencyMaps
  import opened HashedKeys
  import opened Statistics

  /** The time between two microsecond clocks, in seconds; the subtraction wraps around. */
  function Elapsed(begin: u64, end: u64): (d: real)
    ensures 0.0 <= d < DBL_MAX
    ensures begin <= end ==> d * 1000000.0 == (end - begin) as real
  {
    ((end - begin) % TWO_64) as real * 0.000001
  }

  datatype Event<K> = Event(key: K, begin: u64, end: u64) {
    function Time(): real {
      Elapsed(begin, end)
    }
  }

  /** cdb_ins_dml_add, cdb_ins_conn_add and cdb_ins_client_dml_add: look the key up, then insert or update. */
  ghost function Record<K>(es: seq<Entry<K, Stat>>, lim: Limits, e: Event<K>): seq<Entry<K, Stat>> {
    var (es1, found) := MapStep(es, lim, Find(e.key));
    if found == Missing then
      MapStep(es1, lim, Insert(e.key, Added(EMPTY_STAT, e.Time()), RECORD_LEN)).0
    else
      var (es2, got) := MapStep(es1, lim, Get(e.key));
      if got.Value? then MapStep(es2, lim, Insert(e.key, Added(got.value, e.Time()), RECORD_LEN)).0 else es2
  }

  ghost function RecordAll<K>(lim: Limits, events: seq<Event<K>>): seq<Entry<K, Stat>> {
    if events == [] then [] else Record(RecordAll(lim, events[..|events| - 1]), lim, events[|events| - 1])
  }

  /** The times of a key, in order. */
  ghost function TimesOf<K>(events: seq<Event<K>>, k: K): seq<real> {
    if events == [] then []
    else
      var front, e := TimesOf(events[..|events| - 1], k), events[|events| - 1];
      if e.key == k then front + [e.Time()] else front
  }

  /** The keys in the order of their first events. */
  ghost function FirstSeen<K>(events: seq<Event<K>>): (r: seq<K>)
    ensures Distinct(r)
  {
    if events == [] then []
    else
      var front, k := FirstSeen(events[..|events| - 1]), events[|events| - 1].key;
      if k in front then front else front + [k]
  }

  /** How many records the map has room for. */
  ghost function Capacity(lim: Limits): nat {
    var n := lim.chunks / ChunkNum(RECORD_LEN, lim.chunkSize);
    if n < lim.nodes then n else lim.nodes
  }

  /** The keys that are recorded: those seen first, as far as there is room. */
  ghost function Recorded<K>(events: seq<Event<K>>, lim: Limits): seq<K> {
    var seen := FirstSeen(events);
    if |seen| <= Capacity(lim) then seen else seen[..Capacity(lim)]
  }

  function StatOf<K>(e: Option<Entry<K, Stat>>): Stat {
    if e.Some? then e.value.value else EMPTY_STAT
  }

  /** Recording stores the new statistics of its key, if there is room, and changes no other. */
  lemma RecordLookup<K>(es: seq<Entry<K, Stat>>, lim: Limits, e: Event<K>, j: K)
    requires DistinctKeys(es)
    ensures Lookup(Record(es, lim, e), j) ==
      if j == e.key && Fits(es, lim, e.key, RECORD_LEN) then
        Some(Entry(j, Added(StatOf(Lookup(es, j)), e.Time()), RECORD_LEN, true))
      else Lookup(es, j)
  {
    hide Touch, Lookup, Set, Fits, DistinctKeys, Added;
    var k := e.key;
    var es1 := Touch(es, k);
    TouchFits(es, lim, k, RECORD_LEN);
    LookupAfter(es, lim, k, EMPTY_STAT, RECORD_LEN, true, j);
    if Lookup(es, k).None? {
      LookupAfter(es1, lim, k, Added(EMPTY_STAT, e.Time()), RECORD_LEN, true, j);
    } else {
      TouchFits(es1, lim, k, RECORD_LEN);
      LookupAfter(es1, lim, k, EMPTY_STAT, RECORD_LEN, true, j);
      LookupAfter(Touch(es1, k), lim, k, Added(Lookup(es, k).value.value, e.Time()), RECORD_LEN, true, j);
    }
  }

  ghost predicate AllRecords<K>(es: seq<Entry<K, Stat>>) {
    forall i :: 0 <= i < |es| ==> es[i].len == RECORD_LEN
  }

  lemma RecordKeeps<K>(es: seq<Entry<K, Stat>>, lim: Limits, e: Event<K>)
    requires WithinLimits(es, lim) && AllRecords(es)
    ensures WithinLimits(Record(es, lim, e), lim) && AllRecords(Record(es, lim, e))
    ensures |Record(es, lim, e)| ==
      |es| + (if Lookup(es, e.key).None? && Fits(es, lim, e.key, RECORD_LEN) then 1 else 0)
  {
    hide WithinLimits, Touch, Lookup, Set, Fits, DistinctKeys, Added;
    var k := e.key;
    var es1 := Touch(es, k);
    SetKeepsRecords(es, lim, k, EMPTY_STAT);
    TouchFits(es, lim, k, RECORD_LEN);
    if Lookup(es, k).None? {
      SetKeepsRecords(es1, lim, k, Added(EMPTY_STAT, e.Time()));
    } else {
      SetKeepsRecords(es1, lim, k, EMPTY_STAT);
      TouchFits(es1, lim, k, RECORD_LEN);
      SetKeepsRecords(Touch(es1, k), lim, k, Added(Lookup(es, k).value.value, e.Time()));
    }
  }

  lemma SetKeepsRecords<K>(es: seq<Entry<K, Stat>>, lim: Limits, k: K, v: Stat)
    requires WithinLimits(es, lim) && AllRecords(es)
    ensures WithinLimits(Touch(es, k), lim) && AllRecords(Touch(es, k)) && DistinctKeys(es)
    ensures var r := Set(es, lim, k, v, RECORD_LEN, true);
      WithinLimits(r, lim) && AllRecords(r)
        && |r| == |es| + (if Lookup(es, k).None? && Fits(es, lim, k, RECORD_LEN) then 1 else 0)
  {
    hide Used, Fits;
    StepsStayWithin(es, lim, k, v, RECORD_LEN, true);
  }

  lemma {:induction false} UsedByRecords<K>(es: seq<Entry<K, Stat>>, size: Positive)
    requires AllRecords(es)
    ensures Used(es, size) == |es| * ChunkNum(RECORD_LEN, size)
  {
    hide ChunkNum;
    if es != [] {
      UsedByRecords(es[1..], size);
      assert |es| * ChunkNum(RECORD_LEN, size) == (|es| - 1) * ChunkNum(RECORD_LEN, size) + ChunkNum(RECORD_LEN, size);
    }
  }

  lemma RoomFor(n: nat, chunks: nat, c: int)
    requires c > 0
    ensures n * c + c <= chunks <==> n < chunks / c
  {
    if n < chunks / c {
      assert (n + 1) * c <= chunks / c * c;
    } else {
      assert (n + 1) * c >= (chunks / c + 1) * c;
    }
  }

  /** An old key always fits again; a new one as long as the capacity is not reached. */
  lemma RecordFits<K>(es: seq<Entry<K, Stat>>, lim: Limits, k: K)
    requires WithinLimits(es, lim) && AllRecords(es)
    ensures Fits(es, lim, k, RECORD_LEN) <==> (Lookup(es, k).Some? || |es| < Capacity(lim))
    ensures |es| <= Capacity(lim)
  {
    hide ChunkNum, Used;
    var c := ChunkNum(RECORD_LEN, lim.chunkSize);
    assert c > 0 by { SomeChunks(lim.chunkSize); }
    UsedByRecords(es, lim.chunkSize);
    RoomFor(|es|, lim.chunks, c);
    if |es| > 0 {
      RoomFor(|es| - 1, lim.chunks, c);
      assert |es| * c == (|es| - 1) * c + c;
    }
  }

  lemma SomeChunks(size: Positive)
    ensures ChunkNum(RECORD_LEN, size) > 0
  {
  }

  /** What the map must hold after the events. */
  ghost predicate Exact<K(!new)>(es: seq<Entry<K, Stat>>, lim: Limits, events: seq<Event<K>>) {
    && WithinLimits(es, lim) && AllRecords(es)
    && |es| == |Recorded(events, lim)|
    && forall k :: Lookup(es, k) == Expected(events, lim, k)
  }

  ghost function Expected<K>(events: seq<Event<K>>, lim: Limits, k: K): Option<Entry<K, Stat>> {
    if k in Recorded(events, lim) then Some(Entry(k, Summary(TimesOf(events, k)), RECORD_LEN, true)) else None
  }

  /** One more event: its key is recorded if it was already, or if there is room for a new one. */
  lemma RecordedStep<K>(events: seq<Event<K>>, lim: Limits, e: Event<K>, j: K)
    ensures var now, was := Recorded(events + [e], lim), Recorded(events, lim);
      && (j in now <==> j in was || (j == e.key && |was| < Capacity(lim)))
      && |now| == |was| + (if e.key !in was && |was| < Capacity(lim) then 1 else 0)
  {
    hide Capacity;
    var all := events + [e];
    assert all[..|all| - 1] == events;
    var seen, cap := FirstSeen(events), Capacity(lim);
    if |seen| >= cap {
      assert FirstSeen(all)[..cap] == seen[..cap];
      assert |seen| == cap ==> seen[..cap] == seen;
    }
  }

  lemma TimesStep<K>(events: seq<Event<K>>, e: Event<K>, j: K)
    ensures TimesOf(events + [e], j) == if j == e.key then TimesOf(events, j) + [e.Time()] else TimesOf(events, j)
  {
    assert (events + [e])[..|events|] == events;
  }

  lemma {:induction false} NotRecordedBefore<K>(events: seq<Event<K>>, lim: Limits, k: K)
    requires k !in FirstSeen(events)
    ensures TimesOf(events, k) == []
  {
    if events != [] {
      NotRecordedBefore(events[..|events| - 1], lim, k);
    }
  }

  lemma NotSeen<K>(events: seq<Event<K>>, lim: Limits, k: K)
    requires k !in Recorded(events, lim) && |Recorded(events, lim)| < Capacity(lim)
    ensures TimesOf(events, k) == []
  {
    NotRecordedBefore(events, lim, k);
  }

  lemma ExactStep<K(!new)>(es: seq<Entry<K, Stat>>, lim: Limits, events: seq<Event<K>>, e: Event<K>)
    requires Exact(es, lim, events)
    ensures Exact(Record(es, lim, e), lim, events + [e])
  {
    hide Record, Lookup, Fits, Recorded, TimesOf, Summary, Added, WithinLimits, AllRecords, Capacity;
    var r := Record(es, lim, e);
    RecordKeeps(es, lim, e);
    RecordFits(es, lim, e.key);
    RecordedStep(events, lim, e, e.key);
    assert Lookup(es, e.key) == Expected(events, lim, e.key);
    forall k ensures Lookup(r, k) == Expected(events + [e], lim, k) {
      ExactKey(es, lim, events, e, k);
    }
  }

  lemma ExactKey<K(!new)>(es: seq<Entry<K, Stat>>, lim: Limits, events: seq<Event<K>>, e: Event<K>, k: K)
    requires Exact(es, lim, events)
    ensures Lookup(Record(es, lim, e), k) == Expected(events + [e], lim, k)
  {
    hide Record, Lookup, Fits, Recorded, TimesOf, Summary, Added, AllRecords, Capacity;
    RecordFits(es, lim, e.key);
    RecordLookup(es, lim, e, k);
    RecordedStep(events, lim, e, k);
    TimesStep(events, e, k);
    AddedIsSummary(TimesOf(events, k), e.Time());
    assert Lookup(es, k) == Expected(events, lim, k);
    if k == e.key && k !in Recorded(events, lim) && |Recorded(events, lim)| < Capacity(lim) {
      NotSeen(events, lim, k);
    }
  }

  /**
   However many keys there are, the map holds exactly the keys seen first, as many as there is room for,
   and each of them with the statistics of all its own times.
   */
  lemma {:induction false} RecordsAreExact<K(!new)>(lim: Limits, events: seq<Event<K>>)
    ensures Exact(RecordAll(lim, events), lim, events)
  {
    hide Record, Fits, TimesOf, Summary;
    if events != [] {
      var front := events[..|events| - 1];
      RecordsAreExact(lim, front);
      ExactStep(RecordAll(lim, front), lim, front, events[|events| - 1]);
      assert front + [events[|events| - 1]] == events;
    }
  }

  lemma {:induction false} TimesBounded<K>(events: seq<Event<K>>, k: K)
    ensures forall d :: d in TimesOf(events, k) ==> 0.0 <= d < DBL_MAX
  {
    hide Elapsed;
    if events != [] {
      TimesBounded(events[..|events| - 1], k);
    }
  }

  /** The least and the greatest on record are times of the key, and bound all of them. */
  lemma ExtremesAreTimes<K>(events: seq<Event<K>>, k: K)
    requires TimesOf(events, k) != []
    ensures var ds, s := TimesOf(events, k), Summary(TimesOf(events, k));
      s.min in ds && s.max in ds && forall d :: d in ds ==> s.min <= d <= s.max
  {
    hide CountIn, Sum, TimesOf;
    TimesBounded(events, k);
    assert TimesOf(events, k)[0] in TimesOf(events, k);
  }

  lemma RecordAllSnoc<K>(lim: Limits, events: seq<Event<K>>, e: Event<K>)
    ensures RecordAll(lim, events + [e]) == Record(RecordAll(lim, events), lim, e)
  {
    hide Record;
    assert (events + [e])[..|events|] == events;
  }

  lemma RecordNone<K>(lim: Limits)
    ensures RecordAll<K>(lim, []) == []
  {
  }
}
