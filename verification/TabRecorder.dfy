/**
 The recorder of the table statistics on a bounded cache: records have different sizes, so a new one may be refused
 while others still fit, and a key that was refused tries again with its next time.
 */
module TabRecorders {
  import opened Options
  import opened ChunkAllocators
  import opened RecencyMaps
  import opened Statistics
  import opened TabDmls

  datatype TabEvent<K> = TabEvent(key: K, time: TypedTime)

  type KindStats = s: seq<Stat> | |s| == OP_TYPE_SIZE witness seq(OP_TYPE_SIZE, _ => ZERO_STAT)

  type TabEntry<K> = Entry<K, KindStats>

  ghost predicate InKinds<K(!new)>(events: seq<TabEvent<K>>) {
    forall i :: 0 <= i < |events| ==> events[i].time.kind < OP_TYPE_SIZE
  }

  function StatsOr(e: Option<KindStats>): KindStats {
    if e.Some? then e.value else seq(OP_TYPE_SIZE, _ => ZERO_STAT)
  }

  function ValueOf<K>(e: Option<TabEntry<K>>): Option<KindStats> {
    if e.Some? then Some(e.value.value) else None
  }

  /** cdb_tab_dml_add: look the key up, then insert a fresh record, or get, add and store again. */
  ghost function TabRecord<K>(es: seq<TabEntry<K>>, lim: Limits, size: K -> nat, e: TabEvent<K>): seq<TabEntry<K>>
    requires e.time.kind < OP_TYPE_SIZE
  {
    var found := ValueOf(Lookup(es, e.key));
    var es1 := Touch(es, e.key);
    var es2 := if found.Some? then Touch(es1, e.key) else es1;
    Set(es2, lim, e.key, NextStats(StatsOr(found), found.None?, e.time), size(e.key), true)
  }

  ghost function TabAll<K(!new)>(lim: Limits, size: K -> nat, events: seq<TabEvent<K>>): seq<TabEntry<K>>
    requires InKinds(events)
  {
    if events == [] then [] else TabRecord(TabAll(lim, size, events[..|events| - 1]), lim, size, events[|events| - 1])
  }

  /** The times of a key from the first one on that found room for a record. */
  ghost function Kept<K(!new)>(lim: Limits, size: K -> nat, events: seq<TabEvent<K>>, k: K): (r: seq<TypedTime>)
    requires InKinds(events)
    ensures forall t :: t in r ==> t.kind < OP_TYPE_SIZE
  {
    if events == [] then []
    else
      var front, e := events[..|events| - 1], events[|events| - 1];
      var before := Kept(lim, size, front, k);
      if e.key == k && (before != [] || Fits(TabAll(lim, size, front), lim, k, size(k)))
      then before + [e.time] else before
  }

  /** Recording stores the new statistics of its key, if there is room, and changes no other. */
  lemma TabRecordLookup<K>(es: seq<TabEntry<K>>, lim: Limits, size: K -> nat, e: TabEvent<K>, j: K)
    requires DistinctKeys(es) && e.time.kind < OP_TYPE_SIZE
    ensures Lookup(TabRecord(es, lim, size, e), j) ==
      if j == e.key && Fits(es, lim, e.key, size(e.key)) then
        var was := ValueOf(Lookup(es, j)); Some(Entry(j, NextStats(StatsOr(was), was.None?, e.time), size(j), true))
      else Lookup(es, j)
  {
    hide Touch, Lookup, Set, Fits, DistinctKeys, NextStats;
    var k, v := e.key, NextStats(StatsOr(ValueOf(Lookup(es, e.key))), Lookup(es, e.key).None?, e.time);
    var es1 := Touch(es, k);
    TouchFits(es, lim, k, size(k));
    LookupAfter(es, lim, k, v, size(k), true, j);
    LookupAfter(es1, lim, k, v, size(k), true, j);
    if Lookup(es, k).Some? {
      TouchFits(es1, lim, k, size(k));
      LookupAfter(Touch(es1, k), lim, k, v, size(k), true, j);
    }
  }

  /** Each record has the size of its key. */
  ghost predicate SizedBy<K>(es: seq<TabEntry<K>>, size: K -> nat) {
    forall i :: 0 <= i < |es| ==> es[i].len == size(es[i].key)
  }

  lemma SetKeepsSizes<K>(es: seq<TabEntry<K>>, lim: Limits, size: K -> nat, k: K, v: KindStats)
    requires WithinLimits(es, lim) && SizedBy(es, size)
    ensures WithinLimits(Touch(es, k), lim) && SizedBy(Touch(es, k), size) && DistinctKeys(es)
    ensures var r := Set(es, lim, k, v, size(k), true); WithinLimits(r, lim) && SizedBy(r, size)
  {
    hide Used, Fits;
    StepsStayWithin(es, lim, k, v, size(k), true);
  }

  lemma TabRecordKeeps<K>(es: seq<TabEntry<K>>, lim: Limits, size: K -> nat, e: TabEvent<K>)
    requires WithinLimits(es, lim) && SizedBy(es, size) && e.time.kind < OP_TYPE_SIZE
    ensures WithinLimits(TabRecord(es, lim, size, e), lim) && SizedBy(TabRecord(es, lim, size, e), size)
  {
    hide WithinLimits, SizedBy, Touch, Set, Fits, NextStats, Lookup;
    var k, found := e.key, ValueOf(Lookup(es, e.key));
    var v := NextStats(StatsOr(found), found.None?, e.time);
    SetKeepsSizes(es, lim, size, k, v);
    SetKeepsSizes(Touch(es, k), lim, size, k, v);
    SetKeepsSizes(Touch(Touch(es, k), k), lim, size, k, v);
  }

  /** A key that has a record always finds room for it again. */
  lemma RecordFitsAgain<K>(es: seq<TabEntry<K>>, lim: Limits, size: K -> nat, k: K)
    requires WithinLimits(es, lim) && SizedBy(es, size) && Lookup(es, k).Some?
    ensures Fits(es, lim, k, size(k))
  {
    hide Used, ChunkNum;
  }

  ghost function TabExpected<K(!new)>(lim: Limits, size: K -> nat, events: seq<TabEvent<K>>, k: K): Option<TabEntry<K>>
    requires InKinds(events)
  {
    var times := Kept(lim, size, events, k);
    if times == [] then None else Some(Entry(k, TabStats(times), size(k), true))
  }

  /**
   After any times of any keys, with records refused or not: a key that once found room has the statistics
   of all its times from then on, and a key that never did has none.
   */
  lemma {:induction false} TabRecordsAreExact<K(!new)>(lim: Limits, size: K -> nat, events: seq<TabEvent<K>>, k: K)
    requires InKinds(events)
    ensures var es := TabAll(lim, size, events);
      WithinLimits(es, lim) && SizedBy(es, size) && Lookup(es, k) == TabExpected(lim, size, events, k)
  {
    hide TabRecord, WithinLimits, SizedBy, Fits, TabStats, NextStats;
    if events == [] {
      Nothing<K>(lim, size);
    } else {
      var front, e := events[..|events| - 1], events[|events| - 1];
      TabRecordsAreExact(lim, size, front, k);
      var es := TabAll(lim, size, front);
      TabRecordKeeps(es, lim, size, e);
      KeysOf(es, lim);
      TabRecordLookup(es, lim, size, e, k);
      if e.key == k && Lookup(es, k).Some? {
        RecordFitsAgain(es, lim, size, k);
      }
      StatsSnoc(Kept(lim, size, front, k), e.time);
    }
  }

  lemma KeysOf<K>(es: seq<TabEntry<K>>, lim: Limits)
    requires WithinLimits(es, lim)
    ensures DistinctKeys(es)
  {
  }

  lemma Nothing<K>(lim: Limits, size: K -> nat)
    ensures WithinLimits<K, KindStats>([], lim) && SizedBy<K>([], size)
  {
  }

  lemma StatsSnoc(times: seq<TypedTime>, t: TypedTime)
    requires forall u :: u in times ==> u.kind < OP_TYPE_SIZE
    requires t.kind < OP_TYPE_SIZE
    ensures TabStats(times + [t]) == NextStats(TabStats(times), times == [], t)
    ensures TabStats([]) == StatsOr(None)
  {
    hide NextStats;
    assert (times + [t])[..|times|] == times;
  }
}
