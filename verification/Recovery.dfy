/**
 Crash recovery over whole runs.  The state is the cache in memory, the last core dump and the
 log written since; a crash loses the cache and rebuilds it from the other two.
 */
module Recovery {
  import opened Options
  import opened Bytes
  import opened Lists
  import opened ChunkAllocators
  import opened RecencyMaps
  import opened HashMaps
  import Binlogs

  const HEAD_LEN := KEY_LEN + 4
  const RECOVER_BUF_SIZE := 32 * 1024 * 1024

  datatype LogRec = LogSet(key: Key, value: seq<byte>) | LogClean(key: Key) | LogDel(key: Key)

  ghost function SetDirty(es: seq<CacheEntry>, lim: Limits, k: Key, v: seq<byte>): seq<CacheEntry> {
    Set(es, lim, k, v, |v|, true)
  }

  /** A set that is not dirty is not logged. */
  ghost function SetClean(es: seq<CacheEntry>, lim: Limits, k: Key, v: seq<byte>): seq<CacheEntry> {
    Set(es, lim, k, v, |v|, false)
  }

  /** core_recover: every dumped record is set, dirty, one after the other. */
  ghost function Recover(es: seq<CacheEntry>, lim: Limits, recs: seq<CacheEntry>): seq<CacheEntry>
    decreases |recs|
  {
    if recs == [] then es else Recover(SetDirty(es, lim, recs[0].key, recs[0].value), lim, recs[1..])
  }

  ghost function ReplayOne(es: seq<CacheEntry>, lim: Limits, rec: LogRec): seq<CacheEntry> {
    match rec
    case LogSet(k, v) => SetDirty(es, lim, k, v)
    case LogClean(k) => MarkClean(es, k)
    case LogDel(k) => Drop(es, k)
  }

  /** StartUp's second part: the log records are applied in order. */
  ghost function Replay(es: seq<CacheEntry>, lim: Limits, log: seq<LogRec>): seq<CacheEntry>
    decreases |log|
  {
    if log == [] then es else ReplayOne(Replay(es, lim, log[..|log| - 1]), lim, log[|log| - 1])
  }

  /** The entries that are not skipped by the dirty iterator: the head, and the dirty ones after it. */
  function DirtyOf(es: seq<CacheEntry>): seq<CacheEntry> {
    if es == [] then [] else (if es[0].dirty then [es[0]] else []) + DirtyOf(es[1..])
  }

  function DumpList(es: seq<CacheEntry>): seq<CacheEntry> {
    if es == [] then [] else [es[0]] + DirtyOf(es[1..])
  }

  /** core_dump and core_recover each have a buffer of fixed size for one value. */
  ghost function TakeFitting(es: seq<CacheEntry>, maxLen: int): seq<CacheEntry>
    decreases |es|
  {
    if es == [] || es[0].len > maxLen then [] else [es[0]] + TakeFitting(es[1..], maxLen)
  }

  ghost predicate Small(es: seq<CacheEntry>, maxLen: int) {
    forall i :: 0 <= i < |es| ==> es[i].len <= maxLen
  }

  lemma {:induction false} TakeAll(es: seq<CacheEntry>, maxLen: int)
    requires Small(es, maxLen)
    ensures TakeFitting(es, maxLen) == es
    decreases |es|
  {
    if es != [] {
      TakeAll(es[1..], maxLen);
    }
  }

  /** What core_dump writes of a cache: it stops at the first value longer than its buffer. */
  ghost function DumpOf(es: seq<CacheEntry>): seq<CacheEntry> {
    TakeFitting(DumpList(es), Binlogs.MAX_BINLOG_ITEM_LEN)
  }

  /** The bytes that records take in a dump. */
  ghost function DumpSize(es: seq<CacheEntry>): nat {
    if es == [] then 0 else HEAD_LEN + es[0].len + DumpSize(es[1..])
  }

  /** core_dump returns the file size as an int; a negative one is taken for a failure, and the log stays. */
  ghost predicate ClearsLog(recs: seq<CacheEntry>) {
    Signed32(DumpSize(recs)) >= 0
  }

  lemma ClearsLogExactly(recs: seq<CacheEntry>)
    ensures ClearsLog(recs) <==> DumpSize(recs) % TWO_32 < TWO_31
  {
  }

  datatype System = System(cache: seq<CacheEntry>, dump: seq<CacheEntry>, log: seq<LogRec>)

  /** What core_recover reads of a dump: it stops at the first value longer than its buffer. */
  ghost function ReadBack(dump: seq<CacheEntry>): seq<CacheEntry> {
    TakeFitting(dump, RECOVER_BUF_SIZE)
  }

  ghost function Rebuilt(s: System, lim: Limits): seq<CacheEntry> {
    Replay(Recover([], lim, ReadBack(s.dump)), lim, s.log)
  }

  datatype Op =
    | OpSet(key: Key, value: seq<byte>)
    | OpSetClean(key: Key, value: seq<byte>)
    | OpGet(key: Key)
    | OpDel(key: Key)
    | OpClean(key: Key)
    | OpDump
    | OpCrash

  ghost function Step(s: System, lim: Limits, op: Op): System {
    match op
    case OpSet(k, v) =>
      if Fits(s.cache, lim, k, |v|)
      then s.(cache := SetDirty(s.cache, lim, k, v), log := s.log + [LogSet(k, v)])
      else s.(cache := Touch(s.cache, k))
    case OpSetClean(k, v) => s.(cache := SetClean(s.cache, lim, k, v))
    case OpGet(k) => s.(cache := Touch(s.cache, k))
    case OpDel(k) =>
      if Lookup(s.cache, k).Some? then s.(cache := Drop(s.cache, k), log := s.log + [LogDel(k)]) else s
    case OpClean(k) =>
      if Lookup(s.cache, k).Some? then s.(cache := MarkClean(s.cache, k), log := s.log + [LogClean(k)]) else s
    case OpDump => var dump := DumpOf(s.cache); System(s.cache, dump, if ClearsLog(dump) then [] else s.log)
    case OpCrash => s.(cache := Rebuilt(s, lim))
  }

  ghost function Run(lim: Limits, ops: seq<Op>): System
    decreases |ops|
  {
    if ops == [] then System([], [], []) else Step(Run(lim, ops[..|ops| - 1]), lim, ops[|ops| - 1])
  }

  ghost predicate Sized(es: seq<CacheEntry>) {
    forall i :: 0 <= i < |es| ==> es[i].len == |es[i].value|
  }

  /** Every entry of r is in c with the same value. */
  ghost predicate SubCache(r: seq<CacheEntry>, c: seq<CacheEntry>) {
    forall k :: Lookup(r, k).Some? ==>
      Lookup(c, k).Some? && Lookup(c, k).value.value == Lookup(r, k).value.value
        && Lookup(c, k).value.len == Lookup(r, k).value.len
  }

  /** What is dirty in c is dirty in r too, if it is there. */
  ghost predicate StillDirty(r: seq<CacheEntry>, c: seq<CacheEntry>) {
    forall k :: Lookup(c, k).Some? && Lookup(c, k).value.dirty && Lookup(r, k).Some? ==> Lookup(r, k).value.dirty
  }

  /** Every non-empty dirty entry of c is in r. */
  ghost predicate KeepsData(r: seq<CacheEntry>, c: seq<CacheEntry>) {
    forall k :: Lookup(c, k).Some? && Lookup(c, k).value.dirty && Lookup(c, k).value.len > 0 ==> Lookup(r, k).Some?
  }

  /** Smaller caches use fewer nodes and chunks. */
  lemma {:induction false} SubCacheUsesLess(r: seq<CacheEntry>, c: seq<CacheEntry>, size: Positive)
    requires DistinctKeys(r) && DistinctKeys(c) && SubCache(r, c)
    ensures |r| <= |c| && Used(r, size) <= Used(c, size)
    decreases |r|
  {
    if r != [] {
      var k := r[0].key;
      LookupAt(r, 0);
      var i := IndexOf(c, k);
      UsedWithout(r, 0, size);
      UsedWithout(c, i, size);
      WithoutDistinctKeys(r, 0);
      WithoutDistinctKeys(c, i);
      forall j ensures Lookup(Drop(r, k), j) == (if j == k then None else Lookup(r, j))
               ensures Lookup(Drop(c, k), j) == (if j == k then None else Lookup(c, j)) {
        LookupDrop(r, k, j);
        LookupDrop(c, k, j);
      }
      assert Drop(r, k) == Without(r, 0) && Drop(c, k) == Without(c, i);
      SubCacheUsesLess(Without(r, 0), Without(c, i), size);
    }
  }

  /** SubCache for all keys but k. */
  ghost predicate SubCacheBut(r: seq<CacheEntry>, c: seq<CacheEntry>, k: Key) {
    forall j :: j != k && Lookup(r, j).Some? ==>
      Lookup(c, j).Some? && Lookup(c, j).value.value == Lookup(r, j).value.value
        && Lookup(c, j).value.len == Lookup(r, j).value.len
  }

  /** What the larger cache holds under k also fits the smaller one, unless it is empty and new there. */
  lemma FitsSmaller(r: seq<CacheEntry>, c: seq<CacheEntry>, lim: Limits, k: Key)
    requires WithinLimits(r, lim) && WithinLimits(c, lim) && SubCacheBut(r, c, k)
    requires Lookup(c, k).Some?
    ensures Fits(r, lim, k, Lookup(c, k).value.len) <==> Lookup(c, k).value.len > 0 || Lookup(r, k).Some?
  {
    hide Used, IndexOf;
    DropStaysWithin(r, lim, k);
    DropStaysWithin(c, lim, k);
    forall j ensures Lookup(Drop(r, k), j) == (if j == k then None else Lookup(r, j))
             ensures Lookup(Drop(c, k), j) == (if j == k then None else Lookup(c, j)) {
      LookupDrop(r, k, j);
      LookupDrop(c, k, j);
    }
    SubCacheUsesLess(Drop(r, k), Drop(c, k), lim.chunkSize);
  }

  /** Setting in the smaller cache what the larger one holds keeps it smaller. */
  lemma SetKeeps(r: seq<CacheEntry>, c: seq<CacheEntry>, lim: Limits, k: Key, v: seq<byte>)
    requires WithinLimits(r, lim) && WithinLimits(c, lim) && SubCacheBut(r, c, k)
    requires Lookup(c, k).Some? && Lookup(c, k).value.value == v && Lookup(c, k).value.len == |v|
    ensures WithinLimits(SetDirty(r, lim, k, v), lim) && SubCache(SetDirty(r, lim, k, v), c)
    ensures |v| > 0 || Lookup(r, k).Some? ==>
      Fits(r, lim, k, |v|) && Lookup(SetDirty(r, lim, k, v), k) == Some(Entry(k, v, |v|, true))
    ensures |v| == 0 && Lookup(r, k).None? ==> Lookup(SetDirty(r, lim, k, v), k) == None
    ensures forall j :: j != k ==> Lookup(SetDirty(r, lim, k, v), j) == Lookup(r, j)
  {
    hide Used, IndexOf, Fits, Set, Touch, WithinLimits, Lookup, MarkClean;
    FitsSmaller(r, c, lim, k);
    StepsStayWithin(r, lim, k, v, |v|, true);
    WithinIsDistinct(r, lim);
    forall j ensures Lookup(SetDirty(r, lim, k, v), j) ==
        if j == k && Fits(r, lim, k, |v|) then Some(Entry(k, v, |v|, true)) else Lookup(r, j) {
      LookupAfter(r, lim, k, v, |v|, true, j);
    }
  }

  lemma WithinIsDistinct(es: seq<CacheEntry>, lim: Limits)
    requires WithinLimits(es, lim)
    ensures DistinctKeys(es)
  {
  }

  /** The dumped records are entries of c. */
  ghost predicate TakenFrom(recs: seq<CacheEntry>, c: seq<CacheEntry>) {
    forall i :: 0 <= i < |recs| ==>
      Lookup(c, recs[i].key).Some?
      && Lookup(c, recs[i].key).value.value == recs[i].value
      && Lookup(c, recs[i].key).value.len == recs[i].len == |recs[i].value|
  }

  /** Every non-empty dumped record can be set when core_recover reaches it. */
  ghost predicate RecoverSucceeds(es: seq<CacheEntry>, lim: Limits, recs: seq<CacheEntry>)
    decreases |recs|
  {
    recs != [] ==>
      && (recs[0].value != [] ==> Fits(es, lim, recs[0].key, |recs[0].value|))
      && RecoverSucceeds(SetDirty(es, lim, recs[0].key, recs[0].value), lim, recs[1..])
  }

  lemma {:induction false} RecoverKeeps(r: seq<CacheEntry>, c: seq<CacheEntry>, lim: Limits, recs: seq<CacheEntry>)
    requires WithinLimits(r, lim) && WithinLimits(c, lim) && SubCache(r, c) && TakenFrom(recs, c)
    ensures WithinLimits(Recover(r, lim, recs), lim) && SubCache(Recover(r, lim, recs), c)
    ensures RecoverSucceeds(r, lim, recs)
    ensures (forall k :: Lookup(r, k).Some? ==> Lookup(r, k).value.dirty) ==>
            (forall k :: Lookup(Recover(r, lim, recs), k).Some? ==> Lookup(Recover(r, lim, recs), k).value.dirty)
    ensures forall k :: Lookup(r, k).Some? ==> Lookup(Recover(r, lim, recs), k).Some?
    ensures forall i :: 0 <= i < |recs| && recs[i].len > 0 ==> Lookup(Recover(r, lim, recs), recs[i].key).Some?
    decreases |recs|
  {
    hide WithinLimits, Fits, SetDirty, Lookup;
    if recs != [] {
      var r' := SetDirty(r, lim, recs[0].key, recs[0].value);
      SetKeeps(r, c, lim, recs[0].key, recs[0].value);
      RecoverKeeps(r', c, lim, recs[1..]);
      assert forall i :: 0 < i < |recs| ==> recs[i] == recs[1..][i - 1];
    }
  }

  lemma {:induction false} DirtyOfMembers(es: seq<CacheEntry>)
    ensures forall e :: e in DirtyOf(es) <==> e in es && e.dirty
  {
    if es != [] {
      DirtyOfMembers(es[1..]);
    }
  }

  /** A dump holds the head and every dirty entry, and nothing that is not in the cache. */
  lemma DumpListMembers(es: seq<CacheEntry>)
    requires DistinctKeys(es) && Sized(es)
    ensures TakenFrom(DumpList(es), es)
    ensures forall k :: Lookup(es, k).Some? && Lookup(es, k).value.dirty ==> Lookup(es, k).value in DumpList(es)
    ensures forall e :: e in DumpList(es) <==> e in es && (e.dirty || e == es[0])
  {
    hide DumpList, Lookup, DistinctKeys;
    DumpedMembers(es);
    var d := DumpList(es);
    forall i | 0 <= i < |d|
      ensures Lookup(es, d[i].key) == Some(d[i]) && d[i].len == |d[i].value|
    {
      assert d[i] in es;
      var j :| 0 <= j < |es| && es[j] == d[i];
      LookupAt(es, j);
    }
    forall k | Lookup(es, k).Some? && Lookup(es, k).value.dirty ensures Lookup(es, k).value in d {
      LookupIsMember(es, k);
    }
  }

  lemma LookupIsMember(es: seq<CacheEntry>, k: Key)
    ensures Lookup(es, k).Some? ==> Lookup(es, k).value in es
  {
  }

  lemma DumpedMembers(es: seq<CacheEntry>)
    ensures forall e :: e in DumpList(es) <==> e in es && (e.dirty || e == es[0])
  {
    if es != [] {
      DirtyOfMembers(es[1..]);
      assert es == [es[0]] + es[1..];
    }
  }

  /** Every record, empty or not, can be set when its turn comes. */
  ghost predicate AllFit(es: seq<CacheEntry>, lim: Limits, recs: seq<CacheEntry>)
    decreases |recs|
  {
    recs != [] ==>
      && Fits(es, lim, recs[0].key, |recs[0].value|)
      && AllFit(SetDirty(es, lim, recs[0].key, recs[0].value), lim, recs[1..])
  }

  function AllDirty(es: seq<CacheEntry>): (r: seq<CacheEntry>)
    ensures |r| == |es|
  {
    seq(|es|, i requires 0 <= i < |es| => es[i].(dirty := true))
  }

  /** Records with new keys pile up in front, the last one first. */
  ghost predicate NoneEmpty(es: seq<CacheEntry>) {
    forall i :: 0 <= i < |es| ==> es[i].value != []
  }

  lemma {:induction false} RecoverPilesUp(es: seq<CacheEntry>, lim: Limits, recs: seq<CacheEntry>)
    requires DistinctKeys(recs) && Sized(recs) && AllFit(es, lim, recs)
    requires forall i :: 0 <= i < |recs| ==> IndexOf(es, recs[i].key) < 0
    ensures Recover(es, lim, recs) == Reverse(AllDirty(recs)) + es && NoneEmpty(recs)
    decreases |recs|
  {
    hide Fits, IndexOf, Set, AllDirty;
    if recs != [] {
      var e, rest := recs[0].(dirty := true), recs[1..];
      SetNew(es, lim, e.key, e.value);
      forall i | 0 <= i < |rest| ensures IndexOf([e] + es, rest[i].key) < 0 {
        assert rest[i] == recs[i + 1];
        LookupPush(es, e, rest[i].key);
      }
      RecoverPilesUp([e] + es, lim, rest);
      assert forall i :: 0 < i < |recs| ==> recs[i] == rest[i - 1];
      AllDirtyStep(recs);
      assert Reverse(AllDirty(rest)) + ([e] + es) == Reverse(AllDirty(rest)) + [e] + es;
    }
  }

  lemma SetNew(es: seq<CacheEntry>, lim: Limits, k: Key, v: seq<byte>)
    requires IndexOf(es, k) < 0 && Fits(es, lim, k, |v|)
    ensures SetDirty(es, lim, k, v) == [Entry(k, v, |v|, true)] + es && v != []
  {
  }

  lemma AllDirtyStep(recs: seq<CacheEntry>)
    requires recs != []
    ensures AllDirty(recs)[0] == recs[0].(dirty := true) && AllDirty(recs)[1..] == AllDirty(recs[1..])
  {
  }

  lemma {:induction false} SucceedsIsAllFit(es: seq<CacheEntry>, lim: Limits, recs: seq<CacheEntry>)
    requires RecoverSucceeds(es, lim, recs) && NoneEmpty(recs)
    ensures AllFit(es, lim, recs)
    decreases |recs|
  {
    if recs != [] {
      SucceedsIsAllFit(SetDirty(es, lim, recs[0].key, recs[0].value), lim, recs[1..]);
    }
  }

  lemma {:induction false} DirtyOfDistinct(es: seq<CacheEntry>)
    requires DistinctKeys(es)
    ensures DistinctKeys(DirtyOf(es))
  {
    if es != [] {
      DirtyOfDistinct(es[1..]);
      DirtyOfMembers(es[1..]);
      assert forall e :: e in es[1..] ==> e.key != es[0].key;
    }
  }

  /** Entries of a cache, each once, can all be set in an empty one of its size exactly if none is empty. */
  lemma ListRoundTrip(c: seq<CacheEntry>, lim: Limits, recs: seq<CacheEntry>)
    requires WithinLimits(c, lim) && TakenFrom(recs, c) && DistinctKeys(recs)
    ensures AllFit([], lim, recs) <==> NoneEmpty(recs)
    ensures NoneEmpty(recs) ==> Recover([], lim, recs) == Reverse(AllDirty(recs))
  {
    hide WithinLimits, Lookup, RecoverSucceeds, AllFit, Recover, AllDirty, DistinctKeys, SetDirty, NoneEmpty;
    NothingWithin(lim);
    RecoverKeeps([], c, lim, recs);
    if NoneEmpty(recs) {
      SucceedsIsAllFit([], lim, recs);
    }
    if AllFit([], lim, recs) {
      RecoverPilesUp([], lim, recs);
    }
  }

  lemma NothingWithin(lim: Limits)
    ensures WithinLimits<Key, seq<byte>>([], lim) && forall k :: Lookup<Key, seq<byte>>([], k) == None
  {
  }

  /**
   A dump can be recovered into an empty cache of the same limits exactly if no dumped value is empty; then it gives
   the dumped entries, all dirty, in reverse order.
   */
  lemma DumpRoundTrip(c: seq<CacheEntry>, lim: Limits)
    requires WithinLimits(c, lim) && Sized(c)
    ensures DistinctKeys(DumpList(c)) && Sized(DumpList(c))
    ensures AllFit([], lim, DumpList(c)) <==> NoneEmpty(DumpList(c))
    ensures NoneEmpty(DumpList(c)) ==> Recover([], lim, DumpList(c)) == Reverse(AllDirty(DumpList(c)))
  {
    hide NoneEmpty, AllFit, Recover, AllDirty, DumpList, WithinLimits, DistinctKeys, TakenFrom;
    WithinIsDistinct(c, lim);
    DumpListMembers(c);
    DumpListDistinct(c);
    ListRoundTrip(c, lim, DumpList(c));
  }

  lemma DumpListDistinct(c: seq<CacheEntry>)
    requires DistinctKeys(c) && Sized(c)
    ensures DistinctKeys(DumpList(c)) && Sized(DumpList(c))
  {
    if c != [] {
      hide DirtyOf, DistinctKeys;
      HeadIsNew(c);
      DirtyOfDistinct(c[1..]);
      DirtyOfMembers(c[1..]);
      PushDistinct(DirtyOf(c[1..]), c[0]);
    }
  }

  /** Every non-empty logged value can be set when StartUp reaches its record. */
  ghost predicate ReplaySucceeds(es: seq<CacheEntry>, lim: Limits, log: seq<LogRec>)
    decreases |log|
  {
    log != [] ==>
      var before, rec := log[..|log| - 1], log[|log| - 1];
      && ReplaySucceeds(es, lim, before)
      && (rec.LogSet? && rec.value != [] ==> Fits(Replay(es, lim, before), lim, rec.key, |rec.value|))
  }

  /** r is what a rebuild may give for c: a smaller cache with the values and the dirty flags of c. */
  ghost predicate Covers(r: seq<CacheEntry>, c: seq<CacheEntry>, lim: Limits) {
    && WithinLimits(r, lim) && WithinLimits(c, lim) && Sized(r) && Sized(c)
    && SubCache(r, c) && StillDirty(r, c)
  }

  /** The invariant of every coherent run. */
  ghost predicate Sound(s: System, lim: Limits) {
    && Covers(Rebuilt(s, lim), s.cache, lim)
    && RecoverSucceeds([], lim, ReadBack(s.dump))
    && ReplaySucceeds(Recover([], lim, ReadBack(s.dump)), lim, s.log)
  }

  lemma WithoutSized(es: seq<CacheEntry>, i: nat)
    requires Sized(es) && i < |es|
    ensures Sized(Without(es, i))
  {
    assert forall j :: 0 <= j < |es| - 1 ==> Without(es, i)[j] == es[if j < i then j else j + 1];
  }

  lemma StepsStaySized(es: seq<CacheEntry>, lim: Limits, k: Key, v: seq<byte>)
    requires Sized(es)
    ensures Sized(Touch(es, k)) && Sized(Drop(es, k)) && Sized(MarkClean(es, k))
    ensures Sized(SetDirty(es, lim, k, v)) && Sized(SetClean(es, lim, k, v))
  {
    hide Fits, IndexOf, Without;
    var i := IndexOf(es, k);
    if i >= 0 {
      WithoutSized(es, i);
    }
  }

  /** Reading or failing to set only reorders the cache. */
  lemma TouchCovers(r: seq<CacheEntry>, c: seq<CacheEntry>, lim: Limits, k: Key)
    requires Covers(r, c, lim)
    ensures Covers(r, Touch(c, k), lim) && (KeepsData(r, c) ==> KeepsData(r, Touch(c, k)))
  {
    hide Used, IndexOf, Touch, WithinLimits, Lookup, Sized, MarkClean, Set;
    WithinIsDistinct(c, lim);
    StepsStayWithin(c, lim, k, [], 0, true);
    StepsStaySized(c, lim, k, []);
    forall j ensures Lookup(Touch(c, k), j) == Lookup(c, j) {
      LookupAfter(c, lim, k, [], 0, true, j);
    }
  }

  lemma SetCovers(r: seq<CacheEntry>, c: seq<CacheEntry>, lim: Limits, k: Key, v: seq<byte>)
    requires Covers(r, c, lim) && Fits(c, lim, k, |v|)
    ensures Covers(SetDirty(r, lim, k, v), SetDirty(c, lim, k, v), lim)
    ensures KeepsData(r, c) ==> KeepsData(SetDirty(r, lim, k, v), SetDirty(c, lim, k, v))
    ensures |v| > 0 ==> Fits(r, lim, k, |v|)
  {
    hide Used, IndexOf, Touch, WithinLimits, Lookup, Sized, MarkClean, Set, Fits;
    WithinIsDistinct(c, lim);
    StepsStayWithin(c, lim, k, v, |v|, true);
    StepsStaySized(c, lim, k, v);
    StepsStaySized(r, lim, k, v);
    var c' := SetDirty(c, lim, k, v);
    forall j ensures Lookup(c', j) == if j == k then Some(Entry(k, v, |v|, true)) else Lookup(c, j) {
      LookupAfter(c, lim, k, v, |v|, true, j);
    }
    SetKeeps(r, c', lim, k, v);
  }

  /** A clean set of a key that is not in r, or is there with the same value. */
  lemma SetCleanCovers(r: seq<CacheEntry>, c: seq<CacheEntry>, lim: Limits, k: Key, v: seq<byte>)
    requires Covers(r, c, lim) && Fits(c, lim, k, |v|)
    requires Lookup(r, k).Some? ==> Lookup(r, k).value.value == v
    ensures Covers(r, SetClean(c, lim, k, v), lim) && (KeepsData(r, c) ==> KeepsData(r, SetClean(c, lim, k, v)))
  {
    hide Used, IndexOf, Touch, WithinLimits, Lookup, MarkClean, Set, Fits;
    WithinIsDistinct(c, lim);
    StepsStayWithin(c, lim, k, v, |v|, false);
    StepsStaySized(c, lim, k, v);
    SizedLookup(r, k);
    var c' := SetClean(c, lim, k, v);
    forall j ensures Lookup(c', j) == if j == k then Some(Entry(k, v, |v|, false)) else Lookup(c, j) {
      LookupAfter(c, lim, k, v, |v|, false, j);
    }
  }

  lemma SizedLookup(es: seq<CacheEntry>, k: Key)
    requires Sized(es)
    ensures Lookup(es, k).Some? ==> Lookup(es, k).value.len == |Lookup(es, k).value.value|
  {
  }

  /** A clean set that does not fit touches its key like any other. */
  lemma SetWhenFull(es: seq<CacheEntry>, lim: Limits, k: Key, v: seq<byte>)
    ensures !Fits(es, lim, k, |v|) ==>
      SetDirty(es, lim, k, v) == Touch(es, k) && SetClean(es, lim, k, v) == Touch(es, k)
  {
  }

  lemma DropCovers(r: seq<CacheEntry>, c: seq<CacheEntry>, lim: Limits, k: Key)
    requires Covers(r, c, lim)
    ensures Covers(Drop(r, k), Drop(c, k), lim) && (KeepsData(r, c) ==> KeepsData(Drop(r, k), Drop(c, k)))
  {
    hide Used, IndexOf, WithinLimits, Lookup, Sized, Drop;
    WithinIsDistinct(c, lim);
    WithinIsDistinct(r, lim);
    DropStaysWithin(c, lim, k);
    DropStaysWithin(r, lim, k);
    StepsStaySized(c, lim, k, []);
    StepsStaySized(r, lim, k, []);
    forall j ensures Lookup(Drop(c, k), j) == (if j == k then None else Lookup(c, j))
             ensures Lookup(Drop(r, k), j) == (if j == k then None else Lookup(r, j)) {
      LookupDrop(c, k, j);
      LookupDrop(r, k, j);
    }
  }

  lemma CleanCovers(r: seq<CacheEntry>, c: seq<CacheEntry>, lim: Limits, k: Key)
    requires Covers(r, c, lim)
    ensures Covers(MarkClean(r, k), MarkClean(c, k), lim)
    ensures KeepsData(r, c) ==> KeepsData(MarkClean(r, k), MarkClean(c, k))
  {
    hide Used, IndexOf, WithinLimits, Lookup, Sized, MarkClean, Set, Touch;
    WithinIsDistinct(c, lim);
    WithinIsDistinct(r, lim);
    StepsStayWithin(c, lim, k, [], 0, true);
    StepsStayWithin(r, lim, k, [], 0, true);
    StepsStaySized(c, lim, k, []);
    StepsStaySized(r, lim, k, []);
    forall j
      ensures Lookup(MarkClean(c, k), j) ==
        if j == k && Lookup(c, k).Some? then Some(Lookup(c, k).value.(dirty := false)) else Lookup(c, j)
      ensures Lookup(MarkClean(r, k), j) ==
        if j == k && Lookup(r, k).Some? then Some(Lookup(r, k).value.(dirty := false)) else Lookup(r, j) {
      LookupAfter(c, lim, k, [], 0, true, j);
      LookupAfter(r, lim, k, [], 0, true, j);
    }
  }

  lemma {:induction false} RecoverSized(es: seq<CacheEntry>, lim: Limits, recs: seq<CacheEntry>)
    requires Sized(es)
    ensures Sized(Recover(es, lim, recs))
    decreases |recs|
  {
    if recs != [] {
      StepsStaySized(es, lim, recs[0].key, recs[0].value);
      RecoverSized(SetDirty(es, lim, recs[0].key, recs[0].value), lim, recs[1..]);
    }
  }

  lemma DumpCovers(c: seq<CacheEntry>, lim: Limits)
    requires WithinLimits(c, lim) && Sized(c)
    ensures Covers(Recover([], lim, ReadBack(DumpOf(c))), c, lim)
    ensures Small(DumpList(c), RECOVER_BUF_SIZE) ==> KeepsData(Recover([], lim, ReadBack(DumpOf(c))), c)
    ensures RecoverSucceeds([], lim, ReadBack(DumpOf(c)))
  {
    hide Recover, DumpList, TakeFitting, Small;
    DumpListMembers(c);
    var d := DumpList(c);
    var recs := ReadBack(DumpOf(c));
    TakenTwice(d, Binlogs.MAX_BINLOG_ITEM_LEN, RECOVER_BUF_SIZE);
    TakenPrefix(d, RECOVER_BUF_SIZE);
    RecoverSized([], lim, recs);
    RecoverKeeps([], c, lim, recs);
    if Small(d, RECOVER_BUF_SIZE) {
      TakeAll(d, RECOVER_BUF_SIZE);
      forall k | Lookup(c, k).Some? && Lookup(c, k).value.dirty && Lookup(c, k).value.len > 0
        ensures Lookup(Recover([], lim, recs), k).Some? {
        var i :| 0 <= i < |d| && d[i] == Lookup(c, k).value;
      }
    }
  }

  lemma {:induction false} TakenPrefix(es: seq<CacheEntry>, maxLen: int)
    ensures TakeFitting(es, maxLen) <= es
    decreases |es|
  {
    if es != [] && es[0].len <= maxLen {
      TakenPrefix(es[1..], maxLen);
    }
  }

  lemma {:induction false} TakenTwice(es: seq<CacheEntry>, maxLen: int, less: int)
    requires less <= maxLen
    ensures TakeFitting(TakeFitting(es, maxLen), less) == TakeFitting(es, less)
    decreases |es|
  {
    if es != [] && es[0].len <= maxLen {
      TakenTwice(es[1..], maxLen, less);
    }
  }

  lemma ReplaySnoc(es: seq<CacheEntry>, lim: Limits, log: seq<LogRec>, rec: LogRec)
    ensures Replay(es, lim, log + [rec]) == ReplayOne(Replay(es, lim, log), lim, rec)
    ensures ReplaySucceeds(es, lim, log + [rec]) <==>
      && ReplaySucceeds(es, lim, log)
      && (rec.LogSet? && rec.value != [] ==> Fits(Replay(es, lim, log), lim, rec.key, |rec.value|))
  {
    var all := log + [rec];
    assert all[..|all| - 1] == log && all[|all| - 1] == rec;
  }

  /** When a step keeps dump and log in agreement with the cache. */
  ghost predicate Agrees(s: System, op: Op, lim: Limits) {
    match op
    case OpSetClean(k, v) =>
      Fits(s.cache, lim, k, |v|) && OnFile(ReadBack(s.dump), s.log, k) ==>
        Lookup(s.cache, k).Some? && Lookup(s.cache, k).value.value == v
    case OpDump => ClearsLog(DumpOf(s.cache))
    case _ => true
  }

  /**
   A run whose last dump cleared the log, and in which no clean set since then gave another value to a key on file:
   a dump that clears the log makes good whatever was before it.
   */
  ghost predicate Coherent(lim: Limits, ops: seq<Op>)
    decreases |ops|
  {
    ops == [] ||
    var front, op := ops[..|ops| - 1], ops[|ops| - 1];
    Agrees(Run(lim, front), op, lim) && (op.OpDump? || Coherent(lim, front))
  }

  /** One step of a run keeps the invariant. */
  lemma StepKeepsSound(s: System, lim: Limits, op: Op)
    requires Sound(s, lim) && Agrees(s, op, lim) && !op.OpDump?
    ensures Sound(Step(s, lim, op), lim)
    ensures KeepsData(Rebuilt(s, lim), s.cache) ==> KeepsData(Rebuilt(Step(s, lim, op), lim), Step(s, lim, op).cache)
  {
    hide Covers, KeepsData, RecoverSucceeds, ReplaySucceeds, Recover, Replay, Fits, Set, Touch, Drop, MarkClean,
      IndexOf, ReadBack, OnFile;
    var r, base := Rebuilt(s, lim), Recover([], lim, ReadBack(s.dump));
    match op
    case OpSet(k, v) =>
      if Fits(s.cache, lim, k, |v|) {
        SetCovers(r, s.cache, lim, k, v);
        ReplaySnoc(base, lim, s.log, LogSet(k, v));
      } else {
        TouchCovers(r, s.cache, lim, k);
      }
    case OpSetClean(k, v) =>
      if Fits(s.cache, lim, k, |v|) {
        OnFileIsRebuilt(s, lim, k);
        SetCleanCovers(r, s.cache, lim, k, v);
      } else {
        SetWhenFull(s.cache, lim, k, v);
        TouchCovers(r, s.cache, lim, k);
      }
    case OpGet(k) =>
      TouchCovers(r, s.cache, lim, k);
    case OpDel(k) =>
      DropCovers(r, s.cache, lim, k);
      ReplaySnoc(base, lim, s.log, LogDel(k));
    case OpClean(k) =>
      CleanCovers(r, s.cache, lim, k);
      ReplaySnoc(base, lim, s.log, LogClean(k));
    case OpCrash =>
      CoversItself(r, s.cache, lim);
  }

  /** A key is in the rebuilt cache exactly if it is on file, and then with the value of the lost one. */
  lemma OnFileIsRebuilt(s: System, lim: Limits, k: Key)
    requires Sound(s, lim)
    ensures Lookup(Rebuilt(s, lim), k).Some? <==> OnFile(ReadBack(s.dump), s.log, k)
    ensures Lookup(Rebuilt(s, lim), k).Some? ==>
      Lookup(s.cache, k).Some? && Lookup(s.cache, k).value.value == Lookup(Rebuilt(s, lim), k).value.value
  {
    hide Lookup, ReadBack, OnFile, WithinLimits, Sized, StillDirty, RecoverSucceeds, ReplaySucceeds;
    ReplayPresence(lim, ReadBack(s.dump), s.log, k);
  }

  /** A dump that clears the log is sound, whatever was before it. */
  lemma DumpIsSound(s: System, lim: Limits)
    requires WithinLimits(s.cache, lim) && Sized(s.cache) && ClearsLog(DumpOf(s.cache))
    ensures Sound(Step(s, lim, OpDump), lim)
    ensures Small(s.cache, RECOVER_BUF_SIZE) ==> KeepsData(Rebuilt(Step(s, lim, OpDump), lim), s.cache)
  {
    hide Covers, KeepsData, RecoverSucceeds, ReplaySucceeds, Recover, Replay, DumpOf, ReadBack, Small, ClearsLog;
    DumpCovers(s.cache, lim);
    if Small(s.cache, RECOVER_BUF_SIZE) {
      DumpStaysSmall(s.cache, RECOVER_BUF_SIZE);
    }
    ReplayNothing(Recover([], lim, ReadBack(DumpOf(s.cache))), lim);
  }

  lemma ReplayNothing(es: seq<CacheEntry>, lim: Limits)
    ensures Replay(es, lim, []) == es && ReplaySucceeds(es, lim, [])
  {
  }

  lemma CoversItself(r: seq<CacheEntry>, c: seq<CacheEntry>, lim: Limits)
    requires Covers(r, c, lim)
    ensures Covers(r, r, lim) && KeepsData(r, r)
  {
  }

  lemma {:induction false} RecoverWithin(es: seq<CacheEntry>, lim: Limits, recs: seq<CacheEntry>)
    requires WithinLimits(es, lim)
    ensures WithinLimits(Recover(es, lim, recs), lim)
    decreases |recs|
  {
    hide WithinLimits, Set;
    if recs != [] {
      StepsStayWithin(es, lim, recs[0].key, recs[0].value, |recs[0].value|, true);
      RecoverWithin(SetDirty(es, lim, recs[0].key, recs[0].value), lim, recs[1..]);
    }
  }

  lemma {:induction false} ReplayWithin(es: seq<CacheEntry>, lim: Limits, log: seq<LogRec>)
    requires WithinLimits(es, lim) && Sized(es)
    ensures WithinLimits(Replay(es, lim, log), lim) && Sized(Replay(es, lim, log))
    decreases |log|
  {
    hide WithinLimits, Set, Sized, MarkClean, Drop, Touch;
    if log != [] {
      var front, rec := log[..|log| - 1], log[|log| - 1];
      ReplayWithin(es, lim, front);
      var r, v := Replay(es, lim, front), if rec.LogSet? then rec.value else [];
      StepsStayWithin(r, lim, rec.key, v, |v|, true);
      DropStaysWithin(r, lim, rec.key);
      StepsStaySized(r, lim, rec.key, v);
    }
  }

  /** In every run at all, nodes and chunks suffice. */
  lemma {:induction false} RunWithin(lim: Limits, ops: seq<Op>)
    ensures WithinLimits(Run(lim, ops).cache, lim) && Sized(Run(lim, ops).cache)
    decreases |ops|
  {
    hide WithinLimits, Set, Sized, MarkClean, Drop, Touch, Fits, Lookup, DumpOf, ClearsLog, Replay, Recover, ReadBack;
    NothingWithin(lim);
    NothingSized();
    if ops != [] {
      var op, s := ops[|ops| - 1], Run(lim, ops[..|ops| - 1]);
      RunWithin(lim, ops[..|ops| - 1]);
      var k := if op.OpDump? || op.OpCrash? then ZERO_KEY else op.key;
      var v := if op.OpSet? || op.OpSetClean? then op.value else [];
      StepsStayWithin(s.cache, lim, k, v, |v|, true);
      StepsStayWithin(s.cache, lim, k, v, |v|, false);
      DropStaysWithin(s.cache, lim, k);
      StepsStaySized(s.cache, lim, k, v);
      RecoverWithin([], lim, ReadBack(s.dump));
      RecoverSized([], lim, ReadBack(s.dump));
      ReplayWithin(Recover([], lim, ReadBack(s.dump)), lim, s.log);
    }
  }

  lemma NothingSized()
    ensures Sized([])
  {
  }

  lemma NothingIsSound(lim: Limits)
    ensures Sound(System([], [], []), lim)
  {
  }

  lemma {:induction false} RunIsSound(lim: Limits, ops: seq<Op>)
    requires Coherent(lim, ops)
    ensures Sound(Run(lim, ops), lim)
    decreases |ops|
  {
    hide Sound, Agrees, Step, DumpOf, ClearsLog, WithinLimits, Sized;
    if ops == [] {
      NothingIsSound(lim);
    } else {
      var front, op := ops[..|ops| - 1], ops[|ops| - 1];
      if op.OpDump? {
        RunWithin(lim, front);
        DumpAgrees(Run(lim, front), lim);
        DumpIsSound(Run(lim, front), lim);
      } else {
        RunIsSound(lim, front);
        StepKeepsSound(Run(lim, front), lim, op);
      }
    }
  }

  lemma DumpAgrees(s: System, lim: Limits)
    ensures Agrees(s, OpDump, lim) <==> ClearsLog(DumpOf(s.cache))
  {
  }

  /** The files hold a non-empty value of k that no later logged delete removes. */
  ghost predicate OnFile(dump: seq<CacheEntry>, log: seq<LogRec>, k: Key)
    decreases |log|
  {
    if log == [] then exists i :: 0 <= i < |dump| && dump[i].key == k && dump[i].value != []
    else
      var before, rec := log[..|log| - 1], log[|log| - 1];
      if rec.key != k || rec.LogClean? then OnFile(dump, before, k)
      else if rec.LogDel? then false
      else rec.value != [] || OnFile(dump, before, k)
  }

  /** Setting makes a key present, unless the value is empty and the key was not there. */
  lemma SetPresence(es: seq<CacheEntry>, lim: Limits, k: Key, v: seq<byte>, j: Key)
    requires DistinctKeys(es) && (v != [] ==> Fits(es, lim, k, |v|))
    ensures Lookup(SetDirty(es, lim, k, v), j).Some? <==> Lookup(es, j).Some? || (j == k && v != [])
    ensures DistinctKeys(SetDirty(es, lim, k, v))
  {
    hide Used, Without, ToFront, IndexOf;
    LookupAfter(es, lim, k, v, |v|, true, j);
    var i := IndexOf(es, k);
    if i >= 0 { FrontDistinct(es, Entry(k, v, |v|, true), i); }
  }

  lemma FrontDistinct(es: seq<CacheEntry>, e: CacheEntry, i: nat)
    requires DistinctKeys(es) && i < |es| && es[i].key == e.key
    ensures DistinctKeys([e] + Without(es, i)) && DistinctKeys(ToFront(es, i))
  {
    hide Without;
    WithoutDistinctKeys(es, i);
  }

  lemma {:induction false} RecoverPresence(es: seq<CacheEntry>, lim: Limits, recs: seq<CacheEntry>, k: Key)
    requires DistinctKeys(es) && RecoverSucceeds(es, lim, recs)
    ensures Lookup(Recover(es, lim, recs), k).Some? <==> Lookup(es, k).Some? || OnFile(recs, [], k)
    ensures DistinctKeys(Recover(es, lim, recs))
    decreases |recs|
  {
    if recs != [] {
      SetPresence(es, lim, recs[0].key, recs[0].value, k);
      RecoverPresence(SetDirty(es, lim, recs[0].key, recs[0].value), lim, recs[1..], k);
      assert OnFile(recs, [], k) <==> (recs[0].key == k && recs[0].value != []) || OnFile(recs[1..], [], k) by {
        assert forall i :: 0 < i < |recs| ==> recs[i] == recs[1..][i - 1];
        assert forall i :: 0 <= i < |recs| - 1 ==> recs[1..][i] == recs[i + 1];
      }
    }
  }

  lemma {:induction false} ReplayPresence(lim: Limits, recs: seq<CacheEntry>, log: seq<LogRec>, k: Key)
    requires RecoverSucceeds([], lim, recs) && ReplaySucceeds(Recover([], lim, recs), lim, log)
    ensures Lookup(Replay(Recover([], lim, recs), lim, log), k).Some? <==> OnFile(recs, log, k)
    ensures DistinctKeys(Replay(Recover([], lim, recs), lim, log))
    decreases |log|
  {
    hide Lookup, Fits, Recover, RecoverSucceeds, ReplayOne, DistinctKeys;
    var base := Recover([], lim, recs);
    if log == [] {
      NothingThere(k);
      RecoverPresence([], lim, recs, k);
    } else {
      var before, rec := log[..|log| - 1], log[|log| - 1];
      ReplayPresence(lim, recs, before, k);
      PresenceStep(Replay(base, lim, before), lim, rec, k);
    }
  }

  /** What one replayed record does to the presence of a key. */
  lemma PresenceStep(es: seq<CacheEntry>, lim: Limits, rec: LogRec, k: Key)
    requires DistinctKeys(es) && (rec.LogSet? && rec.value != [] ==> Fits(es, lim, rec.key, |rec.value|))
    ensures DistinctKeys(ReplayOne(es, lim, rec))
    ensures Lookup(ReplayOne(es, lim, rec), k).Some? <==>
            if rec.key != k || rec.LogClean? then Lookup(es, k).Some?
            else if rec.LogDel? then false
            else rec.value != [] || Lookup(es, k).Some?
  {
    hide Lookup, Fits, SetDirty;
    match rec
    case LogSet(j, v) => SetPresence(es, lim, j, v, k);
    case LogClean(j) =>
      LookupAfter(es, lim, j, [], 0, true, k);
      if IndexOf(es, j) >= 0 { WithoutDistinctKeys(es, IndexOf(es, j)); }
    case LogDel(j) =>
      LookupDrop(es, j, k);
      if IndexOf(es, j) >= 0 { WithoutDistinctKeys(es, IndexOf(es, j)); }
  }

  lemma NothingThere(k: Key)
    ensures Lookup<Key, seq<byte>>([], k).None? && DistinctKeys<Key, seq<byte>>([])
  {
  }

  /** Exactly which keys come back after a coherent run: those with a non-empty value on file. */
  lemma RebuiltKeys(lim: Limits, ops: seq<Op>, k: Key)
    requires Coherent(lim, ops)
    ensures var s := Run(lim, ops);
      Lookup(Rebuilt(s, lim), k).Some? <==> OnFile(ReadBack(s.dump), s.log, k)
  {
    hide Run, Lookup, ReadBack, OnFile, Sound, Coherent;
    RunIsSound(lim, ops);
    OnFileIsRebuilt(Run(lim, ops), lim, k);
  }

  /** The last record of k in the log. */
  ghost function LastRecord(log: seq<LogRec>, k: Key): Option<LogRec> {
    if log == [] then None
    else if log[|log| - 1].key == k then Some(log[|log| - 1])
    else LastRecord(log[..|log| - 1], k)
  }

  /** What the log says of the flag of an entry that comes back: dirty, unless the last record of its key cleans it. */
  ghost predicate FlagFromLog(log: seq<LogRec>, e: CacheEntry) {
    match LastRecord(log, e.key)
    case None => e.dirty
    case Some(LogSet(_, _)) => e.dirty
    case Some(LogClean(_)) => !e.dirty
    case Some(LogDel(_)) => false
  }

  lemma {:induction false} RecoveredAreDirty(es: seq<CacheEntry>, lim: Limits, recs: seq<CacheEntry>, k: Key)
    requires DistinctKeys(es) && RecoverSucceeds(es, lim, recs)
    requires Lookup(es, k).Some? ==> Lookup(es, k).value.dirty
    ensures Lookup(Recover(es, lim, recs), k).Some? ==> Lookup(Recover(es, lim, recs), k).value.dirty
    decreases |recs|
  {
    hide Lookup, Fits, Set, DistinctKeys;
    if recs != [] {
      var j, v := recs[0].key, recs[0].value;
      LookupAfter(es, lim, j, v, |v|, true, k);
      SetPresence(es, lim, j, v, k);
      RecoveredAreDirty(SetDirty(es, lim, j, v), lim, recs[1..], k);
    }
  }

  /** An entry that is there can always be emptied. */
  lemma EmptyFits(es: seq<CacheEntry>, lim: Limits, k: Key)
    requires WithinLimits(es, lim) && Lookup(es, k).Some?
    ensures Fits(es, lim, k, 0)
  {
  }

  lemma LastRecordSnoc(log: seq<LogRec>, rec: LogRec, k: Key)
    ensures LastRecord(log + [rec], k) == if rec.key == k then Some(rec) else LastRecord(log, k)
  {
    assert (log + [rec])[..|log|] == log;
  }

  /** What one replayed record does to an entry. */
  lemma ReplayedEntry(es: seq<CacheEntry>, lim: Limits, rec: LogRec, k: Key)
    requires WithinLimits(es, lim) && (rec.LogSet? && rec.value != [] ==> Fits(es, lim, rec.key, |rec.value|))
    ensures var was, now := Lookup(es, k), Lookup(ReplayOne(es, lim, rec), k);
      && (rec.key != k ==> now == was)
      && (rec.key == k && now.Some? ==> now.value.key == k && !rec.LogDel? && now.value.dirty == rec.LogSet?)
  {
    hide Lookup, Fits, Set, Drop, MarkClean, WithinLimits;
    WithinIsDistinct(es, lim);
    LookupMember(ReplayOne(es, lim, rec), k);
    match rec
    case LogSet(j, v) =>
      LookupAfter(es, lim, j, v, |v|, true, k);
      if Lookup(es, k).Some? {
        EmptyFits(es, lim, k);
      }
    case LogClean(j) => LookupAfter(es, lim, j, [], 0, true, k);
    case LogDel(j) => LookupDrop(es, j, k);
  }

  lemma FlagStep(es: seq<CacheEntry>, lim: Limits, log: seq<LogRec>, rec: LogRec, k: Key)
    requires WithinLimits(es, lim) && (rec.LogSet? && rec.value != [] ==> Fits(es, lim, rec.key, |rec.value|))
    requires Lookup(es, k).Some? ==> FlagFromLog(log, Lookup(es, k).value)
    ensures var r := ReplayOne(es, lim, rec);
      Lookup(r, k).Some? ==> FlagFromLog(log + [rec], Lookup(r, k).value)
  {
    hide Lookup, Fits, ReplayOne, WithinLimits, LastRecord;
    LookupMember(es, k);
    ReplayedEntry(es, lim, rec, k);
    LastRecordSnoc(log, rec, k);
  }

  lemma {:induction false} ReplayFlags(lim: Limits, recs: seq<CacheEntry>, log: seq<LogRec>, k: Key)
    requires RecoverSucceeds([], lim, recs) && ReplaySucceeds(Recover([], lim, recs), lim, log)
    ensures var r := Replay(Recover([], lim, recs), lim, log);
      Lookup(r, k).Some? ==> FlagFromLog(log, Lookup(r, k).value)
    decreases |log|
  {
    hide Lookup, Fits, Recover, RecoverSucceeds, ReplayOne, DistinctKeys, WithinLimits, FlagFromLog, Sized;
    var base := Recover([], lim, recs);
    NothingThere(k);
    NothingWithin(lim);
    NothingSized();
    if log == [] {
      RecoveredAreDirty([], lim, recs, k);
      FlagAtStart(base, k);
    } else {
      var before, rec := log[..|log| - 1], log[|log| - 1];
      ReplayFlags(lim, recs, before, k);
      RecoverWithin([], lim, recs);
      RecoverSized([], lim, recs);
      ReplayWithin(base, lim, before);
      FlagStep(Replay(base, lim, before), lim, before, rec, k);
      assert before + [rec] == log;
    }
  }

  lemma FlagAtStart(es: seq<CacheEntry>, k: Key)
    requires Lookup(es, k).Some? ==> Lookup(es, k).value.dirty
    ensures Lookup(es, k).Some? ==> FlagFromLog([], Lookup(es, k).value)
  {
  }

  /** The flag of every entry that comes back after a coherent run. */
  lemma RebuiltFlags(lim: Limits, ops: seq<Op>, k: Key)
    requires Coherent(lim, ops)
    ensures var s := Run(lim, ops);
      Lookup(Rebuilt(s, lim), k).Some? ==> FlagFromLog(s.log, Lookup(Rebuilt(s, lim), k).value)
  {
    hide Run, Lookup, ReadBack, OnFile, Coherent, FlagFromLog, RecoverSucceeds, ReplaySucceeds, Covers;
    RunIsSound(lim, ops);
    var s := Run(lim, ops);
    ReplayFlags(lim, ReadBack(s.dump), s.log, k);
  }

  /** Without dumps, and if every operation is logged, the log brings the cache back as it was, order and flags too. */
  ghost predicate OnlyLogged(lim: Limits, ops: seq<Op>)
    decreases |ops|
  {
    ops == [] ||
    var front, op := ops[..|ops| - 1], ops[|ops| - 1];
    && (op.OpSet? || op.OpDel? || op.OpClean? || op.OpCrash?)
    && (op.OpSet? ==> Fits(Run(lim, front).cache, lim, op.key, |op.value|))
    && OnlyLogged(lim, front)
  }

  lemma {:induction false} LogAloneIsExact(lim: Limits, ops: seq<Op>)
    requires OnlyLogged(lim, ops)
    ensures Rebuilt(Run(lim, ops), lim) == Run(lim, ops).cache && Run(lim, ops).dump == []
    decreases |ops|
  {
    hide Fits, Lookup, SetDirty, Drop, MarkClean, Recover;
    RecoverNothing(lim);
    ReplayNothing([], lim);
    if ops != [] {
      var front, op := ops[..|ops| - 1], ops[|ops| - 1];
      LogAloneIsExact(lim, front);
      var s := Run(lim, front);
      match op
      case OpSet(k, v) => ReplaySnoc([], lim, s.log, LogSet(k, v));
      case OpDel(k) => ReplaySnoc([], lim, s.log, LogDel(k));
      case OpClean(k) => ReplaySnoc([], lim, s.log, LogClean(k));
      case OpCrash =>
    }
  }

  lemma RecoverNothing(lim: Limits)
    ensures Recover([], lim, ReadBack([])) == []
  {
  }

  /**
   Crash recovery: after any coherent run, with any number of crashes in it, rebuilding the cache never
   fails to insert a non-empty value, and every rebuilt entry has the value of the lost cache.
   A dirty entry comes back as it was exactly if the files hold a non-empty value of it.
   */
  lemma DirtyComesBack(lim: Limits, ops: seq<Op>, k: Key)
    requires Coherent(lim, ops)
    ensures var s := Run(lim, ops);
      && RecoverSucceeds([], lim, ReadBack(s.dump))
      && ReplaySucceeds(Recover([], lim, ReadBack(s.dump)), lim, s.log)
      && (Lookup(Rebuilt(s, lim), k).Some? ==>
            Lookup(s.cache, k).Some? && Lookup(s.cache, k).value.value == Lookup(Rebuilt(s, lim), k).value.value)
      && (Lookup(s.cache, k).Some? && Lookup(s.cache, k).value.dirty ==>
            (Lookup(Rebuilt(s, lim), k) == Some(Lookup(s.cache, k).value) <==> OnFile(ReadBack(s.dump), s.log, k)))
  {
    hide Run, Rebuilt, ReadBack, OnFile, RecoverSucceeds, ReplaySucceeds, Small, Coherent;
    RunIsSound(lim, ops);
    RebuiltKeys(lim, ops, k);
  }

  lemma WithoutSmall(es: seq<CacheEntry>, i: nat, maxLen: int)
    requires Small(es, maxLen) && i < |es|
    ensures Small(Without(es, i), maxLen)
  {
    assert forall j :: 0 <= j < |es| - 1 ==> Without(es, i)[j] == es[if j < i then j else j + 1];
  }

  lemma StepsStaySmall(es: seq<CacheEntry>, lim: Limits, k: Key, v: seq<byte>, maxLen: int)
    requires Small(es, maxLen) && |v| <= maxLen
    ensures Small(Touch(es, k), maxLen) && Small(Drop(es, k), maxLen) && Small(MarkClean(es, k), maxLen)
    ensures Small(SetDirty(es, lim, k, v), maxLen) && Small(SetClean(es, lim, k, v), maxLen)
  {
    hide Fits, IndexOf, Without;
    var i := IndexOf(es, k);
    if i >= 0 {
      WithoutSmall(es, i, maxLen);
    }
  }

  ghost predicate SmallLog(log: seq<LogRec>, maxLen: int) {
    forall i :: 0 <= i < |log| && log[i].LogSet? ==> |log[i].value| <= maxLen
  }

  lemma {:induction false} RecoverStaysSmall(es: seq<CacheEntry>, lim: Limits, recs: seq<CacheEntry>, maxLen: int)
    requires Small(es, maxLen) && Small(recs, maxLen) && Sized(recs)
    ensures Small(Recover(es, lim, recs), maxLen)
    decreases |recs|
  {
    if recs != [] {
      StepsStaySmall(es, lim, recs[0].key, recs[0].value, maxLen);
      RecoverStaysSmall(SetDirty(es, lim, recs[0].key, recs[0].value), lim, recs[1..], maxLen);
    }
  }

  lemma {:induction false} ReplayStaysSmall(es: seq<CacheEntry>, lim: Limits, log: seq<LogRec>, maxLen: nat)
    requires Small(es, maxLen) && SmallLog(log, maxLen)
    ensures Small(Replay(es, lim, log), maxLen)
    decreases |log|
  {
    if log != [] {
      var rec := log[|log| - 1];
      ReplayStaysSmall(es, lim, log[..|log| - 1], maxLen);
      StepsStaySmall(Replay(es, lim, log[..|log| - 1]), lim, rec.key, if rec.LogSet? then rec.value else [], maxLen);
    }
  }

  /** No value of the state is longer than maxLen. */
  ghost predicate SmallSystem(s: System, maxLen: int) {
    Small(s.cache, maxLen) && Small(s.dump, maxLen) && Sized(s.dump) && SmallLog(s.log, maxLen)
  }

  lemma DumpStaysSmall(es: seq<CacheEntry>, maxLen: int)
    requires Small(es, maxLen) && Sized(es)
    ensures Small(DumpList(es), maxLen) && Sized(DumpList(es)) && Small(DumpOf(es), maxLen) && Sized(DumpOf(es))
  {
    hide DumpList, TakeFitting;
    DumpedMembers(es);
    var d := DumpList(es);
    forall i | 0 <= i < |d| ensures d[i].len <= maxLen && d[i].len == |d[i].value| {
      assert d[i] in es;
    }
    TakenPrefix(d, Binlogs.MAX_BINLOG_ITEM_LEN);
  }

  lemma RebuiltStaysSmall(s: System, lim: Limits, maxLen: nat)
    requires SmallSystem(s, maxLen)
    ensures Small(Rebuilt(s, lim), maxLen)
  {
    hide Recover, Replay, TakeFitting;
    TakenPrefix(s.dump, RECOVER_BUF_SIZE);
    RecoverStaysSmall([], lim, ReadBack(s.dump), maxLen);
    ReplayStaysSmall(Recover([], lim, ReadBack(s.dump)), lim, s.log, maxLen);
  }

  ghost predicate SmallOps(ops: seq<Op>, maxLen: int) {
    forall i :: 0 <= i < |ops| && (ops[i].OpSet? || ops[i].OpSetClean?) ==> |ops[i].value| <= maxLen
  }

  lemma {:induction false} RunStaysSmall(lim: Limits, ops: seq<Op>, maxLen: nat)
    requires SmallOps(ops, maxLen)
    ensures SmallSystem(Run(lim, ops), maxLen)
    decreases |ops|
  {
    hide Touch, Drop, MarkClean, SetDirty, SetClean, Fits, Lookup, Rebuilt, DumpOf, Small, ClearsLog, WithinLimits;
    if ops == [] {
      NothingSmall(maxLen);
    } else {
      var front, op := ops[..|ops| - 1], ops[|ops| - 1];
      RunStaysSmall(lim, front, maxLen);
      RunWithin(lim, front);
      var s := Run(lim, front);
      var k := if op.OpDump? || op.OpCrash? then ZERO_KEY else op.key;
      StepsStaySmall(s.cache, lim, k, if op.OpSet? || op.OpSetClean? then op.value else [], maxLen);
      DumpStaysSmall(s.cache, maxLen);
      RebuiltStaysSmall(s, lim, maxLen);
    }
  }

  lemma NothingSmall(maxLen: int)
    ensures Small([], maxLen)
  {
  }

  lemma {:induction false} RunKeepsData(lim: Limits, ops: seq<Op>)
    requires SmallOps(ops, RECOVER_BUF_SIZE) && Coherent(lim, ops)
    ensures KeepsData(Rebuilt(Run(lim, ops), lim), Run(lim, ops).cache)
    decreases |ops|
  {
    hide Sound, Agrees, Step, DumpOf, ClearsLog, WithinLimits, Sized, KeepsData, Rebuilt, Small;
    if ops == [] {
      NothingKept(lim);
    } else {
      var front, op := ops[..|ops| - 1], ops[|ops| - 1];
      if op.OpDump? {
        RunWithin(lim, front);
        RunStaysSmall(lim, front, RECOVER_BUF_SIZE);
        DumpAgrees(Run(lim, front), lim);
        DumpIsSound(Run(lim, front), lim);
        DumpKeepsCache(Run(lim, front), lim);
      } else {
        RunKeepsData(lim, front);
        RunIsSound(lim, front);
        StepKeepsSound(Run(lim, front), lim, op);
      }
    }
  }

  lemma NothingKept(lim: Limits)
    ensures KeepsData(Rebuilt(System([], [], []), lim), [])
  {
  }

  lemma DumpKeepsCache(s: System, lim: Limits)
    ensures Step(s, lim, OpDump).cache == s.cache
  {
  }

  /** If no value set is longer than recovery can read, no coherent run loses a non-empty dirty entry. */
  lemma CrashLosesNoDirtyData(lim: Limits, ops: seq<Op>, k: Key)
    requires SmallOps(ops, RECOVER_BUF_SIZE) && Coherent(lim, ops)
    ensures var s := Run(lim, ops);
      && ReadBack(s.dump) == s.dump
      && (Lookup(s.cache, k).Some? && Lookup(s.cache, k).value.dirty && Lookup(s.cache, k).value.value != [] ==>
            Lookup(Rebuilt(s, lim), k) == Some(Lookup(s.cache, k).value))
  {
    hide Run, Rebuilt, RecoverSucceeds, ReplaySucceeds, TakeFitting, Small, Coherent;
    RunIsSound(lim, ops);
    RunKeepsData(lim, ops);
    RunStaysSmall(lim, ops, RECOVER_BUF_SIZE);
    TakeAll(Run(lim, ops).dump, RECOVER_BUF_SIZE);
  }

  /** An entry that was emptied and then dumped is not on file: it is dirty before the crash and gone after it. */
  lemma EmptiedEntryIsLost(k: Key)
    ensures var lim, ops := Limits(1, 1, 1), [OpSet(k, [7]), OpSet(k, []), OpDump];
      && Lookup(Run(lim, ops).cache, k) == Some(Entry(k, [], 0, true))
      && Lookup(Run(lim, ops + [OpCrash]).cache, k) == None
  {
    hide Run, Rebuilt, SetDirty, Fits, Touch, Lookup, DumpOf, ClearsLog;
    var lim, a, b, c := Limits(1, 1, 1), OpSet(k, [7]), OpSet(k, []), OpDump;
    var e, f := Entry(k, [7], 1, true), Entry(k, [], 0, true);
    RunNothing(lim);
    RunSnoc(lim, [], a);
    RunSnoc(lim, [a], b);
    RunSnoc(lim, [a, b], c);
    RunSnoc(lim, [a, b, c], OpCrash);
    assert [] + [a] == [a] && [a] + [b] == [a, b] && [a, b] + [c] == [a, b, c];
    OneEntry(k, [7], lim);
    OtherEntry(k, [7], [], lim);
    OnlyEntry(f);
    assert Step(System([], [], []), lim, a).cache == [e];
    assert Step(Run(lim, [a]), lim, b).cache == [f];
    assert Run(lim, [a, b, c]) == System([f], [f], []);
    RebuiltFromEmpty(k, lim);
  }

  /** A cache of one node and one chunk takes one value. */
  lemma OneEntry(k: Key, v: seq<byte>, lim: Limits)
    requires lim.nodes == lim.chunks == 1 && 0 < |v| <= lim.chunkSize
    ensures Fits<Key, seq<byte>>([], lim, k, |v|) && SetDirty([], lim, k, v) == [Entry(k, v, |v|, true)]
  {
  }

  /** And another one for it. */
  lemma OtherEntry(k: Key, w: seq<byte>, v: seq<byte>, lim: Limits)
    requires lim.nodes == lim.chunks == 1 && |v| <= lim.chunkSize && 0 < |w| <= lim.chunkSize
    ensures var e := Entry(k, w, |w|, true);
              Fits([e], lim, k, |v|) && SetDirty([e], lim, k, v) == [Entry(k, v, |v|, true)]
  {
    var e := Entry(k, w, |w|, true);
    assert [e][1..] == [];
    assert Used([e], lim.chunkSize) == 1 && IndexOf([e], k) == 0;
    assert Without([e], 0) == [];
  }

  lemma OnlyEntry(e: CacheEntry)
    requires e.len <= Binlogs.MAX_BINLOG_ITEM_LEN
    ensures DumpOf([e]) == [e] && ClearsLog([e]) && Lookup([e], e.key) == Some(e)
    ensures Lookup<Key, seq<byte>>([], e.key) == None
  {
    assert [e][1..] == [];
    assert DumpList([e]) == [e];
    assert TakeFitting([e], Binlogs.MAX_BINLOG_ITEM_LEN) == [e] + TakeFitting([], Binlogs.MAX_BINLOG_ITEM_LEN);
    assert DumpSize([e]) == HEAD_LEN + e.len + DumpSize([]);
  }

  lemma RebuiltFromEmpty(k: Key, lim: Limits)
    ensures var f := Entry(k, [], 0, true); Rebuilt(System([f], [f], []), lim) == []
  {
    var f: CacheEntry := Entry(k, [], 0, true);
    assert [f][1..] == [];
    assert TakeFitting([f], RECOVER_BUF_SIZE) == [f] + TakeFitting([], RECOVER_BUF_SIZE) == [f];
    assert SetDirty([], lim, k, []) == [];
    assert Recover([], lim, [f]) == Recover([], lim, []) == [];
  }

  lemma RunNothing(lim: Limits)
    ensures Run(lim, []) == System([], [], [])
  {
  }

  lemma RunSnoc(lim: Limits, ops: seq<Op>, op: Op)
    ensures Run(lim, ops + [op]) == Step(Run(lim, ops), lim, op)
  {
    hide Step;
    assert (ops + [op])[..|ops|] == ops;
  }

  /** A value longer than recovery can read, but not than can be logged, is lost the same way, once it is dumped. */
  lemma LongEntryIsLost(k: Key, v: seq<byte>)
    requires |v| == RECOVER_BUF_SIZE + 1
    ensures var lim, ops := Limits(1, 1, RECOVER_BUF_SIZE + 1), [OpSet(k, v), OpDump];
      && Lookup(Run(lim, ops).cache, k) == Some(Entry(k, v, |v|, true))
      && Lookup(Run(lim, ops + [OpCrash]).cache, k) == None
  {
    hide Run, Rebuilt, SetDirty, Fits, Touch, Lookup, DumpOf, ClearsLog;
    var lim, a, b := Limits(1, 1, RECOVER_BUF_SIZE + 1), OpSet(k, v), OpDump;
    var e := Entry(k, v, |v|, true);
    RunNothing(lim);
    RunSnoc(lim, [], a);
    RunSnoc(lim, [a], b);
    RunSnoc(lim, [a, b], OpCrash);
    assert [] + [a] == [a] && [a] + [b] == [a, b];
    OneEntry(k, v, lim);
    assert Step(System([], [], []), lim, a).cache == [e];
    OnlyEntry(e);
    assert Run(lim, [a, b]) == System([e], [e], []);
    RebuiltFromLong(e, lim);
  }

  lemma RebuiltFromLong(e: CacheEntry, lim: Limits)
    requires e.len > RECOVER_BUF_SIZE
    ensures Rebuilt(System([e], [e], []), lim) == []
  {
    assert ReadBack([e]) == [];
    assert Recover([], lim, []) == [];
  }

  /**
   After any coherent run, a clean set that fits leaves recovery in agreement with the cache exactly if the run
   stays coherent.
   */
  lemma CleanSetExact(lim: Limits, ops: seq<Op>, k: Key, v: seq<byte>)
    requires Coherent(lim, ops) && Fits(Run(lim, ops).cache, lim, k, |v|)
    ensures var all := ops + [OpSetClean(k, v)];
      SubCache(Rebuilt(Run(lim, all), lim), Run(lim, all).cache) <==> Coherent(lim, all)
  {
    hide Run, Rebuilt, Sound, Lookup, OnFile, ReadBack, Fits, SetClean, SubCache;
    var s, op, all := Run(lim, ops), OpSetClean(k, v), ops + [OpSetClean(k, v)];
    assert all[..|all| - 1] == ops && all[|all| - 1] == op;
    RunIsSound(lim, ops);
    RunSnoc(lim, ops, op);
    OnFileIsRebuilt(s, lim, k);
    if Agrees(s, op, lim) {
      RunIsSound(lim, all);
      SoundAgrees(Run(lim, all), lim);
    } else {
      SetCleanValue(s, lim, k, v);
      RebuiltSame(s, lim, SetClean(s.cache, lim, k, v));
      NotSubCache(Rebuilt(s, lim), SetClean(s.cache, lim, k, v), k);
    }
  }

  lemma SoundAgrees(s: System, lim: Limits)
    requires Sound(s, lim)
    ensures SubCache(Rebuilt(s, lim), s.cache)
  {
  }

  lemma RebuiltSame(s: System, lim: Limits, c: seq<CacheEntry>)
    ensures Rebuilt(s.(cache := c), lim) == Rebuilt(s, lim)
  {
  }

  lemma SetCleanValue(s: System, lim: Limits, k: Key, v: seq<byte>)
    requires Sound(s, lim) && Fits(s.cache, lim, k, |v|)
    ensures Lookup(SetClean(s.cache, lim, k, v), k) == Some(Entry(k, v, |v|, false))
  {
    LookupAfter(s.cache, lim, k, v, |v|, false, k);
  }

  lemma NotSubCache(r: seq<CacheEntry>, c: seq<CacheEntry>, k: Key)
    requires Lookup(r, k).Some? && Lookup(c, k).Some? && Lookup(r, k).value.value != Lookup(c, k).value.value
    ensures !SubCache(r, c)
  {
    hide Lookup;
  }

  /**
   A key on file that is set clean to less: its old value comes back, takes the room of another dirty entry,
   and that one is lost.
   */
  lemma CleanSetLosesData(a: Key, b: Key)
    requires a != b
    ensures var lim, ops := Limits(2, 2, 1), [OpSet(a, [7, 7]), OpSetClean(a, [7]), OpSet(b, [7])];
      && Lookup(Run(lim, ops).cache, b) == Some(Entry(b, [7], 1, true))
      && Lookup(Run(lim, ops + [OpCrash]).cache, b) == None
  {
    hide Run, SetDirty, SetClean, Fits, Touch, Lookup, Rebuilt;
    var lim, p, q, r := Limits(2, 2, 1), OpSet(a, [7, 7]), OpSetClean(a, [7]), OpSet(b, [7]);
    RunNothing(lim);
    RunSnoc(lim, [], p);
    RunSnoc(lim, [p], q);
    RunSnoc(lim, [p, q], r);
    RunSnoc(lim, [p, q, r], OpCrash);
    assert [] + [p] == [p] && [p] + [q] == [p, q] && [p, q] + [r] == [p, q, r];
    TwoEntries(a, b, lim);
    ReplayTwo(a, b, lim);
    var e: CacheEntry, f: CacheEntry := Entry(b, [7], 1, true), Entry(a, [7], 1, false);
    var log := [LogSet(a, [7, 7]), LogSet(b, [7])];
    assert [e] + [f] == [e, f];
    assert Run(lim, [p]) == System([Entry(a, [7, 7], 2, true)], [], [LogSet(a, [7, 7])]);
    assert Run(lim, [p, q]) == System([f], [], [LogSet(a, [7, 7])]);
    assert Run(lim, [p, q, r]) == System([e, f], [], log);
    RebuiltSame(System([], [], log), lim, [e, f]);
  }

  lemma TwoEntries(a: Key, b: Key, lim: Limits)
    requires a != b && lim == Limits(2, 2, 1)
    ensures Fits<Key, seq<byte>>([], lim, a, 2) && SetDirty([], lim, a, [7, 7]) == [Entry(a, [7, 7], 2, true)]
    ensures SetClean([Entry(a, [7, 7], 2, true)], lim, a, [7]) == [Entry(a, [7], 1, false)]
    ensures var c := [Entry(a, [7], 1, false)];
              Fits(c, lim, b, 1) && SetDirty(c, lim, b, [7]) == [Entry(b, [7], 1, true)] + c
    ensures var c := [Entry(a, [7, 7], 2, true)]; SetDirty(c, lim, b, [7]) == c && Lookup(c, b) == None
    ensures var e: CacheEntry, f: CacheEntry := Entry(b, [7], 1, true), Entry(a, [7], 1, false);
              Lookup([e, f], b) == Some(e)
  {
    var c, d := [Entry(a, [7, 7], 2, true)], [Entry(a, [7], 1, false)];
    assert Without(c, 0) == [];
    assert ChunkNum(1, 1) == 1 && ChunkNum(2, 1) == 2;
    UsedByOne(c[0], 1);
    UsedByOne(d[0], 1);
  }

  lemma UsedByOne(e: CacheEntry, size: Positive)
    ensures Used([e], size) == ChunkNum(e.len, size)
  {
    assert [e][1..] == [];
  }

  lemma ReplayTwo(a: Key, b: Key, lim: Limits)
    requires a != b && lim == Limits(2, 2, 1)
    ensures var s := System([], [], [LogSet(a, [7, 7]), LogSet(b, [7])]); Rebuilt(s, lim) == [Entry(a, [7, 7], 2, true)]
  {
    hide SetDirty, Fits;
    TwoEntries(a, b, lim);
    var x, y := LogSet(a, [7, 7]), LogSet(b, [7]);
    assert [x, y][..1] == [x] && [x][..0] == [];
    assert ReadBack([]) == [] && Recover([], lim, []) == [];
    assert Replay([], lim, []) == [];
    assert Replay([], lim, [x]) == ReplayOne([], lim, x);
  }
}
