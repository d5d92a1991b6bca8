/** A cache copied bucket by bucket, clean entries included. */
module BucketCopies {
  import opened Options
  import opened Bytes
  import opened ChunkAllocators
  import opened RecencyMaps
  import opened HashMaps
  import opened Recovery
  import opened Codec
  import opened CacheAccesses

  /** What is in r are the entries of c in the buckets below i, all dirty. */
  ghost predicate CopiedUpTo(r: seq<CacheEntry>, c: seq<CacheEntry>, i: int, buckets: Positive) {
    forall k :: Lookup(r, k) == CopyOf(c, k, i, buckets)
  }

  ghost function CopyOf(c: seq<CacheEntry>, k: Key, i: int, buckets: Positive): Option<CacheEntry> {
    if BucketId(k, buckets) < i then Dirtied(Lookup(c, k)) else None
  }

  /** The entry, if there is one, with its dirty flag set. */
  function Dirtied(e: Option<CacheEntry>): Option<CacheEntry> {
    if e.Some? then Some(e.value.(dirty := true)) else None
  }

  /** Every entry, dirty, and nothing else. */
  ghost predicate Copied(r: seq<CacheEntry>, c: seq<CacheEntry>) {
    forall k :: Lookup(r, k) == Dirtied(Lookup(c, k))
  }

  /** Records that all fit replace what was under their keys. */
  lemma {:induction false} RecoverLookup(r: seq<CacheEntry>, lim: Limits, recs: seq<CacheEntry>, k: Key)
    requires DistinctKeys(r) && DistinctKeys(recs) && Sized(recs) && AllFit(r, lim, recs)
    ensures Lookup(Recover(r, lim, recs), k) ==
      if Lookup(recs, k).Some? then Dirtied(Lookup(recs, k)) else Lookup(r, k)
    decreases |recs|
  {
    hide Fits, Lookup, Set, DistinctKeys;
    NothingThere(k);
    if recs != [] {
      var e, rest := recs[0], recs[1..];
      assert recs == [e] + rest;
      LookupPush(rest, e, k);
      HeadIsNew(recs);
      NotAmong(rest, e.key);
      LookupAfter(r, lim, e.key, e.value, |e.value|, true, k);
      SetPresence(r, lim, e.key, e.value, k);
      RecoverLookup(SetDirty(r, lim, e.key, e.value), lim, rest, k);
    }
  }

  lemma NotAmong(es: seq<CacheEntry>, k: Key)
    requires forall e :: e in es ==> e.key != k
    ensures Lookup(es, k) == None
  {
  }

  /** One bucket more. */
  lemma BucketCopied(r: seq<CacheEntry>, c: seq<CacheEntry>, lim: Limits, bs: seq<CacheEntry>, i: nat,
                     buckets: Positive)
    requires WithinLimits(r, lim) && WithinLimits(c, lim) && Sized(c) && CopiedUpTo(r, c, i, buckets)
    requires NoneEmpty(c)
    requires DistinctKeys(bs) && forall e :: e in bs <==> e in c && BucketId(e.key, buckets) == i
    ensures AllFit(r, lim, bs) && WithinLimits(Recover(r, lim, bs), lim)
    ensures CopiedUpTo(Recover(r, lim, bs), c, i + 1, buckets)
    ensures Sized(bs) && forall j :: 0 <= j < |bs| ==> bs[j].value != [] && bs[j] in c
  {
    hide Fits, Lookup, Set, DistinctKeys, WithinLimits, Recover, AllFit, BucketId, RecoverSucceeds;
    WithinIsDistinct(c, lim);
    WithinIsDistinct(r, lim);
    forall j | 0 <= j < |bs|
      ensures Lookup(c, bs[j].key) == Some(bs[j]) && bs[j].len == |bs[j].value| > 0 && bs[j] in c
    {
      assert bs[j] in bs;
      var p :| 0 <= p < |c| && c[p] == bs[j];
      LookupAt(c, p);
    }
    assert SubCache(r, c) by {
      assert forall k :: Lookup(r, k) == CopyOf(c, k, i, buckets);
    }
    RecoverKeeps(r, c, lim, bs);
    SucceedsIsAllFit(r, lim, bs);
    forall k ensures Lookup(Recover(r, lim, bs), k) == CopyOf(c, k, i + 1, buckets) {
      assert Lookup(r, k) == CopyOf(c, k, i, buckets);
      RecoverLookup(r, lim, bs, k);
      BucketLookup(c, bs, i, buckets, k);
    }
  }

  /** The bucket list finds what the cache finds, for its own keys. */
  lemma BucketLookup(c: seq<CacheEntry>, bs: seq<CacheEntry>, i: nat, buckets: Positive, k: Key)
    requires DistinctKeys(bs) && DistinctKeys(c) && forall e :: e in bs <==> e in c && BucketId(e.key, buckets) == i
    ensures Lookup(bs, k) == if BucketId(k, buckets) == i then Lookup(c, k) else None
  {
    hide BucketId, DistinctKeys, Lookup;
    LookupMember(c, k);
    LookupMember(bs, k);
    if Lookup(bs, k).Some? {
      FoundAt(c, Lookup(bs, k).value);
    } else if Lookup(c, k).Some? && BucketId(k, buckets) == i {
      FoundAt(bs, Lookup(c, k).value);
    }
  }

  /** A dump is not cut short. */
  lemma {:induction false} WholeDump(es: seq<CacheEntry>)
    requires Short(es)
    ensures !CutShort(Serialize(es))
    decreases |es|
  {
    hide EncodeU32, DecodeU32, EncodeEntry;
    if es != [] {
      var e, rest := es[0], es[1..];
      assert es == [e] + rest;
      SerializeCons(e, rest);
      EntrySlices(e, Serialize(rest));
      CutCases(Serialize(es));
      WholeDump(rest);
    } else {
      CutCases([]);
    }
  }

  lemma {:induction false} AllFitPrefix(es: seq<CacheEntry>, lim: Limits, recs: seq<CacheEntry>, n: nat)
    requires n <= |recs| && AllFit(es, lim, recs)
    ensures AllFit(es, lim, recs[..n])
    decreases |recs|
  {
    hide Fits, Set;
    if n > 0 {
      AllFitPrefix(SetDirty(es, lim, recs[0].key, recs[0].value), lim, recs[1..], n - 1);
      assert recs[..n][1..] == recs[1..][..n - 1];
    }
  }

  /** The keys that are there belong to the buckets up to i, and none has an empty value. */
  ghost predicate FilledBelow(r: seq<CacheEntry>, i: int, buckets: Positive) {
    forall k :: Lookup(r, k).Some? ==> BucketId(k, buckets) < i && Lookup(r, k).value.value != []
  }

  lemma {:induction false} RecoverFills(r: seq<CacheEntry>, lim: Limits, recs: seq<CacheEntry>, i: nat,
                                        buckets: Positive)
    requires WithinLimits(r, lim) && FilledBelow(r, i + 1, buckets) && DistinctKeys(recs)
    requires forall j :: 0 <= j < |recs| ==> BucketId(recs[j].key, buckets) == i && Lookup(r, recs[j].key) == None
    ensures FilledBelow(Recover(r, lim, recs), i + 1, buckets)
    decreases |recs|
  {
    hide Fits, Lookup, Set, DistinctKeys, WithinLimits, BucketId;
    if recs != [] {
      var e, rest := recs[0], recs[1..];
      var r' := SetDirty(r, lim, e.key, e.value);
      assert recs == [e] + rest;
      HeadIsNew(recs);
      WithinIsDistinct(r, lim);
      StepsStayWithin(r, lim, e.key, e.value, |e.value|, true);
      EmptyNeedsKey(r, lim, e.key);
      assert BucketId(recs[0].key, buckets) == i && Lookup(r, recs[0].key) == None;
      forall k ensures Lookup(r', k).Some? ==> BucketId(k, buckets) < i + 1 && Lookup(r', k).value.value != [] {
        LookupAfter(r, lim, e.key, e.value, |e.value|, true, k);
      }
      forall j | 0 <= j < |rest| ensures BucketId(rest[j].key, buckets) == i && Lookup(r', rest[j].key) == None {
        assert recs[j + 1] == rest[j] && rest[j] in rest;
        LookupAfter(r, lim, e.key, e.value, |e.value|, true, rest[j].key);
      }
      RecoverFills(r', lim, rest, i, buckets);
    }
  }

  lemma EmptyNeedsKey(es: seq<CacheEntry>, lim: Limits, k: Key)
    requires Lookup(es, k) == None
    ensures !Fits(es, lim, k, 0)
  {
  }

  lemma NotYet(r: seq<CacheEntry>, k: Key, i: nat, buckets: Positive)
    requires FilledBelow(r, i, buckets) && BucketId(k, buckets) == i
    ensures Lookup(r, k) == None
  {
  }

  /** What one bucket leaves behind, if any number of its records is set. */
  lemma BucketFills(r: seq<CacheEntry>, c: seq<CacheEntry>, lim: Limits, bs: seq<CacheEntry>, m: nat, i: nat,
                    buckets: Positive)
    requires WithinLimits(r, lim) && FilledBelow(r, i, buckets) && DistinctKeys(bs)
    requires forall e :: e in bs ==> BucketId(e.key, buckets) == i
    requires m <= |Recoverable(bs)| == |AllDirty(Recoverable(bs))|
    ensures FilledBelow(Recover(r, lim, AllDirty(Recoverable(bs))[..m]), i + 1, buckets)
  {
    hide Lookup, Recover, WithinLimits, BucketId;
    var recs := Recoverable(bs)[..m];
    assert recs == bs[..m];
    assert AllDirty(Recoverable(bs))[..m] == AllDirty(recs);
    forall j | 0 <= j < |recs| ensures BucketId(recs[j].key, buckets) == i && Lookup(r, recs[j].key) == None {
      assert recs[j] in bs;
      NotYet(r, recs[j].key, i, buckets);
    }
    RecoverAllDirty(r, lim, recs);
    RecoverFills(r, lim, recs, i, buckets);
  }

  ghost predicate AllMayBeLogged(es: seq<CacheEntry>, logged: bool) {
    logged ==> forall i :: 0 <= i < |es| ==> Loggable(|es[i].value|)
  }

  lemma RecoverableParts(bs: seq<CacheEntry>, limit: nat, logged: bool)
    requires Short(bs) && Small(bs, limit) && AllMayBeLogged(bs, logged)
    ensures var recs := AllDirty(Recoverable(bs));
      |recs| == |Recoverable(bs)| && Short(recs) && Small(recs, limit) && (logged ==> AllLoggable(recs))
    ensures NoneEmpty(bs) ==> Recoverable(bs) == bs
  {
    hide Loggable;
    AllDirtySmall(Recoverable(bs), limit);
    AllDirtyLoggable(Recoverable(bs));
  }

  /** The records of a bucket, as they are read back. */
  lemma BucketParsed(bs: seq<CacheEntry>, room: int, limit: nat, logged: bool)
    requires Short(bs) && Small(bs, limit) && limit < TWO_31 && DumpSize(bs) <= room && AllMayBeLogged(bs, logged)
    ensures Dumped(bs, room, -1, 0) == bs
    ensures var s, recs := Serialize(bs), AllDirty(Recoverable(bs));
      && Parse(s) == recs && SaneLengths(s) && !CutShort(s) && |recs| == |Recoverable(bs)|
      && Short(recs) && Small(recs, limit) && (logged ==> AllLoggable(recs))
    ensures NoneEmpty(bs) ==> Recoverable(bs) == bs
  {
    hide Serialize, Parse, SaneLengths, CutShort, Dumped, DumpSize, Selected, AllMayBeLogged, AllLoggable, NoneEmpty,
      AllDirty, Recoverable, Short;
    DumpedChosen(bs, room, -1, 0);
    ChosenMembers(bs, -1, 0);
    ParseSerialize(bs);
    WholeDump(bs);
    RecoverableParts(bs, limit, logged);
  }

  lemma EmptyCopied(c: seq<CacheEntry>, lim: Limits, buckets: Positive)
    ensures CopiedUpTo([], c, 0, buckets) && FilledBelow([], 0, buckets)
  {
  }

  /** If all records fit, none is refused. */
  lemma AllSet(es: seq<CacheEntry>, lim: Limits, recs: seq<CacheEntry>, n: nat)
    requires AllFit(es, lim, recs) && n <= |recs| && Short(recs)
    ensures n < |recs| ==> Fits(Recover(es, lim, recs[..n]), lim, recs[n].key, |recs[n].value|)
  {
    hide AllFit, Recover, Fits, DumpSize, SetRecords, EncodeLog;
    if n < |recs| {
      AllFitPrefix(es, lim, recs, n + 1);
      RecoverPrefix(es, lim, recs, n);
    }
  }

  /** What is there after n records of a bucket were set and the next one, if there is one, was refused. */
  lemma BucketOutcome(r: seq<CacheEntry>, c: seq<CacheEntry>, lim: Limits, bs: seq<CacheEntry>, n: nat, i: nat,
                      buckets: Positive)
    requires WithinLimits(r, lim) && FilledBelow(r, i, buckets)
    requires WithinLimits(c, lim) && Sized(c) && (NoneEmpty(c) ==> Recoverable(bs) == bs)
    requires DistinctKeys(bs) && forall e :: e in bs <==> e in c && BucketId(e.key, buckets) == i
    requires var recs := AllDirty(Recoverable(bs));
      && n <= |recs| == |Recoverable(bs)| && Short(recs)
      && (n < |recs| ==> !Fits(Recover(r, lim, recs[..n]), lim, recs[n].key, |recs[n].value|))
    ensures var recs := AllDirty(Recoverable(bs));
      var r' := Recover(r, lim, if n < |recs| then recs[..n + 1] else recs);
      && FilledBelow(r', i + 1, buckets)
      && (NoneEmpty(c) && CopiedUpTo(r, c, i, buckets) ==> n == |recs| && CopiedUpTo(r', c, i + 1, buckets))
  {
    hide Recover, AllFit, AllDirty, DumpSize, CopiedUpTo, Fits, Short, BucketId, WithinLimits, DistinctKeys,
      FilledBelow, NoneEmpty, Recoverable, Sized;
    var recs := AllDirty(Recoverable(bs));
    assert recs[..|recs|] == recs;
    BucketFills(r, c, lim, bs, if n < |recs| then n + 1 else |recs|, i, buckets);
    if NoneEmpty(c) && CopiedUpTo(r, c, i, buckets) {
      BucketCopied(r, c, lim, bs, i, buckets);
      RecoverAllDirty(r, lim, bs);
      AllSet(r, lim, recs, n);
    }
  }

  /** One bucket: dumped to the buffer, and recovered from it. */
  method CopyBucket(a: CacheAccess, b: CacheAccess, buff: array<byte>, i: nat) returns (ok: bool)
    requires a.Valid() && b.Valid() && a.Repr() !! b.Repr() && buff !in a.Repr() + b.Repr() && a.Lim() == b.Lim()
    requires i < a.cache.bucketSize && 0 < buff.Length && DumpSize(a.cache.BucketView(i)) <= buff.Length
    requires AllMayBeLogged(a.View(), b.dumpMin >= 0) && FilledBelow(b.View(), i, a.cache.bucketSize)
    modifies buff, b.Repr() - {b}
    ensures a.Valid() && b.Valid() && a.View() == old(a.View())
    ensures FilledBelow(b.View(), i + 1, a.cache.bucketSize)
    ensures NoneEmpty(a.View()) && old(CopiedUpTo(b.View(), a.View(), i, a.cache.bucketSize)) ==>
      ok && CopiedUpTo(b.View(), a.View(), i + 1, a.cache.bucketSize)
  {
    hide CacheAccess.Valid, CacheAccess.View, HashMap.BucketView, Dumped, Recover, AllFit, Serialize, Parse,
      SaneLengths, AllDirty, SetRecords, AllLoggable, DumpSize, CutShort, CopiedUpTo, Loggable, Fits, Short, Small,
      EncodeLog, BucketId, WithinLimits, DistinctKeys, FilledBelow, NoneEmpty, AllMayBeLogged, Recoverable, Sized,
      Lookup, KeyNumber;
    ghost var c, r, bs, lim := a.View(), b.View(), a.cache.BucketView(i), a.Lim();
    a.EntriesSized();
    b.EntriesSized();
    a.BucketEntries(i);
    BucketIsPart(c, bs, b.dumpMin >= 0, LenLimit(lim.chunkSize));
    BucketParsed(bs, buff.Length, LenLimit(lim.chunkSize), b.dumpMin >= 0);
    var ret, size := a.CoreDumpBucketMem(buff, buff.Length, i);
    var bytes := buff[..size];
    assert bytes[..size] == bytes;
    var ret', recovered;
    ghost var n;
    ret', recovered, n := b.CoreRecoverBucketMem(bytes, size);
    BucketOutcome(r, c, lim, bs, n, i, a.cache.bucketSize);
    ok := ret == 0 && ret' == 0;
  }

  lemma BucketIsPart(c: seq<CacheEntry>, bs: seq<CacheEntry>, logged: bool, limit: nat)
    requires AllMayBeLogged(c, logged) && Short(c) && Small(c, limit) && forall j :: 0 <= j < |bs| ==> bs[j] in c
    ensures AllMayBeLogged(bs, logged) && Short(bs) && Small(bs, limit) && (NoneEmpty(c) ==> NoneEmpty(bs))
  {
    hide Loggable;
    forall j | 0 <= j < |bs|
      ensures (logged ==> Loggable(|bs[j].value|)) && (NoneEmpty(c) ==> bs[j].value != [])
      ensures |bs[j].value| == bs[j].len < TWO_32 && bs[j].len <= limit
    {
      var i :| 0 <= i < |c| && c[i] == bs[j];
    }
  }

  /**
   Bucket after bucket into an empty cache of the same limits, up to a failure: every entry gets there with its value,
   and dirty, if and only if no value is empty.
   */
  method CopyByBuckets(a: CacheAccess, b: CacheAccess, buff: array<byte>) returns (ok: bool)
    requires a.Valid() && b.Valid() && a.Repr() !! b.Repr() && buff !in a.Repr() + b.Repr()
    requires b.View() == [] && a.Lim() == b.Lim() && AllMayBeLogged(a.View(), b.dumpMin >= 0)
    requires 0 < buff.Length
    requires forall i: nat :: i < a.cache.bucketSize ==> DumpSize(a.cache.BucketView(i)) <= buff.Length
    modifies buff, b.Repr() - {b}
    ensures a.Valid() && b.Valid() && a.View() == old(a.View())
    ensures ok && Copied(b.View(), a.View()) <==> NoneEmpty(a.View())
  {
    hide CacheAccess.Valid, CacheAccess.View, HashMap.BucketView, DumpSize, CopiedUpTo, AllMayBeLogged, WithinLimits,
      FilledBelow, NoneEmpty, Copied;
    ok := true;
    EmptyCopied(a.View(), a.Lim(), a.cache.bucketSize);
    for i := 0 to a.cache.bucketSize
      invariant ok && a.Valid() && b.Valid() && a.View() == old(a.View())
      invariant FilledBelow(b.View(), i, a.cache.bucketSize)
      invariant NoneEmpty(a.View()) ==> CopiedUpTo(b.View(), a.View(), i, a.cache.bucketSize)
    {
      assert a.cache.BucketView(i) == old(a.cache.BucketView(i));
      ok := CopyBucket(a, b, buff, i);
      if !ok {
        return;
      }
    }
    a.EntriesSized();
    AllCopied(b.View(), a.View(), a.Lim(), a.cache.bucketSize);
  }

  lemma AllCopied(r: seq<CacheEntry>, c: seq<CacheEntry>, lim: Limits, buckets: Positive)
    requires WithinLimits(c, lim) && FilledBelow(r, buckets, buckets)
    requires NoneEmpty(c) ==> CopiedUpTo(r, c, buckets, buckets)
    ensures Copied(r, c) <==> NoneEmpty(c)
  {
    hide Lookup, BucketId, WithinLimits, DistinctKeys;
    WithinIsDistinct(c, lim);
    if NoneEmpty(c) {
      forall k ensures Lookup(r, k) == Dirtied(Lookup(c, k)) {
        assert Lookup(r, k) == CopyOf(c, k, buckets, buckets);
      }
    } else {
      var i :| 0 <= i < |c| && c[i].value == [];
      LookupAt(c, i);
      assert Lookup(r, c[i].key).Some? ==> Lookup(r, c[i].key).value.value != [];
    }
  }
}
