/** Whole runs of the real cache, crashes included, follow the recovery model step by step. */
module CrashRuns {
  import opened Options
  import opened Bytes
  import opened ChunkAllocators
  import opened RecencyMaps
  import opened HashMaps
  import opened Binlogs
  import opened Recovery
  import opened Codec
  import opened CacheAccesses
  import LargeDumps

  /** The longest value that can be logged. */
  const VALUE_LIMIT: nat := MAX_BINLOG_ITEM_LEN - 36

  /** The longest one that can be replayed too. */
  function LogLimit(lim: Limits): nat {
    if LenLimit(lim.chunkSize) < VALUE_LIMIT then LenLimit(lim.chunkSize) else VALUE_LIMIT
  }

  /** Logging is on, and dump and log can be read back; without dumping there is no dump. */
  ghost predicate Replayable(c: CacheAccess)
    reads c, c.Repr()
  {
    && c.Valid() && c.dumpMin >= 0 && (c.dumpMin == 0 ==> c.dumped == [])
    && Small(c.dumped, LenLimit(c.Lim().chunkSize))
    && GoodLog(c.binlog.history, LogLimit(c.Lim()))
  }

  ghost predicate GoodLog(history: seq<LogRecord>, limit: int) {
    && Readable(history, MAX_BINLOG_ITEM_LEN) && SmallLog(DecodeAll(history), limit) && limit <= VALUE_LIMIT
    && FileSize(history) == LogBytes(DecodeAll(history))
  }

  /** The bytes that records take in the log files. */
  ghost function LogBytes(log: seq<LogRec>): nat {
    if log == [] then 0
    else
      var rec := log[|log| - 1];
      LogBytes(log[..|log| - 1]) + RECORD_HEAD + (if rec.LogSet? then 28 + |rec.value| else 20)
  }

  /** All along the run, the log since the last dump is smaller than the log files together. */
  ghost predicate FitsLog(lim: Limits, ops: seq<Op>, logSize: int, logNum: int) {
    forall i :: 0 <= i <= |ops| ==> LogBytes(Run(lim, ops[..i]).log) < LogCapacity(logNum, logSize)
  }

  /** The demands of set: the length can be computed with, and a dirty value fits the buffers of the log. */
  predicate OpInLimits(op: Op, lim: Limits) {
    && (op.OpSet? ==> Loggable(|op.value|) && LenOk(|op.value|, lim.chunkSize))
    && (op.OpSetClean? ==> LenOk(|op.value|, lim.chunkSize))
  }

  /** What the operations come to: without dumping, a check of the time does nothing. */
  function Effective(ops: seq<Op>, dumpMin: int): seq<Op>
    decreases |ops|
  {
    if ops == [] then []
    else
      Effective(ops[..|ops| - 1], dumpMin)
      + (if dumpMin == 0 && ops[|ops| - 1].OpDump? then [] else [ops[|ops| - 1]])
  }

  lemma {:induction false} EffectiveAll(ops: seq<Op>, dumpMin: int)
    requires dumpMin != 0
    ensures Effective(ops, dumpMin) == ops
    decreases |ops|
  {
    if ops != [] {
      EffectiveAll(ops[..|ops| - 1], dumpMin);
    }
  }

  lemma {:induction false} EffectivePrefix(ops: seq<Op>, dumpMin: int, i: nat)
    requires i <= |ops|
    ensures Effective(ops[..i], dumpMin) <= Effective(ops, dumpMin)
    decreases |ops|
  {
    if i == |ops| {
      assert ops[..i] == ops;
    } else {
      EffectivePrefix(ops[..|ops| - 1], dumpMin, i);
      assert ops[..|ops| - 1][..i] == ops[..i];
    }
  }

  /** Setting an empty value twice is setting it once. */
  lemma SetEmptyTwice(es: seq<CacheEntry>, lim: Limits, k: Key)
    requires WithinLimits(es, lim)
    ensures SetDirty(SetDirty(es, lim, k, []), lim, k, []) == SetDirty(es, lim, k, [])
  {
    var once := SetDirty(es, lim, k, []);
    StepsStayWithin(es, lim, k, [], 0, true);
    if IndexOf(es, k) >= 0 {
      DropStaysWithin(es, lim, k);
      assert Fits(es, lim, k, 0);
      assert once == [Entry(k, [], 0, true)] + Drop(es, k);
      DropStaysWithin(once, lim, k);
      assert IndexOf(once, k) == 0 && Drop(once, k) == Drop(es, k);
      assert Fits(once, lim, k, 0);
    }
  }

  lemma {:induction false} RecoverSnoc(es: seq<CacheEntry>, lim: Limits, recs: seq<CacheEntry>)
    requires recs != [] && WithinLimits(es, lim)
    ensures var last, before := recs[|recs| - 1], Recover(es, lim, recs[..|recs| - 1]);
      Recover(es, lim, recs) == SetDirty(before, lim, last.key, last.value) && WithinLimits(before, lim)
    decreases |recs|
  {
    hide Fits, Set, WithinLimits;
    if |recs| > 1 {
      var es' := SetDirty(es, lim, recs[0].key, recs[0].value);
      StepsStayWithin(es, lim, recs[0].key, recs[0].value, |recs[0].value|, true);
      RecoverSnoc(es', lim, recs[1..]);
      assert recs[1..][..|recs| - 2] == recs[..|recs| - 1][1..];
    }
  }

  /** On an empty cache the extra round of core_recover changes nothing. */
  lemma OnceMoreIsHarmless(lim: Limits, recs: seq<CacheEntry>, garbage: Key)
    requires Short(recs)
    ensures OnceMore(Recover([], lim, recs), lim, recs, garbage) == Recover([], lim, recs)
  {
    if recs != [] && recs[|recs| - 1].len == 0 {
      RecoverSnoc([], lim, recs);
      SetEmptyTwice(Recover([], lim, recs[..|recs| - 1]), lim, recs[|recs| - 1].key);
    }
  }

  /** So core_recover rebuilds what it reads of the dump. */
  lemma FromDumpOnEmpty(lim: Limits, recs: seq<CacheEntry>, garbage: Key)
    requires Short(recs)
    ensures FromDump([], lim, recs, garbage) == Recover([], lim, ReadBack(recs))
  {
    hide Recover, OnceMore, Small, TakeFitting, Short, OnDisk;
    if Small(recs, RECOVER_BUF_SIZE) {
      TakeAll(recs, RECOVER_BUF_SIZE);
      OnceMoreIsHarmless(lim, recs, garbage);
    }
  }

  lemma SizeGrows(history: seq<LogRecord>, log: seq<LogRec>, rec: LogRec)
    requires FileSize(history) == LogBytes(log) && (rec.LogSet? ==> |rec.value| < 0x1_0000_0000)
    ensures FileSize(history + [EncodeLog(rec)]) == LogBytes(log + [rec])
  {
    hide EncodeLog;
    assert (history + [EncodeLog(rec)])[..|history|] == history;
    assert (log + [rec])[..|log|] == log;
  }

  lemma HistoryGrows(history: seq<LogRecord>, limit: int, rec: LogRec)
    requires GoodLog(history, limit) && (rec.LogSet? ==> |rec.value| <= limit)
    ensures var h := history + [EncodeLog(rec)]; GoodLog(h, limit) && DecodeAll(h) == DecodeAll(history) + [rec]
  {
    hide DecodeAll, EncodeLog, FileSize, LogBytes, DecodeLog;
    LogRoundTrip(rec);
    DecodeSnoc(history, rec);
    SizeGrows(history, DecodeAll(history), rec);
  }

  lemma {:induction false} DecodeAppend(a: seq<LogRecord>, b: seq<LogRecord>)
    ensures DecodeAll(a + b) == DecodeAll(a) + DecodeAll(b)
    decreases |b|
  {
    if b == [] {
      assert a + b == a;
    } else {
      var b' := b[..|b| - 1];
      assert (a + b)[..|a + b| - 1] == a + b';
      DecodeAppend(a, b');
    }
  }

  lemma SuffixReadable(a: seq<LogRecord>, b: seq<LogRecord>, limit: int)
    requires Readable(a + b, MAX_BINLOG_ITEM_LEN) && SmallLog(DecodeAll(a + b), limit)
    ensures Readable(b, MAX_BINLOG_ITEM_LEN) && SmallLog(DecodeAll(b), limit)
  {
    hide DecodeLog, DecodeAll;
    DecodeAppend(a, b);
    assert forall i :: 0 <= i < |b| ==> b[i] == (a + b)[|a| + i];
    var x, y := DecodeAll(a), DecodeAll(b);
    assert forall i :: 0 <= i < |y| ==> y[i] == (x + y)[|x| + i];
  }

  /** A crash and the restart after it: a new cache is rebuilt from the files. */
  method Restart(c: CacheAccess, garbage: Key) returns (d: CacheAccess)
    requires Replayable(c)
    modifies c.binlog`reader, c.binlog`readIdx
    ensures Replayable(d) && d.Lim() == c.Lim() && d.binlog == c.binlog && fresh(d.Repr() - {c.binlog})
    ensures d.dumped == c.dumped && d.dumpMin == c.dumpMin
    ensures c.binlog.dropped == [] ==> d.Sys() == Step(old(c.Sys()), c.Lim(), OpCrash)
  {
    hide HashMap.Valid, HashMap.View, Serialize, Short, OnDisk, Small, Readable, SmallLog, Recover, Replay, FromDump,
      ReadBack, DecodeAll, FileSize, LogBytes;
    ghost var lim := c.Lim();
    SuffixReadable(c.binlog.dropped, c.binlog.Surviving(), LogLimit(lim));
    SmallLogs(DecodeAll(c.binlog.Surviving()), lim);
    c.ShortDump();
    d := new CacheAccess.Reopened(c.binlog, c.dumpFile, c.dumped,
      c.cache.nodeTotal, c.cache.bucketSize, c.cache.alloc.chunkTotal, c.cache.alloc.chunkSize, c.dumpMin);
    FromDumpOnEmpty(lim, c.dumped, garbage);
    ReadBackSmall(c.dumped, lim);
    assert c.binlog.dropped == [] ==> c.binlog.Surviving() == c.binlog.history;
    var _ := d.StartUp(garbage);
  }

  lemma SmallLogs(log: seq<LogRec>, lim: Limits)
    requires SmallLog(log, LogLimit(lim))
    ensures SmallLog(log, LenLimit(lim.chunkSize))
  {
  }

  lemma ReadBackSmall(recs: seq<CacheEntry>, lim: Limits)
    requires Small(recs, LenLimit(lim.chunkSize))
    ensures Small(ReadBack(recs), LenLimit(lim.chunkSize))
    ensures recs == [] ==> Recover([], lim, ReadBack(recs)) == []
  {
    TakenPrefix(recs, RECOVER_BUF_SIZE);
  }

  /** Every operation of the real cache is the step of the model. */
  method Perform(c: CacheAccess, op: Op, garbage: Key) returns (d: CacheAccess)
    requires Replayable(c) && OpInLimits(op, c.Lim())
    modifies c.Repr()
    ensures Replayable(d) && d.Lim() == c.Lim() && d.binlog == c.binlog && d.dumpMin == old(c.dumpMin)
    ensures forall o :: o in d.Repr() ==> o in c.Repr() || fresh(o)
    ensures (op.OpCrash? ==> old(c.binlog.dropped) == []) ==>
      d.Sys() == if op.OpDump? && old(c.dumpMin) == 0 then old(c.Sys()) else Step(old(c.Sys()), c.Lim(), op)
    ensures c.binlog.Roomy() && old(c.binlog.dropped) == [] ==> c.binlog.dropped == []
  {
    hide HashMap.Valid, HashMap.View, Serialize, Short, OnDisk, Small, Readable, SmallLog, Replay, DecodeAll, EncodeLog,
      IndexOf, RecencyMaps.Set, Touch, Drop, RecencyMaps.MarkClean, Fits, DumpOf, ClearsLog, BinLog.Valid, BinLog.Roomy,
      FileSize, LogBytes, GoodLog, Loggable;
    d := c;
    ghost var es, history, lim := c.View(), c.binlog.history, c.Lim();
    assert history + [] == history;
    match op
    case OpSet(k, v) =>
      LoggableLengths(|v|);
      SetWhenFull(es, lim, k, v);
      HistoryGrows(history, LogLimit(lim), LogSet(k, v));
      var _ := c.Set(k, v, true);
    case OpSetClean(k, v) =>
      var _ := c.Set(k, v, false);
    case OpGet(k) =>
      var _, _, _ := c.GetKey(k);
    case OpDel(k) =>
      Missing(es, k);
      HistoryGrows(history, LogLimit(lim), LogDel(k));
      var _ := c.Del(k);
    case OpClean(k) =>
      Missing(es, k);
      HistoryGrows(history, LogLimit(lim), LogClean(k));
      var _ := c.MarkClean(k);
    case OpDump =>
      c.EntriesSized();
      DumpStaysSmall(es, LenLimit(lim.chunkSize));
      EmptyLog(LogLimit(lim));
      var _ := c.TimeCheck(true);
    case OpCrash =>
      d := Restart(c, garbage);
  }

  lemma EmptyLog(limit: int)
    requires limit <= VALUE_LIMIT
    ensures GoodLog([], limit) && DecodeAll([]) == []
  {
  }

  /**
   Any run of the real cache from its creation, crashes included, is the run of the model
   as long as the log since the last dump fits the log files.
   */
  method Execute(nodes: nat, buckets: Positive, chunks: nat, chunkSize: Positive, logSize: int, logNum: int,
                 dumpMin: int, ops: seq<Op>, garbage: Key)
    returns (c: CacheAccess)
    requires logNum >= 1 && dumpMin >= 0
    requires forall i :: 0 <= i < |ops| ==> OpInLimits(ops[i], Limits(nodes, chunks, chunkSize))
    ensures Replayable(c) && c.Lim() == Limits(nodes, chunks, chunkSize)
    ensures FitsLog(c.Lim(), Effective(ops, dumpMin), logSize, logNum) ==>
      c.binlog.dropped == [] && c.Sys() == Run(c.Lim(), Effective(ops, dumpMin))
    ensures fresh(c.Repr())
  {
    hide HashMap.Valid, HashMap.View, Serialize, Short, OnDisk, Small, Readable, SmallLog, DecodeAll, Step,
      BinLog.Valid, FileSize, LogBytes, FitsLog, Run, LogCapacity, CacheAccess.Repr, HashMap.Repr, OpInLimits,
      Effective;
    ghost var lim := Limits(nodes, chunks, chunkSize);
    EmptyLog(LogLimit(lim));
    NothingSmall(LenLimit(chunkSize));
    c := new CacheAccess(nodes, buckets, chunks, chunkSize, logSize, logNum, dumpMin);
    assert ops[..0] == [];
    RunNothing(lim);
    NothingDone(dumpMin);
    for i := 0 to |ops|
      invariant fresh(c.Repr()) && Replayable(c) && c.Lim() == lim && c.dumpMin == dumpMin
      invariant c.binlog.maxLogSize == logSize && c.binlog.maxLogNum == logNum
      invariant FitsLog(lim, Effective(ops, dumpMin), logSize, logNum) ==>
        c.binlog.dropped == [] && c.Sys() == Run(lim, Effective(ops[..i], dumpMin))
    {
      EffectiveStep(lim, ops, dumpMin, i);
      EffectivePrefix(ops, dumpMin, i + 1);
      FitsAt(lim, Effective(ops, dumpMin), logSize, logNum, |Effective(ops[..i + 1], dumpMin)|);
      assert Effective(ops, dumpMin)[..|Effective(ops[..i + 1], dumpMin)|] == Effective(ops[..i + 1], dumpMin);
      c := Perform(c, ops[i], garbage);
    }
    assert ops[..|ops|] == ops;
  }

  lemma NothingDone(dumpMin: int)
    ensures Effective([], dumpMin) == []
  {
  }

  lemma EffectiveStep(lim: Limits, ops: seq<Op>, dumpMin: int, i: nat)
    requires i < |ops|
    ensures var before, after := Run(lim, Effective(ops[..i], dumpMin)), Run(lim, Effective(ops[..i + 1], dumpMin));
      after == if dumpMin == 0 && ops[i].OpDump? then before else Step(before, lim, ops[i])
  {
    hide Run, Step;
    var all := ops[..i + 1];
    assert all[..|all| - 1] == ops[..i] && all[|all| - 1] == ops[i];
    assert Effective(ops[..i], dumpMin) + [] == Effective(ops[..i], dumpMin);
    RunSnoc(lim, Effective(ops[..i], dumpMin), ops[i]);
  }

  lemma FitsAt(lim: Limits, ops: seq<Op>, logSize: int, logNum: int, i: nat)
    requires i <= |ops|
    ensures FitsLog(lim, ops, logSize, logNum) ==> LogBytes(Run(lim, ops[..i]).log) < LogCapacity(logNum, logSize)
  {
    hide Run, LogBytes, LogCapacity;
  }

  /**
   What comes back after a crash: exactly what is on file, with the value that it had and the flag that the log
   gives it; what was dirty comes back as it was.
   */
  ghost predicate Restored(s: System, rebuilt: seq<CacheEntry>) {
    && (forall k :: Lookup(rebuilt, k).Some? <==> OnFile(ReadBack(s.dump), s.log, k))
    && (forall k :: Lookup(rebuilt, k).Some? ==>
          && Lookup(s.cache, k).Some? && Lookup(s.cache, k).value.value == Lookup(rebuilt, k).value.value
          && FlagFromLog(s.log, Lookup(rebuilt, k).value))
    && (forall k :: Lookup(s.cache, k).Some? && Lookup(s.cache, k).value.dirty ==>
          (Lookup(rebuilt, k) == Some(Lookup(s.cache, k).value) <==> OnFile(ReadBack(s.dump), s.log, k)))
  }

  /** Every non-empty dirty entry comes back. */
  ghost predicate NothingLost(lost: seq<CacheEntry>, rebuilt: seq<CacheEntry>) {
    forall k :: Lookup(lost, k).Some? && Lookup(lost, k).value.dirty && Lookup(lost, k).value.value != [] ==>
      Lookup(rebuilt, k) == Some(Lookup(lost, k).value)
  }

  lemma RunIsRestored(lim: Limits, ops: seq<Op>)
    requires Coherent(lim, ops)
    ensures Restored(Run(lim, ops), Rebuilt(Run(lim, ops), lim))
    ensures SmallOps(ops, RECOVER_BUF_SIZE) ==> NothingLost(Run(lim, ops).cache, Rebuilt(Run(lim, ops), lim))
  {
    hide Run, Rebuilt, Lookup, OnFile, ReadBack, RecoverSucceeds, ReplaySucceeds, SmallOps, Coherent, FlagFromLog;
    var s := Run(lim, ops);
    forall k: Key
      ensures Lookup(Rebuilt(s, lim), k).Some? <==> OnFile(ReadBack(s.dump), s.log, k)
      ensures Lookup(Rebuilt(s, lim), k).Some? ==>
        && Lookup(s.cache, k).Some? && Lookup(s.cache, k).value.value == Lookup(Rebuilt(s, lim), k).value.value
        && FlagFromLog(s.log, Lookup(Rebuilt(s, lim), k).value)
      ensures Lookup(s.cache, k).Some? && Lookup(s.cache, k).value.dirty ==>
        (Lookup(Rebuilt(s, lim), k) == Some(Lookup(s.cache, k).value) <==> OnFile(ReadBack(s.dump), s.log, k))
    {
      DirtyComesBack(lim, ops, k);
      RebuiltKeys(lim, ops, k);
      RebuiltFlags(lim, ops, k);
    }
    if SmallOps(ops, RECOVER_BUF_SIZE) {
      forall k: Key | Lookup(s.cache, k).Some? && Lookup(s.cache, k).value.dirty && Lookup(s.cache, k).value.value != []
        ensures Lookup(Rebuilt(s, lim), k) == Some(Lookup(s.cache, k).value)
      {
        CrashLosesNoDirtyData(lim, ops, k);
      }
    }
  }

  /** Crash recovery of the real cache, after any coherent run. */
  method ExecuteAndCrash(nodes: nat, buckets: Positive, chunks: nat, chunkSize: Positive, logSize: int, logNum: int,
                         dumpMin: int, ops: seq<Op>, garbage: Key)
    returns (lost: CacheAccess, rebuilt: CacheAccess)
    requires logNum >= 1 && dumpMin >= 0
    requires forall i :: 0 <= i < |ops| ==> OpInLimits(ops[i], Limits(nodes, chunks, chunkSize))
    ensures Replayable(rebuilt) && lost.Lim() == rebuilt.Lim() == Limits(nodes, chunks, chunkSize)
    ensures var done := Effective(ops, dumpMin);
      FitsLog(lost.Lim(), done, logSize, logNum) && Coherent(lost.Lim(), done) ==>
        Restored(lost.Sys(), rebuilt.View())
        && (SmallOps(done, RECOVER_BUF_SIZE) ==> NothingLost(lost.View(), rebuilt.View()))
    ensures var done := Effective(ops, dumpMin);
      FitsLog(lost.Lim(), done, logSize, logNum) && OnlyLogged(lost.Lim(), done) ==> rebuilt.View() == lost.View()
  {
    hide HashMap.Valid, HashMap.View, Serialize, Short, OnDisk, Small, Readable, SmallLog, DecodeAll, BinLog.Valid,
      FileSize, LogBytes, FitsLog, Run, Recover, Replay, Restored, NothingLost, SmallOps, GoodLog, Rebuilt, OpInLimits,
      Coherent, Effective, OnlyLogged;
    lost := Execute(nodes, buckets, chunks, chunkSize, logSize, logNum, dumpMin, ops, garbage);
    rebuilt := Restart(lost, garbage);
    if Coherent(lost.Lim(), Effective(ops, dumpMin)) {
      RunIsRestored(lost.Lim(), Effective(ops, dumpMin));
    }
    if OnlyLogged(lost.Lim(), Effective(ops, dumpMin)) {
      LogAloneIsExact(lost.Lim(), Effective(ops, dumpMin));
    }
  }

  lemma {:induction false} LogBytesBound(log: seq<LogRec>, limit: nat)
    requires SmallLog(log, limit)
    ensures LogBytes(log) <= |log| * (limit + 36)
  {
    if log != [] {
      LogBytesBound(log[..|log| - 1], limit);
      assert |log| * (limit + 36) == (|log| - 1) * (limit + 36) + (limit + 36);
    }
  }

  lemma {:induction false} LogLengthBound(lim: Limits, ops: seq<Op>)
    ensures |Run(lim, ops).log| <= |ops|
    decreases |ops|
  {
    hide DumpOf, ClearsLog, Fits, Lookup, Rebuilt, Touch, Drop, RecencyMaps.MarkClean, SetDirty, SetClean;
    if ops != [] {
      LogLengthBound(lim, ops[..|ops| - 1]);
    }
  }

  /** The cache takes the run of LargeDumps: every set is in the limits, and the log fits four files of 2 GB. */
  lemma LargeRunIsTaken(v: LargeDumps.Values)
    requires v.Valid()
    ensures var ops := LargeDumps.BeforeDump(v) + [OpDump];
      && (forall i :: 0 <= i < |ops| ==> OpInLimits(ops[i], LargeDumps.LARGE_LIMITS))
      && FitsLog(LargeDumps.LARGE_LIMITS, ops, TWO_31 - 1, 4)
  {
    hide Run, LogBytes, LargeDumps.BeforeDump, Loggable;
    var ops := LargeDumps.BeforeDump(v) + [OpDump];
    LargeDumps.SmallRun(v);
    LargeDumps.RunLength(v);
    forall i | 0 <= i < |ops| ensures OpInLimits(ops[i], LargeDumps.LARGE_LIMITS) {
      if ops[i].OpSet? {
        LoggableLengths(|ops[i].value|);
      }
    }
    forall i | 0 <= i <= |ops|
      ensures LogBytes(Run(LargeDumps.LARGE_LIMITS, ops[..i]).log) < LogCapacity(4, TWO_31 - 1)
    {
      var log := Run(LargeDumps.LARGE_LIMITS, ops[..i]).log;
      RunStaysSmall(LargeDumps.LARGE_LIMITS, ops[..i], RECOVER_BUF_SIZE);
      LogLengthBound(LargeDumps.LARGE_LIMITS, ops[..i]);
      LogBytesBound(log, RECOVER_BUF_SIZE);
      assert |log| * (RECOVER_BUF_SIZE + 36) <= 70 * (RECOVER_BUF_SIZE + 36);
    }
  }
}
