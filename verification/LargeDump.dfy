/**
 A dump that the log outlives.  core_dump returns the size of the file as an int, so a dump of 2 GB is taken for a
 failure and the log stays; replayed over the newer dump, it brings an old value back.
 */
module LargeDumps {
  import opened Options
  import opened Bytes
  import opened ChunkAllocators
  import opened RecencyMaps
  import opened HashMaps
  import opened Binlogs
  import opened Recovery

  const FILLS := 64
  const FILL_LEN := 32 * 1024 * 1024
  const LARGE_LIMITS := Limits(67, 262, 8 * 1024 * 1024)

  /** A key for each small number. */
  function NumberedKey(n: byte): (k: Key)
    ensures k[0] == n
  {
    [n, 0, 0, 0, 0, 0, 0, 0, 0, 0, 0, 0, 0, 0, 0, 0]
  }

  /** The values of the run: one fills four chunks, the others take one, two and three. */
  datatype Values = Values(fill: seq<byte>, one: seq<byte>, two: seq<byte>, three: seq<byte>) {
    ghost predicate Valid() {
      |fill| == FILL_LEN && |one| == 1 && |two| == 8 * 1024 * 1024 + 1 && |three| == 16 * 1024 * 1024 + 1
    }
  }

  function Fill(n: nat, v: seq<byte>): (ops: seq<Op>)
    requires n <= FILLS
    ensures |ops| == n
  {
    if n == 0 then [] else Fill(n - 1, v) + [OpSet(NumberedKey(n - 1), v)]
  }

  function FillLog(n: nat, v: seq<byte>): seq<LogRec>
    requires n <= FILLS
  {
    if n == 0 then [] else FillLog(n - 1, v) + [LogSet(NumberedKey(n - 1), v)]
  }

  function X(): Key { NumberedKey(100) }
  function Y(): Key { NumberedKey(101) }
  function Z(): Key { NumberedKey(102) }

  /** What is set after the filling: x grows and y shrinks, so that z finds room. */
  function BeforeDump(v: Values): seq<Op> {
    Fill(FILLS, v.fill) + [OpSet(X(), v.one)] + [OpSet(Y(), v.three)] + [OpSet(X(), v.three)] + [OpSet(Y(), v.one)]
      + [OpSet(Z(), v.two)]
  }

  function LogOf(v: Values): seq<LogRec> {
    FillLog(FILLS, v.fill) + [LogSet(X(), v.one)] + [LogSet(Y(), v.three)] + [LogSet(X(), v.three)]
      + [LogSet(Y(), v.one)] + [LogSet(Z(), v.two)]
  }

  /** Some entries by key, and the chunks and bytes that they take. */
  datatype Load = Load(m: map<Key, seq<byte>>, chunks: int, bytes: int) {
    ghost function Entry(k: Key): Option<CacheEntry> {
      if k in m then Some(RecencyMaps.Entry(k, m[k], |m[k]|, true)) else None
    }

    ghost function Size(k: Key, size: Positive): nat {
      if k in m then ChunkNum(|m[k]|, size) else 0
    }

    /** With another value under k. */
    ghost function With(k: Key, v: seq<byte>): Load {
      Load(m[k := v], chunks - Size(k, LARGE_LIMITS.chunkSize) + ChunkNum(|v|, LARGE_LIMITS.chunkSize),
           bytes - Size(k, 1) + ChunkNum(|v|, 1))
    }
  }

  /** The cache holds these entries, all dirty, and nothing else. */
  ghost predicate Holds(es: seq<CacheEntry>, l: Load) {
    && WithinLimits(es, LARGE_LIMITS) && |es| == |l.m|
    && Used(es, LARGE_LIMITS.chunkSize) == l.chunks && Used(es, 1) == l.bytes
    && forall k :: Lookup(es, k) == l.Entry(k)
  }

  lemma UsedAfterSet(es: seq<CacheEntry>, lim: Limits, k: Key, v: seq<byte>, size: Positive)
    requires Fits(es, lim, k, |v|)
    ensures Used(SetDirty(es, lim, k, v), size) == UsedByOthers(es, k, size) + ChunkNum(|v|, size)
    ensures |SetDirty(es, lim, k, v)| == |es| + (if Lookup(es, k).None? then 1 else 0)
  {
    hide Fits, ChunkNum;
    var i := IndexOf(es, k);
    if i >= 0 {
      UsedWithout(es, i, size);
    }
    assert SetDirty(es, lim, k, v)[1..] == Drop(es, k);
  }

  lemma OthersUse(es: seq<CacheEntry>, l: Load, k: Key, size: Positive)
    requires Lookup(es, k) == l.Entry(k)
    ensures UsedByOthers(es, k, size) == Used(es, size) - l.Size(k, size) && (IndexOf(es, k) < 0 <==> k !in l.m)
  {
  }

  /** A value fits exactly if the chunks suffice. */
  lemma FitsLarge(es: seq<CacheEntry>, l: Load, k: Key, v: seq<byte>)
    requires Holds(es, l) && v != [] && (k in l.m || |l.m| < LARGE_LIMITS.nodes)
    ensures Fits(es, LARGE_LIMITS, k, |v|) <==> l.With(k, v).chunks <= LARGE_LIMITS.chunks
  {
    hide Used, ChunkNum, WithinLimits, UsedByOthers, Lookup, IndexOf, Load.Size, Load.Entry;
    assert Lookup(es, k) == l.Entry(k);
    OthersUse(es, l, k, LARGE_LIMITS.chunkSize);
  }

  lemma SetTotals(es: seq<CacheEntry>, l: Load, k: Key, v: seq<byte>)
    requires Holds(es, l) && Fits(es, LARGE_LIMITS, k, |v|)
    ensures var es', l' := SetDirty(es, LARGE_LIMITS, k, v), l.With(k, v);
      && |es'| == |l'.m| && Used(es', LARGE_LIMITS.chunkSize) == l'.chunks && Used(es', 1) == l'.bytes
  {
    hide Used, ChunkNum, WithinLimits, Fits, UsedByOthers, Lookup, IndexOf, Load.Size, SetDirty;
    assert Lookup(es, k) == l.Entry(k);
    UsedAfterSet(es, LARGE_LIMITS, k, v, LARGE_LIMITS.chunkSize);
    UsedAfterSet(es, LARGE_LIMITS, k, v, 1);
    OthersUse(es, l, k, LARGE_LIMITS.chunkSize);
    OthersUse(es, l, k, 1);
    OneMoreKey(l.m, k, v);
  }

  /** A set that fits: the entry is the new one. */
  lemma SetHolds(es: seq<CacheEntry>, l: Load, k: Key, v: seq<byte>)
    requires Holds(es, l) && Fits(es, LARGE_LIMITS, k, |v|)
    ensures Holds(SetDirty(es, LARGE_LIMITS, k, v), l.With(k, v))
  {
    hide Used, ChunkNum, WithinLimits, Set, Fits, Lookup, SetDirty, Load.With, Load.Entry;
    StepsStayWithin(es, LARGE_LIMITS, k, v, |v|, true);
    SetLookups(es, l, k, v);
    SetTotals(es, l, k, v);
  }

  lemma SetLookups(es: seq<CacheEntry>, l: Load, k: Key, v: seq<byte>)
    requires Holds(es, l) && Fits(es, LARGE_LIMITS, k, |v|)
    ensures forall j :: Lookup(SetDirty(es, LARGE_LIMITS, k, v), j) == l.With(k, v).Entry(j)
    ensures SetDirty(es, LARGE_LIMITS, k, v) == Set(es, LARGE_LIMITS, k, v, |v|, true)
  {
    hide Used, ChunkNum, WithinLimits, Set, Fits, Lookup, Load.Size;
    WithinIsDistinct(es, LARGE_LIMITS);
    forall j ensures Lookup(SetDirty(es, LARGE_LIMITS, k, v), j) == l.With(k, v).Entry(j) {
      LookupAfter(es, LARGE_LIMITS, k, v, |v|, true, j);
      assert Lookup(es, j) == l.Entry(j);
    }
  }

  lemma OneMoreKey(m: map<Key, seq<byte>>, k: Key, v: seq<byte>)
    ensures |m[k := v]| == |m| + (if k in m then 0 else 1)
  {
  }

  /** A set that does not: nothing changes. */
  lemma FullHolds(es: seq<CacheEntry>, l: Load, k: Key, v: seq<byte>)
    requires Holds(es, l) && !Fits(es, LARGE_LIMITS, k, |v|)
    ensures Holds(SetDirty(es, LARGE_LIMITS, k, v), l)
  {
    hide Used, WithinLimits, Set, Fits, Lookup, Touch;
    StepsStayWithin(es, LARGE_LIMITS, k, v, |v|, true);
    WithinIsDistinct(es, LARGE_LIMITS);
    SetWhenFull(es, LARGE_LIMITS, k, v);
    forall j ensures Lookup(Touch(es, k), j) == l.Entry(j) {
      LookupAfter(es, LARGE_LIMITS, k, v, |v|, true, j);
      assert Lookup(es, j) == l.Entry(j);
    }
    TouchUses(es, k, LARGE_LIMITS.chunkSize);
    TouchUses(es, k, 1);
  }

  lemma TouchUses(es: seq<CacheEntry>, k: Key, size: Positive)
    ensures Used(Touch(es, k), size) == Used(es, size)
  {
    var i := IndexOf(es, k);
    if i >= 0 {
      UsedWithout(es, i, size);
    }
  }

  /** A step of the run, and of the replay. */
  lemma LargeStep(s: System, l: Load, k: Key, v: seq<byte>)
    requires Holds(s.cache, l) && v != [] && (k in l.m || |l.m| < LARGE_LIMITS.nodes)
    requires l.With(k, v).chunks <= LARGE_LIMITS.chunks
    ensures var s' := Step(s, LARGE_LIMITS, OpSet(k, v));
      Holds(s'.cache, l.With(k, v)) && s'.dump == s.dump && s'.log == s.log + [LogSet(k, v)]
  {
    hide Holds, Fits, SetDirty, Load.With;
    FitsLarge(s.cache, l, k, v);
    SetHolds(s.cache, l, k, v);
  }

  lemma LargeReplay(base: seq<CacheEntry>, log: seq<LogRec>, l: Load, k: Key, v: seq<byte>)
    requires Holds(Replay(base, LARGE_LIMITS, log), l) && v != [] && k in l.m
    ensures var l' := if l.With(k, v).chunks <= LARGE_LIMITS.chunks then l.With(k, v) else l;
      Holds(Replay(base, LARGE_LIMITS, log + [LogSet(k, v)]), l')
  {
    hide Holds, Fits, SetDirty, Load.With, Replay, ReplaySucceeds;
    var es := Replay(base, LARGE_LIMITS, log);
    ReplaySnoc(base, LARGE_LIMITS, log, LogSet(k, v));
    FitsLarge(es, l, k, v);
    if Fits(es, LARGE_LIMITS, k, |v|) {
      SetHolds(es, l, k, v);
    } else {
      FullHolds(es, l, k, v);
    }
  }

  /** The chunks that the values of the run take. */
  lemma Sizes(v: Values)
    requires v.Valid()
    ensures var size := LARGE_LIMITS.chunkSize;
      ChunkNum(|v.fill|, size) == 4 && ChunkNum(|v.one|, size) == 1 && ChunkNum(|v.two|, size) == 2
        && ChunkNum(|v.three|, size) == 3
    ensures forall n: nat :: ChunkNum(n, 1) == n
  {
    hide ChunkNum;
    CeilingIsChunkNum(|v.fill|, LARGE_LIMITS.chunkSize);
    CeilingIsChunkNum(|v.one|, LARGE_LIMITS.chunkSize);
    CeilingIsChunkNum(|v.two|, LARGE_LIMITS.chunkSize);
    CeilingIsChunkNum(|v.three|, LARGE_LIMITS.chunkSize);
    forall n: nat ensures ChunkNum(n, 1) == n {
      CeilingIsChunkNum(n, 1);
    }
  }

  /** What the filling leaves. */
  function FillMap(n: nat, v: seq<byte>): (m: map<Key, seq<byte>>)
    requires n <= FILLS
    ensures |m| == n && forall k :: k in m ==> k[0] < n && m[k] == v
    ensures forall i: byte :: i < n ==> NumberedKey(i) in m
  {
    if n == 0 then map[] else FillMap(n - 1, v)[NumberedKey(n - 1) := v]
  }

  lemma FillMore(n: nat, v: Values)
    requires n < FILLS && v.Valid()
    ensures NumberedKey(n) !in FillMap(n, v.fill)
    ensures Load(FillMap(n, v.fill), 4 * n, FILL_LEN * n).With(NumberedKey(n), v.fill) ==
      Load(FillMap(n + 1, v.fill), 4 * (n + 1), FILL_LEN * (n + 1))
  {
    hide NumberedKey, ChunkNum;
    Sizes(v);
  }

  lemma NoFill(v: seq<byte>)
    ensures FillMap(0, v) == map[]
  {
  }

  lemma {:induction false} FillRun(n: nat, v: Values)
    requires n <= FILLS && v.Valid()
    ensures var s := Run(LARGE_LIMITS, Fill(n, v.fill));
      s.log == FillLog(n, v.fill) && Holds(s.cache, Load(FillMap(n, v.fill), 4 * n, FILL_LEN * n))
  {
    hide Holds, Run, Step, NumberedKey, Load.With, FillMap;
    if n == 0 {
      NoFill(v.fill);
      RunNothing(LARGE_LIMITS);
      NothingHeld();
    } else {
      FillRun(n - 1, v);
      var k, front := NumberedKey(n - 1), Fill(n - 1, v.fill);
      var l := Load(FillMap(n - 1, v.fill), 4 * (n - 1), FILL_LEN * (n - 1));
      FillMore(n - 1, v);
      RunSnoc(LARGE_LIMITS, front, OpSet(k, v.fill));
      LargeStep(Run(LARGE_LIMITS, front), l, k, v.fill);
    }
  }

  lemma NothingHeld()
    ensures Holds([], Load(map[], 0, 0))
  {
  }

  ghost function Filled(v: Values): Load {
    Load(FillMap(FILLS, v.fill), 4 * FILLS, FILL_LEN * FILLS)
  }

  /** What the cache holds before the dump. */
  ghost function FullLoad(v: Values): Load {
    Filled(v).With(X(), v.one).With(Y(), v.three).With(X(), v.three).With(Y(), v.one).With(Z(), v.two)
  }

  /** How the chunks and bytes change on the way there, and that there is always room. */
  lemma LoadsFit(v: Values)
    requires v.Valid()
    ensures X() != Y() && Y() != Z() && X() != Z()
    ensures var l1 := Filled(v).With(X(), v.one);
      var l2 := l1.With(Y(), v.three);
      var l3 := l2.With(X(), v.three);
      var l4 := l3.With(Y(), v.one);
      && |Filled(v).m| == 64 && |l1.m| == 65 && |l2.m| == |l3.m| == |l4.m| == 66 && |FullLoad(v).m| == 67
      && l1.chunks == 257 && l2.chunks == 260 && l3.chunks == 262 && l4.chunks == 260 && FullLoad(v).chunks == 262
      && FullLoad(v).bytes == FILL_LEN * FILLS + |v.three| + |v.one| + |v.two|
  {
    hide NumberedKey, ChunkNum, FillMap;
    Sizes(v);
  }

  lemma BeforeDumpRun(v: Values)
    requires v.Valid()
    ensures var s := Run(LARGE_LIMITS, BeforeDump(v)); s.log == LogOf(v) && Holds(s.cache, FullLoad(v))
  {
    hide Holds, Run, Step, NumberedKey, Load.With, FillMap, Fill, FillLog, Filled;
    LoadsFit(v);
    FillRun(FILLS, v);
    var l1 := Filled(v).With(X(), v.one);
    var l2 := l1.With(Y(), v.three);
    var l3 := l2.With(X(), v.three);
    var l4 := l3.With(Y(), v.one);
    assert Filled(v) == Load(FillMap(FILLS, v.fill), 4 * FILLS, FILL_LEN * FILLS) by { FilledIs(v); }
    LargeSnoc(Fill(FILLS, v.fill), Filled(v), X(), v.one);
    var ops := Fill(FILLS, v.fill) + [OpSet(X(), v.one)];
    LargeSnoc(ops, l1, Y(), v.three);
    ops := ops + [OpSet(Y(), v.three)];
    LargeSnoc(ops, l2, X(), v.three);
    ops := ops + [OpSet(X(), v.three)];
    LargeSnoc(ops, l3, Y(), v.one);
    ops := ops + [OpSet(Y(), v.one)];
    LargeSnoc(ops, l4, Z(), v.two);
  }

  lemma FilledIs(v: Values)
    ensures Filled(v) == Load(FillMap(FILLS, v.fill), 4 * FILLS, FILL_LEN * FILLS)
  {
  }

  lemma LargeSnoc(ops: seq<Op>, l: Load, k: Key, v: seq<byte>)
    requires Holds(Run(LARGE_LIMITS, ops).cache, l) && v != [] && |l.m| < LARGE_LIMITS.nodes
    requires l.With(k, v).chunks <= LARGE_LIMITS.chunks
    ensures var s, s' := Run(LARGE_LIMITS, ops), Run(LARGE_LIMITS, ops + [OpSet(k, v)]);
      Holds(s'.cache, l.With(k, v)) && s'.log == s.log + [LogSet(k, v)]
  {
    hide Holds, Run, Step, Load.With;
    RunSnoc(LARGE_LIMITS, ops, OpSet(k, v));
    LargeStep(Run(LARGE_LIMITS, ops), l, k, v);
  }

  /** No value is empty, or longer than recovery can read. */
  ghost predicate AllReadable(l: Load) {
    forall k :: k in l.m ==> 0 < |l.m[k]| <= RECOVER_BUF_SIZE
  }

  lemma FullLoadReadable(v: Values)
    requires v.Valid()
    ensures AllReadable(FullLoad(v))
  {
    hide NumberedKey, ChunkNum, FillMap;
  }

  lemma {:induction false} AllDirtyDumped(es: seq<CacheEntry>)
    requires forall i :: 0 <= i < |es| ==> es[i].dirty
    ensures DirtyOf(es) == es && DumpList(es) == es
  {
    if es != [] {
      AllDirtyDumped(es[1..]);
    }
  }

  lemma {:induction false} DumpSizeIs(es: seq<CacheEntry>)
    ensures DumpSize(es) == HEAD_LEN * |es| + Used(es, 1)
  {
    if es != [] {
      DumpSizeIs(es[1..]);
      CeilingIsChunkNum(es[0].len, 1);
    }
  }

  lemma HeldAt(es: seq<CacheEntry>, l: Load, i: nat)
    requires Holds(es, l) && AllReadable(l) && i < |es|
    ensures es[i].dirty && 0 < es[i].len == |es[i].value| <= RECOVER_BUF_SIZE
  {
    hide Used, Lookup;
    LookupAt(es, i);
    assert Lookup(es, es[i].key) == l.Entry(es[i].key);
  }

  /** The dump of such a cache has all of it. */
  lemma HeldDump(es: seq<CacheEntry>, l: Load)
    requires Holds(es, l) && AllReadable(l)
    ensures DumpOf(es) == es && ReadBack(es) == es && Sized(es) && Small(es, RECOVER_BUF_SIZE)
    ensures DumpSize(es) == HEAD_LEN * |l.m| + l.bytes
  {
    hide Holds, TakeFitting, DumpList, DumpSize;
    forall i | 0 <= i < |es| ensures es[i].dirty && es[i].len == |es[i].value| <= RECOVER_BUF_SIZE {
      HeldAt(es, l, i);
    }
    AllDirtyDumped(es);
    TakeAll(es, MAX_BINLOG_ITEM_LEN);
    TakeAll(es, RECOVER_BUF_SIZE);
    DumpSizeIs(es);
    HeldParts(es, l);
  }

  lemma HeldParts(es: seq<CacheEntry>, l: Load)
    requires Holds(es, l)
    ensures WithinLimits(es, LARGE_LIMITS) && |es| == |l.m| && Used(es, 1) == l.bytes
  {
  }

  /** And recovery from it gives the same entries. */
  lemma RecoveredHolds(es: seq<CacheEntry>, l: Load)
    requires Holds(es, l) && AllReadable(l)
    ensures Holds(Recover([], LARGE_LIMITS, es), l)
  {
    hide Recover, TakeFitting, DumpOf, Used, Lookup, Sized, Small;
    HeldDump(es, l);
    DumpCovers(es, LARGE_LIMITS);
    AllDirtyIsDump(es, l);
    var r := Recover([], LARGE_LIMITS, es);
    forall k ensures Lookup(r, k) == Lookup(es, k) {
      assert Lookup(es, k) == l.Entry(k);
      LookupMember(r, k);
    }
    SubCacheUsesLess(r, es, LARGE_LIMITS.chunkSize);
    SubCacheUsesLess(es, r, LARGE_LIMITS.chunkSize);
    SubCacheUsesLess(r, es, 1);
    SubCacheUsesLess(es, r, 1);
  }

  lemma AllDirtyIsDump(es: seq<CacheEntry>, l: Load)
    requires Holds(es, l) && AllReadable(l)
    ensures DumpList(es) == es
  {
    hide Holds, DumpList;
    forall i | 0 <= i < |es| ensures es[i].dirty {
      HeldAt(es, l, i);
    }
    AllDirtyDumped(es);
  }

  /** Replaying the filling changes nothing. */
  lemma {:induction false} FillReplay(base: seq<CacheEntry>, l: Load, n: nat, v: seq<byte>)
    requires n <= FILLS && Holds(base, l) && v != [] && l.chunks <= LARGE_LIMITS.chunks
    requires forall i: byte :: i < n ==> NumberedKey(i) in l.m && l.m[NumberedKey(i)] == v
    ensures Holds(Replay(base, LARGE_LIMITS, FillLog(n, v)), l)
  {
    hide Holds, NumberedKey, Load.With, ReplayOne;
    if n > 0 {
      FillReplay(base, l, n - 1, v);
      LargeReplay(base, FillLog(n - 1, v), l, NumberedKey(n - 1), v);
      SameAgain(l, NumberedKey(n - 1));
    }
  }

  lemma SameAgain(l: Load, k: Key)
    requires k in l.m
    ensures l.With(k, l.m[k]) == l
  {
    assert l.m[k := l.m[k]] == l.m;
  }

  /** What the replay of the whole log makes of that dump: the second value of x finds no room. */
  lemma ReplayedLoads(v: Values)
    requires v.Valid()
    ensures var f := FullLoad(v);
      var l1 := f.With(X(), v.one);
      var l2 := l1.With(Y(), v.three);
      var l4 := l2.With(Y(), v.one);
      && l1.chunks == 260 && l2.chunks == 262 && l2.With(X(), v.three).chunks == 264 && l4.chunks == 260
      && X() in f.m && Y() in f.m && Z() in f.m && f.m[X()] == v.three
      && l4.With(Z(), v.two).chunks == 260 && l4.With(Z(), v.two).m[X()] == v.one
      && forall i: byte :: i < FILLS ==> NumberedKey(i) in f.m && f.m[NumberedKey(i)] == v.fill
  {
    hide NumberedKey, ChunkNum, FillMap;
    LoadsFit(v);
    Sizes(v);
  }

  lemma ReplayedHolds(base: seq<CacheEntry>, v: Values)
    requires v.Valid() && Holds(base, FullLoad(v))
    ensures Lookup(Replay(base, LARGE_LIMITS, LogOf(v)), X()) == Some(Entry(X(), v.one, |v.one|, true))
  {
    hide Holds, NumberedKey, Load.With, Replay, FillLog, FullLoad;
    LoadsFit(v);
    ReplayedLoads(v);
    var f := FullLoad(v);
    var l1 := f.With(X(), v.one);
    var l2 := l1.With(Y(), v.three);
    var l4 := l2.With(Y(), v.one);
    WithKeys(f, X(), v.one);
    WithKeys(l1, Y(), v.three);
    WithKeys(l2, Y(), v.one);
    FillReplay(base, f, FILLS, v.fill);
    var log := FillLog(FILLS, v.fill);
    LargeReplay(base, log, f, X(), v.one);
    log := log + [LogSet(X(), v.one)];
    LargeReplay(base, log, l1, Y(), v.three);
    log := log + [LogSet(Y(), v.three)];
    LargeReplay(base, log, l2, X(), v.three);
    log := log + [LogSet(X(), v.three)];
    LargeReplay(base, log, l2, Y(), v.one);
    log := log + [LogSet(Y(), v.one)];
    LargeReplay(base, log, l4, Z(), v.two);
    WithKeys(l4, Z(), v.two);
    HeldLookup(Replay(base, LARGE_LIMITS, LogOf(v)), l4.With(Z(), v.two), X());
  }

  lemma WithKeys(l: Load, k: Key, v: seq<byte>)
    ensures forall j :: j in l.With(k, v).m <==> j == k || j in l.m
  {
  }

  lemma HeldLookup(es: seq<CacheEntry>, l: Load, k: Key)
    requires Holds(es, l)
    ensures Lookup(es, k) == l.Entry(k)
  {
  }

  /**
   The run: no value is longer than recovery can read, the dump has more than 2^31 bytes, the log stays,
   and after a crash x has its first value again, and is dirty.
   */
  lemma LargeDumpBringsOldValueBack(v: Values)
    requires v.Valid()
    ensures var before, ops := BeforeDump(v), BeforeDump(v) + [OpDump];
      && SmallOps(ops, RECOVER_BUF_SIZE)
      && TWO_31 <= DumpSize(DumpOf(Run(LARGE_LIMITS, before).cache)) < TWO_32
      && Lookup(Run(LARGE_LIMITS, ops).cache, X()) == Some(Entry(X(), v.three, |v.three|, true))
      && Lookup(Run(LARGE_LIMITS, ops + [OpCrash]).cache, X()) == Some(Entry(X(), v.one, |v.one|, true))
  {
    hide Holds, NumberedKey, FullLoad, Run, LogOf, BeforeDump, DumpOf, Replay, Recover, ReadBack, DumpSize, Lookup,
      SmallOps;
    var before := BeforeDump(v);
    var s := Run(LARGE_LIMITS, before);
    var c := s.cache;
    BeforeDumpRun(v);
    FullLoadReadable(v);
    HeldDump(c, FullLoad(v));
    LoadsFit(v);
    RecoveredHolds(c, FullLoad(v));
    ReplayedHolds(Recover([], LARGE_LIMITS, c), v);
    ReplayedLoads(v);
    HeldLookup(c, FullLoad(v), X());
    RunSnoc(LARGE_LIMITS, before, OpDump);
    RunSnoc(LARGE_LIMITS, before + [OpDump], OpCrash);
    SmallRun(v);
  }

  lemma {:induction false} SmallFill(n: nat, v: seq<byte>)
    requires n <= FILLS && |v| == FILL_LEN
    ensures SmallOps(Fill(n, v), RECOVER_BUF_SIZE)
  {
    if n > 0 {
      SmallFill(n - 1, v);
    }
  }

  lemma SmallRun(v: Values)
    requires v.Valid()
    ensures SmallOps(BeforeDump(v) + [OpDump], RECOVER_BUF_SIZE)
  {
    hide NumberedKey, Fill;
    SmallFill(FILLS, v.fill);
  }

  lemma RunLength(v: Values)
    ensures |BeforeDump(v) + [OpDump]| == 70
  {
    hide NumberedKey, Fill;
  }
}
