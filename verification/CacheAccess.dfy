/** The cache as its callers see it: the hash map, the log behind it and the core dump file. */
module CacheAccesses {
  import opened Options
  import opened Bytes
  import opened Lists
  import opened ChunkAllocators
  import opened RecencyMaps
  import opened HashMaps
  import opened Binlogs
  import opened Recovery
  import opened Codec
  import opened CleanScan

  const FOUND := 0
  const NOT_FOUND := 1
  const DUMP_BUF_SIZE := 128 * 1024 * 1024

  /** The copies into the buffer of set: operation, key, length, data and an eight-byte time, four of it written. */
  function SetCopies(n: nat): seq<nat> {
    [4, KEY_LEN, 4, n, 8]
  }

  /** A value of n bytes passes the assertion of set, fits that buffer and, as a record, the one of the log. */
  predicate Loggable(n: nat) {
    && 28 + n < MAX_BINLOG_ITEM_LEN
    && CopiesFit(0, SetCopies(n), MAX_BINLOG_ITEM_LEN)
    && CopiesFit(0, RecordCopies(28 + n), MAX_BINLOG_ITEM_LEN)
  }

  /** The assertion alone lets seven lengths too many through. */
  lemma LoggableLengths(n: nat)
    ensures Loggable(n) <==> 36 + n <= MAX_BINLOG_ITEM_LEN
  {
    hide CopiesFit;
    if 28 + n < MAX_BINLOG_ITEM_LEN {
      RecordStaging(28 + n);
      CopiesFitTotal(0, SetCopies(n), MAX_BINLOG_ITEM_LEN);
      assert [4, KEY_LEN, 4, n, 8][1..] == [KEY_LEN, 4, n, 8] && [KEY_LEN, 4, n, 8][1..] == [4, n, 8];
      assert [4, n, 8][1..] == [n, 8] && [n, 8][1..] == [8] && [8][1..] == [];
      assert Total([8]) == 8 && Total([n, 8]) == n + 8 && Total([4, n, 8]) == n + 12
        && Total([KEY_LEN, 4, n, 8]) == n + 28;
    }
  }

  /** The longest of them. */
  lemma LongestValueIsNotLoggable()
    ensures var n := MAX_BINLOG_ITEM_LEN - 29; 28 + n < MAX_BINLOG_ITEM_LEN && !Loggable(n)
  {
    hide Loggable;
    LoggableLengths(MAX_BINLOG_ITEM_LEN - 29);
  }

  /** Copies data to a position; returns the one behind it. */
  method Put(buf: array<byte>, at: nat, data: seq<byte>) returns (end: nat)
    requires at + |data| <= buf.Length
    modifies buf
    ensures end == at + |data| && buf[..end] == old(buf[..at]) + data
  {
    CopyInto(buf, at, data);
    end := at + |data|;
    assert buf[..end] == old(buf[..at]) + data;
  }

  /** A log record put together in the buffer of the cache. */
  method StageLog(rec: LogRec) returns (s: LogRecord)
    requires rec.LogSet? ==> Loggable(|rec.value|)
    ensures s == EncodeLog(rec)
  {
    hide EncodeU32, Loggable;
    var buf := new byte[MAX_BINLOG_ITEM_LEN];
    var len := Put(buf, 0, EncodeU32(if rec.LogSet? then OP_SET else if rec.LogClean? then OP_MARK_CLEAN else OP_DEL));
    len := Put(buf, len, rec.key);
    if rec.LogSet? {
      LoggableLengths(|rec.value|);
      len := StageValue(buf, len, rec.value);
    }
    s := buf[..len];
  }

  /** The part of a set record behind the key; of the eight bytes of the expiry time only four are used. */
  method StageValue(buf: array<byte>, at: nat, value: seq<byte>) returns (len: nat)
    requires at + |value| + 12 <= buf.Length && |value| < TWO_32
    modifies buf
    ensures len <= buf.Length && buf[..len] == old(buf[..at]) + EncodeU32(|value|) + value + EncodeU32(0)
  {
    hide EncodeU32;
    len := Put(buf, at, EncodeU32(|value|));
    len := Put(buf, len, value);
    ghost var before := buf[..len];
    var end := Put(buf, len, EncodeU32(0) + EncodeU32(0));
    len := len + 4;
    FirstHalf(buf[..end], before, EncodeU32(0), EncodeU32(0));
    assert buf[..len] == buf[..end][..len];
  }

  lemma FirstHalf(s: seq<byte>, a: seq<byte>, b: seq<byte>, c: seq<byte>)
    requires s == a + (b + c)
    ensures s[..|a| + |b|] == a + b
  {
  }

  lemma RecordFits(rec: LogRec)
    requires rec.LogSet? ==> Loggable(|rec.value|)
    ensures 0 < |EncodeLog(rec)| <= MAX_BINLOG_ITEM_LEN
    ensures CopiesFit(0, RecordCopies(|EncodeLog(rec)|), MAX_BINLOG_ITEM_LEN)
  {
    hide CopiesFit;
    if !rec.LogSet? {
      RecordStaging(20);
    }
  }

  /** A miss and then an insert have the effect of Set. */
  lemma SetAfterMiss(es: seq<CacheEntry>, lim: Limits, k: Key, v: seq<byte>, dirty: bool)
    requires IndexOf(es, k) < 0
    ensures Touch(es, k) == es
    ensures Set(es, lim, k, v, |v|, dirty) ==
      if Fits(es, lim, k, |v|) then ([Entry(k, v, |v|, false)] + es)[0 := Entry(k, v, |v|, dirty)] else es
  {
    hide Fits, IndexOf;
    assert ([Entry(k, v, |v|, false)] + es)[0 := Entry(k, v, |v|, dirty)] == [Entry(k, v, |v|, dirty)] + es;
  }

  /** A hit that is then updated in place has the effect of Set. */
  lemma SetAfterTouch(es: seq<CacheEntry>, lim: Limits, k: Key, v: seq<byte>, dirty: bool)
    requires DistinctKeys(es) && IndexOf(es, k) >= 0
    ensures var t := Touch(es, k);
      && |t| > 0 && t[0].key == k && DistinctKeys(t)
      && (Fits(t, lim, k, |v|) <==> Fits(es, lim, k, |v|))
      && (Fits(es, lim, k, |v|) ==>
            ToFront(t[0 := t[0].(value := v, len := |v|)], 0)[0 := Entry(k, v, |v|, dirty)] ==
              Set(es, lim, k, v, |v|, dirty))
      && (!Fits(es, lim, k, |v|) ==> t == Set(es, lim, k, v, |v|, dirty))
  {
    hide Used, Fits, IndexOf, DistinctKeys, ToFront, Without, Lookup;
    var t := Touch(es, k);
    TouchFits(es, lim, k, |v|);
    TouchedFront(es, k);
    FrontReplaced(t, t[0].(value := v, len := |v|), Entry(k, v, |v|, dirty));
  }

  lemma TouchedFront(es: seq<CacheEntry>, k: Key)
    requires IndexOf(es, k) >= 0
    ensures var t := Touch(es, k); |t| > 0 && t[0].key == k && t[1..] == Drop(es, k)
  {
    hide IndexOf;
  }

  lemma FrontReplaced<T>(t: seq<T>, x: T, y: T)
    requires |t| > 0
    ensures ToFront(t[0 := x], 0)[0 := y] == [y] + t[1..]
  {
  }

  /** Cleaning or deleting the entry that a hit has moved to the front. */
  lemma AfterTouch(es: seq<CacheEntry>, k: Key)
    requires IndexOf(es, k) >= 0
    ensures var t := Touch(es, k);
      && |t| > 0 && t[0].key == k
      && t[0 := t[0].(dirty := false)] == MarkClean(es, k)
      && Without(t, 0) == Drop(es, k)
  {
    hide IndexOf;
    var i := IndexOf(es, k);
    assert Without(ToFront(es, i), 0) == Without(es, i);
    assert ToFront(es, i)[0 := es[i].(dirty := false)] == [es[i].(dirty := false)] + Without(es, i);
  }

  lemma Missing(es: seq<CacheEntry>, k: Key)
    ensures IndexOf(es, k) < 0 ==> Touch(es, k) == es && MarkClean(es, k) == es && Drop(es, k) == es
  {
  }

  lemma VisitStep(es: seq<CacheEntry>, i: nat)
    requires i < |es|
    ensures VisitFrom(es, i) == [es[i]] + DirtyOf(es[i + 1..])
  {
  }

  lemma DumpStart(es: seq<CacheEntry>)
    ensures DumpList(es) == VisitFrom(es, 0) && Short([]) && Serialize([]) == []
  {
  }

  lemma TakeEnd(es: seq<CacheEntry>, i: nat)
    requires i >= |es| || es[i].len > MAX_BINLOG_ITEM_LEN
    ensures TakeFitting(VisitFrom(es, i), MAX_BINLOG_ITEM_LEN) == []
  {
  }

  lemma TakeStep(es: seq<CacheEntry>, i: nat, j: nat)
    requires i < |es| && VisitFrom(es, i) == [es[i]] + VisitFrom(es, j) && es[i].len <= MAX_BINLOG_ITEM_LEN
    ensures TakeFitting(VisitFrom(es, i), MAX_BINLOG_ITEM_LEN) ==
      [es[i]] + TakeFitting(VisitFrom(es, j), MAX_BINLOG_ITEM_LEN)
  {
    hide VisitFrom;
    assert ([es[i]] + VisitFrom(es, j))[1..] == VisitFrom(es, j);
  }

  /** Adds bytes to the staging buffer, which first goes to the file if they do not fit. */
  method Stage(file: seq<byte>, buf: seq<byte>, bytes: seq<byte>) returns (file': seq<byte>, buf': seq<byte>)
    ensures file' + buf' == file + buf + bytes
    ensures |buf| <= DUMP_BUF_SIZE && |bytes| <= DUMP_BUF_SIZE ==> |buf'| <= DUMP_BUF_SIZE
  {
    file', buf' := file, buf;
    if DUMP_BUF_SIZE < |buf| + |bytes| {
      file', buf' := file + buf, [];
    }
    buf' := buf' + bytes;
  }

  lemma DumpedEnd(es: seq<CacheEntry>, i: nat, room: int, base: int, res: int)
    requires SaneMod(base, res)
    requires i >= |es| || room - HEAD_LEN < es[i].len
    ensures Dumped(VisitFrom(es, i), room, base, res) == []
  {
  }

  lemma ShortAt(es: seq<CacheEntry>, i: nat)
    requires Short(es) && i < |es|
    ensures |es[i].value| == es[i].len < TWO_32
  {
  }

  lemma SerializeSnoc(es: seq<CacheEntry>, e: CacheEntry)
    requires Short(es) && |e.value| == e.len < TWO_32
    ensures Short(es + [e]) && Serialize(es + [e]) == Serialize(es) + EncodeEntry(e)
  {
    assert (es + [e])[..|es|] == es;
  }

  /** Value first, then key and length in front of it: together, one encoded entry. */
  lemma EntryWritten(b: seq<byte>, at: nat, e: CacheEntry)
    requires |e.value| < TWO_32 && at + HEAD_LEN + |e.value| <= |b|
    ensures var b1 := Overwrite(b, at + HEAD_LEN, e.value);
      && b1[..at] == b[..at]
      && Overwrite(Overwrite(b1, at, e.key), at + KEY_LEN, EncodeU32(|e.value|))[..at + HEAD_LEN + |e.value|] ==
        b[..at] + EncodeEntry(e)
  {
    hide EncodeU32;
    var b1, end := Overwrite(b, at + HEAD_LEN, e.value), at + HEAD_LEN + |e.value|;
    var b2 := Overwrite(b1, at, e.key);
    var b3 := Overwrite(b2, at + KEY_LEN, EncodeU32(|e.value|));
    assert b1[at + HEAD_LEN..end] == e.value;
    assert b2[at + HEAD_LEN..end] == b1[at + HEAD_LEN..end];
    assert b3[at + HEAD_LEN..end] == b2[at + HEAD_LEN..end];
    assert b2[at..at + KEY_LEN] == e.key;
    assert b3[..at] == b[..at];
    assert b3[at..at + KEY_LEN] == e.key;
    assert b3[at + KEY_LEN..at + HEAD_LEN] == EncodeU32(|e.value|);
    assert b3[..end] == b3[..at] + (b3[at..at + KEY_LEN] + b3[at + KEY_LEN..at + HEAD_LEN] + b3[at + HEAD_LEN..end]);
  }

  lemma DumpedStep(es: seq<CacheEntry>, i: nat, j: nat, room: int, base: int, res: int)
    requires SaneMod(base, res)
    requires i < |es| && VisitFrom(es, i) == [es[i]] + VisitFrom(es, j) && es[i].len <= room - HEAD_LEN
    ensures Dumped(VisitFrom(es, i), room, base, res) ==
      if base != -1 && !Selected(es[i].key, base, res) then Dumped(VisitFrom(es, j), room, base, res)
      else [es[i]] + Dumped(VisitFrom(es, j), room - HEAD_LEN - es[i].len, base, res)
  {
    hide VisitFrom;
    assert ([es[i]] + VisitFrom(es, j))[1..] == VisitFrom(es, j);
  }

  /** The dump loop at entry i: written holds the entries done, and what follows fits the rest of the buffer. */
  ghost predicate Dumping(es: seq<CacheEntry>, i: nat, done: seq<CacheEntry>, written: seq<byte>, max: int, base: int,
                          res: int)
    requires SaneMod(base, res)
  {
    && Short(done) && written == Serialize(done)
    && Dumped(DumpList(es), max, base, res) == done + Dumped(VisitFrom(es, i), max - |written|, base, res)
  }

  lemma DumpBegins(es: seq<CacheEntry>, max: int, base: int, res: int)
    requires SaneMod(base, res)
    ensures Dumping(es, 0, [], [], max, base, res)
  {
    hide Dumped, VisitFrom, DumpList;
    DumpStart(es);
  }

  lemma DumpGoesOn(es: seq<CacheEntry>, i: nat, j: nat, done: seq<CacheEntry>, written: seq<byte>, max: int, base: int,
                   res: int)
    requires SaneMod(base, res)
    requires Dumping(es, i, done, written, max, base, res)
    requires i < |es| && VisitFrom(es, i) == [es[i]] + VisitFrom(es, j)
    requires |es[i].value| == es[i].len < TWO_32 && es[i].len <= max - |written| - HEAD_LEN
    ensures base == -1 || Selected(es[i].key, base, res) ==>
      Dumping(es, j, done + [es[i]], written + EncodeEntry(es[i]), max, base, res)
    ensures !(base == -1 || Selected(es[i].key, base, res)) ==> Dumping(es, j, done, written, max, base, res)
  {
    hide Dumped, VisitFrom, DumpList, Serialize, Short, OnDisk, Selected;
    DumpedStep(es, i, j, max - |written|, base, res);
    SerializeSnoc(done, es[i]);
    assert |EncodeEntry(es[i])| == HEAD_LEN + es[i].len;
  }

  lemma DumpEnds(es: seq<CacheEntry>, i: nat, done: seq<CacheEntry>, written: seq<byte>, max: int, base: int, res: int)
    requires SaneMod(base, res)
    requires Dumping(es, i, done, written, max, base, res)
    requires i >= |es| || max - |written| - HEAD_LEN < es[i].len
    ensures Dumped(DumpList(es), max, base, res) == done && Short(done) && written == Serialize(done)
  {
    hide Dumped, VisitFrom, DumpList, Serialize, Short, OnDisk;
    DumpedEnd(es, i, max - |written|, base, res);
  }

  /** The loop of core_dump at entry i. */
  ghost predicate Collecting(es: seq<CacheEntry>, i: nat, done: seq<CacheEntry>, written: seq<byte>) {
    && Short(done) && written == Serialize(done)
    && TakeFitting(DumpList(es), MAX_BINLOG_ITEM_LEN) == done + TakeFitting(VisitFrom(es, i), MAX_BINLOG_ITEM_LEN)
  }

  lemma CollectBegins(es: seq<CacheEntry>)
    ensures Collecting(es, 0, [], [])
  {
    hide TakeFitting, VisitFrom, DumpList;
    DumpStart(es);
  }

  lemma CollectGoesOn(es: seq<CacheEntry>, i: nat, j: nat, done: seq<CacheEntry>, written: seq<byte>)
    requires Collecting(es, i, done, written)
    requires i < |es| && VisitFrom(es, i) == [es[i]] + VisitFrom(es, j)
    requires |es[i].value| == es[i].len < TWO_32 && es[i].len <= MAX_BINLOG_ITEM_LEN
    ensures Collecting(es, j, done + [es[i]], written + EncodeEntry(es[i]))
  {
    hide TakeFitting, VisitFrom, DumpList, Serialize, Short, OnDisk;
    TakeStep(es, i, j);
    SerializeSnoc(done, es[i]);
  }

  lemma CollectEnds(es: seq<CacheEntry>, i: nat, done: seq<CacheEntry>, written: seq<byte>)
    requires Collecting(es, i, done, written) && (i >= |es| || es[i].len > MAX_BINLOG_ITEM_LEN)
    ensures TakeFitting(DumpList(es), MAX_BINLOG_ITEM_LEN) == done && Short(done) && written == Serialize(done)
  {
    hide TakeFitting, VisitFrom, DumpList, Serialize, Short, OnDisk;
    TakeEnd(es, i);
  }

  /** The key and length that core_recover's variables hold after some records. */
  ghost function LastHead(done: seq<CacheEntry>, garbage: Key): (Key, int) {
    if done == [] then (garbage, 0) else (done[|done| - 1].key, done[|done| - 1].len)
  }

  /** The extra round of core_recover: without effect, unless the last length was 0. */
  ghost function OnceMore(es: seq<CacheEntry>, lim: Limits, recs: seq<CacheEntry>, garbage: Key): seq<CacheEntry> {
    var (k, len) := LastHead(recs, garbage);
    if len == 0 then SetDirty(es, lim, k, []) else es
  }

  /** What core_recover makes of a dump: all of it, or what comes before the first record longer than its buffer. */
  ghost function FromDump(es: seq<CacheEntry>, lim: Limits, recs: seq<CacheEntry>, garbage: Key): seq<CacheEntry> {
    if Small(recs, RECOVER_BUF_SIZE) then OnceMore(Recover(es, lim, recs), lim, recs, garbage)
    else Recover(es, lim, TakeFitting(recs, RECOVER_BUF_SIZE))
  }

  lemma OnceMoreIs(es: seq<CacheEntry>, lim: Limits, recs: seq<CacheEntry>, garbage: Key)
    ensures var (k, len) := LastHead(recs, garbage);
      OnceMore(es, lim, recs, garbage) == if len == 0 then SetDirty(es, lim, k, []) else es
  {
  }

  /** What a dump file can hold: values that fitted the buffer of core_dump. */
  ghost predicate OnDisk(recs: seq<CacheEntry>) {
    Short(recs) && Small(recs, MAX_BINLOG_ITEM_LEN)
  }

  lemma DumpOnDisk(recs: seq<CacheEntry>)
    requires Short(recs) && Small(recs, MAX_BINLOG_ITEM_LEN)
    ensures OnDisk(recs)
  {
  }

  lemma {:induction false} TakenSmall(es: seq<CacheEntry>, maxLen: int)
    ensures Small(TakeFitting(es, maxLen), maxLen)
    decreases |es|
  {
    if es != [] {
      TakenSmall(es[1..], maxLen);
    }
  }

  /** A dump has the bytes of its records. */
  lemma {:induction false} SerializedSize(recs: seq<CacheEntry>)
    requires Short(recs)
    ensures |Serialize(recs)| == DumpSize(recs)
    decreases |recs|
  {
    hide EncodeEntry;
    if recs != [] {
      assert recs == [recs[0]] + recs[1..];
      SerializeCons(recs[0], recs[1..]);
      SerializedSize(recs[1..]);
    }
  }

  /** The bucket dump at entry q of the list. */
  ghost predicate BucketDumping(bs: seq<CacheEntry>, q: nat, written: seq<byte>, max: int) {
    && q <= |bs| && Short(bs[..q]) && written == Serialize(bs[..q]) && |written| == DumpSize(bs[..q])
    && Dumped(bs, max, -1, 0) == bs[..q] + Dumped(bs[q..], max - |written|, -1, 0)
    && DumpSize(bs) == |written| + DumpSize(bs[q..])
  }

  lemma BucketDumpBegins(bs: seq<CacheEntry>, max: int)
    ensures BucketDumping(bs, 0, [], max)
  {
    hide Dumped;
    assert bs[..0] == [] && bs[0..] == bs;
  }

  lemma BucketDumpGoesOn(bs: seq<CacheEntry>, q: nat, written: seq<byte>, max: int)
    requires BucketDumping(bs, q, written, max) && q < |bs|
    requires |bs[q].value| == bs[q].len < TWO_32 && bs[q].len <= max - |written| - HEAD_LEN
    ensures BucketDumping(bs, q + 1, written + EncodeEntry(bs[q]), max)
  {
    hide Serialize, Short, Selected;
    SerializeSnoc(bs[..q], bs[q]);
    assert bs[..q] + [bs[q]] == bs[..q + 1] && bs[q..][1..] == bs[q + 1..];
    SerializedSize(bs[..q + 1]);
  }

  lemma BucketDumpStops(bs: seq<CacheEntry>, q: nat, written: seq<byte>, max: int)
    requires BucketDumping(bs, q, written, max) && q < |bs| && bs[q].len > max - |written| - HEAD_LEN
    ensures Dumped(bs, max, -1, 0) == bs[..q] && DumpSize(bs) > max && Short(bs[..q]) && written == Serialize(bs[..q])
  {
    hide Serialize, Short, Selected;
    assert bs[q..][0] == bs[q];
  }

  lemma BucketDumpEnds(bs: seq<CacheEntry>, written: seq<byte>, max: int)
    requires BucketDumping(bs, |bs|, written, max)
    ensures Dumped(bs, max, -1, 0) == bs && DumpSize(bs) == |written| && Short(bs) && written == Serialize(bs)
  {
    hide Serialize, Short, Selected;
    assert bs[..|bs|] == bs && bs[|bs|..] == [];
  }

  /** The last record is not complete. */
  ghost predicate CutShort(s: seq<byte>)
    decreases |s|
  {
    |s| > HEAD_LEN &&
    var len := DecodeU32(s[KEY_LEN..HEAD_LEN]);
    len > |s| - HEAD_LEN || CutShort(s[HEAD_LEN + len..])
  }

  lemma CutCases(s: seq<byte>)
    ensures |s| <= HEAD_LEN ==> !CutShort(s)
    ensures |s| > HEAD_LEN ==>
      var len := DecodeU32(s[KEY_LEN..HEAD_LEN]);
      CutShort(s) <==> len > |s| - HEAD_LEN || CutShort(s[HEAD_LEN + len..])
  {
  }

  lemma RecoverNone(es: seq<CacheEntry>, lim: Limits, recs: seq<CacheEntry>)
    ensures Recover(es, lim, recs[..0]) == es && AllFit(es, lim, recs[..0]) && DumpSize(recs[..0]) == 0
    ensures SetRecords(recs[..0]) == []
    ensures recs[0..] == recs
  {
  }

  lemma {:induction false} ParsedSizes(s: seq<byte>)
    ensures forall i :: 0 <= i < |Parse(s)| ==> Parse(s)[i].len == |Parse(s)[i].value| < TWO_32
    decreases |s|
  {
    hide DecodeU32;
    if |s| > HEAD_LEN {
      var len := DecodeU32(s[KEY_LEN..HEAD_LEN]);
      if len <= |s| - HEAD_LEN {
        ParsedSizes(s[HEAD_LEN + len..]);
      }
    }
  }

  /** One more record of a list. */
  lemma {:induction false} RecoverPrefix(es: seq<CacheEntry>, lim: Limits, recs: seq<CacheEntry>, n: nat)
    requires n < |recs| && forall i :: 0 <= i < |recs| ==> recs[i].len == |recs[i].value| < TWO_32
    ensures var before := Recover(es, lim, recs[..n]);
      && Recover(es, lim, recs[..n + 1]) == SetDirty(before, lim, recs[n].key, recs[n].value)
      && (AllFit(es, lim, recs[..n + 1]) <==>
          AllFit(es, lim, recs[..n]) && Fits(before, lim, recs[n].key, |recs[n].value|))
      && DumpSize(recs[..n + 1]) == DumpSize(recs[..n]) + HEAD_LEN + recs[n].len
      && SetRecords(recs[..n + 1]) == SetRecords(recs[..n]) + [EncodeLog(LogSet(recs[n].key, recs[n].value))]
    decreases n
  {
    hide Fits, Set, EncodeLog;
    if n == 0 {
      assert recs[..1] == [recs[0]] && [recs[0]][1..] == [] && recs[..0] == [];
    } else {
      RecoverPrefix(SetDirty(es, lim, recs[0].key, recs[0].value), lim, recs[1..], n - 1);
      assert recs[..n + 1][1..] == recs[1..][..n] && recs[..n][1..] == recs[1..][..n - 1]
        && recs[1..][n - 1] == recs[n];
    }
  }

  lemma SignedRoom(n: u32)
    ensures Signed32(n) <= n
  {
  }

  lemma NoneSmall(maxLen: int)
    ensures Small([], maxLen)
  {
  }

  /** fread of the key and then of the length: what is beyond the end of the file is left as it was. */
  method ReadHead(content: seq<byte>, pos: nat, key: Key, lenBytes: seq<byte>)
    returns (k: Key, l: seq<byte>, p: nat, eof: bool)
    requires pos <= |content| && |lenBytes| == 4
    ensures |l| == 4 && pos <= p <= |content|
    ensures pos + HEAD_LEN <= |content| ==>
      k == content[pos..pos + KEY_LEN] && l == content[pos + KEY_LEN..pos + HEAD_LEN] && p == pos + HEAD_LEN && !eof
    ensures pos == |content| ==> k == key && l == lenBytes && p == pos && eof
  {
    var n := if pos + KEY_LEN <= |content| then KEY_LEN else |content| - pos;
    k := content[pos..pos + n] + key[n..];
    p := pos + n;
    var m := if p + 4 <= |content| then 4 else |content| - p;
    l := content[p..p + m] + lenBytes[m..];
    p := p + m;
    eof := n < KEY_LEN || m < 4;
  }

  lemma EntrySlices(e: CacheEntry, tail: seq<byte>)
    requires |e.value| < TWO_32
    ensures var s, q := EncodeEntry(e) + tail, HEAD_LEN + |e.value|;
      s[0..KEY_LEN] == e.key && DecodeU32(s[KEY_LEN..HEAD_LEN]) == |e.value| && s[HEAD_LEN..q] == e.value
        && s[q..] == tail
  {
    var s := EncodeEntry(e) + tail;
    assert s[KEY_LEN..HEAD_LEN] == EncodeU32(|e.value|);
  }

  lemma ReadCases(content: seq<byte>, pos: nat, rest: seq<CacheEntry>)
    requires pos <= |content| && Short(rest) && content[pos..] == Serialize(rest)
    ensures rest == [] ==> pos == |content|
    ensures rest != [] ==>
      var e, q := rest[0], pos + HEAD_LEN;
      && |e.value| == e.len && q + e.len <= |content| && Short(rest[1..])
      && content[pos..pos + KEY_LEN] == e.key && DecodeU32(content[pos + KEY_LEN..q]) == e.len
      && content[q..q + e.len] == e.value && content[q + e.len..] == Serialize(rest[1..])
  {
    hide EncodeU32, DecodeU32, EncodeEntry;
    if rest != [] {
      var e := rest[0];
      assert rest == [e] + rest[1..];
      SerializeCons(e, rest[1..]);
      EntrySlices(e, Serialize(rest[1..]));
      SliceOfSlice(content, pos, |content|, 0, KEY_LEN);
      SliceOfSlice(content, pos, |content|, KEY_LEN, HEAD_LEN);
      SliceOfSlice(content, pos, |content|, HEAD_LEN, HEAD_LEN + e.len);
      assert content[pos..|content|] == EncodeEntry(e) + Serialize(rest[1..]);
      assert content[pos + KEY_LEN..pos + HEAD_LEN] == content[pos..|content|][KEY_LEN..HEAD_LEN];
    }
  }

  lemma FitCases(es: seq<CacheEntry>, lim: Limits, done: seq<CacheEntry>, rest: seq<CacheEntry>, all: seq<CacheEntry>)
    requires all == done + rest && Small(done, RECOVER_BUF_SIZE)
    ensures LastHead(done, EMPTY_INFO.key).1 <= RECOVER_BUF_SIZE
    ensures rest == [] ==>
      all == done && Small(all, RECOVER_BUF_SIZE) && Recover(es, lim, TakeFitting(rest, RECOVER_BUF_SIZE)) == es
    ensures rest != [] && rest[0].len > RECOVER_BUF_SIZE ==>
      !Small(all, RECOVER_BUF_SIZE) && Recover(es, lim, TakeFitting(rest, RECOVER_BUF_SIZE)) == es
    ensures rest != [] && rest[0].len <= RECOVER_BUF_SIZE ==>
      && all == done + [rest[0]] + rest[1..] && Small(done + [rest[0]], RECOVER_BUF_SIZE)
      && Recover(es, lim, TakeFitting(rest, RECOVER_BUF_SIZE))
         == Recover(SetDirty(es, lim, rest[0].key, rest[0].value), lim, TakeFitting(rest[1..], RECOVER_BUF_SIZE))
  {
    hide Fits, Set;
    if rest != [] {
      assert all[|done|] == rest[0];
      if rest[0].len <= RECOVER_BUF_SIZE {
        var t := TakeFitting(rest, RECOVER_BUF_SIZE);
        assert t[1..] == TakeFitting(rest[1..], RECOVER_BUF_SIZE);
      }
    }
  }

  lemma TakenHead(recs: seq<CacheEntry>, limit: int)
    requires Small(TakeFitting(recs, RECOVER_BUF_SIZE), limit)
    ensures recs != [] && recs[0].len <= RECOVER_BUF_SIZE ==>
      recs[0].len <= limit && Small(TakeFitting(recs[1..], RECOVER_BUF_SIZE), limit)
  {
    if recs != [] && recs[0].len <= RECOVER_BUF_SIZE {
      var t := TakeFitting(recs, RECOVER_BUF_SIZE);
      assert t[0] == recs[0] && t[1..] == TakeFitting(recs[1..], RECOVER_BUF_SIZE);
    }
  }

  lemma ReplayStart(es: seq<CacheEntry>, lim: Limits)
    ensures Replay(es, lim, DecodeAll([])) == es
  {
  }

  lemma ReadableAt(log: seq<LogRecord>, max: nat, i: nat)
    requires Readable(log, max) && i < |log|
    ensures DecodeLog(log[i]).Some? && 0 < |log[i]| <= max
  {
  }

  lemma {:induction false} SmallAt(log: seq<LogRecord>, limit: int, i: nat)
    requires SmallLog(DecodeAll(log), limit) && i < |log|
    ensures var r := DecodeLog(log[i]); r.Some? && r.value.LogSet? ==> |r.value.value| <= limit
    decreases |log|
  {
    hide DecodeLog;
    var front, r := log[..|log| - 1], DecodeLog(log[|log| - 1]);
    assert DecodeAll(log) == DecodeAll(front) + (if r.Some? then [r.value] else []);
    if i == |log| - 1 {
      assert r.Some? ==> DecodeAll(log)[|DecodeAll(front)|] == r.value;
    } else {
      assert forall j :: 0 <= j < |DecodeAll(front)| ==> DecodeAll(log)[j] == DecodeAll(front)[j];
      SmallAt(front, limit, i);
    }
  }

  lemma ReplayNext(es: seq<CacheEntry>, lim: Limits, done: seq<LogRecord>, rec: LogRecord)
    requires DecodeLog(rec).Some?
    ensures Replay(es, lim, DecodeAll(done + [rec])) ==
      ReplayOne(Replay(es, lim, DecodeAll(done)), lim, DecodeLog(rec).value)
  {
    hide ReplayOne, DecodeLog;
    assert (done + [rec])[..|done|] == done;
    ReplaySnoc(es, lim, DecodeAll(done), DecodeLog(rec).value);
  }

  lemma SliceOfSlice(b: seq<byte>, i: nat, n: nat, p: nat, q: nat)
    requires i <= n <= |b| && p <= q <= n - i
    ensures b[i..n][p..q] == b[i + p..i + q] && b[i..n][q..] == b[i + q..n]
  {
    var s := b[i..n];
    assert forall k :: 0 <= k < |s| ==> s[k] == b[i + k];
    assert s[p..q] == b[i + p..i + q];
    assert s[q..] == b[i + q..n];
  }

  ghost predicate AllLoggable(recs: seq<CacheEntry>) {
    forall i :: 0 <= i < |recs| ==> Loggable(|recs[i].value|)
  }

  lemma RecoverStep(es: seq<CacheEntry>, lim: Limits, recs: seq<CacheEntry>)
    ensures recs == [] ==>
      Recover(es, lim, recs) == es && AllFit(es, lim, recs) && DumpSize(recs) == 0 && SetRecords(recs) == []
    ensures recs != [] ==>
      var e, rest, es' := recs[0], recs[1..], SetDirty(es, lim, recs[0].key, recs[0].value);
      && Recover(es, lim, recs) == Recover(es', lim, rest)
      && (AllFit(es, lim, recs) <==> Fits(es, lim, e.key, |e.value|) && AllFit(es', lim, rest))
      && DumpSize(recs) == HEAD_LEN + e.len + DumpSize(rest)
      && (|e.value| < TWO_32 ==> SetRecords(recs) == [EncodeLog(LogSet(e.key, e.value))] + SetRecords(rest))
  {
    hide Fits, Set, EncodeLog;
  }

  /** The log records of a sequence of markings, if there is a log. */
  ghost function CleanRecords(dumpMin: int, keys: seq<Key>): seq<LogRecord> {
    if dumpMin < 0 || keys == [] then []
    else CleanRecords(dumpMin, keys[..|keys| - 1]) + [EncodeLog(LogClean(keys[|keys| - 1]))]
  }

  lemma OneMoreRecord(log: seq<LogRecord>, dumpMin: int, keys: seq<Key>, k: Key)
    ensures log + CleanRecords(dumpMin, []) == log
    ensures log + CleanRecords(dumpMin, keys + [k]) ==
      log + CleanRecords(dumpMin, keys) + (if dumpMin >= 0 then [EncodeLog(LogClean(k))] else [])
  {
    hide EncodeLog;
    assert (keys + [k])[..|keys|] == keys;
  }

  lemma ParseCases(s: seq<byte>)
    requires SaneLengths(s)
    ensures |s| <= HEAD_LEN ==> Parse(s) == []
    ensures |s| > HEAD_LEN ==>
      var len, k: Key := DecodeU32(s[KEY_LEN..HEAD_LEN]), s[..KEY_LEN];
      && (len > |s| - HEAD_LEN ==> Parse(s) == [])
      && (len <= |s| - HEAD_LEN ==>
            && SaneLengths(s[HEAD_LEN + len..])
            && Parse(s) == [Entry(k, s[HEAD_LEN..HEAD_LEN + len], len, true)] + Parse(s[HEAD_LEN + len..])
            && Parse(s)[1..] == Parse(s[HEAD_LEN + len..]))
  {
  }

  lemma DumpSizeZero(es: seq<CacheEntry>)
    requires DumpSize(es) <= 0
    ensures es == [] && Reverse(AllDirty(es)) == []
  {
  }

  /** Recovering does not look at the flags of the records. */
  lemma {:induction false} RecoverAllDirty(es: seq<CacheEntry>, lim: Limits, recs: seq<CacheEntry>)
    ensures Recover(es, lim, AllDirty(recs)) == Recover(es, lim, recs)
    ensures AllFit(es, lim, AllDirty(recs)) <==> AllFit(es, lim, recs)
    ensures DumpSize(AllDirty(recs)) == DumpSize(recs)
    decreases |recs|
  {
    hide Fits, Set;
    if recs != [] {
      AllDirtyStep(recs);
      RecoverAllDirty(SetDirty(es, lim, recs[0].key, recs[0].value), lim, recs[1..]);
      RecoverAllDirty([], lim, recs[1..]);
    }
  }

  class CacheAccess {
    const cache: HashMap
    const binlog: BinLog
    var dumpMin: int
    var cacheInit: bool
    var dumpFile: Option<seq<byte>>
    var lastFile: Option<seq<byte>>

    /** The entries in the dump file. */
    ghost var dumped: seq<CacheEntry>

    ghost function Repr(): set<object> {
      {this, binlog} + cache.Repr()
    }

    ghost predicate Valid()
      reads this, Repr()
    {
      && cache.Valid() && binlog.Valid() && binlog !in cache.Repr() && this !in cache.Repr()
      && OnDisk(dumped)
      && (dumpFile == None ==> dumped == [])
      && (dumpFile.Some? ==> dumpFile.value == Serialize(dumped))
    }

    ghost function View(): seq<CacheEntry>
      reads this, Repr()
    {
      cache.View()
    }

    ghost function Lim(): Limits {
      cache.Lim()
    }

    constructor (nodes: nat, buckets: Positive, nChunks: nat, chunkSize: Positive, logSize: int, logNum: int,
      coreDumpMin: int)
      requires logNum >= 1
      ensures Valid() && fresh(Repr())
      ensures View() == [] && Lim() == Limits(nodes, nChunks, chunkSize)
      ensures dumpMin == coreDumpMin && cacheInit && dumpFile == None && lastFile == None
      ensures binlog.history == [] && binlog.dropped == [] && binlog.maxLogSize == logSize && binlog.maxLogNum == logNum
    {
      hide HashMap.Valid, HashMap.View, BinLog.Valid, BinLog.Roomy;
      cache := new HashMap(nodes, buckets, nChunks, chunkSize);
      binlog := new BinLog(logSize, logNum);
      dumpMin, cacheInit := coreDumpMin, true;
      dumpFile, lastFile, dumped := None, None, [];
    }

    /** A new process over the files that a crash has left: empty memory, the same dump and the same log. */
    constructor Reopened(log: BinLog, dump: Option<seq<byte>>, ghost recs: seq<CacheEntry>,
        nodes: nat, buckets: Positive, nChunks: nat, chunkSize: Positive, coreDumpMin: int)
      requires log.Valid() && OnDisk(recs)
      requires (dump == None ==> recs == []) && (dump.Some? ==> dump.value == Serialize(recs))
      ensures Valid() && fresh(Repr() - {log}) && binlog == log
      ensures View() == [] && Lim() == Limits(nodes, nChunks, chunkSize)
      ensures dumpMin == coreDumpMin && cacheInit && dumpFile == dump && dumped == recs
    {
      hide HashMap.Valid, HashMap.View, BinLog.Valid, Serialize, Short, OnDisk;
      cache := new HashMap(nodes, buckets, nChunks, chunkSize);
      binlog := log;
      dumpMin, cacheInit := coreDumpMin, true;
      dumpFile, lastFile, dumped := dump, None, recs;
    }

    /** The state of the recovery model: memory, dump and log. */
    ghost function Sys(): System
      reads this, Repr()
    {
      System(View(), dumped, DecodeAll(binlog.history))
    }

    lemma ShortDump()
      requires Valid()
      ensures Short(dumped) && OnDisk(dumped) && forall i :: 0 <= i < |dumped| ==> dumped[i].len < TWO_31
    {
      hide HashMap.Valid, BinLog.Valid, Serialize;
    }

    lemma EntriesSized()
      requires Valid()
      ensures WithinLimits(View(), Lim()) && Sized(View()) && Short(View()) && Small(View(), LenLimit(Lim().chunkSize))
    {
      hide HashMap.Valid, HashMap.View, BinLog.Valid, BinLog.Roomy;
      cache.KeysDistinct();
      cache.ValuesSized();
      forall i | 0 <= i < |View()| ensures View()[i].len <= LenLimit(Lim().chunkSize) {
        assert LenOk(View()[i].len, cache.alloc.chunkSize);
      }
    }

    /** get; a buffer size of 2^31 and more is taken for a negative one. */
    method Get(key: Key, buf: array<byte>, bufSize: u32) returns (ret: int, dataLen: int, dirty: bool)
      requires Valid() && buf !in Repr() && bufSize <= buf.Length
      modifies cache.Repr(), buf
      ensures Valid() && View() == Touch(old(View()), key)
      ensures Lookup(old(View()), key) == None ==> ret == NOT_FOUND && buf[..] == old(buf[..])
      ensures Lookup(old(View()), key).Some? ==>
        var e := Lookup(old(View()), key).value;
        && dirty == e.dirty && dataLen == e.len == |e.value|
        && (Signed32(bufSize) >= e.len ==>
            ret == FOUND && e.len <= bufSize && buf[..] == Overwrite(old(buf[..]), 0, e.value))
        && (Signed32(bufSize) < e.len ==> ret == ERROR_INVALID_PARAM && buf[..] == old(buf[..]))
    {
      hide HashMap.Valid, IndexOf, HashMap.View, BinLog.Valid, BinLog.Roomy, Signed32;
      SignedRoom(bufSize);
      var node := cache.FindNode(key);
      dataLen, dirty := 0, false;
      if node == INVALID {
        return NOT_FOUND, dataLen, dirty;
      }
      cache.RecencyNext(0);
      dirty := cache.infos[node].dirty;
      ret, dataLen := cache.MergeNodeData(node, buf, 0, Signed32(bufSize), 0);
    }

    /** get_key: like get, without the data. */
    method GetKey(key: Key) returns (ret: int, dataLen: int, dirty: bool)
      requires Valid()
      modifies cache.Repr()
      ensures Valid() && View() == Touch(old(View()), key)
      ensures ret == if Lookup(old(View()), key).Some? then FOUND else NOT_FOUND
      ensures ret == FOUND ==> var e := Lookup(old(View()), key).value; dataLen == e.len && dirty == e.dirty
    {
      hide HashMap.Valid, IndexOf, HashMap.View, BinLog.Valid, BinLog.Roomy;
      var node := cache.FindNode(key);
      if node == INVALID {
        return NOT_FOUND, 0, false;
      }
      cache.RecencyNext(0);
      return FOUND, cache.infos[node].chunkLen, cache.infos[node].dirty;
    }

    /** The insert or update shared by set, core_recover and StartUp; false when the cache is full. */
    method Store(key: Key, data: seq<byte>, dirty: bool) returns (ok: bool)
      requires Valid() && LenOk(|data|, Lim().chunkSize)
      modifies cache.Repr()
      ensures Valid()
      ensures View() == RecencyMaps.Set(old(View()), Lim(), key, data, |data|, dirty)
      ensures ok <==> Fits(old(View()), Lim(), key, |data|)
    {
      hide HashMap.Valid, IndexOf, HashMap.View, Used, Fits, BinLog.Valid, BinLog.Roomy, RecencyMaps.Set, Touch, Drop,
        DistinctKeys, Lookup;
      cache.KeysDistinct();
      var node := cache.FindNode(key);
      if node == INVALID {
        SetAfterMiss(old(View()), Lim(), key, data, dirty);
        node := cache.InsertNode(key, data);
        ok := node != INVALID;
      } else {
        SetAfterTouch(old(View()), Lim(), key, data, dirty);
        ok := cache.UpdateNode(node, data, 0, cache.View());
      }
      if ok {
        cache.RecencyEnds();
        cache.SetNodeFlag(node, dirty, 0);
      }
    }

    /** Appends a record to the log, when logging is on. */
    method WriteLog(rec: LogRec)
      requires Valid()
      requires rec.LogSet? && dumpMin >= 0 ==> Loggable(|rec.value|)
      modifies binlog
      ensures Valid() && View() == old(View())
      ensures binlog.history == old(binlog.history) + (if dumpMin >= 0 then [EncodeLog(rec)] else [])
      ensures binlog.Roomy() ==> binlog.dropped == old(binlog.dropped)
    {
      hide HashMap.Valid, HashMap.View, EncodeLog, BinLog.Valid, BinLog.Roomy, CopiesFit, Loggable, Serialize, Short,
        OnDisk;
      if dumpMin >= 0 {
        var s := StageLog(rec);
        RecordFits(rec);
        var _ := binlog.WriteToBinLog(s);
      }
    }

    /** set: fails, with code 1, exactly when the value does not fit; only dirty sets are logged. */
    method Set(key: Key, data: seq<byte>, dirty: bool) returns (ret: int)
      requires Valid() && LenOk(|data|, Lim().chunkSize)
      requires dumpMin >= 0 && dirty && Fits(View(), Lim(), key, |data|) ==> Loggable(|data|)
      modifies Repr() - {this}
      ensures Valid() && View() == RecencyMaps.Set(old(View()), Lim(), key, data, |data|, dirty)
      ensures ret == if Fits(old(View()), Lim(), key, |data|) then 0 else 1
      ensures binlog.history ==
        old(binlog.history) + (if ret == 0 && dirty && dumpMin >= 0 then [EncodeLog(LogSet(key, data))] else [])
      ensures binlog.Roomy() ==> binlog.dropped == old(binlog.dropped)
    {
      hide HashMap.Valid, HashMap.View, EncodeLog, Fits, RecencyMaps.Set, BinLog.Valid, BinLog.Roomy, Loggable;
      var ok := Store(key, data, dirty);
      if !ok {
        return 1;
      }
      if dumpMin >= 0 && dirty {
        WriteLog(LogSet(key, data));
      }
      return 0;
    }

    /** mark_clean, for one key. */
    method MarkClean(key: Key) returns (ret: int)
      requires Valid()
      modifies Repr() - {this}
      ensures Valid() && View() == RecencyMaps.MarkClean(old(View()), key)
      ensures ret == if Lookup(old(View()), key).Some? then 0 else 1
      ensures ret == 0 ==>
        var i := IndexOf(old(View()), key); i < |old(cache.add)| && cache.add == ToFront(old(cache.add), i)
      ensures binlog.history ==
        old(binlog.history) + (if ret == 0 && dumpMin >= 0 then [EncodeLog(LogClean(key))] else [])
      ensures binlog.Roomy() ==> binlog.dropped == old(binlog.dropped)
    {
      hide HashMap.Valid, HashMap.View, EncodeLog, IndexOf, Touch, Without, RecencyMaps.MarkClean, Drop, BinLog.Valid,
        BinLog.Roomy;
      Missing(View(), key);
      var node := cache.FindNode(key);
      if node == INVALID {
        return 1;
      }
      AfterTouch(old(View()), key);
      cache.RecencyEnds();
      cache.SetNodeFlag(node, false, 0);
      WriteLog(LogClean(key));
      return 0;
    }

    /** del. */
    method Del(key: Key) returns (ret: int)
      requires Valid()
      modifies Repr() - {this}
      ensures Valid() && View() == Drop(old(View()), key)
      ensures ret == if Lookup(old(View()), key).Some? then 0 else 1
      ensures binlog.history ==
        old(binlog.history) + (if ret == 0 && dumpMin >= 0 then [EncodeLog(LogDel(key))] else [])
      ensures binlog.Roomy() ==> binlog.dropped == old(binlog.dropped)
    {
      hide HashMap.Valid, HashMap.View, EncodeLog, IndexOf, Touch, Without, RecencyMaps.MarkClean, Drop, BinLog.Valid,
        BinLog.Roomy;
      Missing(View(), key);
      var node := cache.FindNode(key);
      if node == INVALID {
        return 1;
      }
      AfterTouch(old(View()), key);
      cache.RecencyEnds();
      WriteLog(LogDel(key));
      cache.DeleteNode(node, 0);
      return 0;
    }

    /** oldest_key: the entry at the end of the recency list, which stays where it is. */
    method OldestKey() returns (ret: int, key: Key, dataLen: int, dirty: bool)
      requires Valid()
      ensures ret == if View() == [] then NOT_FOUND else FOUND
      ensures ret == FOUND ==> var e := View()[|View()| - 1]; key == e.key && dataLen == e.len && dirty == e.dirty
    {
      hide HashMap.Valid, HashMap.View, BinLog.Valid, BinLog.Roomy;
      cache.RecencyEnds();
      var node := cache.addTail;
      if node == INVALID {
        return NOT_FOUND, EMPTY_INFO.key, 0, false;
      }
      cache.RecencyNext(|cache.add| - 1);
      return FOUND, cache.infos[node].key, cache.infos[node].chunkLen, cache.infos[node].dirty;
    }

    /** dirty_iterator++: goes on to the next dirty node after the one at position i. */
    method NextDirty(cur: int, ghost i: nat) returns (n: int, ghost j: nat)
      requires Valid() && i < |cache.add| && cache.add[i] == cur
      ensures |View()| == |cache.add| && i < j <= |View()|
      ensures n == if j < |View()| then cache.add[j] else INVALID
      ensures VisitFrom(View(), i) == [View()[i]] + VisitFrom(View(), j)
      ensures Advances(View(), i, j)
    {
      hide HashMap.Valid, HashMap.View, VisitFrom, DirtyOf, BinLog.Valid, BinLog.Roomy;
      cache.RecencyEnds();
      cache.RecencyNext(i);
      n, j := cache.addLinks[cur].next, i + 1;
      while n != INVALID && !cache.infos[n].dirty
        invariant i < j <= |cache.add| && n == if j < |cache.add| then cache.add[j] else INVALID
        invariant forall m :: i < m < j ==> !View()[m].dirty
        decreases |cache.add| - j
      {
        cache.RecencyNext(j);
        n, j := cache.addLinks[n].next, j + 1;
      }
      if j < |cache.add| { cache.RecencyNext(j); }
      VisitNext(View(), i + 1, j);
      VisitStep(View(), i);
    }

    /** One round of the dump loop: copies the value out and, for a selected key, puts its head in front. */
    method DumpOne(cur: int, buff: array<byte>, ipos: nat, maxSize: int, modBase: int, modRes: int, ghost i: nat)
      returns (ok: bool, ipos': nat)
      requires Valid() && i < |cache.add| && cache.add[i] == cur
      requires buff !in Repr() && ipos <= maxSize <= buff.Length && |View()| == |cache.add| && View()[i].len < TWO_32
      requires SaneMod(modBase, modRes)
      modifies buff
      ensures Valid() && View() == old(View())
      ensures var e := View()[i];
        && |e.value| == e.len
        && (ok <==> e.len <= maxSize - ipos - HEAD_LEN)
        && (ok && (modBase == -1 || Selected(e.key, modBase, modRes)) ==>
              ipos' == ipos + HEAD_LEN + e.len && buff[..ipos'] == old(buff[..ipos]) + EncodeEntry(e))
        && (!(ok && (modBase == -1 || Selected(e.key, modBase, modRes))) ==>
            ipos' == ipos && buff[..ipos] == old(buff[..ipos]))
    {
      hide HashMap.Valid, HashMap.View, Selected, EncodeEntry, EncodeU32, Overwrite, BinLog.Valid, BinLog.Roomy;
      cache.RecencyNext(i);
      var key := cache.infos[cur].key;
      var ret, dataLen := cache.MergeNodeData(cur, buff, ipos + HEAD_LEN, maxSize - ipos - HEAD_LEN, i);
      if ret != 0 {
        return false, ipos;
      }
      ghost var e := View()[i];
      EntryWritten(old(buff[..]), ipos, e);
      if modBase != -1 && !Selected(key, modBase, modRes) {
        return true, ipos;
      }
      CopyInto(buff, ipos, key);
      CopyInto(buff, ipos + KEY_LEN, EncodeU32(dataLen));
      return true, ipos + HEAD_LEN + dataLen;
    }

    /** core_dump_mem: writes the head and the other dirty entries, as far as the buffer and the key filter allow. */
    method CoreDumpMem(buff: array<byte>, maxSize: int, modBase: int, modRes: int) returns (ipos: int)
      requires Valid() && buff !in Repr() && maxSize <= buff.Length
      requires SaneMod(modBase, modRes)
      modifies buff
      ensures Valid() && View() == old(View())
      ensures maxSize <= 0 ==> ipos == -1
      ensures maxSize > 0 ==>
        var d := Dumped(DumpList(View()), maxSize, modBase, modRes);
        && 0 <= ipos <= maxSize && Short(d) && buff[..ipos] == Serialize(d)
        && (forall e :: e in d ==> ToDump(View(), e, modBase, modRes))
        && (DumpSize(DumpList(View())) <= maxSize ==> forall e :: e in d <==> ToDump(View(), e, modBase, modRes))
    {
      hide HashMap.Valid, HashMap.View, VisitFrom, ToDump, DumpSize, DistinctKeys, Dumped, Serialize, Short, OnDisk,
        Selected, DumpList, EncodeEntry, Dumping, Advances, BinLog.Valid, BinLog.Roomy;
      if maxSize <= 0 {
        return -1;
      }
      ipos := 0;
      var cur := cache.addHead;
      cache.RecencyEnds();
      EntriesSized();
      ghost var es, i, done := View(), 0, [];
      DumpBegins(es, maxSize, modBase, modRes);
      assert buff[..0] == [];
      while cur != INVALID
        invariant Valid() && View() == es && |es| == |cache.add|
        invariant i <= |cache.add| && cur == if i < |cache.add| then cache.add[i] else INVALID
        invariant 0 <= ipos <= maxSize
        invariant Dumping(es, i, done, buff[..ipos], maxSize, modBase, modRes)
        decreases |cache.add| - i
      {
        ghost var written, i' := buff[..ipos], i;
        ShortAt(es, i);
        var ok, ipos' := DumpOne(cur, buff, ipos, maxSize, modBase, modRes, i);
        if !ok {
          break;
        }
        ipos := ipos';
        cur, i := NextDirty(cur, i);
        DumpGoesOn(es, i', i, done, written, maxSize, modBase, modRes);
        if modBase == -1 || Selected(es[i'].key, modBase, modRes) {
          done := done + [es[i']];
        }
      }
      DumpEnds(es, i, done, buff[..ipos], maxSize, modBase, modRes);
      DumpedAre(es, maxSize, modBase, modRes);
    }

    /** core_recover_mem: sets every complete record of the buffer; aborted tells that its assertion on set failed. */
    method CoreRecoverMem(buff: seq<byte>, buffSize: int) returns (ipos: int, aborted: bool)
      requires Valid() && buffSize <= |buff|
      requires buffSize >= 0 ==> SaneLengths(buff[..buffSize])
      requires buffSize >= 0 ==> Small(Parse(buff[..buffSize]), LenLimit(Lim().chunkSize))
      requires buffSize >= 0 && dumpMin >= 0 ==> AllLoggable(Parse(buff[..buffSize]))
      modifies Repr() - {this}
      ensures Valid()
      ensures buffSize < 0 ==> ipos == -1 && !aborted && View() == old(View())
      ensures buffSize >= 0 ==>
        var recs := Parse(buff[..buffSize]);
        && (aborted <==> !AllFit(old(View()), Lim(), recs))
        && (!aborted ==>
              && View() == Recover(old(View()), Lim(), recs) && ipos == DumpSize(recs)
              && binlog.history == old(binlog.history) + (if dumpMin >= 0 then SetRecords(recs) else []))
    {
      hide HashMap.Valid, HashMap.View, Fits, RecencyMaps.Set, EncodeLog, Parse, SaneLengths, Recover, AllFit, DumpSize,
        SetRecords, Serialize, Short, OnDisk, DecodeU32, BinLog.Valid, BinLog.Roomy, Loggable;
      if buffSize < 0 {
        return -1, false;
      }
      ipos := 0;
      ghost var s, all := buff[..buffSize], Parse(buff[..buffSize]);
      ghost var rest := all;
      while ipos < buffSize
        invariant Valid() && 0 <= ipos <= buffSize && s == buff[ipos..buffSize]
        invariant SaneLengths(s) && rest == Parse(s) && (dumpMin >= 0 ==> AllLoggable(rest))
        invariant Small(rest, LenLimit(Lim().chunkSize))
        invariant AllFit(View(), Lim(), rest) <==> AllFit(old(View()), Lim(), all)
        invariant Recover(View(), Lim(), rest) == Recover(old(View()), Lim(), all)
        invariant ipos + DumpSize(rest) == DumpSize(all)
        invariant dumpMin >= 0 ==> binlog.history + SetRecords(rest) == old(binlog.history) + SetRecords(all)
        invariant dumpMin < 0 ==> binlog.history == old(binlog.history)
      {
        ParseCases(s);
        RecoverStep(View(), Lim(), rest);
        if buffSize - ipos <= HEAD_LEN {
          break;
        }
        var key: Key := buff[ipos..ipos + KEY_LEN];
        var dataLen := DecodeU32(buff[ipos + KEY_LEN..ipos + HEAD_LEN]);
        SliceOfSlice(buff, ipos, buffSize, 0, KEY_LEN);
        SliceOfSlice(buff, ipos, buffSize, KEY_LEN, HEAD_LEN);
        if dataLen > buffSize - ipos - HEAD_LEN {
          break;
        }
        var data := buff[ipos + HEAD_LEN..ipos + HEAD_LEN + dataLen];
        SliceOfSlice(buff, ipos, buffSize, HEAD_LEN, HEAD_LEN + dataLen);
        var ret := Set(key, data, true);
        if ret != 0 {
          return ipos, true;
        }
        s, rest := s[HEAD_LEN + dataLen..], rest[1..];
        ipos := ipos + HEAD_LEN + dataLen;
      }
      ParseCases(s);
      RecoverStep(View(), Lim(), rest);
      aborted := false;
    }

    lemma BucketEntries(b: nat)
      requires Valid() && b < cache.bucketSize
      ensures DistinctKeys(cache.BucketView(b))
      ensures forall e :: e in cache.BucketView(b) <==> e in View() && BucketId(e.key, cache.bucketSize) == b
    {
      hide HashMap.Valid, HashMap.View, HashMap.BucketView, BucketId;
      cache.BucketMembers(b);
    }

    lemma BucketDumped(b: nat, room: int)
      requires Valid() && b < cache.bucketSize
      ensures var d := Dumped(cache.BucketView(b), room, -1, 0);
        && (forall e :: e in d ==> e in View() && KeyNumber(e.key) % cache.bucketSize == b)
        && (DumpSize(cache.BucketView(b)) <= room ==>
              forall e :: e in d <==> e in View() && KeyNumber(e.key) % cache.bucketSize == b)
    {
      hide HashMap.Valid, HashMap.View, HashMap.BucketView, Dumped, Selected, DumpSize, KeyNumber, Chosen, BinLog.Valid,
        DistinctKeys;
      cache.BucketHolds(b);
      DumpedFrom(cache.BucketView(b), room, -1, 0);
      if DumpSize(cache.BucketView(b)) <= room {
        DumpedChosen(cache.BucketView(b), room, -1, 0);
        ChosenMembers(cache.BucketView(b), -1, 0);
      }
    }

    /** core_dump_bucket_mem: the entries of one bucket list, clean ones too, as far as the buffer allows. */
    method CoreDumpBucketMem(buff: array<byte>, maxSize: int, b: nat) returns (ret: int, coreSize: nat)
      requires Valid() && buff !in Repr() && maxSize <= buff.Length && b < cache.bucketSize
      modifies buff
      ensures Valid() && View() == old(View()) && cache.BucketView(b) == old(cache.BucketView(b))
      ensures maxSize <= 0 ==> ret == -1 && coreSize == 0
      ensures maxSize > 0 ==>
        var d := Dumped(cache.BucketView(b), maxSize, -1, 0);
        && ret == (if DumpSize(cache.BucketView(b)) <= maxSize then 0 else -2)
        && coreSize <= maxSize && Short(d) && buff[..coreSize] == Serialize(d)
        && (forall e :: e in d ==> e in View() && KeyNumber(e.key) % cache.bucketSize == b)
        && (ret == 0 ==> forall e :: e in d <==> e in View() && KeyNumber(e.key) % cache.bucketSize == b)
    {
      hide HashMap.Valid, HashMap.View, HashMap.BucketView, Dumped, Serialize, Short, OnDisk, Selected, EncodeEntry,
        BucketDumping, BinLog.Valid, BinLog.Roomy, DumpSize, KeyNumber;
      BucketDumped(b, maxSize);
      coreSize := 0;
      if maxSize <= 0 {
        return -1, coreSize;
      }
      cache.BucketHead(b);
      var node := cache.bucket[b];
      ghost var bs, es, q := cache.BucketView(b), View(), 0;
      EntriesSized();
      BucketDumpBegins(bs, maxSize);
      assert buff[..0] == [];
      while node != INVALID
        invariant Valid() && View() == es && cache.BucketView(b) == bs
        invariant b < |cache.lists| && |bs| == |cache.lists[b]| && q <= |bs|
        invariant INVALID !in cache.lists[b] && node == if q < |bs| then cache.lists[b][q] else INVALID
        invariant coreSize <= maxSize && BucketDumping(bs, q, buff[..coreSize], maxSize)
        decreases |bs| - q
      {
        ghost var p := cache.BucketNext(b, q);
        cache.RecencyEnds();
        ShortAt(es, p);
        ghost var written := buff[..coreSize];
        var ok, ipos := DumpOne(node, buff, coreSize, maxSize, -1, 0, p);
        if !ok {
          BucketDumpStops(bs, q, written, maxSize);
          return -2, coreSize;
        }
        BucketDumpGoesOn(bs, q, written, maxSize);
        coreSize := ipos;
        node := cache.nodeLinks[node].next;
        q := q + 1;
      }
      BucketDumpEnds(bs, buff[..coreSize], maxSize);
      return 0, coreSize;
    }

    /** core_recover_bucket_mem: sets the records in order up to one that does not fit; n is how many were set. */
    method CoreRecoverBucketMem(buff: seq<byte>, buffSize: int) returns (ret: int, recoverSize: int, ghost n: nat)
      requires Valid() && buffSize <= |buff|
      requires buffSize >= 0 ==>
        SaneLengths(buff[..buffSize]) && Small(Parse(buff[..buffSize]), LenLimit(Lim().chunkSize))
      requires buffSize >= 0 && dumpMin >= 0 ==> AllLoggable(Parse(buff[..buffSize]))
      modifies Repr() - {this}
      ensures Valid()
      ensures buffSize < 0 ==> ret == -1 && recoverSize == 0 && View() == old(View())
      ensures buffSize >= 0 ==>
        var s, recs := buff[..buffSize], Parse(buff[..buffSize]);
        && n <= |recs| && AllFit(old(View()), Lim(), recs[..n])
        && ret == (if n == |recs| && !CutShort(s) then 0 else -2)
        && (n < |recs| ==> !Fits(Recover(old(View()), Lim(), recs[..n]), Lim(), recs[n].key, |recs[n].value|))
        && View() == Recover(old(View()), Lim(), if n < |recs| then recs[..n + 1] else recs)
        && recoverSize == DumpSize(recs[..n])
        && binlog.history == old(binlog.history) + (if dumpMin >= 0 then SetRecords(recs[..n]) else [])
    {
      hide HashMap.Valid, HashMap.View, Fits, RecencyMaps.Set, EncodeLog, Parse, SaneLengths, Recover, AllFit, DumpSize,
        SetRecords, Serialize, Short, OnDisk, DecodeU32, BinLog.Valid, BinLog.Roomy, Loggable, CutShort;
      n, ret, recoverSize := 0, -1, 0;
      if buffSize < 0 {
        return;
      }
      ghost var s, recs := buff[..buffSize], Parse(buff[..buffSize]);
      var ipos := 0;
      RecoverNone(View(), Lim(), recs);
      ParsedSizes(s);
      while ipos < buffSize
        invariant Valid() && 0 <= ipos <= buffSize && s == buff[ipos..buffSize]
        invariant n <= |recs| && SaneLengths(s) && Parse(s) == recs[n..]
        invariant CutShort(s) <==> CutShort(buff[..buffSize])
        invariant View() == Recover(old(View()), Lim(), recs[..n]) && AllFit(old(View()), Lim(), recs[..n])
        invariant ipos == DumpSize(recs[..n]) == recoverSize
        invariant binlog.history == old(binlog.history) + (if dumpMin >= 0 then SetRecords(recs[..n]) else [])
      {
        ParseCases(s);
        CutCases(s);
        if buffSize - ipos <= HEAD_LEN {
          break;
        }
        var key: Key := buff[ipos..ipos + KEY_LEN];
        var dataLen := DecodeU32(buff[ipos + KEY_LEN..ipos + HEAD_LEN]);
        SliceOfSlice(buff, ipos, buffSize, 0, KEY_LEN);
        SliceOfSlice(buff, ipos, buffSize, KEY_LEN, HEAD_LEN);
        if dataLen > buffSize - ipos - HEAD_LEN {
          assert n == |recs| && recs[..n] == recs;
          return -2, recoverSize, n;
        }
        var data := buff[ipos + HEAD_LEN..ipos + HEAD_LEN + dataLen];
        SliceOfSlice(buff, ipos, buffSize, HEAD_LEN, HEAD_LEN + dataLen);
        RecoverPrefix(old(View()), Lim(), recs, n);
        assert recs[n..][0] == recs[n] && recs[n..][1..] == recs[n + 1..];
        var r := Set(key, data, true);
        if r != 0 {
          return -2, recoverSize, n;
        }
        s, n := s[HEAD_LEN + dataLen..], n + 1;
        ipos := ipos + HEAD_LEN + dataLen;
        recoverSize := ipos;
      }
      ParseCases(s);
      CutCases(s);
      assert n == |recs| && recs[..n] == recs;
      ret := 0;
    }

    /** The key, length and value of a node, as core_dump copies them into its staging buffer. */
    method ReadEntry(cur: int, nodeBuf: array<byte>, ghost i: nat) returns (ok: bool, bytes: seq<byte>)
      requires Valid() && i < |cache.add| && cache.add[i] == cur && nodeBuf !in Repr()
      requires |View()| == |cache.add| && View()[i].len < TWO_32
      modifies nodeBuf
      ensures Valid() && View() == old(View())
      ensures ok <==> View()[i].len <= nodeBuf.Length
      ensures |View()[i].value| == View()[i].len && (ok ==> bytes == EncodeEntry(View()[i]))
    {
      hide HashMap.Valid, HashMap.View, EncodeU32, Serialize, Short, OnDisk, BinLog.Valid, BinLog.Roomy;
      cache.RecencyNext(i);
      var key := cache.infos[cur].key;
      var ret, dataLen := cache.MergeNodeData(cur, nodeBuf, 0, nodeBuf.Length, i);
      if ret != 0 {
        return false, [];
      }
      return true, key + EncodeU32(dataLen) + nodeBuf[..dataLen];
    }

    /** The loop of core_dump: entries go through a staging buffer, which is flushed to the file when full. */
    method CollectDump(nodeBuf: array<byte>) returns (file: seq<byte>, ghost done: seq<CacheEntry>)
      requires Valid() && nodeBuf !in Repr() && nodeBuf.Length == MAX_BINLOG_ITEM_LEN
      modifies nodeBuf
      ensures Valid() && View() == old(View())
      ensures done == TakeFitting(DumpList(View()), MAX_BINLOG_ITEM_LEN)
      ensures Short(done) && file == Serialize(done)
    {
      hide HashMap.Valid, HashMap.View, VisitFrom, Serialize, Short, OnDisk, DumpList, EncodeEntry, TakeFitting,
        Collecting, Advances, BinLog.Valid, BinLog.Roomy;
      var buf: seq<byte> := [];
      file := [];
      var cur := cache.addHead;
      cache.RecencyEnds();
      EntriesSized();
      ghost var es, i := View(), 0;
      done := [];
      CollectBegins(es);
      assert file + buf == [];
      while cur != INVALID
        invariant Valid() && View() == es && |es| == |cache.add|
        invariant i <= |cache.add| && cur == if i < |cache.add| then cache.add[i] else INVALID
        invariant Collecting(es, i, done, file + buf) && |buf| <= DUMP_BUF_SIZE
        decreases |cache.add| - i
      {
        ghost var written, i' := file + buf, i;
        ShortAt(es, i);
        var ok, bytes := ReadEntry(cur, nodeBuf, i);
        if !ok {
          break;
        }
        file, buf := Stage(file, buf, bytes);
        cur, i := NextDirty(cur, i);
        CollectGoesOn(es, i', i, done, written);
        done := done + [es[i']];
      }
      CollectEnds(es, i, done, file + buf);
      file := file + buf;
    }

    /** core_dump: the old dump file is kept as the last one; the file size is returned as an int. */
    method CoreDump() returns (len: int)
      requires Valid()
      modifies this`dumpFile, this`lastFile, this`dumped
      ensures Valid() && View() == old(View())
      ensures dumped == DumpOf(View())
      ensures Short(dumped) && dumpFile == Some(Serialize(dumped)) && len == Signed32(DumpSize(dumped))
      ensures lastFile == old(dumpFile)
    {
      hide HashMap.Valid, HashMap.View, Serialize, Short, OnDisk, DumpList, TakeFitting, BinLog.Valid, BinLog.Roomy,
        DumpSize, Signed32;
      var file;
      ghost var done;
      var nodeBuf := new byte[MAX_BINLOG_ITEM_LEN];
      file, done := CollectDump(nodeBuf);
      TakenSmall(DumpList(View()), MAX_BINLOG_ITEM_LEN);
      assert OnDisk(done) by { DumpOnDisk(done); }
      dumped := done;
      dumpFile, lastFile := Some(file), dumpFile;
      SerializedSize(done);
      len := Signed32(|file|);
    }

    /**
     core_recover.  End-of-file shows only after a read has failed, so after the last record the loop runs once
     more with the old key and length, or with the uninitialised ones given here if the file is empty.
     */
    method CoreRecover(garbage: Key) returns (ret: int)
      requires Valid() && dumpFile.Some? && Small(ReadBack(dumped), LenLimit(Lim().chunkSize))
      modifies cache.Repr()
      ensures Valid()
      ensures ret == if Small(dumped, RECOVER_BUF_SIZE) then 0 else -1
      ensures View() == FromDump(old(View()), Lim(), dumped, garbage)
    {
      hide HashMap.Valid, HashMap.View, Fits, RecencyMaps.Set, Serialize, Short, OnDisk, Recover, TakeFitting,
        EncodeEntry, EncodeU32, DecodeU32, Small, OnceMore, BinLog.Valid, BinLog.Roomy;
      ShortDump();
      var content := dumpFile.value;
      var pos, eof, key, lenBytes := 0, false, garbage, EncodeU32(0);
      ghost var done: seq<CacheEntry>, rest := [], dumped;
      ghost var goal := Recover(View(), Lim(), TakeFitting(dumped, RECOVER_BUF_SIZE));
      NoneSmall(RECOVER_BUF_SIZE);
      while !eof
        invariant Valid() && 0 <= pos <= |content| && |lenBytes| == 4
        invariant Short(rest) && content[pos..] == Serialize(rest)
        invariant dumped == done + rest && Small(done, RECOVER_BUF_SIZE)
        invariant Small(TakeFitting(rest, RECOVER_BUF_SIZE), LenLimit(Lim().chunkSize))
        invariant (key, DecodeU32(lenBytes)) == LastHead(done, garbage)
        invariant !eof ==> Recover(View(), Lim(), TakeFitting(rest, RECOVER_BUF_SIZE)) == goal
        invariant eof ==> rest == [] && View() == OnceMore(goal, Lim(), dumped, garbage)
        decreases |content| - pos, !eof
      {
        ReadCases(content, pos, rest);
        FitCases(View(), Lim(), done, rest, dumped);
        TakenHead(rest, LenLimit(Lim().chunkSize));
        key, lenBytes, pos, eof := ReadHead(content, pos, key, lenBytes);
        var dataLen := DecodeU32(lenBytes);
        if dataLen > RECOVER_BUF_SIZE {
          return -1;
        }
        var readLen := if dataLen <= |content| - pos then dataLen else |content| - pos;
        if readLen != dataLen {
          OnceMoreIs(goal, Lim(), dumped, garbage);
          assert rest == [];
          break;
        }
        var data := content[pos..pos + dataLen];
        var _ := Store(key, data, true);
        pos := pos + dataLen;
        if rest == [] {
          OnceMoreIs(goal, Lim(), dumped, garbage);
        } else {
          done, rest := done + [rest[0]], rest[1..];
        }
      }
      assert dumped == done;
      TakeAll(dumped, RECOVER_BUF_SIZE);
      return 0;
    }

    /** One round of StartUp's replay loop: nothing is logged again. */
    method ReplayRecord(rec: LogRec)
      requires Valid() && (rec.LogSet? ==> LenOk(|rec.value|, Lim().chunkSize))
      modifies cache.Repr()
      ensures Valid() && View() == ReplayOne(old(View()), Lim(), rec)
    {
      hide HashMap.Valid, HashMap.View, IndexOf, Touch, Without, RecencyMaps.MarkClean, Drop, Fits, RecencyMaps.Set,
        Serialize, Short, OnDisk, BinLog.Valid, BinLog.Roomy;
      if rec.LogSet? {
        var _ := Store(rec.key, rec.value, true);
        return;
      }
      Missing(View(), rec.key);
      var node := cache.FindNode(rec.key);
      if node == INVALID {
        return;
      }
      AfterTouch(old(View()), rec.key);
      cache.RecencyEnds();
      if rec.LogDel? {
        cache.DeleteNode(node, 0);
      } else {
        cache.SetNodeFlag(node, false, 0);
      }
    }

    /** The replay loop of StartUp: every surviving record, oldest first. */
    method ReplayLog()
      requires Valid() && Readable(binlog.Surviving(), MAX_BINLOG_ITEM_LEN)
      requires SmallLog(DecodeAll(binlog.Surviving()), LenLimit(Lim().chunkSize))
      modifies cache.Repr(), binlog`reader, binlog`readIdx
      ensures Valid() && View() == Replay(old(View()), Lim(), DecodeAll(binlog.Surviving()))
    {
      hide HashMap.Valid, HashMap.View, Serialize, Short, OnDisk, ReplayOne, DecodeLog, From, Replay, DecodeAll,
        Readable, BinLog.Remaining, BinLog.Valid, BinLog.Roomy, SmallLog;
      binlog.SetReadRecordStart();
      ReplayStart(View(), Lim());
      ghost var all, done := binlog.Surviving(), [];
      while true
        invariant Valid() && binlog.ReaderOk() && binlog.Surviving() == all
        invariant done + binlog.Remaining() == all
        invariant View() == Replay(old(View()), Lim(), DecodeAll(done))
        decreases |binlog.Remaining()|
      {
        ghost var left := binlog.Remaining();
        if left != [] {
          assert left[0] == all[|done|];
          ReadableAt(all, MAX_BINLOG_ITEM_LEN, |done|);
          SmallAt(all, LenLimit(Lim().chunkSize), |done|);
        }
        var ret, rec := binlog.ReadRecordFromBinLog(MAX_BINLOG_ITEM_LEN);
        if ret <= 0 {
          assert done == all;
          break;
        }
        var r := DecodeLog(rec);
        ReplayRecord(r.value);
        ReplayNext(old(View()), Lim(), done, rec);
        assert left == [rec] + binlog.Remaining();
        done := done + [rec];
      }
    }

    /** StartUp: only a newly created cache is rebuilt, from the dump file if dumping is on and then from the log. */
    method StartUp(garbage: Key) returns (ret: int)
      requires Valid() && Readable(binlog.Surviving(), MAX_BINLOG_ITEM_LEN)
      requires SmallLog(DecodeAll(binlog.Surviving()), LenLimit(Lim().chunkSize))
      requires Small(ReadBack(dumped), LenLimit(Lim().chunkSize))
      modifies cache.Repr(), binlog`reader, binlog`readIdx
      ensures Valid()
      ensures ret == if cacheInit then 0 else 1
      ensures !cacheInit ==> View() == old(View())
      ensures cacheInit ==>
        var base :=
          if dumpFile.Some? && dumpMin > 0 then FromDump(old(View()), Lim(), dumped, garbage) else old(View());
        View() == Replay(base, Lim(), DecodeAll(binlog.Surviving()))
    {
      hide HashMap.Valid, HashMap.View, Serialize, Short, OnDisk, FromDump, Replay, DecodeAll, Readable, BinLog.Valid,
        BinLog.Roomy, SmallLog, Small, ReadBack;
      if !cacheInit {
        return 1;
      }
      if dumpFile.Some? && dumpMin > 0 {
        var _ := CoreRecover(garbage);
      }
      ReplayLog();
      return 0;
    }

    /** time_check: a dump that is due replaces the log, unless its size is taken for a failure. */
    method TimeCheck(due: bool) returns (ret: int)
      requires Valid()
      modifies this`dumpFile, this`lastFile, this`dumped, binlog
      ensures Valid() && View() == old(View())
      ensures ret == if dumpMin > 0 && !due then 1 else 0
      ensures dumpMin <= 0 || !due ==>
        && dumpFile == old(dumpFile) && dumped == old(dumped)
        && binlog.history == old(binlog.history) && binlog.dropped == old(binlog.dropped)
      ensures dumpMin > 0 && due ==> dumpFile.Some? && dumped == DumpOf(View())
      ensures dumpMin > 0 && due && ClearsLog(dumped) ==> binlog.history == [] && binlog.dropped == []
      ensures dumpMin > 0 && due && !ClearsLog(dumped) ==>
        binlog.history == old(binlog.history) && binlog.dropped == old(binlog.dropped)
    {
      hide HashMap.Valid, HashMap.View, Serialize, Short, OnDisk, DumpOf, BinLog.Valid, BinLog.Roomy, DumpSize,
        Signed32;
      if dumpMin <= 0 {
        return 0;
      }
      if due {
        var len := CoreDump();
        if 0 <= len {
          binlog.ClearAllBinLog();
        }
        return 0;
      }
      return 1;
    }

    /** dirty_iterator::get, whose data the caller does not look at. */
    method IteratorGet(cur: int, buff: array<byte>, ghost i: nat) returns (key: Key, fits: bool)
      requires Valid() && i < |cache.add| && cache.add[i] == cur && buff !in Repr()
      modifies buff
      ensures Valid() && View() == old(View()) && cache.add == old(cache.add) && i < |View()|
      ensures key == View()[i].key && (fits <==> View()[i].len <= buff.Length)
    {
      hide HashMap.Valid, HashMap.View, Serialize, Short, OnDisk, BinLog.Valid, BinLog.Roomy;
      cache.RecencyNext(i);
      key := cache.infos[cur].key;
      var ret, _ := cache.MergeNodeData(cur, buff, 0, buff.Length, i);
      fits := ret == 0;
    }

    /**
     mark_clean(modbase, mobres).  Marking moves the current node to the front, so the scan starts over from there;
     it ends all the same, and gives the list that one pass over the original order gives.
     */
    method MarkCleanAll(modBase: int, modRes: int)
      requires Valid() && SaneMod(modBase, modRes)
      modifies Repr() - {this}
      ensures Valid() && View() == CleanedList(old(View()), modBase, modRes)
      ensures binlog.history ==
        old(binlog.history) + CleanRecords(dumpMin, ScanKeys(old(View()), true, modBase, modRes))
      ensures Small(old(View()), CLEAN_BUF_SIZE) ==>
        forall k :: Lookup(View(), k) == ClassCleaned(Lookup(old(View()), k), modBase, modRes)
    {
      hide HashMap.Valid, HashMap.View, Serialize, Short, OnDisk, BinLog.Valid, BinLog.Roomy, CleanedList, ScanKeys,
        CleanRecords, Lookup, ClassCleaned, Small, DistinctKeys;
      cache.KeysDistinct();
      var buff := new byte[CLEAN_BUF_SIZE];
      CleanLoop(buff, modBase, modRes);
      cache.KeysDistinct();
      if Small(old(View()), CLEAN_BUF_SIZE) {
        forall k: Key ensures Lookup(View(), k) == ClassCleaned(Lookup(old(View()), k), modBase, modRes) {
          CleanedLookup(old(View()), modBase, modRes, k);
        }
      }
    }

    /** One marking of its loop: the entry moves to the front, and the scan goes on behind it. */
    method MarkAndNext(cur: int, key: Key, modBase: int, modRes: int, ghost t: Parts, ghost p: nat, ghost goal: Goal)
      returns (n: int, ghost u: Parts, ghost j: nat)
      requires Valid() && SaneMod(modBase, modRes) && Scanning(View(), t, p, goal, modBase, modRes)
      requires p < |cache.add| && cache.add[p] == cur && p < |View()| && View()[p].key == key
      requires View()[p].len <= CLEAN_BUF_SIZE && Selected(key, modBase, modRes)
      modifies Repr() - {this}
      ensures Valid() && Scanning(View(), u, j, goal, modBase, modRes) && |u.rest| < |t.rest|
      ensures u.keys == t.keys + [key]
      ensures j <= |cache.add| == |View()| && n == if j < |cache.add| then cache.add[j] else INVALID
      ensures binlog.history == old(binlog.history) + (if dumpMin >= 0 then [EncodeLog(LogClean(key))] else [])
    {
      hide HashMap.Valid, HashMap.View, Selected, BinLog.Valid, RecencyMaps.MarkClean, IndexOf, VisitFrom, EncodeLog,
        Scanning, Advances, DistinctKeys, BinLog.Roomy;
      ghost var es := View();
      cache.KeysDistinct();
      MarkCleanAt(es, p);
      IndexOfAt(es, p);
      var _ := MarkClean(key);
      cache.RecencyEnds();
      n, j := NextDirty(cur, 0);
      u := ScanMarks(es, t, p, View(), j, goal, modBase, modRes);
    }

    /** Its loop: after each entry cleaned, which is in front then, the scan starts over. */
    method CleanLoop(buff: array<byte>, modBase: int, modRes: int)
      requires Valid() && SaneMod(modBase, modRes) && buff !in Repr() && buff.Length == CLEAN_BUF_SIZE
      modifies Repr() - {this}, buff
      ensures Valid() && View() == CleanedList(old(View()), modBase, modRes)
      ensures binlog.history ==
        old(binlog.history) + CleanRecords(dumpMin, ScanKeys(old(View()), true, modBase, modRes))
    {
      hide HashMap.Valid, HashMap.View, Serialize, Short, OnDisk, Selected, Scan, BinLog.Valid, RecencyMaps.MarkClean,
        IndexOf, VisitFrom, EncodeLog, Scanning, Advances, DistinctKeys, ScanKeys, CleanRecords, BinLog.Roomy;
      var cur := cache.addHead;
      cache.RecencyEnds();
      ghost var goal := Goal(CleanedList(View(), modBase, modRes), ScanKeys(View(), true, modBase, modRes));
      ghost var t, log := Parts([], [], View(), true, []), binlog.history;
      ghost var p: nat := 0;
      OneMoreRecord(log, dumpMin, [], ZERO_KEY);
      ScanStarts(View(), goal, modBase, modRes);
      while cur != INVALID
        invariant Valid() && Scanning(View(), t, p, goal, modBase, modRes)
        invariant p <= |cache.add| == |View()| && cur == if p < |cache.add| then cache.add[p] else INVALID
        invariant binlog.history == log + CleanRecords(dumpMin, t.keys)
        decreases |t.rest|, |View()| - p
      {
        ghost var es, i := View(), p;
        var key, fits := IteratorGet(cur, buff, p);
        if !fits {
          ScanEnds(es, t, p, goal, modBase, modRes);
          return;
        }
        if !Selected(key, modBase, modRes) {
          cur, p := NextDirty(cur, p);
          t := ScanPasses(es, t, i, p, goal, modBase, modRes);
          continue;
        }
        OneMoreRecord(log, dumpMin, t.keys, key);
        cur, t, p := MarkAndNext(cur, key, modBase, modRes, t, p, goal);
      }
      cache.RecencyEnds();
      ScanEnds(View(), t, p, goal, modBase, modRes);
    }
  }

  /**
   Dump, then recover into an empty cache of the same size: the records read back are the chosen entries, except an
   empty one at the end. It aborts exactly if one of them is empty; if not, they are there, all dirty, oldest first,
   and in the log of the copy.  So all chosen entries come back exactly if none is empty.
   */
  method CopyByDump(a: CacheAccess, b: CacheAccess, buff: array<byte>, modBase: int, modRes: int)
    returns (n: int, aborted: bool)
    requires a.Valid() && b.Valid() && a.Repr() !! b.Repr() && buff !in a.Repr() + b.Repr()
    requires SaneMod(modBase, modRes)
    requires b.View() == [] && b.Lim() == a.Lim()
    requires b.dumpMin >= 0 ==> AllLoggable(Chosen(DumpList(a.View()), modBase, modRes))
    requires DumpSize(DumpList(a.View())) <= buff.Length
    modifies buff, b.Repr() - {b}
    ensures a.Valid() && b.Valid() && a.View() == old(a.View())
    ensures var recs := Recoverable(Chosen(DumpList(a.View()), modBase, modRes));
      && (aborted <==> !NoneEmpty(recs))
      && (!aborted ==>
            && (buff.Length > 0 ==> n == DumpSize(recs)) && b.View() == Reverse(AllDirty(recs))
            && b.binlog.history == old(b.binlog.history) + (if b.dumpMin >= 0 then SetRecords(recs) else []))
    ensures var chosen := Chosen(DumpList(a.View()), modBase, modRes);
      !aborted && b.View() == Reverse(AllDirty(chosen)) <==> NoneEmpty(chosen)
  {
    hide CacheAccess.Valid, CacheAccess.View, Dumped, DumpList, Recover, AllFit, Serialize, Parse, SaneLengths,
      AllDirty, Chosen, SetRecords, AllLoggable, DumpSize, Reverse, BinLog.Valid, BinLog.Roomy, Selected, NoneEmpty,
      Recoverable, Small, Short;
    ghost var es := a.View();
    ghost var d := DumpList(es);
    ghost var chosen := Chosen(d, modBase, modRes);
    a.EntriesSized();
    var len := a.CoreDumpMem(buff, buff.Length, modBase, modRes);
    RecoverableAll(chosen);
    if buff.Length == 0 {
      DumpSizeZero(d);
      NothingChosen(modBase, modRes);
      return 0, false;
    }
    DumpedChosen(d, buff.Length, modBase, modRes);
    ChosenRoundTrip(es, a.Lim(), modBase, modRes);
    ReadBackAs(chosen, a.Lim());
    assert buff[..len][..len] == buff[..len];
    n, aborted := b.CoreRecoverMem(buff[..len], len);
  }

  /** The last record is missing exactly if it is empty. */
  lemma RecoverableAll(recs: seq<CacheEntry>)
    ensures Reverse(AllDirty(Recoverable(recs))) == Reverse(AllDirty(recs)) <==> Recoverable(recs) == recs
    ensures NoneEmpty(recs) <==> NoneEmpty(Recoverable(recs)) && Recoverable(recs) == recs
  {
    hide Reverse;
    if Recoverable(recs) == recs {
      assert forall i :: 0 <= i < |recs| ==> Recoverable(recs)[i] == recs[i];
    } else {
      assert |Reverse(AllDirty(Recoverable(recs)))| != |Reverse(AllDirty(recs))|;
    }
  }

  /** The records of a dump as they are parsed, seen as the ones that were dumped. */
  lemma ReadBackAs(recs: seq<CacheEntry>, lim: Limits)
    requires Short(recs) && Small(recs, LenLimit(lim.chunkSize))
    ensures var s, parsed := Serialize(recs), Recoverable(recs);
      && Parse(s) == AllDirty(parsed) && SaneLengths(s) && Small(Parse(s), LenLimit(lim.chunkSize))
      && (AllLoggable(recs) ==> AllLoggable(Parse(s))) && SetRecords(Parse(s)) == SetRecords(parsed)
      && Recover([], lim, Parse(s)) == Recover([], lim, parsed) && DumpSize(Parse(s)) == DumpSize(parsed)
      && (AllFit([], lim, Parse(s)) <==> AllFit([], lim, parsed))
  {
    hide Recover, AllFit, Serialize, Parse, SaneLengths, AllDirty, SetRecords, DumpSize, Loggable, Short;
    ParseSerialize(recs);
    RecoverAllDirty([], lim, Recoverable(recs));
    AllDirtyLoggable(Recoverable(recs));
    AllDirtySmall(Recoverable(recs), LenLimit(lim.chunkSize));
  }

  lemma {:induction false} AllDirtyLoggable(recs: seq<CacheEntry>)
    ensures AllLoggable(AllDirty(recs)) <==> AllLoggable(recs)
    ensures SetRecords(AllDirty(recs)) == SetRecords(recs)
    decreases |recs|
  {
    hide Loggable, EncodeLog;
    assert forall i :: 0 <= i < |recs| ==> AllDirty(recs)[i].value == recs[i].value;
    if recs != [] {
      AllDirtyStep(recs);
      AllDirtyLoggable(recs[1..]);
    }
  }

  lemma AllDirtySmall(recs: seq<CacheEntry>, limit: int)
    ensures Small(AllDirty(recs), limit) <==> Small(recs, limit)
  {
    assert forall i :: 0 <= i < |recs| ==> AllDirty(recs)[i].len == recs[i].len;
  }

  lemma NothingChosen(base: int, res: int)
    requires SaneMod(base, res)
    ensures Chosen([], base, res) == [] == Recoverable([]) && NoneEmpty([])
    ensures Reverse(AllDirty([])) == [] && SetRecords([]) == []
  {
  }

  /** What is chosen from a dump list comes back as well as all of it. */
  lemma ChosenRoundTrip(es: seq<CacheEntry>, lim: Limits, base: int, res: int)
    requires SaneMod(base, res)
    requires WithinLimits(es, lim) && Sized(es) && Small(es, LenLimit(lim.chunkSize))
    ensures var c := Chosen(DumpList(es), base, res);
      && Short(c) && Small(c, LenLimit(lim.chunkSize))
      && (AllFit([], lim, Recoverable(c)) <==> NoneEmpty(Recoverable(c)))
      && (NoneEmpty(Recoverable(c)) ==> Recover([], lim, Recoverable(c)) == Reverse(AllDirty(Recoverable(c))))
  {
    hide DumpList, Chosen, Recover, AllFit, AllDirty, WithinLimits, TakenFrom, Lookup, Selected, NoneEmpty;
    var d := DumpList(es);
    var c := Chosen(d, base, res);
    WithinIsDistinct(es, lim);
    DumpListMembers(es);
    DumpRoundTrip(es, lim);
    ChosenMembers(d, base, res);
    forall i | 0 <= i < |c|
      ensures c[i] in d && c[i].len == |c[i].value| < TWO_32 && c[i].len <= LenLimit(lim.chunkSize)
    {
      assert c[i] in c;
      var j :| 0 <= j < |es| && es[j] == c[i];
    }
    PartOfDump(Recoverable(c), d, es);
    ListRoundTrip(es, lim, Recoverable(c));
  }

  lemma PartOfDump(c: seq<CacheEntry>, d: seq<CacheEntry>, es: seq<CacheEntry>)
    requires (forall i :: 0 <= i < |c| ==> c[i] in d) && TakenFrom(d, es)
    ensures TakenFrom(c, es)
  {
    hide Lookup;
    forall i | 0 <= i < |c| ensures TakenFrom([c[i]], es) {
      var j :| 0 <= j < |d| && d[j] == c[i];
    }
    assert forall i :: 0 <= i < |c| ==> TakenFrom([c[i]], es) && [c[i]][0] == c[i];
  }
}
