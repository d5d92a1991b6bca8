/** The byte formats of log records and of dumped entries. */
module Codec {
  import opened Options
  import opened Bytes
  import opened RecencyMaps
  import opened HashMaps
  import opened Recovery

  const OP_SET := 0
  const OP_MARK_CLEAN := 1
  const OP_DEL := 2

  /** A log record: operation and key; a set also has its length, its data and an expiry time of 0. */
  function EncodeLog(rec: LogRec): (s: seq<byte>)
    requires rec.LogSet? ==> |rec.value| < TWO_32
    ensures |s| == if rec.LogSet? then 28 + |rec.value| else 20
  {
    match rec
    case LogSet(k, v) => EncodeU32(OP_SET) + k + EncodeU32(|v|) + v + EncodeU32(0)
    case LogClean(k) => EncodeU32(OP_MARK_CLEAN) + k
    case LogDel(k) => EncodeU32(OP_DEL) + k
  }

  /** How StartUp takes a record apart; other operation codes are skipped. */
  function DecodeLog(s: seq<byte>): (r: Option<LogRec>)
    ensures |s| < 20 ==> r == None
  {
    if |s| < 20 then None
    else
      var op, k := DecodeU32(s[..4]), s[4..20];
      if op == OP_MARK_CLEAN then Some(LogClean(k))
      else if op == OP_DEL then Some(LogDel(k))
      else if op != OP_SET || |s| < 24 then None
      else
        var len := DecodeU32(s[20..24]);
        if 24 + len <= |s| then Some(LogSet(k, s[24..24 + len])) else None
  }

  lemma LogRoundTrip(rec: LogRec)
    requires rec.LogSet? ==> |rec.value| < TWO_32
    ensures DecodeLog(EncodeLog(rec)) == Some(rec)
  {
    var s := EncodeLog(rec);
    match rec
    case LogSet(k, v) =>
      assert s[..4] == EncodeU32(OP_SET) && s[4..20] == k && s[20..24] == EncodeU32(|v|) && s[24..24 + |v|] == v;
    case LogClean(k) =>
      assert s[..4] == EncodeU32(OP_MARK_CLEAN) && s[4..20] == k;
    case LogDel(k) =>
      assert s[..4] == EncodeU32(OP_DEL) && s[4..20] == k;
  }

  ghost predicate Short(es: seq<CacheEntry>) {
    forall i :: 0 <= i < |es| ==> |es[i].value| == es[i].len < TWO_32
  }

  function EncodeEntry(e: CacheEntry): (s: seq<byte>)
    requires |e.value| < TWO_32
    ensures |s| == HEAD_LEN + |e.value|
  {
    e.key + EncodeU32(|e.value|) + e.value
  }

  /** The bytes of a dump: key, length and value of each entry. */
  ghost function Serialize(es: seq<CacheEntry>): seq<byte>
    requires Short(es)
    decreases |es|
  {
    if es == [] then [] else Serialize(es[..|es| - 1]) + EncodeEntry(es[|es| - 1])
  }

  lemma {:induction false} SerializeCons(e: CacheEntry, es: seq<CacheEntry>)
    requires Short([e] + es)
    ensures Short(es) && |e.value| < TWO_32 && Serialize([e] + es) == EncodeEntry(e) + Serialize(es)
    decreases |es|
  {
    assert forall i :: 0 <= i < |es| ==> es[i] == ([e] + es)[i + 1];
    assert e == ([e] + es)[0];
    if es == [] {
      assert [e] + es == [e] && [e][..0] == [];
    } else {
      var es' := es[..|es| - 1];
      assert ([e] + es)[..|es|] == [e] + es';
      SerializeCons(e, es');
    }
  }

  /** The formats byte by byte: log records start with 0, 1 or 2, dump entries with the key; lengths have four bytes. */
  lemma Formats(k: Key, v: seq<byte>, dirty: bool)
    requires |v| < TWO_32
    ensures var len: seq<byte> := [|v| % 256, |v| / 0x100 % 256, |v| / 0x1_0000 % 256, |v| / 0x100_0000];
      && EncodeLog(LogSet(k, v)) == [0, 0, 0, 0] + k + len + v + [0, 0, 0, 0]
      && EncodeLog(LogClean(k)) == [1, 0, 0, 0] + k
      && EncodeLog(LogDel(k)) == [2, 0, 0, 0] + k
      && EncodeEntry(Entry(k, v, |v|, dirty)) == k + len + v
  {
    hide EncodeU32;
    SmallWords();
    WordBytes(|v|);
  }

  lemma SmallWords()
    ensures EncodeU32(0) == [0, 0, 0, 0] && EncodeU32(1) == [1, 0, 0, 0] && EncodeU32(2) == [2, 0, 0, 0]
  {
  }

  function ToUnsigned(x: int): (u: nat)
    requires -TWO_31 <= x < TWO_31
  {
    if x < 0 then x + TWO_32 else x
  }

  /** Modulus and remainder as the code takes them: 32-bit integers, the modulus not zero. */
  predicate SaneMod(base: int, res: int) {
    -TWO_31 <= base < TWO_31 && -TWO_31 <= res < TWO_31 && base != 0
  }

  /** The key filter of the dump and of mark_clean: the first key word, modulo base, equals res. */
  predicate Selected(k: Key, base: int, res: int)
    requires SaneMod(base, res)
  {
    Uin(k) % ToUnsigned(base) == ToUnsigned(res)
  }

  /** The number in the first key bytes leaves this remainder; a negative modulus or remainder counts as 2^32 more. */
  ghost predicate InClass(k: Key, base: int, res: int)
    requires SaneMod(base, res)
  {
    KeyNumber(k) % (if base > 0 then base else 4294967296 + base) == (if res >= 0 then res else 4294967296 + res)
  }

  lemma SelectedIsClass(k: Key, base: int, res: int)
    requires SaneMod(base, res)
    ensures Selected(k, base, res) <==> InClass(k, base, res)
  {
    hide Uin, KeyNumber;
    UinIsKeyNumber(k);
  }

  lemma AllSelectedAreClasses(base: int, res: int)
    requires SaneMod(base, res)
    ensures forall k :: Selected(k, base, res) <==> InClass(k, base, res)
  {
    hide Selected, InClass;
    forall k: Key ensures Selected(k, base, res) <==> InClass(k, base, res) {
      SelectedIsClass(k, base, res);
    }
  }

  /** What core_dump_mem writes of the entries it visits: it stops at the first that does not fit the buffer. */
  ghost function Dumped(visit: seq<CacheEntry>, room: int, base: int, res: int): (d: seq<CacheEntry>)
    requires SaneMod(base, res)
    decreases |visit|
  {
    if visit == [] || room - HEAD_LEN < visit[0].len then []
    else if base != -1 && !Selected(visit[0].key, base, res) then Dumped(visit[1..], room, base, res)
    else [visit[0]] + Dumped(visit[1..], room - HEAD_LEN - visit[0].len, base, res)
  }

  /** The entries that the key filter lets through; modulus -1 is no filter. */
  ghost function Chosen(visit: seq<CacheEntry>, base: int, res: int): seq<CacheEntry>
    requires SaneMod(base, res)
  {
    if visit == [] then []
    else (if base == -1 || Selected(visit[0].key, base, res) then [visit[0]] else []) + Chosen(visit[1..], base, res)
  }

  /** With room for everything, a dump is exactly what the filter lets through. */
  lemma {:induction false} DumpedChosen(visit: seq<CacheEntry>, room: int, base: int, res: int)
    requires SaneMod(base, res)
    requires DumpSize(visit) <= room
    ensures Dumped(visit, room, base, res) == Chosen(visit, base, res)
    decreases |visit|
  {
    hide Selected;
    if visit != [] {
      if base == -1 || Selected(visit[0].key, base, res) {
        DumpedChosen(visit[1..], room - HEAD_LEN - visit[0].len, base, res);
      } else {
        DumpedChosen(visit[1..], room, base, res);
      }
    }
  }

  /** The chosen entries are those visited that the filter lets through, and no key comes twice if none did. */
  lemma {:induction false} ChosenMembers(visit: seq<CacheEntry>, base: int, res: int)
    requires SaneMod(base, res)
    ensures forall e :: e in Chosen(visit, base, res) <==> e in visit && (base == -1 || Selected(e.key, base, res))
    ensures DistinctKeys(visit) ==> DistinctKeys(Chosen(visit, base, res))
    ensures base == -1 ==> Chosen(visit, base, res) == visit
    decreases |visit|
  {
    hide Selected, SaneMod, DistinctKeys;
    if visit != [] {
      ChosenMembers(visit[1..], base, res);
      assert visit == [visit[0]] + visit[1..];
      if DistinctKeys(visit) {
        HeadIsNew(visit);
        PushDistinct(Chosen(visit[1..], base, res), visit[0]);
        assert [] + Chosen(visit[1..], base, res) == Chosen(visit[1..], base, res);
      }
    }
  }

  lemma {:induction false} DumpedFrom(visit: seq<CacheEntry>, room: int, base: int, res: int)
    requires SaneMod(base, res)
    ensures forall e :: e in Dumped(visit, room, base, res) ==> e in visit && (base == -1 || Selected(e.key, base, res))
    decreases |visit|
  {
    hide Selected, SaneMod;
    if visit != [] {
      DumpedFrom(visit[1..], room, base, res);
      DumpedFrom(visit[1..], room - HEAD_LEN - visit[0].len, base, res);
    }
  }

  /** The head, and the other dirty entries, as far as the filter goes by their key bytes. */
  ghost predicate ToDump(es: seq<CacheEntry>, e: CacheEntry, base: int, res: int)
    requires SaneMod(base, res)
  {
    e in es && (e.dirty || e == es[0]) && (base == -1 || InClass(e.key, base, res))
  }

  /** Which entries core_dump_mem writes: no others in any case, and all of these if there is room. */
  lemma DumpedAre(es: seq<CacheEntry>, room: int, base: int, res: int)
    requires SaneMod(base, res) && DistinctKeys(es) && Sized(es)
    ensures var d := Dumped(DumpList(es), room, base, res);
      && (forall e :: e in d ==> ToDump(es, e, base, res))
      && (DumpSize(DumpList(es)) <= room ==> forall e :: e in d <==> ToDump(es, e, base, res))
  {
    hide Selected, SaneMod, DistinctKeys, Dumped, DumpList, DumpSize, InClass, TakenFrom, Lookup, Chosen;
    var d := DumpList(es);
    DumpListMembers(es);
    AllSelectedAreClasses(base, res);
    DumpedFrom(d, room, base, res);
    if DumpSize(d) <= room {
      DumpedChosen(d, room, base, res);
      ChosenMembers(d, base, res);
    }
  }

  /** What the iterator still visits from position i on. */
  ghost function VisitFrom(es: seq<CacheEntry>, i: nat): seq<CacheEntry> {
    if i < |es| then [es[i]] + DirtyOf(es[i + 1..]) else []
  }

  lemma {:induction false} VisitNext(es: seq<CacheEntry>, i: nat, j: nat)
    requires i <= j <= |es| && (forall m :: i <= m < j ==> !es[m].dirty) && (j < |es| ==> es[j].dirty)
    ensures DirtyOf(es[i..]) == VisitFrom(es, j)
    decreases j - i
  {
    if i < j {
      assert es[i..][1..] == es[i + 1..];
      VisitNext(es, i + 1, j);
    } else if j < |es| {
      assert es[i..][1..] == es[i + 1..];
    }
  }

  /** The complete records at the front of a buffer, as core_recover_mem reads them. */
  function Parse(s: seq<byte>): (es: seq<CacheEntry>)
    decreases |s|
  {
    if |s| <= HEAD_LEN then []
    else
      var len := DecodeU32(s[KEY_LEN..HEAD_LEN]);
      if len > |s| - HEAD_LEN then []
      else [Entry(s[..KEY_LEN], s[HEAD_LEN..HEAD_LEN + len], len, true)] + Parse(s[HEAD_LEN + len..])
  }

  /** No length field on the way is negative as a signed int. */
  ghost predicate SaneLengths(s: seq<byte>)
    decreases |s|
  {
    |s| > HEAD_LEN ==>
      var len := DecodeU32(s[KEY_LEN..HEAD_LEN]);
      len < TWO_31 && (len <= |s| - HEAD_LEN ==> SaneLengths(s[HEAD_LEN + len..]))
  }

  /** All but an empty value at the very end, whose head alone is taken for a truncated record. */
  ghost function Recoverable(es: seq<CacheEntry>): seq<CacheEntry> {
    if es != [] && es[|es| - 1].value == [] then es[..|es| - 1] else es
  }

  lemma ParseStep(e: CacheEntry, tail: seq<byte>)
    requires |e.value| == e.len < TWO_31 && (e.len > 0 || tail != [])
    ensures Parse(EncodeEntry(e) + tail) == [e.(dirty := true)] + Parse(tail)
    ensures SaneLengths(EncodeEntry(e) + tail) <==> SaneLengths(tail)
  {
    var s := EncodeEntry(e) + tail;
    assert s[..KEY_LEN] == e.key && s[KEY_LEN..HEAD_LEN] == EncodeU32(e.len);
    assert s[HEAD_LEN..HEAD_LEN + e.len] == e.value && s[HEAD_LEN + e.len..] == tail;
  }

  lemma RecoverableStep(e: CacheEntry, rest: seq<CacheEntry>)
    requires e.value != [] || rest != []
    ensures AllDirty(Recoverable([e] + rest)) == [e.(dirty := true)] + AllDirty(Recoverable(rest))
  {
    var es := [e] + rest;
    assert rest != [] ==> es[|es| - 1] == rest[|rest| - 1];
    assert Recoverable(es) == [e] + Recoverable(rest);
  }

  /** Reading back a dump gives its entries. */
  lemma {:induction false} ParseSerialize(es: seq<CacheEntry>)
    requires Short(es) && forall i :: 0 <= i < |es| ==> es[i].len < TWO_31
    ensures Parse(Serialize(es)) == AllDirty(Recoverable(es)) && SaneLengths(Serialize(es))
    decreases |es|
  {
    hide EncodeEntry, EncodeU32;
    if es == [] {
      assert AllDirty([]) == [];
    } else {
      hide Parse, SaneLengths, Serialize, AllDirty, Recoverable;
      var e, rest := es[0], es[1..];
      assert es == [e] + rest;
      SerializeCons(e, rest);
      ParseSerialize(rest);
      SerializeEmpty(rest);
      if e.value != [] || rest != [] {
        ParseStep(e, Serialize(rest));
        RecoverableStep(e, rest);
      } else {
        HeadAlone(e);
      }
    }
  }

  lemma HeadAlone(e: CacheEntry)
    requires e.value == []
    ensures Parse(EncodeEntry(e) + []) == [] == AllDirty(Recoverable([e])) && SaneLengths(EncodeEntry(e) + [])
  {
    assert |EncodeEntry(e) + []| == HEAD_LEN;
    assert Recoverable([e]) == [];
  }

  lemma SerializeEmpty(es: seq<CacheEntry>)
    requires Short(es)
    ensures Serialize(es) == [] <==> es == []
  {
  }

  /** The log records of a sequence of sets. */
  ghost function SetRecords(es: seq<CacheEntry>): seq<seq<byte>>
    decreases |es|
  {
    if es == [] then []
    else (if |es[0].value| < TWO_32 then [EncodeLog(LogSet(es[0].key, es[0].value))] else []) + SetRecords(es[1..])
  }

  /** Log records that StartUp understands and that fit its buffer. */
  ghost predicate Readable(log: seq<seq<byte>>, maxLen: nat) {
    forall i :: 0 <= i < |log| ==> DecodeLog(log[i]).Some? && 0 < |log[i]| <= maxLen
  }

  ghost function DecodeAll(log: seq<seq<byte>>): seq<LogRec>
    decreases |log|
  {
    if log == [] then []
    else
      var r := DecodeLog(log[|log| - 1]);
      DecodeAll(log[..|log| - 1]) + (if r.Some? then [r.value] else [])
  }

  lemma DecodeSnoc(log: seq<seq<byte>>, rec: LogRec)
    requires rec.LogSet? ==> |rec.value| < TWO_32
    ensures DecodeAll(log + [EncodeLog(rec)]) == DecodeAll(log) + [rec]
  {
    LogRoundTrip(rec);
    assert (log + [EncodeLog(rec)])[..|log|] == log;
  }
}
