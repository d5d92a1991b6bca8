/** The per-table statistics: how a list of table names becomes a key, and what is recorded under it. */
module TabDmls {
  import opened Bytes
  import opened ChunkAllocators
  import opened Statistics
  import opened Murmur
  import opened HashedKeys

  const OP_TYPE_SIZE := 6
  const STATS_LEN := 384

  type Name = seq<byte>

  datatype TabName = TabName(db: Name, table: Name)

  datatype TabKey = TabKey(result: int32, names: seq<TabName>)

  /** A string as written: one byte of length, cut to eight bits, then the string. */
  function EncodeName(s: Name): (r: seq<byte>)
    ensures |r| == 1 + |s|
  {
    [|s| % 256] + s
  }

  function EncodeNames(names: seq<TabName>): seq<byte> {
    if names == [] then []
    else EncodeName(names[0].db) + EncodeName(names[0].table) + EncodeNames(names[1..])
  }

  function EncodeKey(k: TabKey): seq<byte> {
    EncodeInt(k.result) + [|k.names| % 256] + EncodeNames(k.names)
  }

  datatype Parsed<T> = Failed | Read(value: T, rest: seq<byte>)

  /** A byte as a signed char. */
  function SignedByte(b: byte): (r: int)
    ensures -128 <= r < 128
  {
    if b > 127 then b - 256 else b
  }

  /** A string as read back: its length is a signed byte, and a negative one fails. */
  function DecodeName(s: seq<byte>): (r: Parsed<Name>)
    ensures r.Read? ==> |r.value| <= 127 && |r.rest| < |s|
  {
    if s == [] || SignedByte(s[0]) < 0 || |s| < 1 + s[0] then Failed
    else Read(s[1..1 + s[0]], s[1 + s[0]..])
  }

  function DecodeNames(s: seq<byte>, count: nat): (r: Parsed<seq<TabName>>)
    ensures r.Read? ==> |r.value| == count && Sized(r.value)
  {
    if count == 0 then Read([], s)
    else
      var db := DecodeName(s);
      if db.Failed? then Failed
      else
        var table := DecodeName(db.rest);
        if table.Failed? then Failed
        else
          var more := DecodeNames(table.rest, count - 1);
          if more.Failed? then Failed else Read([TabName(db.value, table.value)] + more.value, more.rest)
  }

  function DecodeInt(s: seq<byte>): (x: int32)
    requires |s| == 4
  {
    var u := DecodeU32(s);
    if u >= TWO_31 then u - TWO_32 else u
  }

  function DecodeKey(s: seq<byte>): (r: Parsed<TabKey>) {
    if |s| < 5 then Failed
    else
      var names := DecodeNames(s[5..], s[4]);
      if names.Failed? then Failed else Read(TabKey(DecodeInt(s[..4]), names.value), names.rest)
  }

  predicate Sized(names: seq<TabName>) {
    forall i :: 0 <= i < |names| ==> |names[i].db| <= 127 && |names[i].table| <= 127
  }

  /** The keys that the format can carry. */
  predicate Carried(k: TabKey) {
    |k.names| <= 255 && Sized(k.names)
  }

  lemma NameRoundTrip(s: Name, rest: seq<byte>)
    requires |s| <= 127
    ensures DecodeName(EncodeName(s) + rest) == Read(s, rest)
  {
    var e := EncodeName(s) + rest;
    assert e[1..1 + |s|] == s && e[1 + |s|..] == rest;
  }

  lemma {:induction false} NamesRoundTrip(names: seq<TabName>, rest: seq<byte>)
    requires Sized(names)
    ensures DecodeNames(EncodeNames(names) + rest, |names|) == Read(names, rest)
    decreases |names|
  {
    hide EncodeName, DecodeName;
    if names == [] {
      assert EncodeNames(names) + rest == rest;
    } else {
      var n, more := names[0], EncodeNames(names[1..]) + rest;
      assert EncodeNames(names) + rest == EncodeName(n.db) + (EncodeName(n.table) + more);
      NameRoundTrip(n.db, EncodeName(n.table) + more);
      NameRoundTrip(n.table, more);
      NamesRoundTrip(names[1..], rest);
      assert names == [n] + names[1..];
    }
  }

  lemma IntRoundTrip(x: int32)
    ensures DecodeInt(EncodeInt(x)) == x
  {
    hide EncodeU32, DecodeU32;
  }

  /** A key reads back as itself exactly when the format can carry it. */
  lemma KeyRoundTrip(k: TabKey)
    ensures DecodeKey(EncodeKey(k)) == Read(k, []) <==> Carried(k)
  {
    hide EncodeNames, EncodeInt, DecodeInt;
    var s := EncodeKey(k);
    assert s[..4] == EncodeInt(k.result) && s[4] == |k.names| % 256 && s[5..] == EncodeNames(k.names);
    IntRoundTrip(k.result);
    if Carried(k) {
      NamesRoundTrip(k.names, []);
      assert EncodeNames(k.names) + [] == EncodeNames(k.names);
    }
  }

  /** Different keys that the format can carry never look the same. */
  lemma EncodeKeyInjective(k: TabKey, j: TabKey)
    requires Carried(k) && Carried(j) && EncodeKey(k) == EncodeKey(j)
    ensures k == j
  {
    hide EncodeKey, DecodeKey;
    KeyRoundTrip(k);
    KeyRoundTrip(j);
  }

  /** The names after marshal_key: the reference to each database name is written through with the table name. */
  function Overwritten(names: seq<TabName>): (r: seq<TabName>)
    ensures |r| == |names|
  {
    seq(|names|, i requires 0 <= i < |names| => TabName(names[i].table, names[i].table))
  }

  /** So marshalling the same object again gives the same key only if every table has the name of its database. */
  lemma SecondMarshal(k: TabKey)
    requires Carried(k)
    ensures EncodeKey(TabKey(k.result, Overwritten(k.names))) == EncodeKey(k) <==>
            forall i :: 0 <= i < |k.names| ==> k.names[i].db == k.names[i].table
  {
    hide EncodeKey;
    var j := TabKey(k.result, Overwritten(k.names));
    if EncodeKey(j) == EncodeKey(k) {
      EncodeKeyInjective(j, k);
      forall i | 0 <= i < |k.names| ensures k.names[i].db == k.names[i].table {
        assert j.names[i] == k.names[i];
      }
    }
    assert (forall i :: 0 <= i < |k.names| ==> k.names[i].db == k.names[i].table) ==> Overwritten(k.names) == k.names;
  }

  /** Writes a string at p, length byte first; returns the position behind it. */
  method WriteName(buf: array<byte>, p: nat, s: Name) returns (q: nat)
    requires p + 1 + |s| <= buf.Length
    modifies buf
    ensures q == p + 1 + |s| && buf[..q] == old(buf[..p]) + EncodeName(s)
  {
    buf[p] := |s| % 256;
    CopyInto(buf, p + 1, s);
    q := p + 1 + |s|;
    assert buf[..q] == old(buf[..p]) + EncodeName(s);
  }

  lemma NamesStep(names: seq<TabName>, i: nat, done: seq<byte>)
    requires i < |names|
    ensures EncodeNames(names[i..]) ==
      EncodeName(names[i].db) + EncodeName(names[i].table) + EncodeNames(names[i + 1..])
    ensures done + EncodeNames(names[i..]) ==
      done + EncodeName(names[i].db) + EncodeName(names[i].table) + EncodeNames(names[i + 1..])
  {
    hide EncodeName;
    assert names[i..][1..] == names[i + 1..];
  }

  class TabDml {
    var names: seq<TabName>
    var result: int32
    var stats: seq<byte>

    constructor (ns: seq<TabName>, res: int32, st: seq<byte>)
      requires |st| == STATS_LEN
      ensures names == ns && result == res && stats == st
    {
      names, result, stats := ns, res, st;
    }

    ghost function TheKey(): TabKey
      reads this
    {
      TabKey(result, names)
    }

    /** marshal_size: exactly what the statistics and the encoded key take. */
    method MarshalSize() returns (size: int)
      ensures size == STATS_LEN + |EncodeKey(TheKey())|
    {
      size := STATS_LEN + 4 + 1;
      assert names[0..] == names;
      for i := 0 to |names|
        invariant size + |EncodeNames(names[i..])| == STATS_LEN + |EncodeKey(TheKey())|
      {
        NamesStep(names, i, []);
        size := size + |names[i].db| + 1;
        size := size + |names[i].table| + 1;
      }
    }

    /** The result and the number of names, behind the place of the statistics. */
    method PutHead(buf: array<byte>) returns (p: nat)
      requires buf.Length >= STATS_LEN + 5
      modifies buf
      ensures p == STATS_LEN + 5 && buf[..p] == old(buf[..STATS_LEN]) + EncodeInt(result) + [|names| % 256]
    {
      hide EncodeInt;
      CopyInto(buf, STATS_LEN, EncodeInt(result));
      p := STATS_LEN + 5;
      buf[p - 1] := |names| % 256;
    }

    /** The names; the code copies the table name into the place of the database name. */
    method PutNames(buf: array<byte>, from: nat)
      requires from + |EncodeNames(names)| == buf.Length
      modifies buf, this`names
      ensures buf[..] == old(buf[..from]) + EncodeNames(old(names))
      ensures names == Overwritten(old(names))
    {
      hide EncodeName, EncodeNames;
      ghost var all, ns := buf[..from] + EncodeNames(names), names;
      var p: nat := from;
      assert names[0..] == names;
      for i := 0 to |names|
        invariant |names| == |ns| && names[i..] == ns[i..] && names[..i] == Overwritten(ns)[..i]
        invariant p + |EncodeNames(ns[i..])| == buf.Length
        invariant buf[..p] + EncodeNames(ns[i..]) == all
      {
        NamesStep(ns, i, buf[..p]);
        assert names[i] == ns[i];
        p := WriteName(buf, p, names[i].db);
        names := names[i := TabName(names[i].table, names[i].table)];
        p := WriteName(buf, p, names[i].db);
      }
      NoNames(ns[|ns|..]);
      assert buf[..p] == buf[..];
    }

    /** marshal_key: the key goes behind the place of the statistics and fills the buffer; its hash is returned. */
    method MarshalKey(buf: array<byte>) returns (h: State)
      requires buf.Length == STATS_LEN + |EncodeKey(TheKey())| < TWO_31
      modifies buf, this`names
      ensures buf[..] == old(buf[..STATS_LEN]) + EncodeKey(old(TheKey()))
      ensures h == Hash(EncodeKey(old(TheKey())), MURMURHASH_SEED)
      ensures names == Overwritten(old(names))
    {
      hide EncodeNames, Hash, EncodeInt, Overwritten;
      ghost var head, key := buf[..STATS_LEN], EncodeKey(TheKey());
      var p := PutHead(buf);
      PutNames(buf, p);
      assert buf[..] == head + key;
      assert buf[STATS_LEN..] == key;
      h := MurmurHash3X64128(buf[STATS_LEN..], MURMURHASH_SEED);
    }

    /** marshal_stats. */
    method MarshalStats(buf: array<byte>)
      requires |stats| == STATS_LEN <= buf.Length
      modifies buf
      ensures buf[..] == stats + old(buf[STATS_LEN..])
    {
      CopyInto(buf, 0, stats);
    }

    /** de_marshal_stats. */
    method DeMarshalStats(buf: array<byte>)
      requires STATS_LEN <= buf.Length
      modifies this`stats
      ensures stats == buf[..STATS_LEN]
    {
      stats := buf[..STATS_LEN];
    }

    /** de_marshal_key: the reader trusts the buffer, which therefore has to hold a key. */
    method DeMarshalKey(buf: array<byte>)
      requires STATS_LEN <= buf.Length && DecodeKey(buf[STATS_LEN..]).Read?
      modifies this`names, this`result
      ensures TheKey() == DecodeKey(buf[STATS_LEN..]).value
    {
      hide DecodeName, DecodeNames, DecodeInt;
      ghost var s := buf[STATS_LEN..];
      result := DecodeInt(buf[STATS_LEN..STATS_LEN + 4]);
      names := [];
      var count := buf[STATS_LEN + 4];
      var p := STATS_LEN + 5;
      assert s[..4] == buf[STATS_LEN..STATS_LEN + 4] && s[5..] == buf[p..];
      ghost var goal := DecodeNames(buf[p..], count).value;
      for i := 0 to count
        invariant p <= buf.Length && DecodeNames(buf[p..], count - i).Read? && result == DecodeInt(s[..4])
        invariant names + DecodeNames(buf[p..], count - i).value == goal
      {
        DecodeStep(buf[p..], count - i);
        var db, table;
        db, p := ReadName(buf, p);
        table, p := ReadName(buf, p);
        names := names + [TabName(db, table)];
      }
      DecodeEnd(buf[p..]);
      assert names + [] == names;
    }
  }

  lemma DecodeStep(s: seq<byte>, count: nat)
    requires count > 0 && DecodeNames(s, count).Read?
    ensures var db := DecodeName(s);
      db.Read? && var table := DecodeName(db.rest);
        table.Read? && var more := DecodeNames(table.rest, count - 1);
          more.Read? && DecodeNames(s, count).value == [TabName(db.value, table.value)] + more.value
  {
  }

  lemma DecodeEnd(s: seq<byte>)
    ensures DecodeNames(s, 0) == Read([], s)
  {
  }

  method ReadName(buf: array<byte>, p: nat) returns (s: Name, q: nat)
    requires p <= buf.Length && DecodeName(buf[p..]).Read?
    ensures p < q <= buf.Length && DecodeName(buf[p..]) == Read(s, buf[q..])
  {
    var ss := SignedByte(buf[p]);
    q := p + 1 + ss;
    s := buf[p + 1..q];
    assert buf[p..][1..1 + ss] == s && buf[p..][1 + ss..] == buf[q..];
  }

  /** What one object marshals, another reads back: names, result and statistics. */
  method MarshalAndRead(a: TabDml, b: TabDml) returns (buf: array<byte>)
    requires a != b && |a.stats| == STATS_LEN && Carried(a.TheKey()) && |EncodeKey(a.TheKey())| < 0x7000_0000
    modifies a, b
    ensures b.TheKey() == old(a.TheKey()) && b.stats == a.stats == old(a.stats)
    ensures a.names == Overwritten(old(a.names)) && a.result == old(a.result)
  {
    hide EncodeKey, DecodeKey, Carried;
    ghost var k := a.TheKey();
    var size := a.MarshalSize();
    buf := new byte[size];
    var h := a.MarshalKey(buf);
    a.MarshalStats(buf);
    assert buf[STATS_LEN..] == EncodeKey(k);
    assert buf[..STATS_LEN] == a.stats;
    KeyRoundTrip(k);
    b.DeMarshalStats(buf);
    b.DeMarshalKey(buf);
  }

  lemma NoNames(ns: seq<TabName>)
    requires |ns| == 0
    ensures EncodeNames(ns) == []
  {
  }

  datatype TypedTime = TypedTime(kind: nat, time: real)

  const ZERO_STAT: Stat := Stat(0, 0.0, 0.0, 0.0, [0, 0, 0, 0, 0, 0, 0, 0, 0])

  /**
   cdb_tab_dml_add on the statistics of one key: the first time resets all of them to zero bytes
   and starts the record of its own kind; later times only add.
   */
  ghost function TabStats(events: seq<TypedTime>): (r: seq<Stat>)
    requires forall e :: e in events ==> e.kind < OP_TYPE_SIZE
    ensures |r| == OP_TYPE_SIZE
  {
    if events == [] then seq(OP_TYPE_SIZE, _ => ZERO_STAT)
    else NextStats(TabStats(events[..|events| - 1]), |events| == 1, events[|events| - 1])
  }

  /** One time more; the first one starts the record of its kind afresh. */
  function NextStats(was: seq<Stat>, first: bool, e: TypedTime): (r: seq<Stat>)
    requires |was| == OP_TYPE_SIZE && e.kind < OP_TYPE_SIZE
    ensures |r| == OP_TYPE_SIZE
  {
    was[e.kind := Added(if first then EMPTY_STAT else was[e.kind], e.time)]
  }

  ghost function TimesOfKind(events: seq<TypedTime>, kind: nat): seq<real> {
    if events == [] then []
    else
      var front, e := TimesOfKind(events[..|events| - 1], kind), events[|events| - 1];
      if e.kind == kind then front + [e.time] else front
  }

  /** A minimum that starts at zero stays there; everything else is as it should be. */
  function FromZero(s: Stat): Stat {
    s.(min := 0.0)
  }

  lemma AddedFromZero(s: Stat, v: real)
    requires v >= 0.0
    ensures Added(FromZero(s), v) == FromZero(Added(s, v))
  {
    assert Added(FromZero(s), v).buckets == FromZero(Added(s, v)).buckets;
  }

  lemma {:induction false} TabStatsValue(events: seq<TypedTime>, kind: nat)
    requires events != [] && kind < OP_TYPE_SIZE
    requires forall e :: e in events ==> e.kind < OP_TYPE_SIZE && e.time >= 0.0
    ensures var s := Summary(TimesOfKind(events, kind));
              TabStats(events)[kind] == if kind == events[0].kind then s else FromZero(s)
    decreases |events|
  {
    hide Added, Summary;
    var front, e := events[..|events| - 1], events[|events| - 1];
    assert e in events;
    AddedIsSummary(TimesOfKind(front, kind), e.time);
    if |events| == 1 {
      AddedIsSummary([], e.time);
      assert FromZero(EMPTY_STAT) == ZERO_STAT;
    } else {
      TabStatsValue(front, kind);
      AddedFromZero(Summary(TimesOfKind(front, kind)), e.time);
    }
  }

  /** The minimum of a kind is its least time exactly if the first event is of this kind, or some time is zero. */
  lemma TabMinimum(events: seq<TypedTime>, kind: nat)
    requires events != [] && kind < OP_TYPE_SIZE
    requires forall e :: e in events ==> e.kind < OP_TYPE_SIZE && 0.0 <= e.time < DBL_MAX
    ensures TabStats(events)[kind].min == Least(TimesOfKind(events, kind)) <==>
            (kind == events[0].kind || 0.0 in TimesOfKind(events, kind))
  {
    hide TabStats, TimesOfKind, CountIn, Sum, Greatest;
    TabStatsValue(events, kind);
    KindTimes(events, kind);
  }

  lemma {:induction false} KindTimes(events: seq<TypedTime>, kind: nat)
    requires forall e :: e in events ==> 0.0 <= e.time < DBL_MAX
    ensures forall d :: d in TimesOfKind(events, kind) ==> 0.0 <= d < DBL_MAX
  {
    if events != [] {
      assert events[|events| - 1] in events;
      KindTimes(events[..|events| - 1], kind);
    }
  }

  /** A case where it is not: an update after an insert is reported with minimum zero. */
  lemma TabMinimumLost()
    ensures var events := [TypedTime(2, 0.5), TypedTime(3, 0.25)];
      TabStats(events)[3].min == 0.0 && TimesOfKind(events, 3) == [0.25]
  {
    var events := [TypedTime(2, 0.5), TypedTime(3, 0.25)];
    assert events[..1] == [TypedTime(2, 0.5)];
    assert TimesOfKind(events[..1], 3) == [];
    TabStatsValue(events, 3);
  }
}
