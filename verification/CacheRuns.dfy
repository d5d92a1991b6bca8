/** Any sequence of operations on the cache gives the results of the bounded map in recency order. */
module CacheRuns {
  import opened Options
  import opened Bytes
  import opened ChunkAllocators
  import opened RecencyMaps
  import opened HashMaps
  import opened Binlogs
  import opened Codec
  import opened CacheAccesses
  import Recovery

  datatype CacheOp =
    | GetOp(key: Key, room: u32)
    | GetKeyOp(key: Key)
    | SetOp(key: Key, value: seq<byte>, dirty: bool)
    | DelOp(key: Key)
    | MarkCleanOp(key: Key)

  /** The return code and, for a get that succeeds, the value. */
  datatype CacheResult = CacheResult(ret: int, value: Option<seq<byte>>)

  ghost function CacheStep(es: seq<CacheEntry>, lim: Limits, op: CacheOp): (seq<CacheEntry>, CacheResult) {
    var found := Lookup(es, op.key);
    match op
    case GetOp(k, room) =>
      (Touch(es, k),
       if found.None? then CacheResult(NOT_FOUND, None)
       else if Signed32(room) < found.value.len then CacheResult(ERROR_INVALID_PARAM, None)
       else CacheResult(FOUND, Some(found.value.value)))
    case GetKeyOp(k) => (Touch(es, k), CacheResult(if found.Some? then FOUND else NOT_FOUND, None))
    case SetOp(k, v, dirty) =>
      (Set(es, lim, k, v, |v|, dirty), CacheResult(if Fits(es, lim, k, |v|) then 0 else 1, None))
    case DelOp(k) => (Drop(es, k), CacheResult(if found.Some? then 0 else 1, None))
    case MarkCleanOp(k) => (MarkClean(es, k), CacheResult(if found.Some? then 0 else 1, None))
  }

  ghost function CacheRun(es: seq<CacheEntry>, lim: Limits, ops: seq<CacheOp>): (seq<CacheEntry>, seq<CacheResult>)
    decreases |ops|
  {
    if ops == [] then (es, [])
    else
      var (es1, r) := CacheStep(es, lim, ops[0]);
      var (es2, rs) := CacheRun(es1, lim, ops[1..]);
      (es2, [r] + rs)
  }

  /** The demands of set: the length can be computed with, and a dirty value to be logged fits the log's buffers. */
  predicate OpInLimits(op: CacheOp, lim: Limits, dumpMin: int) {
    op.SetOp? ==> LenOk(|op.value|, lim.chunkSize) && (op.dirty && dumpMin >= 0 ==> Loggable(|op.value|))
  }

  method PerformOp(c: CacheAccess, op: CacheOp) returns (r: CacheResult)
    requires c.Valid() && OpInLimits(op, c.Lim(), c.dumpMin)
    modifies c.Repr() - {c}
    ensures c.Valid() && (c.View(), r) == CacheStep(old(c.View()), c.Lim(), op)
  {
    hide CacheAccess.Valid, CacheAccess.View, Touch, Drop, RecencyMaps.MarkClean, RecencyMaps.Set, Fits, Lookup,
      EncodeLog, BinLog.Roomy, Signed32;
    match op
    case GetOp(k, room) =>
      var buf := new byte[room];
      ghost var es := c.View();
      assert buf !in c.Repr() && c.Valid();
      var ret, dataLen, dirty := c.Get(k, buf, room);
      r := CacheResult(ret, if ret == FOUND then Some(buf[..dataLen]) else None);
      if ret == FOUND {
        assert buf[..dataLen] == Lookup(es, k).value.value;
      }
    case GetKeyOp(k) =>
      var ret, dataLen, dirty := c.GetKey(k);
      r := CacheResult(ret, None);
    case SetOp(k, v, dirty) =>
      var ret := c.Set(k, v, dirty);
      r := CacheResult(ret, None);
    case DelOp(k) =>
      var ret := c.Del(k);
      r := CacheResult(ret, None);
    case MarkCleanOp(k) =>
      var ret := c.MarkClean(k);
      r := CacheResult(ret, None);
  }

  lemma CacheRunStep(es: seq<CacheEntry>, lim: Limits, ops: seq<CacheOp>, es': seq<CacheEntry>, r: CacheResult)
    requires ops != [] && (es', r) == CacheStep(es, lim, ops[0])
    ensures CacheRun(es, lim, ops).0 == CacheRun(es', lim, ops[1..]).0
    ensures CacheRun(es, lim, ops).1 == [r] + CacheRun(es', lim, ops[1..]).1
  {
    hide CacheStep;
  }

  lemma CacheRunEnd(es: seq<CacheEntry>, lim: Limits)
    ensures CacheRun(es, lim, []) == (es, [])
  {
  }

  method PerformOps(c: CacheAccess, ops: seq<CacheOp>) returns (rs: seq<CacheResult>)
    requires c.Valid() && forall i :: 0 <= i < |ops| ==> OpInLimits(ops[i], c.Lim(), c.dumpMin)
    modifies c.Repr() - {c}
    ensures c.Valid() && (c.View(), rs) == CacheRun(old(c.View()), c.Lim(), ops)
  {
    hide CacheAccess.Valid, CacheAccess.View, CacheStep, CacheRun;
    rs := [];
    ghost var goal := CacheRun(c.View(), c.Lim(), ops);
    assert ops[0..] == ops;
    for i := 0 to |ops|
      invariant c.Valid()
      invariant goal.0 == CacheRun(c.View(), c.Lim(), ops[i..]).0
      invariant goal.1 == rs + CacheRun(c.View(), c.Lim(), ops[i..]).1
    {
      ghost var was := c.View();
      var r := PerformOp(c, ops[i]);
      CacheRunStep(was, c.Lim(), ops[i..], c.View(), r);
      assert ops[i..][1..] == ops[i + 1..];
      ghost var more := CacheRun(c.View(), c.Lim(), ops[i + 1..]).1;
      assert rs + ([r] + more) == (rs + [r]) + more;
      rs := rs + [r];
    }
    assert ops[|ops|..] == [] && rs + [] == rs;
    CacheRunEnd(c.View(), c.Lim());
  }

  /** In every state of a run the keys are distinct and the nodes and chunks suffice. */
  lemma {:induction false} RunStaysWithin(es: seq<CacheEntry>, lim: Limits, ops: seq<CacheOp>)
    requires WithinLimits(es, lim)
    ensures WithinLimits(CacheRun(es, lim, ops).0, lim)
    decreases |ops|
  {
    hide WithinLimits, Fits, Lookup;
    if ops != [] {
      var op := ops[0];
      StepsStayWithin(es, lim, op.key, if op.SetOp? then op.value else [],
        if op.SetOp? then |op.value| else 0, op.SetOp? && op.dirty);
      DropStaysWithin(es, lim, op.key);
      RunStaysWithin(CacheStep(es, lim, op).0, lim, ops[1..]);
    }
  }

  lemma {:induction false} CacheRunSnoc(es: seq<CacheEntry>, lim: Limits, ops: seq<CacheOp>, op: CacheOp)
    ensures |CacheRun(es, lim, ops).1| == |ops|
    ensures var (now, rs) := CacheRun(es, lim, ops);
      var (after, r) := CacheStep(now, lim, op);
      CacheRun(es, lim, ops + [op]) == (after, rs + [r])
    decreases |ops|
  {
    hide CacheStep;
    if ops == [] {
      var (es1, r1) := CacheStep(es, lim, op);
      assert [op][1..] == [] && [] + [op] == [op] && CacheRun(es1, lim, []) == (es1, []) && [r1] + [] == [] + [r1];
    } else {
      var (es1, r1) := CacheStep(es, lim, ops[0]);
      CacheRunSnoc(es1, lim, ops[1..], op);
      assert (ops + [op])[1..] == ops[1..] + [op];
      var rs, r := CacheRun(es1, lim, ops[1..]).1, CacheStep(CacheRun(es1, lim, ops[1..]).0, lim, op).1;
      assert [r1] + (rs + [r]) == [r1] + rs + [r];
    }
  }

  /** What the operations and their return codes say is stored: under each key the last value set, and its flag. */
  ghost function Stored(ops: seq<CacheOp>, rs: seq<CacheResult>): map<Key, (seq<byte>, bool)>
    requires |ops| == |rs|
  {
    if ops == [] then map[]
    else
      var before, done := Stored(ops[..|ops| - 1], rs[..|rs| - 1]), rs[|rs| - 1].ret == 0;
      match ops[|ops| - 1]
      case SetOp(k, v, dirty) => if done then before[k := (v, dirty)] else before
      case DelOp(k) => before - {k}
      case MarkCleanOp(k) => if k in before then before[k := (before[k].0, false)] else before
      case _ => before
  }

  ghost predicate Holds(es: seq<CacheEntry>, d: map<Key, (seq<byte>, bool)>) {
    && Recovery.Sized(es)
    && forall k :: Lookup(es, k) == if k in d then Some(Entry(k, d[k].0, |d[k].0|, d[k].1)) else None
  }

  lemma StoredStep(es: seq<CacheEntry>, lim: Limits, op: CacheOp, d: map<Key, (seq<byte>, bool)>)
    requires Holds(es, d) && WithinLimits(es, lim)
    ensures var (after, r) := CacheStep(es, lim, op);
      var k := op.key;
      Holds(after,
        match op
        case SetOp(_, v, dirty) => if r.ret == 0 then d[k := (v, dirty)] else d
        case DelOp(_) => d - {k}
        case MarkCleanOp(_) => if k in d then d[k := (d[k].0, false)] else d
        case _ => d)
  {
    hide Lookup, Set, Drop, Touch, Fits, WithinLimits, DistinctKeys, MarkClean, Recovery.Sized, Signed32;
    var k, v := op.key, if op.SetOp? then op.value else [];
    WithinDistinct(es, lim);
    Recovery.StepsStaySized(es, lim, k, v);
    forall j: Key ensures Lookup(CacheStep(es, lim, op).0, j) ==
        match op
        case SetOp(_, _, dirty) =>
          if j == k && Fits(es, lim, k, |v|) then Some(Entry(k, v, |v|, dirty)) else Lookup(es, j)
        case DelOp(_) => if j == k then None else Lookup(es, j)
        case MarkCleanOp(_) =>
          if j == k && Lookup(es, k).Some? then Some(Lookup(es, k).value.(dirty := false)) else Lookup(es, j)
        case _ => Lookup(es, j)
    {
      LookupDrop(es, k, j);
      LookupAfter(es, lim, k, v, |v|, op.SetOp? && op.dirty, j);
    }
  }

  /** After any run on an empty cache, it holds what the return codes say, and every answer is to match. */
  lemma {:induction false} RunIsStored(lim: Limits, ops: seq<CacheOp>)
    ensures var (es, rs) := CacheRun([], lim, ops);
      |rs| == |ops| && WithinLimits(es, lim) && Holds(es, Stored(ops, rs))
    decreases |ops|
  {
    hide CacheStep, Holds, WithinLimits;
    NothingStored(lim);
    if ops != [] {
      var front, op := ops[..|ops| - 1], ops[|ops| - 1];
      RunIsStored(lim, front);
      CacheRunSnoc([], lim, front, op);
      assert front + [op] == ops;
      RunStaysWithin([], lim, ops);
      var (es, rs) := CacheRun([], lim, front);
      var (after, r) := CacheStep(es, lim, op);
      assert (rs + [r])[..|rs|] == rs;
      StoredStep(es, lim, op, Stored(front, rs));
    }
  }

  lemma NothingStored(lim: Limits)
    ensures WithinLimits<Key, seq<byte>>([], lim) && Holds([], map[])
  {
  }

  /** The answer after any run: reading gives the last value set, deleting and cleaning find what is stored. */
  lemma StoredAnswers(lim: Limits, ops: seq<CacheOp>, op: CacheOp)
    ensures var (es, rs) := CacheRun([], lim, ops);
      && |rs| == |ops|
      && var d := Stored(ops, rs);
      var there := op.key in d;
      CacheStep(es, lim, op).1 ==
        match op
        case GetOp(k, room) =>
          if !there then CacheResult(NOT_FOUND, None)
          else if Signed32(room) < |d[k].0| then CacheResult(ERROR_INVALID_PARAM, None)
          else CacheResult(FOUND, Some(d[k].0))
        case GetKeyOp(_) => CacheResult(if there then FOUND else NOT_FOUND, None)
        case SetOp(k, v, _) => CacheResult(if Fits(es, lim, k, |v|) then 0 else 1, None)
        case _ => CacheResult(if there then 0 else 1, None)
  {
    hide CacheRun, Stored, Lookup, Fits, WithinLimits, Touch, Drop, Set, MarkClean, Signed32;
    RunIsStored(lim, ops);
  }

  /** Recency: the key of an operation comes first, if it is stored afterwards, and all others keep their order. */
  lemma UsedKeyIsFirst(es: seq<CacheEntry>, lim: Limits, op: CacheOp)
    requires WithinLimits(es, lim)
    ensures var after := CacheStep(es, lim, op).0;
      if Lookup(after, op.key).Some? then after != [] && after[0].key == op.key && after[1..] == Drop(es, op.key)
      else after == Drop(es, op.key)
  {
    hide WithinLimits, Fits, IndexOf, Signed32, DistinctKeys;
    var k, v := op.key, if op.SetOp? then op.value else [];
    WithinDistinct(es, lim);
    LookupDrop(es, k, k);
    LookupAfter(es, lim, k, v, |v|, op.SetOp? && op.dirty, k);
  }

  /** A set that fails changes no stored value, whatever came before it. */
  lemma FailedSetChangesNothing(es: seq<CacheEntry>, lim: Limits, ops: seq<CacheOp>, k: Key, v: seq<byte>, dirty: bool,
                                j: Key)
    requires WithinLimits(es, lim)
    ensures var now := CacheRun(es, lim, ops).0;
      var (after, r) := CacheStep(now, lim, SetOp(k, v, dirty));
      && (r.ret == 0 <==> Fits(now, lim, k, |v|))
      && Lookup(after, j) == if r.ret == 0 && j == k then Some(Entry(k, v, |v|, dirty)) else Lookup(now, j)
  {
    hide CacheRun, Fits, Lookup, Set;
    RunStaysWithin(es, lim, ops);
    LookupAfter(CacheRun(es, lim, ops).0, lim, k, v, |v|, dirty, j);
  }
}
