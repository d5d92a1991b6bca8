/**
 The chunk allocator: a fixed pool of chunks, each either on the free list or in the
 chain of one cached value.  A handle is the index of a chunk in the pool.
 */
module ChunkAllocators {
  import opened Arithmetic
  import opened Bytes
  import opened Lists

  /** A positive int of 32 bits. */
  type Positive = n: int | 0 < n < TWO_31 witness 1

  const INVALID := -1

  const ERROR_INVALID_PARAM := -2
  const ERROR_DATA_VERIFY_FAIL := -4

  datatype ChunkNode = ChunkNode(next: int, data: seq<byte>)

  /** The number of chunks that len bytes fill, the last one perhaps in part. */
  function ChunkNum(len: nat, chunkSize: Positive): nat
  {
    if len == 0 then 0 else if len <= chunkSize then 1 else 1 + ChunkNum(len - chunkSize, chunkSize)
  }

  /** get_chunk_num: sum and quotient of 32-bit integers, the quotient cut towards zero. */
  function GetChunkNum(len: int, chunkSize: Positive): int {
    var sum := Signed32(len + chunkSize - 1);
    if sum >= 0 then sum / chunkSize else -((-sum) / chunkSize)
  }

  /** The lengths for which that sum does not overflow. */
  predicate LenOk(len: nat, chunkSize: Positive) {
    len <= LenLimit(chunkSize)
  }

  function LenLimit(chunkSize: Positive): nat {
    TWO_31 - chunkSize
  }

  /** The sum that get_chunk_num computes for an unsigned length. */
  lemma WrappedSum(len: u32, size: Positive)
    ensures Signed32(Signed32(len) + size - 1) == if LenOk(len, size) then len + size - 1 else len + size - 1 - TWO_32
  {
  }

  lemma SignedLength(len: nat)
    requires len < TWO_31
    ensures Signed32(len) == len
  {
  }

  lemma ChunkNumRight(len: nat, size: Positive)
    requires LenOk(len, size)
    ensures Signed32(len) == len && GetChunkNum(len, size) == ChunkNum(len, size)
  {
    hide ChunkNum, Signed32;
    SignedLength(len);
    WrappedSum(len, size);
    CeilingIsChunkNum(len, size);
  }

  lemma LessQuotient(x: int, y: int, d: Positive, p: int, q: int)
    requires p * d <= x <= y - d && y < q * d + d
    ensures p < q
  {
    assert (q - p) * d == q * d - p * d;
    assert q <= p ==> (p - q) * d >= 0;
    assert (p - q) * d == -((q - p) * d);
  }

  lemma Quotients(x: int, y: int, d: Positive)
    requires 0 <= y
    ensures x < 0 <= y - d ==> -((-x) / d) < y / d
    ensures 0 <= x <= y - d ==> x / d < y / d
  {
    if x < 0 <= y - d {
      DivAddOne(y - d, d);
    } else if 0 <= x <= y - d {
      LessQuotient(x, y, d, x / d, y / d);
    }
  }

  /** get_chunk_num, which takes an unsigned length for a signed one, is right exactly for these. */
  lemma ChunkNumExact(len: u32, size: Positive)
    ensures GetChunkNum(Signed32(len), size) == ChunkNum(len, size) <==> LenOk(len, size)
  {
    hide ChunkNum, Signed32;
    CeilingIsChunkNum(len, size);
    WrappedSum(len, size);
    Quotients(len + size - 1 - TWO_32, len + size - 1, size);
  }

  /** A length of 2^31 gives a negative number of chunks. */
  lemma LongLengthIsNegative(size: Positive)
    requires size <= TWO_31 / 2
    ensures GetChunkNum(Signed32(TWO_31), size) < 0
  {
    hide Signed32;
    WrappedSum(TWO_31, size);
    DivAddOne(TWO_31 - 2 * size + 1, size);
  }

  lemma {:induction false} CeilingIsChunkNum(len: nat, size: Positive)
    ensures (len + size - 1) / size == ChunkNum(len, size)
  {
    if len == 0 {
      DivBelow(size - 1, size);
    } else if len <= size {
      DivAddOne(len - 1, size);
      DivBelow(len - 1, size);
    } else {
      CeilingIsChunkNum(len - size, size);
      DivAddOne(len - 1, size);
      assert (len - size) + size - 1 == len - 1;
    }
  }

  lemma DivBelow(x: nat, d: Positive)
    requires x < d
    ensures x / d == 0
  {
    DivUnique(x, d, 0, x);
  }

  lemma DivAddOne(x: nat, d: Positive)
    ensures (x + d) / d == x / d + 1
  {
    var q, r := x / d, x % d;
    assert x == q * d + r;
    assert x + d == (q + 1) * d + r;
    DivUnique(x + d, d, q + 1, r);
  }

  /** Following next from head visits exactly ids, in order, and then ends. */
  ghost predicate Linked(ns: seq<ChunkNode>, head: int, ids: seq<int>)
    decreases |ids|
  {
    if ids == [] then head == INVALID
    else head == ids[0] && 0 <= head < |ns| && Linked(ns, ns[head].next, ids[1..])
  }

  lemma {:induction false} LinkedFrame(ns: seq<ChunkNode>, ms: seq<ChunkNode>, head: int, ids: seq<int>)
    requires Linked(ns, head, ids) && |ns| == |ms|
    requires forall i :: 0 <= i < |ids| && 0 <= ids[i] < |ns| ==> ns[ids[i]].next == ms[ids[i]].next
    ensures Linked(ms, head, ids)
    decreases |ids|
  {
    if ids != [] {
      LinkedFrame(ns, ms, ns[head].next, ids[1..]);
    }
  }

  /** Every chunk has one owner: INVALID if it is free, or else the head of the one chain it is in. */
  ghost predicate Partition(total: nat, free: seq<int>, chains: map<int, seq<int>>, owner: seq<int>) {
    FreeChunks(total, free, owner) && UsedChunks(total, chains, owner)
  }

  /** The free list holds the chunks without an owner, each once. */
  ghost predicate FreeChunks(total: nat, free: seq<int>, owner: seq<int>) {
    && |owner| == total
    && Distinct(free)
    && (forall i :: 0 <= i < |free| ==> 0 <= free[i] < total && owner[free[i]] == INVALID)
    && (forall c :: 0 <= c < total && owner[c] == INVALID ==> c in free)
  }

  /** Each chain holds the chunks that its head owns, each once. */
  ghost predicate UsedChunks(total: nat, chains: map<int, seq<int>>, owner: seq<int>) {
    && |owner| == total
    && (forall h :: h in chains ==> chains[h] != [] && chains[h][0] == h && Distinct(chains[h]))
    && (forall h, i :: h in chains && 0 <= i < |chains[h]| ==>
          0 <= chains[h][i] < total && owner[chains[h][i]] == h)
    && (forall c :: 0 <= c < total && owner[c] != INVALID ==>
          owner[c] in chains && c in chains[owner[c]])
  }

  ghost function Reowned(owner: seq<int>, ids: seq<int>, to: int): seq<int> {
    seq(|owner|, c requires 0 <= c < |owner| => if c in ids then to else owner[c])
  }

  /** Moving the first free chunks into a new chain keeps the partition. */
  lemma FreeTake(total: nat, free: seq<int>, owner: seq<int>, n: nat)
    requires FreeChunks(total, free, owner)
    requires 0 < n <= |free|
    ensures var taken := Reverse(free[..n]); FreeChunks(total, free[n..], Reowned(owner, taken, taken[0]))
  {
    var taken := Reverse(free[..n]);
    var rest, owner' := free[n..], Reowned(owner, taken, taken[0]);
    assert taken[0] == free[n - 1];
    assert forall i :: 0 <= i < n ==> taken[n - 1 - i] == free[i];
    assert forall i :: 0 <= i < |rest| ==> rest[i] == free[i + n] && rest[i] !in taken;
    forall c | 0 <= c < total && owner'[c] == INVALID ensures c in rest {
      var i :| 0 <= i < |free| && free[i] == c;
      assert rest[i - n] == c;
    }
  }

  lemma UsedTake(total: nat, chains: map<int, seq<int>>, owner: seq<int>, taken: seq<int>)
    requires UsedChunks(total, chains, owner) && taken != [] && Distinct(taken)
    requires forall i :: 0 <= i < |taken| ==> 0 <= taken[i] < total && owner[taken[i]] == INVALID
    requires forall h :: h in chains ==> h != INVALID
    ensures taken[0] !in chains
    ensures UsedChunks(total, chains[taken[0] := taken], Reowned(owner, taken, taken[0]))
  {
    var head := taken[0];
    var chains', owner' := chains[head := taken], Reowned(owner, taken, head);
    assert forall h :: h in chains ==> chains[h][0] == h && owner[h] == h;
    assert forall h, i :: h in chains && 0 <= i < |chains[h]| ==> owner[chains[h][i]] == h && chains[h][i] !in taken;
    forall c | 0 <= c < total && owner'[c] != INVALID ensures owner'[c] in chains' && c in chains'[owner'[c]] {
      if c !in taken {
        assert owner[c] in chains && owner[c] != head;
      }
    }
  }

  lemma HeadsValid(total: nat, chains: map<int, seq<int>>, owner: seq<int>)
    requires UsedChunks(total, chains, owner)
    ensures forall h :: h in chains ==> 0 <= h < total
  {
    forall h | h in chains ensures 0 <= h < total {
      assert chains[h][0] == h;
    }
  }

  lemma ReverseDistinct(s: seq<int>, n: nat)
    requires Distinct(s) && n <= |s|
    ensures Distinct(Reverse(s[..n])) && forall i :: 0 <= i < n ==> Reverse(s[..n])[i] == s[n - 1 - i]
  {
  }

  lemma PartitionTake(total: nat, free: seq<int>, chains: map<int, seq<int>>, owner: seq<int>, n: nat)
    requires Partition(total, free, chains, owner)
    requires 0 < n <= |free|
    ensures var taken := Reverse(free[..n]);
      && taken[0] !in chains && 0 <= taken[0] < total
      && Partition(total, free[n..], chains[taken[0] := taken], Reowned(owner, taken, taken[0]))
  {
    hide UsedChunks, Reverse, Reowned;
    var taken := Reverse(free[..n]);
    ReverseDistinct(free, n);
    FreeTake(total, free, owner, n);
    HeadsValid(total, chains, owner);
    UsedTake(total, chains, owner, taken);
  }

  /** Moving a chain in front of the free list keeps the partition. */
  lemma PartitionGive(total: nat, free: seq<int>, chains: map<int, seq<int>>, owner: seq<int>, head: int)
    requires Partition(total, free, chains, owner)
    requires head in chains
    ensures Partition(total, Reverse(chains[head]) + free, chains - {head}, Reowned(owner, chains[head], INVALID))
  {
    var chain, chains', owner' := chains[head], chains - {head}, Reowned(owner, chains[head], INVALID);
    var n, more := |chain|, Reverse(chain) + free;
    assert forall i :: n <= i < |more| ==> more[i] == free[i - n] && owner[more[i]] == INVALID;
    assert forall j :: 0 <= j < n ==> owner[more[j]] == head;
    assert forall h, i :: h in chains' && 0 <= i < |chains'[h]| ==> chains'[h][i] !in chain;
    forall c | 0 <= c < total && owner'[c] == INVALID ensures c in more {
      if c in chain {
        var i :| 0 <= i < n && chain[i] == c;
        assert more[n - 1 - i] == c;
      } else {
        var i :| 0 <= i < |free| && free[i] == c;
        assert more[n + i] == c;
      }
    }
    assert Distinct(more);
  }

  /** The chunks ids lie in the pool and have the right size. */
  ghost predicate AllSized(ns: seq<ChunkNode>, size: Positive) {
    forall c :: 0 <= c < |ns| ==> |ns[c].data| == size
  }

  ghost predicate AllLinked(ns: seq<ChunkNode>, chains: map<int, seq<int>>) {
    forall h :: h in chains ==> Linked(ns, h, chains[h])
  }

  lemma LinkedPush(ns: seq<ChunkNode>, c: int, head: int, ids: seq<int>)
    requires 0 <= c < |ns| && ns[c].next == head && Linked(ns, head, ids)
    ensures Linked(ns, c, [c] + ids)
  {
    assert ([c] + ids)[1..] == ids;
  }

  lemma LinkedFirst(ns: seq<ChunkNode>, head: int, ids: seq<int>)
    requires Linked(ns, head, ids)
    ensures head == INVALID <==> ids == []
    ensures ids != [] ==> head == ids[0] && 0 <= head < |ns| && Linked(ns, ns[head].next, ids[1..])
  {
  }

  /** Only links of the chunks ids may differ, and no data. */
  ghost predicate Relinked(ns: seq<ChunkNode>, ms: seq<ChunkNode>, ids: seq<int>) {
    && |ns| == |ms|
    && forall c :: 0 <= c < |ns| ==> ms[c].data == ns[c].data && (c !in ids ==> ms[c] == ns[c])
  }

  lemma RelinkedStep(ns: seq<ChunkNode>, ms: seq<ChunkNode>, ids: seq<int>, c: int, next: int)
    requires Relinked(ns, ms, ids) && c in ids && 0 <= c < |ms|
    ensures Relinked(ns, ms[c := ms[c].(next := next)], ids)
  {
  }

  lemma RelinkedNone(ns: seq<ChunkNode>, ids: seq<int>)
    ensures Relinked(ns, ns, ids)
  {
  }

  lemma RelinkedNothing(ns: seq<ChunkNode>, ms: seq<ChunkNode>)
    requires Relinked(ns, ms, [])
    ensures ms == ns
  {
  }

  lemma RelinkedSized(ns: seq<ChunkNode>, ms: seq<ChunkNode>, ids: seq<int>, size: Positive)
    requires Relinked(ns, ms, ids) && AllSized(ns, size)
    ensures AllSized(ms, size)
  {
  }

  /** Relinking free chunks leaves every chain as it is. */
  lemma RelinkedFree(total: nat, free: seq<int>, chains: map<int, seq<int>>, owner: seq<int>, ns: seq<ChunkNode>,
                     ms: seq<ChunkNode>)
    requires Partition(total, free, chains, owner) && |ns| == total
    requires Relinked(ns, ms, free) && AllLinked(ns, chains)
    ensures AllLinked(ms, chains) && Untouched(ns, ms, chains, chains, INVALID)
  {
    hide Linked;
    HeadsValid(total, chains, owner);
    forall h | h in chains ensures Linked(ms, h, chains[h]) {
      assert forall i :: 0 <= i < |chains[h]| ==> owner[chains[h][i]] == h;
      LinkedFrame(ns, ms, h, chains[h]);
    }
  }

  /** Relinking the chunks of one chain leaves every other as it is. */
  lemma RelinkedChain(total: nat, free: seq<int>, chains: map<int, seq<int>>, owner: seq<int>, head: int,
                      ns: seq<ChunkNode>, ms: seq<ChunkNode>)
    requires Partition(total, free, chains, owner) && |ns| == total && head in chains
    requires Relinked(ns, ms, chains[head]) && AllLinked(ns, chains)
    ensures AllLinked(ms, chains - {head}) && Untouched(ns, ms, chains, chains - {head}, head)
  {
    hide Linked;
    HeadsValid(total, chains, owner);
    forall h | h in chains - {head} ensures Linked(ms, h, chains[h]) {
      assert forall i :: 0 <= i < |chains[h]| ==> owner[chains[h][i]] == h;
      LinkedFrame(ns, ms, h, chains[h]);
    }
  }

  lemma NothingTaken(ns: seq<ChunkNode>, ids: seq<int>)
    ensures Linked(ns, INVALID, []) && Reverse(ids[..0]) == [] && ids[0..] == ids
  {
  }

  lemma GiveStep(rest: seq<int>, free: seq<int>)
    requires rest != []
    ensures Reverse(rest) + free == Reverse(rest[1..]) + ([rest[0]] + free)
  {
  }

  lemma FreeDistinct(total: nat, free: seq<int>, chains: map<int, seq<int>>, owner: seq<int>)
    requires Partition(total, free, chains, owner)
    ensures Distinct(free)
  {
  }

  lemma ChainDistinct(total: nat, free: seq<int>, chains: map<int, seq<int>>, owner: seq<int>, head: int)
    requires Partition(total, free, chains, owner) && head in chains
    ensures Distinct(chains[head]) && head != INVALID && forall c :: c in chains[head] ==> c !in free
  {
    HeadsValid(total, chains, owner);
  }

  lemma UntouchedSame(ns: seq<ChunkNode>, chains: map<int, seq<int>>)
    requires INVALID !in chains
    ensures Untouched(ns, ns, chains, chains, INVALID)
  {
  }

  lemma UntouchedNew(ns: seq<ChunkNode>, ms: seq<ChunkNode>, chains: map<int, seq<int>>, head: int, taken: seq<int>)
    requires Untouched(ns, ms, chains, chains, INVALID) && head !in chains && head != INVALID
    requires AllLinked(ms, chains) && Linked(ms, head, taken)
    ensures Untouched(ns, ms, chains, chains[head := taken], INVALID)
    ensures AllLinked(ms, chains[head := taken])
  {
    hide Linked;
  }

  ghost predicate InPool(ns: seq<ChunkNode>, ids: seq<int>, size: Positive) {
    forall i :: 0 <= i < |ids| ==> 0 <= ids[i] < |ns| && |ns[ids[i]].data| == size
  }

  /** The first len bytes held by the chunks ids. */
  ghost function Collect(ns: seq<ChunkNode>, ids: seq<int>, len: nat, size: Positive): (s: seq<byte>)
    requires InPool(ns, ids, size) && |ids| == ChunkNum(len, size)
    ensures |s| == len
    decreases |ids|
  {
    if ids == [] then []
    else if len <= size then ns[ids[0]].data[..len]
    else ns[ids[0]].data + Collect(ns, ids[1..], len - size, size)
  }

  lemma {:induction false} CollectFrame(ns: seq<ChunkNode>, ms: seq<ChunkNode>, ids: seq<int>, len: nat, size: Positive)
    requires InPool(ns, ids, size) && |ids| == ChunkNum(len, size)
    requires |ns| == |ms| && forall i :: 0 <= i < |ids| ==> ns[ids[i]].data == ms[ids[i]].data
    ensures InPool(ms, ids, size)
    ensures Collect(ns, ids, len, size) == Collect(ms, ids, len, size)
    decreases |ids|
  {
    if len > size {
      CollectFrame(ns, ms, ids[1..], len - size, size);
    }
  }

  /** The pool after data has been written over the chunks ids. */
  ghost function Scatter(ns: seq<ChunkNode>, ids: seq<int>, data: seq<byte>, size: Positive): (ms: seq<ChunkNode>)
    requires InPool(ns, ids, size)
    ensures |ms| == |ns|
    ensures forall c :: 0 <= c < |ns| ==> ms[c].next == ns[c].next && |ms[c].data| == |ns[c].data|
    ensures forall c :: 0 <= c < |ns| && c !in ids ==> ms[c] == ns[c]
    decreases |ids|
  {
    if ids == [] then ns
    else if |data| < size then ns[ids[0] := ns[ids[0]].(data := data + ns[ids[0]].data[|data|..])]
    else Scatter(ns[ids[0] := ns[ids[0]].(data := data[..size])], ids[1..], data[size..], size)
  }

  /** Gathering after scattering gives the data back, also when it fills its last chunk exactly. */
  lemma {:induction false} CollectScatter(ns: seq<ChunkNode>, ids: seq<int>, data: seq<byte>, size: Positive)
    requires InPool(ns, ids, size) && |ids| == ChunkNum(|data|, size) && Distinct(ids)
    ensures InPool(Scatter(ns, ids, data, size), ids, size)
    ensures Collect(Scatter(ns, ids, data, size), ids, |data|, size) == data
    decreases |ids|
  {
    if ids != [] && |data| >= size {
      var ns' := ns[ids[0] := ns[ids[0]].(data := data[..size])];
      CollectScatter(ns', ids[1..], data[size..], size);
      assert ids[0] !in ids[1..];
    }
  }

  /** s with data written over it at offset at. */
  function Overwrite(s: seq<byte>, at: nat, data: seq<byte>): (r: seq<byte>)
    requires at + |data| <= |s|
    ensures |r| == |s|
  {
    s[..at] + data + s[at + |data|..]
  }

  lemma OverwriteTwice(s: seq<byte>, at: nat, d: seq<byte>, e: seq<byte>)
    requires at + |d| + |e| <= |s|
    ensures Overwrite(Overwrite(s, at, d), at + |d|, e) == Overwrite(s, at, d + e)
  {
  }

  /** memcpy into a buffer. */
  method CopyInto(buf: array<byte>, at: nat, data: seq<byte>)
    requires at + |data| <= buf.Length
    modifies buf
    ensures buf[..] == Overwrite(old(buf[..]), at, data)
  {
    forall k | 0 <= k < |data| { buf[at + k] := data[k]; }
  }

  /** One chunk of merge: the last one in part, any other in full and then the rest. */
  lemma MergeStep(ns: seq<ChunkNode>, ids: seq<int>, len: nat, size: Positive, b: seq<byte>, at: nat)
    requires ids != [] && InPool(ns, ids, size) && |ids| == ChunkNum(len, size) && at + len <= |b|
    ensures len < size ==> Overwrite(b, at, Collect(ns, ids, len, size)) == Overwrite(b, at, ns[ids[0]].data[..len])
    ensures len >= size ==>
      && InPool(ns, ids[1..], size) && |ids[1..]| == ChunkNum(len - size, size)
      && Overwrite(b, at, Collect(ns, ids, len, size)) ==
         Overwrite(Overwrite(b, at, ns[ids[0]].data), at + size, Collect(ns, ids[1..], len - size, size))
  {
    hide Overwrite;
    if len >= size {
      var data := ns[ids[0]].data;
      OverwriteTwice(b, at, data, Collect(ns, ids[1..], len - size, size));
      assert len == size ==> data[..len] == data && data + [] == data;
    }
  }

  lemma MergeEnd(ns: seq<ChunkNode>, len: nat, size: Positive, b: seq<byte>, at: nat)
    requires ChunkNum(len, size) == 0 && at + len <= |b|
    ensures InPool(ns, [], size) && Overwrite(b, at, Collect(ns, [], len, size)) == b
  {
  }

  /** One chunk of split: the last one in part, any other in full and then the rest. */
  lemma SplitStep(ns: seq<ChunkNode>, ids: seq<int>, data: seq<byte>, size: Positive)
    requires ids != [] && InPool(ns, ids, size) && Distinct(ids)
    ensures |data| < size ==>
      Scatter(ns, ids, data, size) == ns[ids[0] := ns[ids[0]].(data := data + ns[ids[0]].data[|data|..])]
    ensures |data| >= size ==>
      var ns' := ns[ids[0] := ns[ids[0]].(data := data[..size])];
      InPool(ns', ids[1..], size) && Distinct(ids[1..])
        && Scatter(ns, ids, data, size) == Scatter(ns', ids[1..], data[size..], size)
  {
  }

  lemma SplitEnd(ns: seq<ChunkNode>, data: seq<byte>, size: Positive)
    ensures InPool(ns, [], size) && Scatter(ns, [], data, size) == ns
  {
  }

  ghost function ChainIn(chains: map<int, seq<int>>, head: int): seq<int> {
    if head in chains then chains[head] else []
  }

  /** The len bytes stored behind a handle that holds that many. */
  ghost function ValueIn(ns: seq<ChunkNode>, chains: map<int, seq<int>>, head: int, len: nat,
                         size: Positive): seq<byte> {
    var ids := ChainIn(chains, head);
    if InPool(ns, ids, size) && |ids| == ChunkNum(len, size) then Collect(ns, ids, len, size) else []
  }

  /** A value depends only on its own chain and on the bytes of that chain. */
  lemma ValueFrame(ns: seq<ChunkNode>, ms: seq<ChunkNode>, chains: map<int, seq<int>>, chains': map<int, seq<int>>,
      head: int, len: nat, size: Positive)
    requires |ns| == |ms| && ChainIn(chains, head) == ChainIn(chains', head)
    requires forall c :: 0 <= c < |ns| && c in ChainIn(chains, head) ==> ns[c].data == ms[c].data
    ensures ValueIn(ns, chains, head, len, size) == ValueIn(ms, chains', head, len, size)
  {
    var ids := ChainIn(chains, head);
    assert InPool(ns, ids, size) <==> InPool(ms, ids, size);
    if InPool(ns, ids, size) && |ids| == ChunkNum(len, size) {
      CollectFrame(ns, ms, ids, len, size);
    }
  }

  /** Every chain but one keeps its chunks and their bytes. */
  ghost predicate Untouched(ns: seq<ChunkNode>, ms: seq<ChunkNode>, chains: map<int, seq<int>>,
                            chains': map<int, seq<int>>, but: int) {
    && |ns| == |ms| && INVALID !in chains && INVALID !in chains'
    && forall h :: h in chains && h != but ==>
         && h in chains' && chains'[h] == chains[h]
         && forall c :: c in chains[h] && 0 <= c < |ns| ==> ms[c].data == ns[c].data
  }

  lemma UntouchedThen(n0: seq<ChunkNode>, n1: seq<ChunkNode>, n2: seq<ChunkNode>,
      c0: map<int, seq<int>>, c1: map<int, seq<int>>, c2: map<int, seq<int>>, but: int, but': int)
    requires Untouched(n0, n1, c0, c1, but) && Untouched(n1, n2, c1, c2, but')
    requires but' in c0 ==> but' == but
    ensures Untouched(n0, n2, c0, c2, but)
  {
  }

  lemma NoInvalidChain(total: nat, free: seq<int>, chains: map<int, seq<int>>, owner: seq<int>)
    requires Partition(total, free, chains, owner)
    ensures INVALID !in chains
    ensures forall h, k, c :: h in chains && k in chains && h != k && c in chains[h] ==> c !in chains[k]
  {
  }

  class ChunkAllocator {
    const chunkTotal: nat
    const chunkSize: Positive
    const nodes: array<ChunkNode>
    var freeTotal: int
    var freeList: int

    ghost var free: seq<int>
    ghost var chains: map<int, seq<int>>
    ghost var owner: seq<int>

    ghost predicate Valid()
      reads this, nodes
    {
      && nodes.Length == chunkTotal
      && AllSized(nodes[..], chunkSize)
      && Partition(chunkTotal, free, chains, owner)
      && freeTotal == |free|
      && Linked(nodes[..], freeList, free)
      && AllLinked(nodes[..], chains)
    }

    /** The chunks behind a handle: none for INVALID. */
    ghost function Chain(head: int): seq<int>
      reads this
    {
      ChainIn(chains, head)
    }

    /** A handle whose chain is as long as len bytes need. */
    ghost predicate Holds(head: int, len: nat)
      reads this
    {
      && (head == INVALID || head in chains)
      && |Chain(head)| == ChunkNum(len, chunkSize)
    }

    /** The len bytes stored behind a handle. */
    ghost function Content(head: int, len: nat): seq<byte>
      reads this, nodes
    {
      ValueIn(nodes[..], chains, head, len, chunkSize)
    }

    constructor (nChunks: nat, size: Positive)
      ensures Valid() && fresh(nodes)
      ensures chunkTotal == nChunks && chunkSize == size
      ensures freeTotal == nChunks && chains == map[]
    {
      chunkTotal, chunkSize := nChunks, size;
      var zeros: seq<byte> := seq(size, _ => 0);
      nodes := new ChunkNode[nChunks](_ => ChunkNode(INVALID, zeros));
      freeList, freeTotal := INVALID, 0;
      free, chains := [], map[];
      owner := seq(nChunks, _ => INVALID);
      new;
      for i := 0 to nChunks
        invariant nodes.Length == nChunks && |free| == i
        invariant AllSized(nodes[..], size)
        invariant forall j :: 0 <= j < i ==> free[j] == i - 1 - j
        invariant Linked(nodes[..], freeList, free)
        invariant owner == seq(nChunks, _ => INVALID) && chains == map[]
      {
        FreeListInsert(i);
      }
      freeTotal := nChunks;
      forall c | 0 <= c < nChunks ensures c in free {
        assert free[nChunks - 1 - c] == c;
      }
    }

    method FreeListInsert(c: int)
      requires 0 <= c < nodes.Length && c !in free
      requires Linked(nodes[..], freeList, free)
      modifies this`freeList, this`free, nodes
      ensures free == [c] + old(free)
      ensures nodes[..] == old(nodes[..])[c := old(nodes[c]).(next := old(freeList))]
      ensures Linked(nodes[..], freeList, free)
    {
      nodes[c] := nodes[c].(next := freeList);
      LinkedFrame(old(nodes[..]), nodes[..], freeList, free);
      freeList := c;
      free := [c] + free;
    }

    method FreeListRemove() returns (c: int)
      requires Linked(nodes[..], freeList, free) && Distinct(free)
      modifies this`freeList, this`free, nodes
      ensures c == INVALID <==> old(free) == []
      ensures c == INVALID ==> free == [] && nodes[..] == old(nodes[..]) && freeList == old(freeList)
      ensures c != INVALID ==>
        && c == old(free)[0] && free == old(free)[1..] && 0 <= c < nodes.Length
        && nodes[..] == old(nodes[..])[c := old(nodes[c]).(next := INVALID)]
      ensures Linked(nodes[..], freeList, free)
    {
      if freeList == INVALID {
        return INVALID;
      }
      c := freeList;
      freeList := nodes[c].next;
      nodes[c] := nodes[c].(next := INVALID);
      free := free[1..];
      LinkedFrame(old(nodes[..]), nodes[..], freeList, free);
    }

    /** The loop of malloc: moves n chunks, one by one, from the free list to a new chain. */
    method TakeChunks(n: nat) returns (head: int, ghost taken: seq<int>)
      requires Linked(nodes[..], freeList, free) && Distinct(free) && n <= |free|
      modifies this`freeList, this`free, nodes
      ensures free == old(free)[n..] && taken == Reverse(old(free)[..n])
      ensures Linked(nodes[..], head, taken) && Linked(nodes[..], freeList, free)
      ensures Relinked(old(nodes[..]), nodes[..], old(free))
    {
      hide Linked, Reverse, Relinked;
      ghost var all, start := free, nodes[..];
      RelinkedNone(start, all);
      head, taken := INVALID, [];
      NothingTaken(start, all);
      for i := 0 to n
        invariant free == all[i..] && taken == Reverse(all[..i])
        invariant Linked(nodes[..], head, taken) && Linked(nodes[..], freeList, free)
        invariant Relinked(start, nodes[..], all)
      {
        ghost var before := nodes[..];
        ReverseStep(all, i);
        var node := FreeListRemove();
        ghost var between := nodes[..];
        nodes[node] := nodes[node].(next := head);
        assert nodes[..] == before[node := before[node].(next := head)];
        LinkedFrame(before, nodes[..], head, taken);
        LinkedFrame(between, nodes[..], freeList, free);
        LinkedPush(nodes[..], node, head, taken);
        RelinkedStep(start, before, all, node, head);
        head := node;
        taken := Reverse(all[..i + 1]);
      }
    }

    /**
     Takes chunkNum free chunks as one new chain; asking for none, or for too many, gives INVALID;
     less than none spoils the count.
     */
    method Malloc(chunkNum: int) returns (head: int)
      requires Valid()
      modifies this, nodes
      ensures Valid() <==> chunkNum >= 0
      ensures chunkNum < 0 ==> freeTotal == old(freeTotal) - chunkNum && free == old(free)
      ensures Untouched(old(nodes[..]), nodes[..], old(chains), chains, INVALID)
      ensures head == INVALID <==> chunkNum <= 0 || chunkNum > old(freeTotal)
      ensures head == INVALID ==> chains == old(chains) && (chunkNum >= 0 ==> freeTotal == old(freeTotal))
      ensures head != INVALID ==>
        && head in chains && head !in old(chains)
        && chains == old(chains)[head := chains[head]] && |chains[head]| == chunkNum
        && freeTotal == old(freeTotal) - chunkNum
    {
      hide Linked, Reverse, Relinked, Partition, AllSized, AllLinked, Untouched;
      NoInvalidChain(chunkTotal, free, chains, owner);
      UntouchedSame(nodes[..], chains);
      if freeTotal < chunkNum {
        return INVALID;
      }
      if chunkNum < 0 {
        freeTotal := freeTotal - chunkNum;
        return INVALID;
      }
      FreeDistinct(chunkTotal, free, chains, owner);
      ghost var taken, was, all := [], nodes[..], free;
      head, taken := TakeChunks(chunkNum);
      freeTotal := freeTotal - chunkNum;
      RelinkedFree(chunkTotal, all, chains, owner, was, nodes[..]);
      RelinkedSized(was, nodes[..], all, chunkSize);
      LinkedFirst(nodes[..], head, taken);
      if chunkNum > 0 {
        PartitionTake(chunkTotal, all, chains, owner, chunkNum);
        UntouchedNew(was, nodes[..], chains, head, taken);
        chains := chains[head := taken];
        owner := Reowned(owner, taken, head);
      }
    }

    /** The loop of free: moves the chunks of a chain, one by one, to the free list. */
    method GiveChunks(head: int, ghost chain: seq<int>)
      requires Linked(nodes[..], head, chain) && Linked(nodes[..], freeList, free)
      requires Distinct(chain) && forall c :: c in chain ==> c !in free
      modifies this`freeList, this`free, this`freeTotal, nodes
      ensures free == Reverse(chain) + old(free)
      ensures freeTotal == old(freeTotal) + |chain|
      ensures Linked(nodes[..], freeList, free)
      ensures Relinked(old(nodes[..]), nodes[..], chain)
    {
      hide Linked, Reverse, Relinked;
      var chunk := head;
      ghost var rest, goal, start := chain, Reverse(chain) + free, nodes[..];
      RelinkedNone(start, chain);
      while chunk != INVALID
        invariant Linked(nodes[..], chunk, rest) && Linked(nodes[..], freeList, free)
        invariant Distinct(rest) && forall c :: c in rest ==> c in chain && c !in free
        invariant Reverse(rest) + free == goal
        invariant freeTotal + |rest| == old(freeTotal) + |chain|
        invariant Relinked(start, nodes[..], chain)
        decreases |rest|
      {
        ghost var before := nodes[..];
        LinkedFirst(before, chunk, rest);
        var next := nodes[chunk].next;
        assert chunk in rest;
        RelinkedStep(start, before, chain, chunk, freeList);
        GiveStep(rest, free);
        FreeListInsert(chunk);
        rest := rest[1..];
        LinkedFrame(before, nodes[..], next, rest);
        freeTotal := freeTotal + 1;
        chunk := next;
      }
      LinkedFirst(nodes[..], chunk, rest);
      assert free == goal;
    }

    /** Returns a whole chain to the free list. */
    method Free(head: int)
      requires Valid()
      requires head == INVALID || head in chains
      modifies this, nodes
      ensures Valid()
      ensures Untouched(old(nodes[..]), nodes[..], old(chains), chains, head)
      ensures chains == old(chains) - {head}
      ensures freeTotal == old(freeTotal) + |old(Chain(head))|
    {
      hide Linked, Reverse, Relinked, Partition, AllSized, Untouched;
      ghost var chain, was, all := Chain(head), nodes[..], free;
      NoInvalidChain(chunkTotal, free, chains, owner);
      NothingTaken(was, chain);
      if head != INVALID {
        ChainDistinct(chunkTotal, free, chains, owner, head);
      }
      GiveChunks(head, chain);
      if head != INVALID {
        RelinkedChain(chunkTotal, all, chains, owner, head, was, nodes[..]);
        RelinkedSized(was, nodes[..], chain, chunkSize);
        PartitionGive(chunkTotal, all, chains, owner, head);
        owner := Reowned(owner, chain, INVALID);
        chains := chains - {head};
      } else {
        RelinkedNothing(was, nodes[..]);
        UntouchedSame(was, chains);
        assert chains - {head} == chains && Reverse(chain[..0]) + all == all;
      }
    }

    /** The loop of merge. */
    method MergeChain(head: int, ghost ids: seq<int>, len: nat, buf: array<byte>, at: nat)
      requires at + len <= buf.Length
      requires Linked(nodes[..], head, ids) && InPool(nodes[..], ids, chunkSize)
      requires |ids| == ChunkNum(len, chunkSize)
      modifies buf
      ensures buf[..] == Overwrite(old(buf[..]), at, Collect(nodes[..], ids, len, chunkSize))
    {
      hide Linked, Collect, Overwrite, ChunkNum;
      var remain, pos, chunk := len, at, head;
      ghost var rest, ns := ids, nodes[..];
      ghost var goal := Overwrite(buf[..], at, Collect(ns, ids, len, chunkSize));
      while chunk != INVALID
        invariant nodes[..] == ns
        invariant Linked(ns, chunk, rest) && InPool(ns, rest, chunkSize)
        invariant remain >= 0 && |rest| == ChunkNum(remain, chunkSize)
        invariant 0 <= pos && pos + remain <= buf.Length
        invariant goal == Overwrite(buf[..], pos, Collect(ns, rest, remain, chunkSize))
        decreases |rest|
      {
        LinkedFirst(ns, chunk, rest);
        MergeStep(ns, rest, remain, chunkSize, buf[..], pos);
        var data := nodes[chunk].data;
        if remain < chunkSize {
          CopyInto(buf, pos, data[..remain]);
          return;
        }
        CopyInto(buf, pos, data);
        pos := pos + chunkSize;
        remain := remain - chunkSize;
        chunk := nodes[chunk].next;
        rest := rest[1..];
      }
      LinkedFirst(ns, chunk, rest);
      MergeEnd(ns, remain, chunkSize, buf[..], pos);
      assert buf[..] == goal;
    }

    /** Copies the value behind head into buf at offset at, if the room given is enough for it. */
    method Merge(head: int, len: nat, buf: array<byte>, at: int, room: int) returns (ret: int, dataLen: int)
      requires Valid() && Holds(head, len)
      requires room >= 0 ==> 0 <= at && at + room <= buf.Length
      modifies buf
      ensures dataLen == len
      ensures ret == if room < len then ERROR_INVALID_PARAM else 0
      ensures ret != 0 ==> buf[..] == old(buf[..])
      ensures ret == 0 ==> buf[..] == Overwrite(old(buf[..]), at, old(Content(head, len)))
    {
      if room < len {
        return ERROR_INVALID_PARAM, len;
      }
      MergeChain(head, Chain(head), len, buf, at);
      return 0, len;
    }

    /** The loop of split. */
    method SplitChain(head: int, ghost ids: seq<int>, data: seq<byte>)
      requires Linked(nodes[..], head, ids) && InPool(nodes[..], ids, chunkSize) && Distinct(ids)
      modifies nodes
      ensures nodes[..] == Scatter(old(nodes[..]), ids, data, chunkSize)
    {
      hide Linked, Scatter;
      var remain, pos, chunk := |data|, 0, head;
      ghost var rest, todo := ids, data;
      ghost var goal := Scatter(nodes[..], ids, data, chunkSize);
      while chunk != INVALID
        invariant Linked(nodes[..], chunk, rest) && InPool(nodes[..], rest, chunkSize)
        invariant Distinct(rest)
        invariant 0 <= pos <= |data| && remain == |data| - pos && todo == data[pos..]
        invariant goal == Scatter(nodes[..], rest, todo, chunkSize)
        decreases |rest|
      {
        ghost var before := nodes[..];
        LinkedFirst(before, chunk, rest);
        SplitStep(before, rest, todo, chunkSize);
        if remain < chunkSize {
          nodes[chunk] := nodes[chunk].(data := data[pos..] + nodes[chunk].data[remain..]);
          assert nodes[..] == before[chunk := nodes[chunk]];
          return;
        }
        nodes[chunk] := nodes[chunk].(data := data[pos..pos + chunkSize]);
        assert todo[..chunkSize] == data[pos..pos + chunkSize];
        assert nodes[..] == before[chunk := nodes[chunk]];
        pos := pos + chunkSize;
        remain := remain - chunkSize;
        chunk := nodes[chunk].next;
        rest, todo := rest[1..], todo[chunkSize..];
        LinkedFrame(before, nodes[..], chunk, rest);
      }
      LinkedFirst(nodes[..], chunk, rest);
      SplitEnd(nodes[..], todo, chunkSize);
    }

    /** Scatters data over the chain of a handle, leaving every other chunk alone. */
    method Split(head: int, data: seq<byte>)
      requires Valid() && Holds(head, |data|)
      modifies nodes
      ensures Valid()
      ensures Untouched(old(nodes[..]), nodes[..], chains, chains, head)
      ensures Content(head, |data|) == data
    {
      ghost var chain, was := Chain(head), nodes[..];
      SplitChain(head, chain, data);
      forall h | h in chains ensures Linked(nodes[..], h, chains[h]) {
        LinkedFrame(was, nodes[..], h, chains[h]);
      }
      LinkedFrame(was, nodes[..], freeList, free);
      NoInvalidChain(chunkTotal, free, chains, owner);
      CollectScatter(was, chain, data, chunkSize);
    }

    lemma ChainsAreValid()
      requires Valid()
      ensures INVALID !in chains && freeTotal >= 0
      ensures Untouched(nodes[..], nodes[..], chains, chains, INVALID)
    {
      NoInvalidChain(chunkTotal, free, chains, owner);
    }

    lemma ContentLength(head: int, len: nat)
      requires Valid() && Holds(head, len)
      ensures |Content(head, len)| == len
    {
    }

    /** Frees a chain and allocates another for new data: with enough chunks, malloc cannot fail here. */
    method Reallocate(head: int, num: nat, data: seq<byte>) returns (renewed: int)
      requires Valid()
      requires head == INVALID || head in chains
      requires num == ChunkNum(|data|, chunkSize)
      requires num <= freeTotal + |Chain(head)|
      modifies this, nodes
      ensures Valid() && Holds(renewed, |data|)
      ensures renewed !in old(chains) - {head}
      ensures chains ==
        if renewed == INVALID then old(chains) - {head} else (old(chains) - {head})[renewed := Chain(renewed)]
      ensures Untouched(old(nodes[..]), nodes[..], old(chains), chains, head)
      ensures freeTotal == old(freeTotal) + |old(Chain(head))| - num
      ensures Content(renewed, |data|) == data
    {
      hide Partition, Linked, ValueIn, InPool;
      Free(head);
      ghost var n1, c1 := nodes[..], chains;
      renewed := Malloc(num);
      ghost var n2 := nodes[..];
      UntouchedThen(old(nodes[..]), n1, n2, old(chains), c1, chains, head, INVALID);
      Split(renewed, data);
      UntouchedThen(old(nodes[..]), n2, nodes[..], old(chains), chains, chains, head, renewed);
    }

    /** Re-opening the pool: succeeds exactly when the stored parameters match. */
    method VerifyPoolData(nChunks: int, size: int) returns (ret: int)
      requires Valid()
      ensures ret == if size == chunkSize && nChunks == chunkTotal then 0 else ERROR_DATA_VERIFY_FAIL
    {
      if chunkSize != size || chunkTotal != nChunks {
        return ERROR_DATA_VERIFY_FAIL;
      }
      var node, count := freeList, 0;
      while node != INVALID
        invariant 0 <= count <= |free|
        invariant Linked(nodes[..], node, free[count..])
        decreases |free| - count
      {
        assert free[count..][1..] == free[count + 1..];
        count := count + 1;
        node := nodes[node].next;
      }
      if count != freeTotal {
        return ERROR_DATA_VERIFY_FAIL;
      }
      return 0;
    }
  }
}
