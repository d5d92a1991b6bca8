/**
 The hash map over the chunk allocator.  Every node of the fixed pool is either on the free
 list, or on the list of its key's bucket and on the recency list at once.
 A handle is the index of a node; the pool is held as parallel arrays of links and contents.
 */
module HashMaps {
  import opened Bytes
  import opened Lists
  import opened ChunkAllocators
  import opened Links
  import opened RecencyMaps

  const KEY_LEN := 16
  const HASH_MAP_ERROR_BASE := -1000

  type Key = k: seq<byte> | |k| == KEY_LEN witness [0, 0, 0, 0, 0, 0, 0, 0, 0, 0, 0, 0, 0, 0, 0, 0]

  const ZERO_KEY: Key := [0, 0, 0, 0, 0, 0, 0, 0, 0, 0, 0, 0, 0, 0, 0, 0]

  /** The first four key bytes, read as an unsigned int. */
  function Uin(k: Key): nat {
    DecodeU32(k[..4])
  }

  /** The number in the first four bytes, the lowest first. */
  function KeyNumber(k: Key): nat {
    var k0: int, k1: int, k2: int, k3: int := k[0], k[1], k[2], k[3];
    k0 + 256 * k1 + 65536 * k2 + 16777216 * k3
  }

  lemma UinIsKeyNumber(k: Key)
    ensures Uin(k) == KeyNumber(k)
  {
  }

  function BucketId(k: Key, buckets: int): (b: nat)
    requires buckets > 0
    ensures b < buckets
  {
    Uin(k) % buckets
  }

  /** The contents of a node, apart from its links. */
  datatype Info = Info(key: Key, chunkLen: nat, chunkHead: int, dirty: bool)

  const EMPTY_INFO := Info(ZERO_KEY, 0, INVALID, false)

  type CacheEntry = Entry<Key, seq<byte>>

  ghost function EntryOf(inf: Info, ns: seq<ChunkNode>, chains: map<int, seq<int>>, size: Positive): CacheEntry {
    Entry(inf.key, ValueIn(ns, chains, inf.chunkHead, inf.chunkLen, size), inf.chunkLen, inf.dirty)
  }

  ghost predicate InRange(ids: seq<int>, total: nat) {
    forall i :: 0 <= i < |ids| ==> 0 <= ids[i] < total
  }

  /** The entries of the nodes on the recency list. */
  ghost function Entries(infos: seq<Info>, add: seq<int>, ns: seq<ChunkNode>, chains: map<int, seq<int>>,
                         size: Positive): (es: seq<CacheEntry>)
    requires InRange(add, |infos|)
    ensures |es| == |add|
  {
    seq(|add|, i requires 0 <= i < |add| => EntryOf(infos[add[i]], ns, chains, size))
  }

  /**
   Every node is placed once: place is INVALID for a node on the free list, or else the bucket
   whose list it is on, and then the node is on the recency list too and its key hashes there.
   */
  ghost predicate Placed(infos: seq<Info>, add: seq<int>, free: seq<int>, lists: seq<seq<int>>, place: seq<int>) {
    && |place| == |infos|
    && OnRecencyList(add, place)
    && OnOtherLists(infos, free, lists, place)
  }

  /** The recency list holds the nodes that are not free, each once. */
  ghost predicate OnRecencyList(add: seq<int>, place: seq<int>) {
    && Distinct(add) && InRange(add, |place|)
    && (forall i :: 0 <= i < |add| ==> place[add[i]] != INVALID)
    && (forall n :: 0 <= n < |place| && place[n] != INVALID ==> n in add)
  }

  /** The free list and the bucket lists hold the nodes placed there, each once. */
  ghost predicate OnOtherLists(infos: seq<Info>, free: seq<int>, lists: seq<seq<int>>, place: seq<int>) {
    && |place| == |infos| && |lists| > 0
    && Distinct(free) && InRange(free, |infos|)
    && (forall i :: 0 <= i < |free| ==> place[free[i]] == INVALID)
    && (forall b :: 0 <= b < |lists| ==> Distinct(lists[b]) && InRange(lists[b], |infos|))
    && (forall b, i :: 0 <= b < |lists| && 0 <= i < |lists[b]| ==> place[lists[b][i]] == b)
    && (forall n :: 0 <= n < |infos| && place[n] == INVALID ==> n in free)
    && (forall n :: 0 <= n < |infos| && place[n] != INVALID ==>
          place[n] == BucketId(infos[n].key, |lists|) && n in lists[place[n]])
  }

  lemma PlacedFacts(infos: seq<Info>, add: seq<int>, free: seq<int>, lists: seq<seq<int>>, place: seq<int>)
    requires Placed(infos, add, free, lists, place)
    ensures Distinct(add) && Distinct(free)
    ensures InRange(add, |infos|)
    ensures forall i :: 0 <= i < |add| ==> 0 <= add[i] < |infos|
    ensures forall i :: 0 <= i < |free| ==> 0 <= free[i] < |infos| && free[i] !in add
  {
  }

  lemma PlacedBuckets(infos: seq<Info>, add: seq<int>, free: seq<int>, lists: seq<seq<int>>, place: seq<int>)
    requires Placed(infos, add, free, lists, place)
    ensures |place| == |infos|
    ensures forall b :: 0 <= b < |lists| ==> Distinct(lists[b])
    ensures forall b, i :: 0 <= b < |lists| && 0 <= i < |lists[b]| ==>
              0 <= lists[b][i] < |infos| && place[lists[b][i]] == b
    ensures forall i :: 0 <= i < |free| ==>
              0 <= free[i] < |infos| && place[free[i]] == INVALID && (i > 0 ==> free[i] != free[0])
  {
  }

  lemma ListInRange(infos: seq<Info>, add: seq<int>, free: seq<int>, lists: seq<seq<int>>, place: seq<int>, b: nat)
    requires Placed(infos, add, free, lists, place) && b < |lists|
    ensures InRange(lists[b], |infos|) && Distinct(lists[b])
  {
  }

  /** A node on a bucket list is on the recency list too. */
  lemma OnBoth(infos: seq<Info>, add: seq<int>, free: seq<int>, lists: seq<seq<int>>, place: seq<int>, b: nat, q: nat)
    returns (p: nat)
    requires Placed(infos, add, free, lists, place) && b < |lists| && q < |lists[b]|
    ensures p < |add| && add[p] == lists[b][q] && 0 <= add[p] < |infos|
  {
    assert lists[b][q] in add;
    p :| 0 <= p < |add| && add[p] == lists[b][q];
  }

  lemma PlaceOf(infos: seq<Info>, add: seq<int>, free: seq<int>, lists: seq<seq<int>>, place: seq<int>, p: nat)
    returns (q: nat)
    requires Placed(infos, add, free, lists, place) && p < |add|
    ensures 0 <= add[p] < |place| && 0 <= place[add[p]] < |lists|
    ensures place[add[p]] == BucketId(infos[add[p]].key, |lists|)
    ensures q < |lists[place[add[p]]]| && lists[place[add[p]]][q] == add[p]
  {
    q :| 0 <= q < |lists[place[add[p]]]| && lists[place[add[p]]][q] == add[p];
  }

  lemma PlacedInitially(infos: seq<Info>, free: seq<int>, lists: seq<seq<int>>, place: seq<int>)
    requires |free| == |infos| && forall j :: 0 <= j < |free| ==> free[j] == |free| - 1 - j
    requires |lists| > 0 && forall b :: 0 <= b < |lists| ==> lists[b] == []
    requires |place| == |infos| && forall n :: 0 <= n < |infos| ==> place[n] == INVALID
    ensures Placed(infos, [], free, lists, place)
  {
    forall n | 0 <= n < |infos| ensures n in free {
      assert free[|free| - 1 - n] == n;
    }
  }

  lemma PlacedTouch(infos: seq<Info>, add: seq<int>, free: seq<int>, lists: seq<seq<int>>, place: seq<int>, p: nat)
    requires Placed(infos, add, free, lists, place) && p < |add|
    ensures Placed(infos, ToFront(add, p), free, lists, place)
  {
    hide OnOtherLists, Without;
    WithoutMembers(add, p);
  }

  /** A node that leaves its lists for the free list. */
  lemma PlacedDelete(infos: seq<Info>, add: seq<int>, free: seq<int>, lists: seq<seq<int>>, place: seq<int>, p: nat,
                     q: nat)
    requires Placed(infos, add, free, lists, place) && p < |add|
    requires var b := place[add[p]]; q < |lists[b]| && lists[b][q] == add[p]
    ensures var n, b := add[p], place[add[p]];
      Placed(infos[n := EMPTY_INFO], Without(add, p), [n] + free, lists[b := Without(lists[b], q)], place[n := INVALID])
  {
    var n, b := add[p], place[add[p]];
    var add', list' := Without(add, p), Without(lists[b], q);
    WithoutMembers(add, p);
    WithoutMembers(lists[b], q);
    assert ([n] + free)[0] == n;
    forall m | 0 <= m < |infos| && place[n := INVALID][m] == INVALID ensures m in [n] + free {
      assert m == n || m in free;
    }
  }

  /** A free node that takes a key goes to the front of the recency list and of the key's bucket. */
  lemma PlacedInsert(infos: seq<Info>, add: seq<int>, free: seq<int>, lists: seq<seq<int>>, place: seq<int>, inf: Info)
    requires Placed(infos, add, free, lists, place) && free != []
    ensures var n, b := free[0], BucketId(inf.key, |lists|);
      Placed(infos[n := inf], [n] + add, free[1..], lists[b := [n] + lists[b]], place[n := b])
  {
    var n, b := free[0], BucketId(inf.key, |lists|);
    var lists', place' := lists[b := [n] + lists[b]], place[n := b];
    assert lists'[b][0] == n && ([n] + add)[0] == n;
    assert forall m :: 0 <= m < |infos| && place'[m] == INVALID ==> m in free[1..];
    assert forall m, c :: 0 <= c < |lists| && m in lists[c] ==> m in lists'[c];
  }

  /** Each bucket head starts the list of its bucket. */
  ghost predicate Bucketed(ls: seq<Link>, bucket: seq<int>, lists: seq<seq<int>>) {
    |bucket| == |lists| && forall b :: 0 <= b < |lists| ==> Chained(ls, INVALID, bucket[b], lists[b])
  }

  /** Free nodes hold nothing. */
  ghost predicate Blank(adds: seq<Link>, infos: seq<Info>, free: seq<int>) {
    forall i :: 0 <= i < |free| && 0 <= free[i] < |adds| && free[i] < |infos| ==>
      adds[free[i]] == Link(INVALID, INVALID) && infos[free[i]] == EMPTY_INFO
  }

  lemma BlankDelete(adds: seq<Link>, infos: seq<Info>, free: seq<int>, n: int)
    requires Blank(adds, infos, free) && 0 <= n < |adds| == |infos| && adds[n] == Link(INVALID, INVALID)
    ensures Blank(adds, infos[n := EMPTY_INFO], [n] + free)
  {
  }

  lemma EmptyLists(ls: seq<Link>, bucket: seq<int>, lists: seq<seq<int>>)
    requires |bucket| == |lists| && forall b :: 0 <= b < |lists| ==> bucket[b] == INVALID && lists[b] == []
    ensures Bucketed(ls, bucket, lists) && Chained(ls, INVALID, INVALID, []) && LastOf([], INVALID) == INVALID
  {
  }

  lemma BucketedFrame(ls: seq<Link>, ms: seq<Link>, bucket: seq<int>, lists: seq<seq<int>>, n: int)
    requires Bucketed(ls, bucket, lists) && |ls| == |ms|
    requires forall m :: 0 <= m < |ls| && m != n ==> ls[m] == ms[m]
    requires forall b :: 0 <= b < |lists| ==> n !in lists[b]
    ensures Bucketed(ms, bucket, lists)
  {
    forall b | 0 <= b < |lists| ensures Chained(ms, INVALID, bucket[b], lists[b]) {
      ChainedFrame(ls, ms, INVALID, bucket[b], lists[b]);
    }
  }

  lemma BucketedPush(ls: seq<Link>, bucket: seq<int>, lists: seq<seq<int>>, place: seq<int>, stack: seq<int>, b: nat,
                     n: int)
    requires Bucketed(ls, bucket, lists) && b < |lists|
    requires |place| == |ls| && Distinct(lists[b]) && 0 <= n < |ls| && place[n] == INVALID
    requires forall c, i :: 0 <= c < |lists| && 0 <= i < |lists[c]| ==>
               0 <= lists[c][i] < |ls| && place[lists[c][i]] == c
    requires forall i :: 0 <= i < |stack| ==> 0 <= stack[i] < |ls| && stack[i] != n && place[stack[i]] == INVALID
    ensures bucket[b] == INVALID || (0 <= bucket[b] < |ls| && bucket[b] != n)
    ensures Bucketed(Push(ls, bucket[b], n), bucket[b := n], lists[b := [n] + lists[b]])
    ensures SameAt(ls, Push(ls, bucket[b], n), stack)
  {
    PushKeeps(ls, bucket[b], lists[b], n);
    var ms := Push(ls, bucket[b], n);
    forall c | 0 <= c < |lists| && c != b ensures Chained(ms, INVALID, bucket[c], lists[c]) {
      ChainedFrame(ls, ms, INVALID, bucket[c], lists[c]);
    }
  }

  lemma BucketedUnlink(ls: seq<Link>, bucket: seq<int>, lists: seq<seq<int>>, place: seq<int>, stack: seq<int>, b: nat,
                       q: nat)
    requires Bucketed(ls, bucket, lists) && b < |lists| && q < |lists[b]|
    requires |place| == |ls| && Distinct(lists[b])
    requires forall c, i :: 0 <= c < |lists| && 0 <= i < |lists[c]| ==>
               0 <= lists[c][i] < |ls| && place[lists[c][i]] == c
    requires forall i :: 0 <= i < |stack| ==> 0 <= stack[i] < |ls| && place[stack[i]] == INVALID
    ensures CanUnlink(ls, lists[b][q])
    ensures var n := lists[b][q];
      Bucketed(Unlink(ls, n), if bucket[b] == n then bucket[b := ls[n].next] else bucket,
               lists[b := Without(lists[b], q)])
    ensures SameAt(ls, Unlink(ls, lists[b][q]), stack)
  {
    var n := lists[b][q];
    UnlinkKeeps(ls, INVALID, bucket[b], lists[b], q);
    ChainedAt(ls, INVALID, bucket[b], lists[b], q);
    var ms := Unlink(ls, n);
    forall c | 0 <= c < |lists| && c != b ensures Chained(ms, INVALID, bucket[c], lists[c]) {
      ChainedFrame(ls, ms, INVALID, bucket[c], lists[c]);
    }
  }

  /** Taking a node out of its bucket list and putting it on the free list, as far as the lists are concerned. */
  lemma TakenOut(ls: seq<Link>, infos: seq<Info>, add: seq<int>, free: seq<int>, lists: seq<seq<int>>, place: seq<int>,
      bucket: seq<int>, freeList: int, p: nat) returns (b: nat, q: nat)
    requires Placed(infos, add, free, lists, place) && p < |add|
    requires Bucketed(ls, bucket, lists) && Stacked(ls, freeList, free) && |ls| == |infos|
    ensures 0 <= add[p] < |infos| == |place| && b < |lists| == |bucket| && b == BucketId(infos[add[p]].key, |lists|)
    ensures q < |lists[b]|
    ensures CanUnlink(ls, add[p]) && ls[add[p]].prev != add[p] && ls[add[p]].next != add[p]
    ensures Stacked(Unlink(ls, add[p]), freeList, free)
    ensures Bucketed(Unlink(ls, add[p]), if bucket[b] == add[p] then bucket[b := ls[add[p]].next] else bucket,
                     lists[b := Without(lists[b], q)])
    ensures Placed(infos[add[p] := EMPTY_INFO], Without(add, p), [add[p]] + free,
                   lists[b := Without(lists[b], q)], place[add[p] := INVALID])
  {
    hide Placed, Chained, Stacked, Bucketed, InRange, Distinct, BucketId, Without;
    PlacedFacts(infos, add, free, lists, place);
    PlacedBuckets(infos, add, free, lists, place);
    q := PlaceOf(infos, add, free, lists, place, p);
    b := place[add[p]];
    PlacedDelete(infos, add, free, lists, place, p, q);
    BucketedUnlink(ls, bucket, lists, place, free, b, q);
    BucketLinks(ls, bucket, lists, b, q);
    StackedFrame(ls, Unlink(ls, add[p]), freeList, free);
    BucketedSize(ls, bucket, lists);
  }

  lemma BucketedSize(ls: seq<Link>, bucket: seq<int>, lists: seq<seq<int>>)
    requires Bucketed(ls, bucket, lists)
    ensures |bucket| == |lists|
  {
  }

  lemma BucketLinks(ls: seq<Link>, bucket: seq<int>, lists: seq<seq<int>>, b: nat, q: nat)
    requires Bucketed(ls, bucket, lists) && b < |lists| && q < |lists[b]| && Distinct(lists[b])
    ensures var n := lists[b][q]; CanUnlink(ls, n) && ls[n].prev != n && ls[n].next != n
  {
    ChainedAt(ls, INVALID, bucket[b], lists[b], q);
    OnListEnds(ls, bucket[b], lists[b], lists[b][q], q);
  }

  /** A node whose chain has the length that its value needs. */
  ghost predicate Holding(inf: Info, chains: map<int, seq<int>>, size: Positive) {
    && (inf.chunkHead == INVALID || inf.chunkHead in chains)
    && |ChainIn(chains, inf.chunkHead)| == ChunkNum(inf.chunkLen, size)
    && LenOk(inf.chunkLen, size)
  }

  ghost predicate Owned(infos: seq<Info>, add: seq<int>, h: int)
    requires InRange(add, |infos|)
  {
    exists i :: 0 <= i < |add| && infos[add[i]].chunkHead == h
  }

  /** Each entry owns a chain of the length it needs, no two share one, and every chain is owned. */
  ghost predicate Stored(infos: seq<Info>, add: seq<int>, chains: map<int, seq<int>>, size: Positive)
    requires InRange(add, |infos|)
  {
    && (forall i :: 0 <= i < |add| ==> Holding(infos[add[i]], chains, size))
    && (forall i, j :: 0 <= i < j < |add| ==>
          infos[add[i]].chunkHead == INVALID || infos[add[i]].chunkHead != infos[add[j]].chunkHead)
    && (forall h :: h in chains ==> Owned(infos, add, h))
  }

  lemma HoldingFrame(inf: Info, chains: map<int, seq<int>>, chains': map<int, seq<int>>, size: Positive)
    requires Holding(inf, chains, size) && INVALID !in chains && INVALID !in chains'
    requires inf.chunkHead == INVALID
      || (inf.chunkHead in chains' && (inf.chunkHead in chains ==> chains'[inf.chunkHead] == chains[inf.chunkHead]))
    ensures Holding(inf, chains', size)
  {
  }

  lemma HoldingNew(inf: Info, chains: map<int, seq<int>>, size: Positive)
    requires inf.chunkHead != INVALID && inf.chunkHead in chains && LenOk(inf.chunkLen, size)
    requires |chains[inf.chunkHead]| == ChunkNum(inf.chunkLen, size)
    ensures Holding(inf, chains, size)
  {
  }

  lemma HoldingIs(inf: Info, chains: map<int, seq<int>>, size: Positive)
    requires inf.chunkHead == INVALID || inf.chunkHead in chains
    requires |ChainIn(chains, inf.chunkHead)| == ChunkNum(inf.chunkLen, size) && LenOk(inf.chunkLen, size)
    ensures Holding(inf, chains, size)
  {
  }

  lemma HoldingIn(inf: Info, chains: map<int, seq<int>>, size: Positive)
    requires Holding(inf, chains, size)
    ensures inf.chunkHead == INVALID || inf.chunkHead in chains
  {
  }

  lemma OwnedBy(infos: seq<Info>, add: seq<int>, h: int, i: nat)
    requires InRange(add, |infos|) && i < |add| && infos[add[i]].chunkHead == h
    ensures Owned(infos, add, h)
  {
  }

  lemma OwnerOf(infos: seq<Info>, add: seq<int>, h: int) returns (i: nat)
    requires InRange(add, |infos|) && Owned(infos, add, h)
    ensures i < |add| && infos[add[i]].chunkHead == h
  {
    i :| 0 <= i < |add| && infos[add[i]].chunkHead == h;
  }

  lemma StoredTouch(infos: seq<Info>, add: seq<int>, chains: map<int, seq<int>>, size: Positive, p: nat)
    requires InRange(add, |infos|) && Stored(infos, add, chains, size) && p < |add|
    ensures InRange(ToFront(add, p), |infos|) && Stored(infos, ToFront(add, p), chains, size)
  {
    hide Owned, ChainIn, ChunkNum, Holding;
    var add' := ToFront(add, p);
    assert forall i :: 0 <= i < |add'| ==> add'[i] == add[if i == 0 then p else if i <= p then i - 1 else i];
    forall h | h in chains ensures Owned(infos, add', h) {
      var i := OwnerOf(infos, add, h);
      OwnedBy(infos, add', h, if i == p then 0 else if i < p then i + 1 else i);
    }
  }

  lemma EntriesAt(infos: seq<Info>, add: seq<int>, ns: seq<ChunkNode>, chains: map<int, seq<int>>, size: Positive)
    requires InRange(add, |infos|)
    ensures forall i :: 0 <= i < |add| ==>
              Entries(infos, add, ns, chains, size)[i] == EntryOf(infos[add[i]], ns, chains, size)
    ensures forall i :: 0 <= i < |add| ==>
      var e := Entries(infos, add, ns, chains, size)[i];
      e.key == infos[add[i]].key && e.dirty == infos[add[i]].dirty && e.len == infos[add[i]].chunkLen
  {
  }

  lemma EntriesTouch(infos: seq<Info>, add: seq<int>, ns: seq<ChunkNode>, chains: map<int, seq<int>>, size: Positive,
                     p: nat)
    requires InRange(add, |infos|) && p < |add|
    ensures InRange(ToFront(add, p), |infos|)
    ensures Entries(infos, ToFront(add, p), ns, chains, size) == ToFront(Entries(infos, add, ns, chains, size), p)
  {
    hide EntryOf;
    var add' := ToFront(add, p);
    assert forall i :: 0 <= i < |add'| ==> add'[i] == add[if i == 0 then p else if i <= p then i - 1 else i];
  }

  lemma PlacedSameKeys(infos: seq<Info>, infos': seq<Info>, add: seq<int>, free: seq<int>, lists: seq<seq<int>>,
                       place: seq<int>)
    requires Placed(infos, add, free, lists, place) && |infos'| == |infos|
    requires forall n :: 0 <= n < |infos| ==> infos'[n].key == infos[n].key
    ensures Placed(infos', add, free, lists, place)
  {
  }

  lemma EntryUntouched(inf: Info, ns: seq<ChunkNode>, ms: seq<ChunkNode>, chains: map<int, seq<int>>,
                       chains': map<int, seq<int>>,
      size: Positive, but: int)
    requires Untouched(ns, ms, chains, chains', but)
    requires inf.chunkHead == INVALID || (inf.chunkHead in chains && inf.chunkHead != but)
    ensures EntryOf(inf, ns, chains, size) == EntryOf(inf, ms, chains', size)
  {
    ValueFrame(ns, ms, chains, chains', inf.chunkHead, inf.chunkLen, size);
  }

  lemma EntryOfValue(inf: Info, ns: seq<ChunkNode>, chains: map<int, seq<int>>, size: Positive)
    ensures EntryOf(inf, ns, chains, size) ==
      Entry(inf.key, ValueIn(ns, chains, inf.chunkHead, inf.chunkLen, size), inf.chunkLen, inf.dirty)
  {
  }

  lemma EntriesKeep(infos: seq<Info>, add: seq<int>, ns: seq<ChunkNode>, chains: map<int, seq<int>>,
      ms: seq<ChunkNode>, chains': map<int, seq<int>>, size: Positive)
    requires InRange(add, |infos|) && Stored(infos, add, chains, size)
    requires Untouched(ns, ms, chains, chains', INVALID)
    ensures Entries(infos, add, ms, chains', size) == Entries(infos, add, ns, chains, size)
  {
    hide EntryOf, Untouched;
    forall i | 0 <= i < |add|
      ensures EntryOf(infos[add[i]], ns, chains, size) == EntryOf(infos[add[i]], ms, chains', size)
    {
      EntryUntouched(infos[add[i]], ns, ms, chains, chains', size, INVALID);
    }
  }

  lemma StoredInitially(infos: seq<Info>, size: Positive)
    ensures Stored(infos, [], map[], size)
  {
  }

  lemma StoredHead(infos: seq<Info>, add: seq<int>, chains: map<int, seq<int>>, size: Positive, p: nat)
    requires InRange(add, |infos|) && Stored(infos, add, chains, size) && p < |add|
    ensures 0 <= add[p] < |infos| && Holding(infos[add[p]], chains, size)
  {
  }

  lemma StoredInsert(infos: seq<Info>, add: seq<int>, chains: map<int, seq<int>>, chains': map<int, seq<int>>,
                     size: Positive, n: int, inf: Info)
    requires InRange(add, |infos|) && Stored(infos, add, chains, size)
    requires 0 <= n < |infos| && n !in add
    requires inf.chunkHead != INVALID && inf.chunkHead !in chains && inf.chunkHead in chains'
    requires chains' == chains[inf.chunkHead := chains'[inf.chunkHead]]
    requires |chains'[inf.chunkHead]| == ChunkNum(inf.chunkLen, size) && LenOk(inf.chunkLen, size) && INVALID !in chains
    ensures InRange([n] + add, |infos|) && Stored(infos[n := inf], [n] + add, chains', size)
  {
    hide Owned, ChainIn, ChunkNum, Holding;
    var infos', add' := infos[n := inf], [n] + add;
    assert add'[0] == n;
    assert forall i :: 0 < i < |add'| ==> add'[i] == add[i - 1] && infos'[add'[i]] == infos[add[i - 1]];
    forall i | 0 <= i < |add'| ensures Holding(infos'[add'[i]], chains', size) {
      if i == 0 {
        HoldingNew(inf, chains', size);
      } else {
        HoldingIn(infos[add[i - 1]], chains, size);
        HoldingFrame(infos[add[i - 1]], chains, chains', size);
      }
    }
    forall i | 0 <= i < |add| ensures infos[add[i]].chunkHead != inf.chunkHead {
      HoldingIn(infos[add[i]], chains, size);
    }
    forall h | h in chains' ensures Owned(infos', add', h) {
      if h == inf.chunkHead {
        OwnedBy(infos', add', h, 0);
      } else {
        var i := OwnerOf(infos, add, h);
        OwnedBy(infos', add', h, i + 1);
      }
    }
  }

  /** A new entry in front leaves the others as they were. */
  lemma EntriesInsert(infos: seq<Info>, add: seq<int>, ns: seq<ChunkNode>, chains: map<int, seq<int>>,
      ms: seq<ChunkNode>, chains': map<int, seq<int>>, size: Positive, n: int, inf: Info)
    requires InRange(add, |infos|) && Stored(infos, add, chains, size)
    requires 0 <= n < |infos| && n !in add
    requires Untouched(ns, ms, chains, chains', INVALID)
    ensures InRange([n] + add, |infos|)
    ensures Entries(infos[n := inf], [n] + add, ms, chains', size)
         == [EntryOf(inf, ms, chains', size)] + Entries(infos, add, ns, chains, size)
  {
    hide EntryOf, Untouched;
    forall i | 0 <= i < |add|
      ensures EntryOf(infos[add[i]], ns, chains, size) == EntryOf(infos[add[i]], ms, chains', size)
    {
      EntryUntouched(infos[add[i]], ns, ms, chains, chains', size, INVALID);
    }
  }

  lemma StoredUpdate(infos: seq<Info>, add: seq<int>, chains: map<int, seq<int>>, chains': map<int, seq<int>>,
                     size: Positive, p: nat, inf: Info)
    requires InRange(add, |infos|) && Distinct(add) && Stored(infos, add, chains, size) && p < |add|
    requires INVALID !in chains && INVALID !in chains'
    requires forall h :: h in chains && h != infos[add[p]].chunkHead ==>
               h in chains' && chains'[h] == chains[h] && h != inf.chunkHead
    requires forall h :: h in chains' ==> (h in chains && h != infos[add[p]].chunkHead) || h == inf.chunkHead
    requires inf.chunkHead == INVALID || inf.chunkHead in chains'
    requires |ChainIn(chains', inf.chunkHead)| == ChunkNum(inf.chunkLen, size) && LenOk(inf.chunkLen, size)
    ensures Stored(infos[add[p] := inf], add, chains', size)
  {
    var infos', was := infos[add[p] := inf], infos[add[p]].chunkHead;
    hide Owned, ChainIn, ChunkNum, Holding;
    assert forall i :: 0 <= i < |add| && i != p ==> infos'[add[i]] == infos[add[i]];
    forall i | 0 <= i < |add|
      ensures Holding(infos'[add[i]], chains', size)
          && (i == p || infos[add[i]].chunkHead == INVALID || infos[add[i]].chunkHead != inf.chunkHead)
    {
      if i == p {
        HoldingIs(inf, chains', size);
      } else {
        OwnChain(infos, add, chains, size, i, p);
        HoldingFrame(infos[add[i]], chains, chains', size);
      }
    }
    forall h | h in chains' ensures Owned(infos', add, h) {
      if h == inf.chunkHead {
        OwnedBy(infos', add, h, p);
      } else {
        var i := OwnerOf(infos, add, h);
        OwnedBy(infos', add, h, i);
      }
    }
  }

  /** A rewritten entry leaves the others as they were. */
  lemma EntriesUpdate(infos: seq<Info>, add: seq<int>, ns: seq<ChunkNode>, chains: map<int, seq<int>>,
      ms: seq<ChunkNode>, chains': map<int, seq<int>>, size: Positive, p: nat, inf: Info)
    requires InRange(add, |infos|) && Distinct(add) && Stored(infos, add, chains, size) && p < |add|
    requires Untouched(ns, ms, chains, chains', infos[add[p]].chunkHead)
    ensures Entries(infos[add[p] := inf], add, ms, chains', size)
         == Entries(infos, add, ns, chains, size)[p := EntryOf(inf, ms, chains', size)]
  {
    hide EntryOf, Untouched;
    var was := infos[add[p]].chunkHead;
    forall i | 0 <= i < |add| && i != p
      ensures EntryOf(infos[add[i]], ns, chains, size) == EntryOf(infos[add[i]], ms, chains', size)
    {
      EntryUntouched(infos[add[i]], ns, ms, chains, chains', size, was);
    }
  }

  lemma StillThere(infos: seq<Info>, add: seq<int>, p: nat)
    requires InRange(add, |infos|) && Distinct(add) && p < |add|
    ensures var add' := Without(add, p);
      InRange(add', |infos|) && |add'| == |add| - 1
      && forall i :: 0 <= i < |add'| ==> infos[add[p] := EMPTY_INFO][add'[i]] == infos[add[if i < p then i else i + 1]]
  {
    var add' := Without(add, p);
    assert forall i :: 0 <= i < |add'| ==> add'[i] == add[if i < p then i else i + 1];
  }

  lemma OwnChain(infos: seq<Info>, add: seq<int>, chains: map<int, seq<int>>, size: Positive, i: nat, p: nat)
    requires InRange(add, |infos|) && Stored(infos, add, chains, size) && i < |add| && p < |add| && i != p
    ensures var head := infos[add[i]].chunkHead; head == INVALID || (head in chains && head != infos[add[p]].chunkHead)
    ensures Holding(infos[add[i]], chains, size)
  {
    hide Owned, ChainIn, ChunkNum;
  }

  lemma StoredDelete(infos: seq<Info>, add: seq<int>, chains: map<int, seq<int>>, size: Positive, p: nat)
    requires InRange(add, |infos|) && Distinct(add) && Stored(infos, add, chains, size) && p < |add|
    requires INVALID !in chains
    ensures InRange(Without(add, p), |infos|)
    ensures Stored(infos[add[p] := EMPTY_INFO], Without(add, p), chains - {infos[add[p]].chunkHead}, size)
  {
    var infos', add', was := infos[add[p] := EMPTY_INFO], Without(add, p), infos[add[p]].chunkHead;
    var chains' := chains - {was};
    hide Owned, ChainIn, ChunkNum, Holding, Without;
    StillThere(infos, add, p);
    forall i | 0 <= i < |add'| ensures Holding(infos'[add'[i]], chains', size) {
      var j := if i < p then i else i + 1;
      OwnChain(infos, add, chains, size, j, p);
      HoldingFrame(infos[add[j]], chains, chains', size);
    }
    forall h | h in chains' ensures Owned(infos', add', h) {
      var i := OwnerOf(infos, add, h);
      OwnedBy(infos', add', h, if i < p then i else i - 1);
    }
  }

  /** An entry taken away leaves the others as they were. */
  lemma EntriesDelete(infos: seq<Info>, add: seq<int>, ns: seq<ChunkNode>, chains: map<int, seq<int>>,
      ms: seq<ChunkNode>, chains': map<int, seq<int>>, size: Positive, p: nat)
    requires InRange(add, |infos|) && Distinct(add) && Stored(infos, add, chains, size) && p < |add|
    requires Untouched(ns, ms, chains, chains', infos[add[p]].chunkHead)
    ensures InRange(Without(add, p), |infos|)
    ensures Entries(infos[add[p] := EMPTY_INFO], Without(add, p), ms, chains', size)
         == Without(Entries(infos, add, ns, chains, size), p)
  {
    hide EntryOf, Untouched;
    forall i | 0 <= i < |add| && i != p
      ensures EntryOf(infos[add[i]], ns, chains, size) == EntryOf(infos[add[i]], ms, chains', size)
    {
      EntryUntouched(infos[add[i]], ns, ms, chains, chains', size, infos[add[p]].chunkHead);
    }
  }

  /** The link updates shared by delete_from_add_list and delete_from_node_list. */
  method UnlinkIn(links: array<Link>, n: int)
    requires CanUnlink(links[..], n)
    requires links[n].prev != n && links[n].next != n
    modifies links
    ensures links[..] == Unlink(old(links[..]), n)
  {
    var next, prev := links[n].next, links[n].prev;
    if prev != INVALID {
      links[prev] := links[prev].(next := links[n].next);
    }
    if next != INVALID {
      links[next] := links[next].(prev := links[n].prev);
    }
    links[n] := Link(INVALID, INVALID);
  }

  /** The link updates shared by insert_add_list_head and insert_node_list. */
  method PushIn(links: array<Link>, head: int, n: int)
    requires 0 <= n < links.Length
    requires head == INVALID || (0 <= head < links.Length && head != n)
    modifies links
    ensures links[..] == Push(old(links[..]), head, n)
  {
    links[n] := Link(INVALID, head);
    if head != INVALID {
      links[head] := links[head].(prev := n);
    }
  }

  class HashMap {
    const nodeTotal: nat
    const bucketSize: Positive
    const nodeLinks: array<Link>
    const addLinks: array<Link>
    const infos: array<Info>
    const bucket: array<int>
    const alloc: ChunkAllocator
    var usedNodeNum: int
    var addHead: int
    var addTail: int
    var freeList: int

    ghost var add: seq<int>
    ghost var free: seq<int>
    ghost var lists: seq<seq<int>>
    ghost var place: seq<int>

    ghost function Repr(): set<object> {
      {this, nodeLinks, addLinks, infos, bucket, alloc, alloc.nodes}
    }

    /** The three-list invariant, where the links of the free and recency lists spell out stack and recency. */
    ghost predicate Index(stack: seq<int>, recency: seq<int>)
      reads this, nodeLinks, addLinks, infos, bucket
    {
      && nodeLinks != addLinks
      && nodeLinks.Length == addLinks.Length == infos.Length == nodeTotal
      && bucket.Length == bucketSize == |lists|
      && Placed(infos[..], add, free, lists, place)
      && Chained(addLinks[..], INVALID, addHead, recency) && addTail == LastOf(recency, INVALID)
      && Stacked(nodeLinks[..], freeList, stack)
      && Bucketed(nodeLinks[..], bucket[..], lists)
      && Blank(addLinks[..], infos[..], free)
      && usedNodeNum == |add| && |add| + |free| == nodeTotal
    }

    ghost function View(): (es: seq<CacheEntry>)
      reads this, Repr()
    {
      if InRange(add, infos.Length) then Entries(infos[..], add, alloc.nodes[..], alloc.chains, alloc.chunkSize) else []
    }

    ghost function Lim(): Limits {
      Limits(nodeTotal, alloc.chunkTotal, alloc.chunkSize)
    }

    ghost predicate Store()
      reads this, Repr()
      requires InRange(add, infos.Length)
    {
      && alloc.Valid()
      && Stored(infos[..], add, alloc.chains, alloc.chunkSize)
      && DistinctKeys(View())
      && alloc.freeTotal + Used(View(), alloc.chunkSize) == alloc.chunkTotal
    }

    ghost predicate Valid()
      reads this, Repr()
    {
      Index(free, add) && Store()
    }

    /** open with init: all nodes and all chunks are free. */
    constructor (nodes: nat, buckets: Positive, nChunks: nat, chunkSize: Positive)
      ensures Valid() && fresh(Repr())
      ensures Lim() == Limits(nodes, nChunks, chunkSize) && bucketSize == buckets
      ensures View() == []
    {
      hide Index, Store, View, Stacked, ChunkAllocator.Valid;
      nodeTotal, bucketSize := nodes, buckets;
      nodeLinks := new Link[nodes](_ => Link(INVALID, INVALID));
      addLinks := new Link[nodes](_ => Link(INVALID, INVALID));
      infos := new Info[nodes](_ => EMPTY_INFO);
      bucket := new int[buckets](_ => INVALID);
      alloc := new ChunkAllocator(nChunks, chunkSize);
      usedNodeNum, addHead, addTail, freeList := 0, INVALID, INVALID, INVALID;
      add, free := [], [];
      lists := seq(buckets, _ => []);
      place := seq(nodes, _ => INVALID);
      new;
      FillFreeList();
      IndexInitially();
      StoreInitially();
    }

    lemma IndexInitially()
      requires nodeLinks != addLinks && nodeLinks.Length == addLinks.Length == infos.Length == nodeTotal
      requires bucket.Length == bucketSize
      requires forall i :: 0 <= i < nodeTotal ==> addLinks[i] == Link(INVALID, INVALID) && infos[i] == EMPTY_INFO
      requires |lists| == bucketSize && forall b :: 0 <= b < bucketSize ==> bucket[b] == INVALID && lists[b] == []
      requires |place| == nodeTotal && forall n :: 0 <= n < nodeTotal ==> place[n] == INVALID
      requires |free| == nodeTotal && (forall j :: 0 <= j < |free| ==> free[j] == |free| - 1 - j)
      requires Stacked(nodeLinks[..], freeList, free)
      requires add == [] && addHead == addTail == INVALID && usedNodeNum == 0
      ensures Index(free, add)
    {
      hide Placed, Stacked, Bucketed, LastOf, Chained;
      PlacedInitially(infos[..], free, lists, place);
      EmptyLists(nodeLinks[..], bucket[..], lists);
      EmptyLists(addLinks[..], bucket[..], lists);
    }

    lemma StoreInitially()
      requires add == [] && alloc.Valid() && alloc.chains == map[] && alloc.freeTotal == alloc.chunkTotal
      ensures Store() && View() == []
    {
      hide Stored, ChunkAllocator.Valid, EntryOf;
      StoredInitially(infos[..], alloc.chunkSize);
    }

    /** init_pool_data: puts every node on the free list. */
    method FillFreeList()
      requires free == [] && freeList == INVALID
      modifies this`free, this`freeList, nodeLinks
      ensures |free| == nodeLinks.Length && forall j :: 0 <= j < |free| ==> free[j] == |free| - 1 - j
      ensures Stacked(nodeLinks[..], freeList, free)
    {
      for i := 0 to nodeLinks.Length
        invariant |free| == i && forall j :: 0 <= j < i ==> free[j] == i - 1 - j
        invariant Stacked(nodeLinks[..], freeList, free)
      {
        ghost var before := nodeLinks[..];
        nodeLinks[i] := nodeLinks[i].(next := freeList);
        StackedFrame(before, nodeLinks[..], freeList, free);
        freeList := i;
        free := [i] + free;
      }
    }

    /** Takes the first free node off the free list. */
    method FreeListRemove() returns (n: int)
      requires Index(free, add)
      modifies this`freeList, nodeLinks
      ensures n == INVALID <==> free == []
      ensures n == INVALID ==> Index(free, add)
      ensures n != INVALID ==> n == free[0] && Index(free[1..], add)
    {
      hide Blank, Chained, LastOf;
      if freeList == INVALID {
        return INVALID;
      }
      n := freeList;
      freeList := nodeLinks[n].next;
      nodeLinks[n] := nodeLinks[n].(next := INVALID);
      StackedFrame(old(nodeLinks[..]), nodeLinks[..], freeList, free[1..]);
      BucketedFrame(old(nodeLinks[..]), nodeLinks[..], bucket[..], lists, n);
    }

    /** Puts a node that is in no list in front of the free list. */
    method FreeListInsert(n: int)
      requires free != [] && n == free[0] && Index(free[1..], add)
      modifies this`freeList, nodeLinks
      ensures Index(free, add)
    {
      nodeLinks[n] := nodeLinks[n].(next := freeList);
      StackedFrame(old(nodeLinks[..]), nodeLinks[..], freeList, free[1..]);
      BucketedFrame(old(nodeLinks[..]), nodeLinks[..], bucket[..], lists, n);
      freeList := n;
    }

    /** delete_from_add_list: p is the position of n on the list ids, or -1 when it is not there. */
    method DeleteFromAddList(n: int, ghost ids: seq<int>, ghost p: int)
      requires OnList(addLinks[..], addHead, ids, n, p) && addTail == LastOf(ids, INVALID)
      modifies this`addHead, this`addTail, addLinks
      ensures CanUnlink(old(addLinks[..]), n)
      ensures addLinks[..] == Removed(old(addLinks[..]), n, p)
      ensures addHead == (if old(addHead) == n then old(addLinks[n].next) else old(addHead))
      ensures addTail == (if old(addTail) == n then old(addLinks[n].prev) else old(addTail))
    {
      OnListEnds(addLinks[..], addHead, ids, n, p);
      var next, prev := addLinks[n].next, addLinks[n].prev;
      if next == INVALID && prev == INVALID && addHead != n && addTail != n {
        return;
      }
      UnlinkIn(addLinks, n);
      if addHead == n {
        addHead := next;
      }
      if addTail == n {
        addTail := prev;
      }
    }

    /** insert_add_list_head. */
    method InsertAddListHead(n: int, ghost ids: seq<int>, ghost p: int)
      requires OnList(addLinks[..], addHead, ids, n, p) && addTail == LastOf(ids, INVALID)
      modifies this`addHead, this`addTail, addLinks
      ensures var all := [n] + (if p < 0 then ids else Without(ids, p));
        Chained(addLinks[..], INVALID, addHead, all) && addTail == LastOf(all, INVALID)
      ensures forall m :: 0 <= m < addLinks.Length && m != n && m !in ids ==> addLinks[m] == old(addLinks[m])
    {
      RemovedKeeps(addLinks[..], addHead, ids, n, p);
      DeleteFromAddList(n, ids, p);
      FrontKeeps(old(addLinks[..]), old(addHead), ids, n, p);
      PushIn(addLinks, addHead, n);
      addHead := n;
      if addTail == INVALID {
        addTail := n;
      }
    }

    /** Moves a used node to the front of the recency list. */
    method MoveToFront(n: int, ghost p: nat)
      requires Valid() && p < |add| && add[p] == n
      modifies this`addHead, this`addTail, this`add, addLinks
      ensures Valid()
      ensures add == ToFront(old(add), p) && View() == ToFront(old(View()), p)
    {
      hide Placed, Stored, Used, Chained, Stacked, Bucketed, InRange, Entries, EntryOf, Without,
        ChunkAllocator.Valid, DistinctKeys, LastOf, Distinct;
      PlacedFacts(infos[..], add, free, lists, place);
      PlacedTouch(infos[..], add, free, lists, place, p);
      StoredTouch(infos[..], add, alloc.chains, alloc.chunkSize, p);
      EntriesTouch(infos[..], add, alloc.nodes[..], alloc.chains, alloc.chunkSize, p);
      ToFrontKeeps(View(), p, alloc.chunkSize);
      InsertAddListHead(n, add, p);
      add := ToFront(add, p);
      assert View() == ToFront(old(View()), p);
    }

    /** The loop of find_node; p is the position of the node found on the recency list. */
    method SearchBucket(key: Key) returns (n: int, ghost p: int)
      requires Index(free, add)
      ensures n == INVALID ==> forall i :: 0 <= i < |add| ==> infos[add[i]].key != key
      ensures n != INVALID ==> 0 <= p < |add| && add[p] == n && infos[n].key == key
    {
      var b := BucketId(key, bucketSize);
      n, p := bucket[b], -1;
      ghost var prev, rest := INVALID, lists[b];
      while n != INVALID
        invariant Chained(nodeLinks[..], prev, n, rest)
        invariant forall m :: m in rest ==> m in lists[b]
        invariant forall m :: m in lists[b] && m !in rest ==> infos[m].key != key
        decreases |rest|
      {
        assert rest[0] in lists[b];
        if infos[n].key == key {
          p :| 0 <= p < |add| && add[p] == n;
          return;
        }
        prev, rest := n, rest[1..];
        n := nodeLinks[n].next;
      }
    }

    /** find_node: a hit moves to the front. */
    method FindNode(key: Key) returns (n: int)
      requires Valid()
      modifies this`addHead, this`addTail, this`add, addLinks
      ensures Valid()
      ensures View() == Touch(old(View()), key)
      ensures n == INVALID <==> IndexOf(old(View()), key) < 0
      ensures n == INVALID ==> add == old(add)
      ensures n != INVALID ==> add != [] && add[0] == n && View()[0].key == key
      ensures n != INVALID ==>
        IndexOf(old(View()), key) < |old(add)| && add == ToFront(old(add), IndexOf(old(View()), key))
    {
      hide Placed, Stored, Used, Chained, Stacked, Bucketed, InRange, Entries, EntryOf, ChunkAllocator.Valid,
        DistinctKeys, LastOf, Distinct, IndexOf;
      ghost var p;
      n, p := SearchBucket(key);
      PlacedFacts(infos[..], add, free, lists, place);
      EntriesAt(infos[..], add, alloc.nodes[..], alloc.chains, alloc.chunkSize);
      if n != INVALID {
        IndexOfAt(View(), p);
        MoveToFront(n, p);
      }
    }

    /** insert_node_list: puts n in front of its bucket. */
    method InsertNodeList(n: int)
      requires 0 <= n < nodeLinks.Length == infos.Length && bucket.Length == bucketSize
      requires var h := bucket[BucketId(infos[n].key, bucketSize)];
                 h == INVALID || (0 <= h < nodeLinks.Length && h != n)
      modifies this`usedNodeNum, nodeLinks, bucket
      ensures var b := BucketId(infos[n].key, bucketSize);
        && nodeLinks[..] == Push(old(nodeLinks[..]), old(bucket[b]), n)
        && bucket[..] == old(bucket[..])[b := n]
      ensures usedNodeNum == old(usedNodeNum) + 1
    {
      var b := BucketId(infos[n].key, bucketSize);
      PushIn(nodeLinks, bucket[b], n);
      bucket[b] := n;
      usedNodeNum := usedNodeNum + 1;
    }

    /** delete_from_node_list: takes n out of its bucket. */
    method DeleteFromNodeList(n: int)
      requires 0 <= n < nodeLinks.Length == infos.Length && bucket.Length == bucketSize
      requires CanUnlink(nodeLinks[..], n) && nodeLinks[n].prev != n && nodeLinks[n].next != n
      modifies this`usedNodeNum, nodeLinks, bucket
      ensures nodeLinks[..] == Unlink(old(nodeLinks[..]), n)
      ensures var b := BucketId(infos[n].key, bucketSize);
        bucket[..] == if old(bucket[b]) == n then old(bucket[..])[b := old(nodeLinks[n].next)] else old(bucket[..])
      ensures usedNodeNum == old(usedNodeNum) - 1
    {
      var next := nodeLinks[n].next;
      UnlinkIn(nodeLinks, n);
      var b := BucketId(infos[n].key, bucketSize);
      if n == bucket[b] {
        bucket[b] := next;
      }
      usedNodeNum := usedNodeNum - 1;
    }

    /** use_node and insert_add_list_head: a node from the free list joins its bucket and the recency list. */
    method UseNode(n: int, key: Key, len: nat, head: int)
      requires free != [] && n == free[0] && Index(free[1..], add)
      modifies this, nodeLinks, addLinks, infos, bucket
      ensures Index(free, add)
      ensures add == [n] + old(add)
      ensures infos[..] == old(infos[..])[n := Info(key, len, head, false)]
    {
      hide Placed, Chained, Stacked, Bucketed, InRange, LastOf, Distinct, BucketId;
      PlacedFacts(infos[..], add, free, lists, place);
      ghost var inf, b := Info(key, len, head, false), BucketId(key, |lists|);
      PlacedBuckets(infos[..], add, free, lists, place);
      PlacedInsert(infos[..], add, free, lists, place, inf);
      BucketedPush(nodeLinks[..], bucket[..], lists, place, free[1..], b, n);
      ghost var ls := nodeLinks[..];
      infos[n] := infos[n].(key := key, chunkLen := len, chunkHead := head);
      InsertNodeList(n);
      InsertAddListHead(n, add, -1);
      StackedFrame(ls, nodeLinks[..], freeList, free[1..]);
      lists := lists[b := [n] + lists[b]];
      place := place[n := b];
      add := [n] + add;
      free := free[1..];
    }

    /** insert_node: refused when no node is free, or when malloc gives no chunks (too few, or none asked for). */
    method InsertNode(key: Key, data: seq<byte>) returns (n: int)
      requires Valid() && IndexOf(View(), key) < 0 && LenOk(|data|, alloc.chunkSize)
      modifies Repr()
      ensures Valid()
      ensures n == INVALID <==> !Fits(old(View()), Lim(), key, |data|)
      ensures n == INVALID ==> View() == old(View()) && add == old(add)
      ensures n != INVALID ==> View() == [Entry(key, data, |data|, false)] + old(View()) && add == [n] + old(add)
    {
      hide Placed, Stored, Used, Chained, Stacked, Bucketed, InRange, Entries, EntryOf, LastOf, Distinct, DistinctKeys,
        ValueIn, IndexOf, ChunkAllocator.Valid, GetChunkNum, Signed32;
      PlacedFacts(infos[..], add, free, lists, place);
      n := FreeListRemove();
      if n == INVALID {
        return;
      }
      ChunkNumRight(|data|, alloc.chunkSize);
      var num := GetChunkNum(Signed32(|data|), alloc.chunkSize);
      var head := alloc.Malloc(num);
      if head == INVALID {
        EntriesKeep(infos[..], add, old(alloc.nodes[..]), old(alloc.chains), alloc.nodes[..], alloc.chains,
          alloc.chunkSize);
        FreeListInsert(n);
        return INVALID;
      }
      ghost var taken, inf := alloc.nodes[..], Info(key, |data|, head, false);
      alloc.Split(head, data);
      UntouchedThen(old(alloc.nodes[..]), taken, alloc.nodes[..], old(alloc.chains), alloc.chains, alloc.chains,
        INVALID, head);
      EntriesInsert(infos[..], add, old(alloc.nodes[..]), old(alloc.chains), alloc.nodes[..], alloc.chains,
        alloc.chunkSize, n, inf);
      StoredInsert(infos[..], add, old(alloc.chains), alloc.chains, alloc.chunkSize, n, inf);
      EntryOfValue(inf, alloc.nodes[..], alloc.chains, alloc.chunkSize);
      PushEntry(old(View()), Entry(key, data, |data|, false), alloc.chunkSize);
      UseNode(n, key, |data|, head);
      assert View() == [Entry(key, data, |data|, false)] + old(View());
    }

    /** Writes a node's contents back under the same key. */
    method SetInfo(n: int, inf: Info, ghost p: nat)
      requires Index(free, add) && p < |add| && add[p] == n && inf.key == infos[n].key
      modifies infos
      ensures Index(free, add)
      ensures infos[..] == old(infos[..])[n := inf]
    {
      hide Placed, Chained, Stacked, Bucketed, InRange, LastOf, Distinct;
      PlacedFacts(infos[..], add, free, lists, place);
      infos[n] := inf;
      PlacedSameKeys(old(infos[..]), infos[..], add, free, lists, place);
    }

    /** set_node_flag. */
    method SetNodeFlag(n: int, dirty: bool, ghost p: nat)
      requires Valid() && p < |add| && add[p] == n
      modifies infos
      ensures Valid()
      ensures View() == old(View())[p := old(View())[p].(dirty := dirty)]
    {
      hide Placed, Stored, Used, Chained, Stacked, Bucketed, InRange, Entries, LastOf, Distinct, DistinctKeys, ValueIn,
        ChunkAllocator.Valid;
      PlacedFacts(infos[..], add, free, lists, place);
      ghost var ns, chains, size, inf := alloc.nodes[..], alloc.chains, alloc.chunkSize, infos[n].(dirty := dirty);
      StoredHead(infos[..], add, chains, size, p);
      alloc.ChainsAreValid();
      StoredUpdate(infos[..], add, chains, chains, size, p, inf);
      EntriesUpdate(infos[..], add, ns, chains, ns, chains, size, p, inf);
      EntriesAt(infos[..], add, ns, chains, size);
      SetInfo(n, infos[n].(dirty := dirty), p);
      ReplaceEntry(old(View()), p, old(View())[p].(dirty := dirty), size);
      assert View() == old(View())[p := old(View())[p].(dirty := dirty)];
    }

    /** The chunk part of update_node: rewrites in place, or frees the chain and allocates anew. */
    method StoreValue(n: int, data: seq<byte>, ghost p: nat, ghost es: seq<CacheEntry>) returns (ok: bool)
      requires p < |es| && p < |add| && add[p] == n
      requires Valid() && es == View() && LenOk(|data|, alloc.chunkSize)
      modifies infos, alloc, alloc.nodes
      ensures Valid()
      ensures ok <==>
        Used(es, alloc.chunkSize) - ChunkNum(es[p].len, alloc.chunkSize) + ChunkNum(|data|, alloc.chunkSize)
        <= alloc.chunkTotal
      ensures !ok ==> View() == es
      ensures ok ==> View() == es[p := es[p].(value := data, len := |data|)]
    {
      hide Placed, Stored, Used, Chained, Stacked, Bucketed, InRange, Entries, LastOf, Distinct, DistinctKeys, ValueIn,
        ChunkAllocator.Valid, GetChunkNum, ChunkNum, Signed32;
      PlacedFacts(infos[..], add, free, lists, place);
      ghost var ns, chains, size := alloc.nodes[..], alloc.chains, alloc.chunkSize;
      StoredHead(infos[..], add, chains, size, p);
      EntriesAt(infos[..], add, ns, chains, size);
      alloc.ChainsAreValid();
      ChunkNumRight(infos[n].chunkLen, alloc.chunkSize);
      ChunkNumRight(|data|, alloc.chunkSize);
      var oldNum := GetChunkNum(Signed32(infos[n].chunkLen), alloc.chunkSize);
      var newNum := GetChunkNum(Signed32(|data|), alloc.chunkSize);
      var head := infos[n].chunkHead;
      if oldNum != newNum {
        if newNum > oldNum && alloc.freeTotal < newNum - oldNum {
          return false;
        }
        head := alloc.Reallocate(head, newNum, data);
      } else {
        alloc.Split(head, data);
      }
      ok := true;
      ghost var inf := infos[n].(chunkLen := |data|, chunkHead := head);
      StoredUpdate(infos[..], add, chains, alloc.chains, size, p, inf);
      EntriesUpdate(infos[..], add, ns, chains, alloc.nodes[..], alloc.chains, size, p, inf);
      SetInfo(n, infos[n].(chunkLen := |data|, chunkHead := head), p);
      ReplaceEntry(es, p, es[p].(value := data, len := |data|), size);
      assert View() == es[p := es[p].(value := data, len := |data|)];
    }

    /** update_node: on success the node is in front with its new value. */
    method UpdateNode(n: int, data: seq<byte>, ghost p: nat, ghost es: seq<CacheEntry>) returns (ok: bool)
      requires p < |es| && p < |add| && add[p] == n
      requires Valid() && es == View() && LenOk(|data|, alloc.chunkSize)
      modifies Repr()
      ensures Valid()
      ensures ok <==> Fits(es, Lim(), es[p].key, |data|)
      ensures !ok ==> View() == es && add == old(add)
      ensures ok ==> p < |old(add)| && add == ToFront(old(add), p)
      ensures ok ==> View() == ToFront(es[p := es[p].(value := data, len := |data|)], p)
    {
      hide Placed, Stored, Used, Chained, Stacked, Bucketed, InRange, Entries, LastOf, Distinct, DistinctKeys, ValueIn,
        ChunkAllocator.Valid, IndexOf;
      PlacedFacts(infos[..], add, free, lists, place);
      IndexOfAt(es, p);
      ok := StoreValue(n, data, p, es);
      if ok {
        MoveToFront(n, p);
      }
    }

    /** The part of free_node that gives the chunks back and resets the node. */
    method ReleaseChunks(n: int)
      requires 0 <= n < infos.Length && alloc.Valid()
      requires infos[n].chunkHead == INVALID || infos[n].chunkHead in alloc.chains
      modifies infos, alloc, alloc.nodes
      ensures infos[..] == old(infos[..])[n := EMPTY_INFO]
      ensures nodeLinks[..] == old(nodeLinks[..]) && addLinks[..] == old(addLinks[..]) && bucket[..] == old(bucket[..])
      ensures alloc.Valid() && alloc.chains == old(alloc.chains) - {old(infos[n].chunkHead)}
      ensures alloc.freeTotal == old(alloc.freeTotal) + |old(alloc.Chain(infos[n].chunkHead))|
      ensures Untouched(old(alloc.nodes[..]), alloc.nodes[..], old(alloc.chains), alloc.chains, old(infos[n].chunkHead))
    {
      hide ChunkAllocator.Valid, Untouched, ChainIn;
      alloc.Free(infos[n].chunkHead);
      infos[n] := EMPTY_INFO;
    }

    /** free_node: the node leaves its bucket, its chunks are freed and its contents reset. */
    method FreeNode(n: int, ghost p: nat)
      requires p < |add| && add[p] == n && Index(free, Without(add, p)) && addLinks[n] == Link(INVALID, INVALID)
      requires alloc.Valid() && (infos[n].chunkHead == INVALID || infos[n].chunkHead in alloc.chains)
      modifies Repr()
      ensures free == [n] + old(free) && add == Without(old(add), p)
      ensures Index(free[1..], add)
      ensures infos[..] == old(infos[..])[n := EMPTY_INFO]
      ensures alloc.Valid() && alloc.chains == old(alloc.chains) - {old(infos[n].chunkHead)}
      ensures alloc.freeTotal == old(alloc.freeTotal) + |old(alloc.Chain(infos[n].chunkHead))|
      ensures Untouched(old(alloc.nodes[..]), alloc.nodes[..], old(alloc.chains), alloc.chains, old(infos[n].chunkHead))
    {
      hide Placed, Chained, Stacked, Bucketed, InRange, LastOf, Distinct, BucketId, ChunkAllocator.Valid, Untouched,
        ChainIn, Without, Blank, Unlink, CanUnlink;
      ghost var b, q := TakenOut(nodeLinks[..], infos[..], add, free, lists, place, bucket[..], freeList, p);
      BlankDelete(addLinks[..], infos[..], free, n);
      DeleteFromNodeList(n);
      ReleaseChunks(n);
      lists := lists[b := Without(lists[b], q)];
      place := place[n := INVALID];
      add := Without(add, p);
      free := [n] + free;
      assert free[1..] == old(free);
    }

    /** delete_node. */
    method DeleteNode(n: int, ghost p: nat)
      requires Valid() && p < |add| && add[p] == n
      modifies Repr()
      ensures Valid()
      ensures add == Without(old(add), p) && View() == Without(old(View()), p)
    {
      hide Placed, Stored, Used, Chained, Stacked, Bucketed, InRange, Entries, LastOf, Distinct, DistinctKeys, ValueIn,
        ChunkAllocator.Valid, EntryOf, Untouched, Without;
      PlacedFacts(infos[..], add, free, lists, place);
      ghost var ns, chains, size := alloc.nodes[..], alloc.chains, alloc.chunkSize;
      StoredHead(infos[..], add, chains, size, p);
      EntriesAt(infos[..], add, ns, chains, size);
      alloc.ChainsAreValid();
      RemovedKeeps(addLinks[..], addHead, add, n, p);
      DeleteFromAddList(n, add, p);
      StoredDelete(infos[..], add, chains, size, p);
      UsedWithout(View(), p, size);
      WithoutDistinctKeys(View(), p);
      FreeNode(n, p);
      EntriesDelete(old(infos[..]), old(add), ns, chains, alloc.nodes[..], alloc.chains, size, p);
      FreeListInsert(n);
      assert View() == Without(old(View()), p);
    }

    /** open without init: walking the two free lists ends, and succeeds exactly when the parameters match. */
    method Reopen(nodes: int, buckets: int, nChunks: int, size: int) returns (ret: int)
      requires Valid()
      ensures ret == 0 <==>
        nodes == nodeTotal && buckets == bucketSize && nChunks == alloc.chunkTotal && size == alloc.chunkSize
      ensures ret in {0, HASH_MAP_ERROR_BASE, ERROR_DATA_VERIFY_FAIL}
    {
      hide Placed, Chained, Bucketed, Stored, ChunkAllocator.Valid;
      if nodes != nodeTotal || buckets != bucketSize {
        return HASH_MAP_ERROR_BASE;
      }
      var n, count := freeList, 0;
      ghost var rest := free;
      while n != INVALID
        invariant Stacked(nodeLinks[..], n, rest) && count + |rest| == |free|
        decreases |rest|
      {
        count := count + 1;
        n := nodeLinks[n].next;
        rest := rest[1..];
      }
      if usedNodeNum + count != nodeTotal {
        return HASH_MAP_ERROR_BASE;
      }
      ret := alloc.VerifyPoolData(nChunks, size);
    }

    /** The recency list as its readers see it: head, tail and the node after another. */
    lemma RecencyEnds()
      requires Valid()
      ensures addHead == (if add == [] then INVALID else add[0])
      ensures addTail == (if add == [] then INVALID else add[|add| - 1])
      ensures |View()| == |add|
      ensures forall i :: 0 <= i < |add| ==> 0 <= add[i] < nodeTotal
    {
      hide Placed, Bucketed, Stored, ChunkAllocator.Valid, Stacked, Blank, Entries, EntryOf, DistinctKeys, Used,
        Distinct;
      PlacedFacts(infos[..], add, free, lists, place);
    }

    lemma KeysDistinct()
      requires Valid()
      ensures WithinLimits(View(), Lim())
      ensures |View()| == |add|
    {
      hide Placed, Bucketed, Stored, Chained, Stacked, Entries, DistinctKeys, Used;
      PlacedFacts(infos[..], add, free, lists, place);
      alloc.ChainsAreValid();
    }

    lemma ValuesSized()
      requires Valid()
      ensures forall i :: 0 <= i < |View()| ==>
                View()[i].len == |View()[i].value| && LenOk(View()[i].len, alloc.chunkSize)
    {
      hide Placed, Bucketed, Chained, Stacked, Entries, DistinctKeys, Used, ChunkAllocator.Valid, Stored;
      PlacedFacts(infos[..], add, free, lists, place);
      EntriesAt(infos[..], add, alloc.nodes[..], alloc.chains, alloc.chunkSize);
      forall i | 0 <= i < |View()| ensures View()[i].len == |View()[i].value| && LenOk(View()[i].len, alloc.chunkSize) {
        StoredHead(infos[..], add, alloc.chains, alloc.chunkSize, i);
        alloc.ContentLength(infos[add[i]].chunkHead, infos[add[i]].chunkLen);
      }
    }

    /** The entries of the nodes on a bucket list, in its order. */
    ghost function BucketView(b: nat): seq<CacheEntry>
      reads this, Repr()
    {
      if b < |lists| && InRange(lists[b], infos.Length)
      then Entries(infos[..], lists[b], alloc.nodes[..], alloc.chains, alloc.chunkSize) else []
    }

    /** get_bucket_list_head. */
    lemma BucketHead(b: nat)
      requires Valid() && b < bucketSize
      ensures b < |lists| && |BucketView(b)| == |lists[b]| && b < bucket.Length
      ensures bucket[b] == if lists[b] == [] then INVALID else lists[b][0]
      ensures INVALID !in lists[b]
    {
      hide Placed, Stored, ChunkAllocator.Valid, Stacked, Blank, Entries, DistinctKeys, Used, Distinct;
      PlacedBuckets(infos[..], add, free, lists, place);
      ListInRange(infos[..], add, free, lists, place, b);
    }

    /** get_bucket_list_next, and where the node is on the recency list. */
    lemma BucketNext(b: nat, q: nat) returns (p: nat)
      requires Valid() && b < bucketSize && b < |lists| && q < |lists[b]|
      ensures p < |add| && add[p] == lists[b][q] && 0 <= add[p] < infos.Length == nodeLinks.Length
      ensures p < |View()| && q < |BucketView(b)| && BucketView(b)[q] == View()[p]
      ensures nodeLinks[add[p]].next == if q + 1 < |lists[b]| then lists[b][q + 1] else INVALID
    {
      hide Placed, Stored, ChunkAllocator.Valid, Stacked, Blank, Entries, EntryOf, DistinctKeys, Used, Distinct,
        Chained;
      PlacedFacts(infos[..], add, free, lists, place);
      ListInRange(infos[..], add, free, lists, place, b);
      p := OnBoth(infos[..], add, free, lists, place, b, q);
      ChainedAt(nodeLinks[..], INVALID, bucket[b], lists[b], q);
      EntriesAt(infos[..], add, alloc.nodes[..], alloc.chains, alloc.chunkSize);
      EntriesAt(infos[..], lists[b], alloc.nodes[..], alloc.chains, alloc.chunkSize);
    }

    /** A bucket list holds the entries whose key numbers leave its number as remainder. */
    lemma BucketHolds(b: nat)
      requires Valid() && b < bucketSize
      ensures forall e :: e in BucketView(b) <==> e in View() && KeyNumber(e.key) % bucketSize == b
    {
      hide Valid, View, BucketView, KeyNumber, Uin;
      BucketMembers(b);
      forall e: CacheEntry ensures BucketId(e.key, bucketSize) == KeyNumber(e.key) % bucketSize {
        UinIsKeyNumber(e.key);
      }
    }

    /** A bucket list holds the entries whose keys hash to it, each once. */
    lemma BucketMembers(b: nat)
      requires Valid() && b < bucketSize
      ensures DistinctKeys(BucketView(b))
      ensures forall e :: e in BucketView(b) <==> e in View() && BucketId(e.key, bucketSize) == b
    {
      hide Placed, Stored, ChunkAllocator.Valid, Stacked, Blank, Entries, EntryOf, Used, Chained, Bucketed, View,
        BucketView, BucketId;
      PlacedFacts(infos[..], add, free, lists, place);
      BucketHead(b);
      var es, bs := View(), BucketView(b);
      forall e | e in bs ensures e in es && BucketId(e.key, bucketSize) == b {
        var q :| 0 <= q < |bs| && bs[q] == e;
        var p := BucketNext(b, q);
        BucketOf(b, q, p);
      }
      forall e | e in es && BucketId(e.key, bucketSize) == b ensures e in bs {
        var p :| 0 <= p < |es| && es[p] == e;
        InItsBucket(b, p);
      }
      forall i, j | 0 <= i < j < |bs| ensures bs[i].key != bs[j].key {
        ApartInBucket(b, i, j);
      }
    }

    lemma BucketOf(b: nat, q: nat, p: nat)
      requires Valid() && b < bucketSize && b < |lists| && q < |lists[b]| && p < |add| && add[p] == lists[b][q]
      requires p < |View()|
      ensures BucketId(View()[p].key, bucketSize) == b
    {
      hide Stored, ChunkAllocator.Valid, Stacked, Blank, Entries, EntryOf, Used, Chained, Bucketed, BucketId,
        DistinctKeys;
      EntriesAt(infos[..], add, alloc.nodes[..], alloc.chains, alloc.chunkSize);
      var _ := PlaceOf(infos[..], add, free, lists, place, p);
    }

    lemma InItsBucket(b: nat, p: nat)
      requires Valid() && b < bucketSize && p < |View()| && BucketId(View()[p].key, bucketSize) == b
      ensures View()[p] in BucketView(b)
    {
      hide Placed, Stored, ChunkAllocator.Valid, Stacked, Blank, Entries, EntryOf, Used, Chained, Bucketed, BucketId,
        DistinctKeys;
      PlacedFacts(infos[..], add, free, lists, place);
      EntriesAt(infos[..], add, alloc.nodes[..], alloc.chains, alloc.chunkSize);
      var q := PlaceOf(infos[..], add, free, lists, place, p);
      ListInRange(infos[..], add, free, lists, place, b);
      EntriesAt(infos[..], lists[b], alloc.nodes[..], alloc.chains, alloc.chunkSize);
      assert BucketView(b)[q] == View()[p];
    }

    lemma ApartInBucket(b: nat, i: nat, j: nat)
      requires Valid() && b < bucketSize && i < j < |BucketView(b)|
      ensures BucketView(b)[i].key != BucketView(b)[j].key
    {
      hide Placed, Stored, ChunkAllocator.Valid, Stacked, Blank, Entries, EntryOf, Used, Chained, Bucketed, View,
        BucketView, BucketId;
      BucketHead(b);
      var p := BucketNext(b, i);
      var q := BucketNext(b, j);
      PlacedBuckets(infos[..], add, free, lists, place);
      assert p != q;
      assert p < q || q < p;
      RecencyEnds();
    }

    lemma RecencyNext(i: nat)
      requires Valid() && i < |add|
      ensures 0 <= add[i] < nodeTotal && addLinks.Length == infos.Length == nodeTotal
      ensures addLinks[add[i]].next == if i + 1 < |add| then add[i + 1] else INVALID
      ensures |View()| == |add|
      ensures var e, inf := View()[i], infos[add[i]]; e.key == inf.key && e.dirty == inf.dirty && e.len == inf.chunkLen
    {
      hide Placed, Bucketed, Stored, ChunkAllocator.Valid, Entries;
      PlacedFacts(infos[..], add, free, lists, place);
      ChainedAt(addLinks[..], INVALID, addHead, add, i);
      EntriesAt(infos[..], add, alloc.nodes[..], alloc.chains, alloc.chunkSize);
    }

    /** merge_node_data: copies the value of the node at position i out. */
    method MergeNodeData(n: int, buf: array<byte>, at: int, room: int, ghost i: nat) returns (ret: int, dataLen: int)
      requires Valid() && i < |add| && add[i] == n && buf !in Repr()
      requires room >= 0 ==> 0 <= at && at + room <= buf.Length
      modifies buf
      ensures Valid() && View() == old(View())
      ensures i < |View()| && dataLen == View()[i].len == |View()[i].value|
      ensures ret == if room < dataLen then ERROR_INVALID_PARAM else 0
      ensures ret != 0 ==> buf[..] == old(buf[..])
      ensures ret == 0 ==> buf[..] == Overwrite(old(buf[..]), at, View()[i].value)
    {
      hide Placed, Chained, Bucketed, Stored, Entries, ChunkAllocator.Valid, Stacked, LastOf, Blank, DistinctKeys, Used,
        ValueIn, Overwrite;
      PlacedFacts(infos[..], add, free, lists, place);
      StoredHead(infos[..], add, alloc.chains, alloc.chunkSize, i);
      EntriesAt(infos[..], add, alloc.nodes[..], alloc.chains, alloc.chunkSize);
      alloc.ContentLength(infos[n].chunkHead, infos[n].chunkLen);
      ret, dataLen := alloc.Merge(infos[n].chunkHead, infos[n].chunkLen, buf, at, room);
    }
  }
}
