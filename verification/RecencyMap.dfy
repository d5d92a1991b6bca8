/**
 The abstract cache: a bounded map whose entries are kept in recency order, newest first.
 Everything the cache promises is stated about this type; the linked structures refine it.
 */
module RecencyMaps {
  import opened Options
  import opened Lists
  import opened ChunkAllocators

  datatype Entry<K, V> = Entry(key: K, value: V, len: nat, dirty: bool)

  /** What a cache of fixed memory can hold. */
  datatype Limits = Limits(nodes: nat, chunks: nat, chunkSize: Positive)

  /** The position of key k, or -1. */
  function IndexOf<K(==), V>(es: seq<Entry<K, V>>, k: K): (r: int)
    ensures -1 <= r < |es|
    ensures r >= 0 ==> es[r].key == k
    ensures forall j :: 0 <= j < (if r < 0 then |es| else r) ==> es[j].key != k
  {
    if es == [] then -1
    else if es[0].key == k then 0
    else var r := IndexOf(es[1..], k); if r < 0 then -1 else r + 1
  }

  ghost predicate DistinctKeys<K, V>(es: seq<Entry<K, V>>) {
    forall i, j :: 0 <= i < j < |es| ==> es[i].key != es[j].key
  }

  /** The chunks that all entries together occupy. */
  function Used<K, V>(es: seq<Entry<K, V>>, chunkSize: Positive): nat
  {
    if es == [] then 0 else ChunkNum(es[0].len, chunkSize) + Used(es[1..], chunkSize)
  }

  lemma HeadIsNew<K, V>(es: seq<Entry<K, V>>)
    requires DistinctKeys(es) && es != []
    ensures DistinctKeys(es[1..]) && forall e :: e in es[1..] ==> e.key != es[0].key
  {
  }

  lemma PushDistinct<K, V>(es: seq<Entry<K, V>>, e: Entry<K, V>)
    requires DistinctKeys(es) && forall f :: f in es ==> f.key != e.key
    ensures DistinctKeys([e] + es)
  {
  }

  lemma IndexOfAt<K, V>(es: seq<Entry<K, V>>, i: nat)
    requires DistinctKeys(es) && i < |es|
    ensures IndexOf(es, es[i].key) == i
  {
  }

  ghost predicate WithinLimits<K, V>(es: seq<Entry<K, V>>, lim: Limits) {
    && DistinctKeys(es)
    && |es| <= lim.nodes
    && Used(es, lim.chunkSize) <= lim.chunks
  }

  /** A hit moves its entry to the front. */
  function Touch<K(==), V>(es: seq<Entry<K, V>>, k: K): (r: seq<Entry<K, V>>)
    ensures |r| == |es|
  {
    var i := IndexOf(es, k);
    if i < 0 then es else ToFront(es, i)
  }

  /** The chunks in use apart from those of key k. */
  function UsedByOthers<K(==), V>(es: seq<Entry<K, V>>, k: K, chunkSize: Positive): int
  {
    var i := IndexOf(es, k);
    Used(es, chunkSize) - (if i < 0 then 0 else ChunkNum(es[i].len, chunkSize))
  }

  /** Whether a value of len bytes can be stored under k: nodes and chunks suffice, and a new value is not empty. */
  predicate Fits<K(==), V>(es: seq<Entry<K, V>>, lim: Limits, k: K, len: nat)
  {
    && UsedByOthers(es, k, lim.chunkSize) + ChunkNum(len, lim.chunkSize) <= lim.chunks
    && (IndexOf(es, k) < 0 ==> |es| < lim.nodes && len > 0)
  }

  function Drop<K(==), V>(es: seq<Entry<K, V>>, k: K): (r: seq<Entry<K, V>>) {
    var i := IndexOf(es, k);
    if i < 0 then es else Without(es, i)
  }

  /** Storing a value puts it in front; when it does not fit, an existing entry is still touched. */
  function Set<K(==), V>(es: seq<Entry<K, V>>, lim: Limits, k: K, v: V, len: nat, dirty: bool): seq<Entry<K, V>>
  {
    if Fits(es, lim, k, len) then [Entry(k, v, len, dirty)] + Drop(es, k) else Touch(es, k)
  }

  function MarkClean<K(==), V>(es: seq<Entry<K, V>>, k: K): (r: seq<Entry<K, V>>)
    ensures |r| == |es|
  {
    var i := IndexOf(es, k);
    if i < 0 then es else [es[i].(dirty := false)] + Without(es, i)
  }

  lemma {:induction false} UsedAppend<K, V>(a: seq<Entry<K, V>>, b: seq<Entry<K, V>>, size: Positive)
    ensures Used(a + b, size) == Used(a, size) + Used(b, size)
  {
    if a == [] {
      assert a + b == b;
    } else {
      assert (a + b)[1..] == a[1..] + b;
      UsedAppend(a[1..], b, size);
    }
  }

  lemma UsedWithout<K, V>(es: seq<Entry<K, V>>, i: nat, size: Positive)
    requires i < |es|
    ensures Used(es, size) == Used(Without(es, i), size) + ChunkNum(es[i].len, size)
    ensures Used(ToFront(es, i), size) == Used(es, size)
  {
    assert es == es[..i] + ([es[i]] + es[i + 1..]);
    UsedAppend(es[..i], [es[i]] + es[i + 1..], size);
    UsedAppend(es[..i], es[i + 1..], size);
    assert ([es[i]] + es[i + 1..])[1..] == es[i + 1..];
    assert ToFront(es, i)[1..] == Without(es, i);
  }

  lemma WithoutDistinctKeys<K, V>(es: seq<Entry<K, V>>, i: nat)
    requires DistinctKeys(es) && i < |es|
    ensures DistinctKeys(Without(es, i))
    ensures forall j :: 0 <= j < |es| - 1 ==> Without(es, i)[j].key != es[i].key
  {
    var r := Without(es, i);
    assert forall j :: 0 <= j < |r| ==> r[j] == es[if j < i then j else j + 1];
  }

  /** The order matters neither for the keys nor for the chunks in use. */
  lemma ToFrontKeeps<K, V>(es: seq<Entry<K, V>>, i: nat, size: Positive)
    requires DistinctKeys(es) && i < |es|
    ensures DistinctKeys(ToFront(es, i))
    ensures Used(ToFront(es, i), size) == Used(es, size)
  {
    UsedWithout(es, i, size);
    WithoutDistinctKeys(es, i);
  }

  lemma PushEntry<K, V>(es: seq<Entry<K, V>>, e: Entry<K, V>, size: Positive)
    requires DistinctKeys(es) && IndexOf(es, e.key) < 0
    ensures DistinctKeys([e] + es)
    ensures Used([e] + es, size) == Used(es, size) + ChunkNum(e.len, size)
  {
    assert ([e] + es)[1..] == es;
  }

  lemma ReplaceEntry<K, V>(es: seq<Entry<K, V>>, i: nat, e: Entry<K, V>, size: Positive)
    requires DistinctKeys(es) && i < |es| && e.key == es[i].key
    ensures DistinctKeys(es[i := e])
    ensures Used(es[i := e], size) == Used(es, size) - ChunkNum(es[i].len, size) + ChunkNum(e.len, size)
  {
    UsedWithout(es, i, size);
    UsedWithout(es[i := e], i, size);
    assert Without(es[i := e], i) == Without(es, i);
  }

  /** Dropping an entry frees its chunks, and its key is gone. */
  lemma DropStaysWithin<K, V>(es: seq<Entry<K, V>>, lim: Limits, k: K)
    requires WithinLimits(es, lim)
    ensures WithinLimits(Drop(es, k), lim)
    ensures forall j :: 0 <= j < |Drop(es, k)| ==> Drop(es, k)[j].key != k
    ensures Used(Drop(es, k), lim.chunkSize) == UsedByOthers(es, k, lim.chunkSize)
  {
    var i := IndexOf(es, k);
    if i >= 0 {
      UsedWithout(es, i, lim.chunkSize);
      WithoutDistinctKeys(es, i);
    }
  }

  /** An entry put in front of the others uses its own chunks and theirs. */
  lemma FrontStaysWithin<K, V>(es: seq<Entry<K, V>>, lim: Limits, e: Entry<K, V>)
    requires WithinLimits(es, lim)
    requires |Drop(es, e.key)| < lim.nodes
    requires UsedByOthers(es, e.key, lim.chunkSize) + ChunkNum(e.len, lim.chunkSize) <= lim.chunks
    ensures WithinLimits([e] + Drop(es, e.key), lim)
    ensures Used([e] + Drop(es, e.key), lim.chunkSize) ==
      UsedByOthers(es, e.key, lim.chunkSize) + ChunkNum(e.len, lim.chunkSize)
  {
    DropStaysWithin(es, lim, e.key);
    assert ([e] + Drop(es, e.key))[1..] == Drop(es, e.key);
  }

  /** Setting, touching and cleaning stay within the limits. */
  lemma StepsStayWithin<K, V>(es: seq<Entry<K, V>>, lim: Limits, k: K, v: V, len: nat, dirty: bool)
    requires WithinLimits(es, lim)
    ensures WithinLimits(Touch(es, k), lim)
    ensures WithinLimits(MarkClean(es, k), lim)
    ensures WithinLimits(Set(es, lim, k, v, len, dirty), lim)
  {
    var i := IndexOf(es, k);
    if i >= 0 {
      FrontStaysWithin(es, lim, es[i]);
      FrontStaysWithin(es, lim, es[i].(dirty := false));
    }
    if Fits(es, lim, k, len) {
      FrontStaysWithin(es, lim, Entry(k, v, len, dirty));
    }
  }

  /** The entry stored under a key. */
  function Lookup<K(==), V>(es: seq<Entry<K, V>>, k: K): Option<Entry<K, V>> {
    var i := IndexOf(es, k);
    if i < 0 then None else Some(es[i])
  }

  lemma {:induction false} LookupPush<K, V>(es: seq<Entry<K, V>>, e: Entry<K, V>, j: K)
    ensures Lookup([e] + es, j) == if j == e.key then Some(e) else Lookup(es, j)
  {
    assert ([e] + es)[1..] == es;
  }

  /** Without duplicates, an entry found at any position is the one that Lookup gives. */
  lemma LookupAt<K, V>(es: seq<Entry<K, V>>, i: nat)
    requires DistinctKeys(es) && i < |es|
    ensures Lookup(es, es[i].key) == Some(es[i])
  {
    IndexOfAt(es, i);
  }

  lemma LookupMember<K, V>(es: seq<Entry<K, V>>, k: K)
    ensures Lookup(es, k).Some? ==> Lookup(es, k).value in es && Lookup(es, k).value.key == k
  {
  }

  lemma FoundAt<K, V>(es: seq<Entry<K, V>>, e: Entry<K, V>)
    requires DistinctKeys(es) && e in es
    ensures Lookup(es, e.key) == Some(e)
  {
    var i :| 0 <= i < |es| && es[i] == e;
    LookupAt(es, i);
  }

  lemma WithinDistinct<K, V>(es: seq<Entry<K, V>>, lim: Limits)
    requires WithinLimits(es, lim)
    ensures DistinctKeys(es)
  {
  }

  /** Dropping a key removes it and nothing else. */
  lemma LookupDrop<K, V>(es: seq<Entry<K, V>>, k: K, j: K)
    requires DistinctKeys(es)
    ensures Lookup(Drop(es, k), j) == if j == k then None else Lookup(es, j)
  {
    var i := IndexOf(es, k);
    if i >= 0 {
      var r := Without(es, i);
      WithoutDistinctKeys(es, i);
      assert forall m :: 0 <= m < |r| ==> r[m] == es[if m < i then m else m + 1];
      var p := IndexOf(es, j);
      if j != k && p >= 0 {
        assert r[if p < i then p else p - 1] == es[p];
        IndexOfAt(r, if p < i then p else p - 1);
      }
    }
  }

  /** The dictionary laws: what each operation does to every key, whatever the recency order. */
  lemma LookupAfter<K, V>(es: seq<Entry<K, V>>, lim: Limits, k: K, v: V, len: nat, dirty: bool, j: K)
    requires DistinctKeys(es)
    ensures Lookup(Touch(es, k), j) == Lookup(es, j)
    ensures Lookup(Set(es, lim, k, v, len, dirty), j) ==
      if j == k && Fits(es, lim, k, len) then Some(Entry(k, v, len, dirty)) else Lookup(es, j)
    ensures Lookup(MarkClean(es, k), j) ==
      if j == k && Lookup(es, k).Some? then Some(Lookup(es, k).value.(dirty := false)) else Lookup(es, j)
  {
    var i := IndexOf(es, k);
    LookupDrop(es, k, j);
    if i >= 0 {
      LookupPush(Without(es, i), es[i], j);
      LookupPush(Without(es, i), es[i].(dirty := false), j);
    }
    LookupPush(Drop(es, k), Entry(k, v, len, dirty), j);
  }

  /** Moving an entry to the front changes no entry. */
  lemma TouchLaws<K, V>(es: seq<Entry<K, V>>, lim: Limits, k: K)
    requires WithinLimits(es, lim)
    ensures WithinLimits(Touch(es, k), lim) && forall j :: Lookup(Touch(es, k), j) == Lookup(es, j)
  {
    hide Lookup, WithinLimits, Set, Fits, MarkClean;
    if es != [] {
      StepsStayWithin(es, lim, k, es[0].value, 0, true);
      WithinDistinct(es, lim);
      forall j ensures Lookup(Touch(es, k), j) == Lookup(es, j) {
        LookupAfter(es, lim, k, es[0].value, 0, true, j);
      }
    }
  }

  /** A hit changes neither what fits nor what is stored. */
  lemma TouchFits<K, V>(es: seq<Entry<K, V>>, lim: Limits, k: K, len: nat)
    requires DistinctKeys(es)
    ensures Fits(Touch(es, k), lim, k, len) <==> Fits(es, lim, k, len)
    ensures DistinctKeys(Touch(es, k)) && Lookup(Touch(es, k), k) == Lookup(es, k)
  {
    hide Used;
    var i := IndexOf(es, k);
    if i >= 0 {
      ToFrontKeeps(es, i, lim.chunkSize);
      IndexOfAt(Touch(es, k), 0);
    }
  }
}
