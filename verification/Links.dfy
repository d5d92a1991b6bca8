/** Doubly linked lists threaded through a pool of nodes by index, as value-level predicates and edits. */
module Links {
  import opened Lists
  import opened ChunkAllocators

  datatype Link = Link(prev: int, next: int)

  /** Following next from head visits ids and ends; each prev names the node before, and prev the one before head. */
  ghost predicate Chained(ls: seq<Link>, prev: int, head: int, ids: seq<int>)
    decreases |ids|
  {
    if ids == [] then head == INVALID
    else
      && head == ids[0] && 0 <= head < |ls|
      && ls[head].prev == prev
      && Chained(ls, head, ls[head].next, ids[1..])
  }

  /** The free list only uses next. */
  ghost predicate Stacked(ls: seq<Link>, head: int, ids: seq<int>)
    decreases |ids|
  {
    if ids == [] then head == INVALID
    else head == ids[0] && 0 <= head < |ls| && Stacked(ls, ls[head].next, ids[1..])
  }

  ghost function LastOf(ids: seq<int>, none: int): int {
    if ids == [] then none else ids[|ids| - 1]
  }

  ghost predicate SameAt(ls: seq<Link>, ms: seq<Link>, ids: seq<int>) {
    |ls| == |ms| && forall i :: 0 <= i < |ids| && 0 <= ids[i] < |ls| ==> ls[ids[i]] == ms[ids[i]]
  }

  lemma {:induction false} ChainedFrame(ls: seq<Link>, ms: seq<Link>, prev: int, head: int, ids: seq<int>)
    requires Chained(ls, prev, head, ids) && SameAt(ls, ms, ids)
    ensures Chained(ms, prev, head, ids)
    decreases |ids|
  {
    if ids != [] {
      ChainedFrame(ls, ms, head, ls[head].next, ids[1..]);
    }
  }

  lemma {:induction false} StackedFrame(ls: seq<Link>, ms: seq<Link>, head: int, ids: seq<int>)
    requires Stacked(ls, head, ids) && SameAt(ls, ms, ids)
    ensures Stacked(ms, head, ids)
    decreases |ids|
  {
    if ids != [] {
      StackedFrame(ls, ms, ls[head].next, ids[1..]);
    }
  }

  /** The neighbours of a chained node, as Unlink needs them. */
  predicate CanUnlink(ls: seq<Link>, n: int) {
    && 0 <= n < |ls|
    && (ls[n].prev == INVALID || 0 <= ls[n].prev < |ls|)
    && (ls[n].next == INVALID || 0 <= ls[n].next < |ls|)
  }

  /** Takes n out of its list: its neighbours are joined and its own links cleared. */
  function Unlink(ls: seq<Link>, n: int): (ms: seq<Link>)
    requires CanUnlink(ls, n)
    ensures |ms| == |ls|
  {
    var p, q := ls[n].prev, ls[n].next;
    var ls1 := if p == INVALID then ls else ls[p := ls[p].(next := q)];
    var ls2 := if q == INVALID then ls1 else ls1[q := ls1[q].(prev := p)];
    ls2[n := Link(INVALID, INVALID)]
  }

  /** Puts n in front of the list that starts at head. */
  function Push(ls: seq<Link>, head: int, n: int): (ms: seq<Link>)
    requires 0 <= n < |ls|
    requires head == INVALID || 0 <= head < |ls|
    ensures |ms| == |ls|
  {
    var ls1 := ls[n := Link(INVALID, head)];
    if head == INVALID then ls1 else ls1[head := ls1[head].(prev := n)]
  }

  /** The links of the node at position p name its neighbours in ids. */
  lemma {:induction false} ChainedAt(ls: seq<Link>, prev: int, head: int, ids: seq<int>, p: nat)
    requires Chained(ls, prev, head, ids) && p < |ids|
    ensures 0 <= ids[p] < |ls|
    ensures ls[ids[p]].prev == if p == 0 then prev else ids[p - 1]
    ensures ls[ids[p]].next == if p + 1 < |ids| then ids[p + 1] else INVALID
    decreases |ids|
  {
    if p > 0 {
      ChainedAt(ls, head, ls[head].next, ids[1..], p - 1);
    }
  }

  /** Taking out the first node leaves the others chained. */
  lemma UnlinkFirst(ls: seq<Link>, prev: int, ids: seq<int>)
    requires ids != [] && Chained(ls, prev, ids[0], ids) && Distinct(ids)
    requires prev == INVALID || (0 <= prev < |ls| && prev !in ids)
    ensures CanUnlink(ls, ids[0])
    ensures Chained(Unlink(ls, ids[0]), prev, ls[ids[0]].next, ids[1..])
  {
    var rest := ids[1..];
    if rest != [] {
      ChainedFrame(ls, Unlink(ls, ids[0]), rest[0], ls[rest[0]].next, rest[1..]);
    }
  }

  /** Taking out the node at position p leaves the others chained, in order. */
  lemma {:induction false} UnlinkKeeps(ls: seq<Link>, prev: int, head: int, ids: seq<int>, p: nat)
    requires Chained(ls, prev, head, ids) && Distinct(ids) && p < |ids|
    requires prev == INVALID || (0 <= prev < |ls| && prev !in ids)
    ensures CanUnlink(ls, ids[p])
    ensures Chained(Unlink(ls, ids[p]), prev, if p == 0 then ls[ids[p]].next else head, Without(ids, p))
    decreases |ids|
  {
    var n, rest, left := ids[p], ids[1..], Without(ids, p);
    if p == 0 {
      UnlinkFirst(ls, prev, ids);
      assert left == rest;
    } else {
      UnlinkKeeps(ls, head, ls[head].next, rest, p - 1);
      assert rest[p - 1] == n && left[1..] == Without(rest, p - 1) && left[0] == head;
      assert Unlink(ls, n)[head] == Link(prev, if p == 1 then ls[n].next else ids[1]) by {
        ChainedAt(ls, prev, head, ids, p);
      }
    }
  }

  /** A node from elsewhere becomes the new head. */
  lemma PushKeeps(ls: seq<Link>, head: int, ids: seq<int>, n: int)
    requires Chained(ls, INVALID, head, ids) && Distinct(ids)
    requires 0 <= n < |ls| && n !in ids
    ensures head == INVALID || 0 <= head < |ls|
    ensures Chained(Push(ls, head, n), INVALID, n, [n] + ids)
    ensures forall m :: 0 <= m < |ls| && m != n && m !in ids ==> Push(ls, head, n)[m] == ls[m]
  {
    var ms := Push(ls, head, n);
    assert ([n] + ids)[1..] == ids;
    if ids != [] {
      ChainedFrame(ls, ms, head, ls[head].next, ids[1..]);
    }
  }

  /** Node n is at position p of the list ids, or, for p < 0, on no list at all. */
  ghost predicate OnList(ls: seq<Link>, head: int, ids: seq<int>, n: int, p: int) {
    && Chained(ls, INVALID, head, ids) && Distinct(ids) && 0 <= n < |ls|
    && if p < 0 then n !in ids && ls[n] == Link(INVALID, INVALID) else p < |ids| && ids[p] == n
  }

  /** Whether n is on a list shows in its links and in the two ends of the list. */
  lemma OnListEnds(ls: seq<Link>, head: int, ids: seq<int>, n: int, p: int)
    requires OnList(ls, head, ids, n, p)
    ensures p < 0 <==> ls[n] == Link(INVALID, INVALID) && head != n && LastOf(ids, INVALID) != n
    ensures CanUnlink(ls, n) && ls[n].prev != n && ls[n].next != n
  {
    if p >= 0 {
      UnlinkKeeps(ls, INVALID, head, ids, p);
      ChainedAt(ls, INVALID, head, ids, p);
    }
  }

  function Removed(ls: seq<Link>, n: int, p: int): (ms: seq<Link>)
    requires CanUnlink(ls, n)
    ensures |ms| == |ls|
  {
    if p < 0 then ls else Unlink(ls, n)
  }

  /** Removing a node leaves the rest of its list, with the right ends; other lists do not notice. */
  lemma RemovedKeeps(ls: seq<Link>, head: int, ids: seq<int>, n: int, p: int)
    requires OnList(ls, head, ids, n, p)
    ensures CanUnlink(ls, n)
    ensures var ms, rest := Removed(ls, n, p), if p < 0 then ids else Without(ids, p);
      && OnList(ms, if head == n then ls[n].next else head, rest, n, -1)
      && LastOf(rest, INVALID) == (if LastOf(ids, INVALID) == n then ls[n].prev else LastOf(ids, INVALID))
      && (forall m :: 0 <= m < |ls| && m !in ids ==> ms[m] == ls[m])
      && (forall m :: m in rest ==> m in ids)
  {
    hide Chained, Unlink, Distinct, LastOf, Without;
    OnListEnds(ls, head, ids, n, p);
    if p >= 0 {
      UnlinkKeeps(ls, INVALID, head, ids, p);
      WithoutMembers(ids, p);
      ChainedAt(ls, INVALID, head, ids, p);
      UnlinkOthers(ls, head, ids, p);
      EndsWithout(ls, head, ids, p);
    }
  }

  lemma UnlinkOthers(ls: seq<Link>, head: int, ids: seq<int>, p: nat)
    requires Chained(ls, INVALID, head, ids) && p < |ids|
    ensures CanUnlink(ls, ids[p]) && Unlink(ls, ids[p])[ids[p]] == Link(INVALID, INVALID)
    ensures forall m :: 0 <= m < |ls| && m !in ids ==> Unlink(ls, ids[p])[m] == ls[m]
  {
    hide Chained;
    ChainedAt(ls, INVALID, head, ids, p);
    if p > 0 {
      ChainedAt(ls, INVALID, head, ids, p - 1);
    }
    if p + 1 < |ids| {
      ChainedAt(ls, INVALID, head, ids, p + 1);
    }
  }

  lemma EndsWithout(ls: seq<Link>, head: int, ids: seq<int>, p: nat)
    requires Chained(ls, INVALID, head, ids) && Distinct(ids) && p < |ids|
    ensures 0 <= ids[p] < |ls| && (head == ids[p] <==> p == 0)
    ensures LastOf(Without(ids, p), INVALID) ==
      if LastOf(ids, INVALID) == ids[p] then ls[ids[p]].prev else LastOf(ids, INVALID)
  {
    ChainedAt(ls, INVALID, head, ids, p);
  }

  lemma FirstIsNot(ls: seq<Link>, head: int, ids: seq<int>, n: int)
    requires Chained(ls, INVALID, head, ids) && n !in ids && 0 <= n
    ensures head != n
  {
  }

  /** Moving or adding a node to the front of its list. */
  lemma FrontKeeps(ls: seq<Link>, head: int, ids: seq<int>, n: int, p: int)
    requires OnList(ls, head, ids, n, p)
    ensures CanUnlink(ls, n)
    ensures var head', rest := if head == n then ls[n].next else head, if p < 0 then ids else Without(ids, p);
      && (head' == INVALID || (0 <= head' < |ls| && head' != n))
      && Chained(Push(Removed(ls, n, p), head', n), INVALID, n, [n] + rest)
      && LastOf([n] + rest, INVALID) == (if rest == [] then n else LastOf(rest, INVALID))
      && (rest == [] <==> LastOf(rest, INVALID) == INVALID)
      && (forall m :: 0 <= m < |ls| && m != n && m !in ids ==> Push(Removed(ls, n, p), head', n)[m] == ls[m])
  {
    hide Chained, Unlink, Distinct, Push, Removed;
    RemovedKeeps(ls, head, ids, n, p);
    var head', rest := if head == n then ls[n].next else head, if p < 0 then ids else Without(ids, p);
    PushKeeps(Removed(ls, n, p), head', rest, n);
    FirstIsNot(Removed(ls, n, p), head', rest, n);
    if rest != [] {
      ChainedAt(Removed(ls, n, p), INVALID, head', rest, |rest| - 1);
    }
  }
}
