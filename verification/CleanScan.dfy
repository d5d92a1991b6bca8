/** What marking all selected entries clean does to the recency list, as one pass over the original list. */
module CleanScan {
  import opened Options
  import opened RecencyMaps
  import opened HashMaps
  import opened Recovery
  import opened Codec

  const CLEAN_BUF_SIZE := 102400

  /** The iterator stops at an entry if it is the first one, or dirty; a stop at a value too large ends the scan. */
  ghost predicate Stops(e: CacheEntry, first: bool) {
    first || e.dirty
  }

  /** The final list: cleaned entries come to the front, the last one first, and the others keep their order. */
  ghost function Scan(marked: seq<CacheEntry>, seen: seq<CacheEntry>, rest: seq<CacheEntry>, first: bool, base: int,
                      res: int): seq<CacheEntry>
    requires SaneMod(base, res)
    decreases |rest|
  {
    if rest == [] then marked + seen
    else
      var e := rest[0];
      if Stops(e, first) && e.len > CLEAN_BUF_SIZE then marked + seen + rest
      else if Stops(e, first) && Selected(e.key, base, res) then
        Scan([e.(dirty := false)] + marked, seen, rest[1..], false, base, res)
      else Scan(marked, seen + [e], rest[1..], false, base, res)
  }

  ghost function CleanedList(es: seq<CacheEntry>, base: int, res: int): seq<CacheEntry>
    requires SaneMod(base, res)
  {
    Scan([], [], es, true, base, res)
  }

  /** The keys that are marked, in order: the selected stops, up to a stop at a value that is too large. */
  ghost function ScanKeys(rest: seq<CacheEntry>, first: bool, base: int, res: int): seq<Key>
    requires SaneMod(base, res)
    decreases |rest|
  {
    if rest == [] || (Stops(rest[0], first) && rest[0].len > CLEAN_BUF_SIZE) then []
    else
      (if Stops(rest[0], first) && Selected(rest[0].key, base, res) then [rest[0].key] else [])
      + ScanKeys(rest[1..], false, base, res)
  }

  /** The selected keys of a list, in order. */
  ghost function SelectedKeys(es: seq<CacheEntry>, base: int, res: int): seq<Key>
    requires SaneMod(base, res)
  {
    if es == [] then []
    else (if Selected(es[0].key, base, res) then [es[0].key] else []) + SelectedKeys(es[1..], base, res)
  }

  lemma {:induction false} ScanKeysOfDirty(rest: seq<CacheEntry>, base: int, res: int)
    requires SaneMod(base, res) && Small(rest, CLEAN_BUF_SIZE)
    ensures ScanKeys(rest, false, base, res) == SelectedKeys(DirtyOf(rest), base, res)
    decreases |rest|
  {
    hide Selected;
    if rest != [] {
      ScanKeysOfDirty(rest[1..], base, res);
      assert rest[0].len <= CLEAN_BUF_SIZE;
      if rest[0].dirty {
        assert DirtyOf(rest)[1..] == DirtyOf(rest[1..]);
      } else {
        assert DirtyOf(rest) == DirtyOf(rest[1..]);
      }
    }
  }

  /** If all values fit the buffer, exactly the selected ones among the head and the dirty entries are marked. */
  lemma MarkedKeys(es: seq<CacheEntry>, base: int, res: int)
    requires SaneMod(base, res) && Small(es, CLEAN_BUF_SIZE)
    ensures ScanKeys(es, true, base, res) == SelectedKeys(DumpList(es), base, res)
  {
    hide Selected;
    if es != [] {
      ScanKeysOfDirty(es[1..], base, res);
      assert DumpList(es)[1..] == DirtyOf(es[1..]);
    }
  }

  /** Some dirty selected entry lies at or behind a stop at a value that is too large. */
  ghost predicate Blocked(es: seq<CacheEntry>, first: bool, base: int, res: int)
    requires SaneMod(base, res)
  {
    exists p, q :: 0 <= p <= q < |es| && Stops(es[p], first && p == 0) && es[p].len > CLEAN_BUF_SIZE
      && es[q].dirty && Selected(es[q].key, base, res)
  }

  ghost predicate AllClean(es: seq<CacheEntry>, base: int, res: int)
    requires SaneMod(base, res)
  {
    forall i :: 0 <= i < |es| && Selected(es[i].key, base, res) ==> !es[i].dirty
  }

  /** Clean entries pass over to the seen part unchanged. */
  lemma {:induction false} ScanSkipsClean(marked: seq<CacheEntry>, seen: seq<CacheEntry>, rest: seq<CacheEntry>, n: nat,
                                          base: int, res: int)
    requires SaneMod(base, res) && n <= |rest| && forall i :: 0 <= i < n ==> !rest[i].dirty
    ensures Scan(marked, seen, rest, false, base, res) == Scan(marked, seen + rest[..n], rest[n..], false, base, res)
    ensures ScanKeys(rest, false, base, res) == ScanKeys(rest[n..], false, base, res)
    decreases n
  {
    hide Selected;
    if n == 0 {
      assert seen + rest[..0] == seen && rest[0..] == rest;
    } else {
      ScanSkipsClean(marked, seen + [rest[0]], rest[1..], n - 1, base, res);
      assert seen + [rest[0]] + rest[1..][..n - 1] == seen + rest[..n];
      assert rest[1..][n - 1..] == rest[n..];
    }
  }

  /** Exactly when every selected entry ends up clean: unless a value too large for the buffer stands in the way. */
  lemma {:induction false} ScanCleans(marked: seq<CacheEntry>, seen: seq<CacheEntry>, rest: seq<CacheEntry>,
                                      first: bool, base: int, res: int)
    requires SaneMod(base, res) && AllClean(marked, base, res) && AllClean(seen, base, res)
    ensures AllClean(Scan(marked, seen, rest, first, base, res), base, res) <==> !Blocked(rest, first, base, res)
    decreases |rest|
  {
    hide Selected;
    if rest != [] {
      var e, tail := rest[0], rest[1..];
      if Stops(e, first) && e.len > CLEAN_BUF_SIZE {
        AllCleanAppend(marked + seen, rest, base, res);
        AllCleanAppend(marked, seen, base, res);
        if !AllClean(rest, base, res) {
          var q :| 0 <= q < |rest| && Selected(rest[q].key, base, res) && rest[q].dirty;
          assert 0 <= 0 <= q < |rest| && Stops(rest[0], first && 0 == 0);
        }
      } else {
        BlockedTail(rest, first, base, res);
        if Stops(e, first) && Selected(e.key, base, res) {
          ScanCleans([e.(dirty := false)] + marked, seen, tail, false, base, res);
        } else {
          ScanCleans(marked, seen + [e], tail, false, base, res);
        }
      }
    } else {
      AllCleanAppend(marked, seen, base, res);
    }
  }

  lemma AllCleanAppend(a: seq<CacheEntry>, b: seq<CacheEntry>, base: int, res: int)
    requires SaneMod(base, res)
    ensures AllClean(a + b, base, res) <==> AllClean(a, base, res) && AllClean(b, base, res)
  {
    hide Selected;
    assert forall i :: 0 <= i < |a| ==> a[i] == (a + b)[i];
    assert forall i :: 0 <= i < |b| ==> b[i] == (a + b)[|a| + i];
  }

  /** An entry that does not end the scan blocks nothing by itself. */
  lemma BlockedTail(es: seq<CacheEntry>, first: bool, base: int, res: int)
    requires SaneMod(base, res) && es != [] && !(Stops(es[0], first) && es[0].len > CLEAN_BUF_SIZE)
    ensures Blocked(es, first, base, res) <==> Blocked(es[1..], false, base, res)
  {
    hide Selected;
    var t := es[1..];
    assert forall i :: 0 <= i < |t| ==> t[i] == es[i + 1];
    if Blocked(es, first, base, res) {
      var p, q :| 0 <= p <= q < |es| && Stops(es[p], first && p == 0) && es[p].len > CLEAN_BUF_SIZE
        && es[q].dirty && Selected(es[q].key, base, res);
      assert 0 <= p - 1 <= q - 1 < |t| && t[p - 1] == es[p] && t[q - 1] == es[q];
    }
    if Blocked(t, false, base, res) {
      var p, q :| 0 <= p <= q < |t| && Stops(t[p], false && p == 0) && t[p].len > CLEAN_BUF_SIZE
        && t[q].dirty && Selected(t[q].key, base, res);
      assert 0 <= p + 1 <= q + 1 < |es| && es[p + 1] == t[p] && es[q + 1] == t[q];
    }
  }

  /** Cleared at most: same key, value and length, and a flag that is only cleared for selected keys. */
  ghost predicate SameButFlag(e: CacheEntry, f: CacheEntry, base: int, res: int)
    requires SaneMod(base, res)
  {
    e == f || (f == e.(dirty := false) && Selected(e.key, base, res))
  }

  /** b holds the like of e. */
  ghost predicate Has(b: seq<CacheEntry>, e: CacheEntry, base: int, res: int)
    requires SaneMod(base, res)
  {
    exists j :: 0 <= j < |b| && SameButFlag(e, b[j], base, res)
  }

  lemma HasAt(b: seq<CacheEntry>, e: CacheEntry, j: nat, base: int, res: int)
    requires SaneMod(base, res) && j < |b| && SameButFlag(e, b[j], base, res)
    ensures Has(b, e, base, res)
  {
  }

  lemma HasLike(b: seq<CacheEntry>, e: CacheEntry, f: CacheEntry, base: int, res: int)
    requires SaneMod(base, res) && SameButFlag(e, f, base, res) && Has(b, f, base, res)
    ensures Has(b, e, base, res)
  {
    var j :| 0 <= j < |b| && SameButFlag(f, b[j], base, res);
    HasAt(b, e, j, base, res);
  }

  /** No entry appears or disappears, no data changes, and flags of other keys stay. */
  lemma {:induction false} ScanKeepsData(marked: seq<CacheEntry>, seen: seq<CacheEntry>, rest: seq<CacheEntry>,
                                         first: bool, base: int, res: int)
    requires SaneMod(base, res)
    ensures |Scan(marked, seen, rest, first, base, res)| == |marked| + |seen| + |rest|
    ensures forall e :: e in marked || e in seen || e in rest ==>
              Has(Scan(marked, seen, rest, first, base, res), e, base, res)
    decreases |rest|
  {
    hide Selected, Has;
    var after := Scan(marked, seen, rest, first, base, res);
    if rest == [] || (Stops(rest[0], first) && rest[0].len > CLEAN_BUF_SIZE) {
      forall e | e in marked || e in seen || e in rest ensures Has(after, e, base, res) {
        assert after == marked + seen + rest;
        assert e in marked + seen || e in rest;
        assert e in after;
        var j :| 0 <= j < |after| && after[j] == e;
        HasAt(after, e, j, base, res);
      }
    } else {
      var e, tail := rest[0], rest[1..];
      if Stops(e, first) && Selected(e.key, base, res) {
        var e' := e.(dirty := false);
        ScanKeepsData([e'] + marked, seen, tail, false, base, res);
        assert e' in [e'] + marked;
        HasLike(after, e, e', base, res);
      } else {
        ScanKeepsData(marked, seen + [e], tail, false, base, res);
        assert e in seen + [e];
      }
    }
  }

  /** The result of mark_clean(modbase, mobres), for every cache. */
  lemma CleanedListLaws(es: seq<CacheEntry>, base: int, res: int)
    requires SaneMod(base, res)
    ensures |CleanedList(es, base, res)| == |es|
    ensures forall e :: e in es ==> Has(CleanedList(es, base, res), e, base, res)
    ensures AllClean(CleanedList(es, base, res), base, res) <==> !Blocked(es, true, base, res)
    ensures Small(es, CLEAN_BUF_SIZE) ==> AllClean(CleanedList(es, base, res), base, res)
  {
    hide Selected, Has, Scan;
    ScanKeepsData([], [], es, true, base, res);
    ScanCleans([], [], es, true, base, res);
  }

  /** An entry as the scan leaves it, if it comes that far. */
  ghost function Cleaned(e: CacheEntry, base: int, res: int): CacheEntry
    requires SaneMod(base, res)
  {
    if Selected(e.key, base, res) then e.(dirty := false) else e
  }

  /** Every entry is there afterwards, cleaned if it was to be, and nothing else. */
  lemma {:induction false} ScanMembers(marked: seq<CacheEntry>, seen: seq<CacheEntry>, rest: seq<CacheEntry>,
                                       first: bool, base: int, res: int)
    requires SaneMod(base, res) && Small(rest, CLEAN_BUF_SIZE)
    ensures forall e :: e in marked || e in seen ==> e in Scan(marked, seen, rest, first, base, res)
    ensures forall e :: e in rest ==> Cleaned(e, base, res) in Scan(marked, seen, rest, first, base, res)
    ensures forall g :: g in Scan(marked, seen, rest, first, base, res) ==>
              g in marked || g in seen || exists e :: e in rest && Cleaned(e, base, res) == g
    decreases |rest|
  {
    hide Selected;
    if rest != [] {
      var e, tail := rest[0], rest[1..];
      assert rest == [e] + tail && e.len <= CLEAN_BUF_SIZE;
      if Stops(e, first) && Selected(e.key, base, res) {
        ScanMembers([e.(dirty := false)] + marked, seen, tail, false, base, res);
        assert e.(dirty := false) in [e.(dirty := false)] + marked;
        assert e in rest && Cleaned(e, base, res) == e.(dirty := false);
      } else {
        assert e in rest && Cleaned(e, base, res) == e;
        ScanMembers(marked, seen + [e], tail, false, base, res);
        assert e in seen + [e];
      }
    }
  }

  /**
   What mark_clean(modbase, mobres) does to every key, if all values fit its buffer: entries whose key numbers leave
   the remainder are clean, all others as they were.
   */
  lemma CleanedLookup(es: seq<CacheEntry>, base: int, res: int, k: Key)
    requires SaneMod(base, res) && DistinctKeys(es) && DistinctKeys(CleanedList(es, base, res))
    requires Small(es, CLEAN_BUF_SIZE)
    ensures Lookup(CleanedList(es, base, res), k) == ClassCleaned(Lookup(es, k), base, res)
  {
    hide Selected, Lookup, DistinctKeys, Scan, InClass;
    var cleaned := CleanedList(es, base, res);
    SelectedIsClass(k, base, res);
    ScanMembers([], [], es, true, base, res);
    LookupMember(es, k);
    LookupMember(cleaned, k);
    if Lookup(es, k).Some? {
      FoundAt(cleaned, Cleaned(Lookup(es, k).value, base, res));
    } else if Lookup(cleaned, k).Some? {
      var e :| e in es && Cleaned(e, base, res) == Lookup(cleaned, k).value;
      FoundAt(es, e);
    }
  }

  ghost function ClassCleaned(e: Option<CacheEntry>, base: int, res: int): Option<CacheEntry>
    requires SaneMod(base, res)
  {
    if e.Some? && InClass(e.value.key, base, res) then Some(e.value.(dirty := false)) else e
  }

  /** An entry that the scan may meet again without effect. */
  ghost predicate Passed(e: CacheEntry, base: int, res: int)
    requires SaneMod(base, res)
  {
    e.dirty ==> e.len <= CLEAN_BUF_SIZE && !Selected(e.key, base, res)
  }

  /** The parts of the list in the middle of the scan, with the iterator at position p. */
  datatype Parts = Parts(marked: seq<CacheEntry>, seen: seq<CacheEntry>, rest: seq<CacheEntry>, first: bool,
    keys: seq<Key>)

  /** What the scan is to end with: the list and the keys marked. */
  datatype Goal = Goal(list: seq<CacheEntry>, keys: seq<Key>)

  ghost predicate Scanning(es: seq<CacheEntry>, t: Parts, p: nat, goal: Goal, base: int, res: int)
    requires SaneMod(base, res)
  {
    var b := |t.marked| + |t.seen|;
    && es == t.marked + t.seen + t.rest && p <= |es|
    && Scan(t.marked, t.seen, t.rest, t.first, base, res) == goal.list
    && t.keys + ScanKeys(t.rest, t.first, base, res) == goal.keys
    && (forall i :: 0 <= i < b ==> Passed(es[i], base, res))
    && (forall i :: b <= i < p ==> !es[i].dirty)
    && (t.first ==> p == 0 && b == 0)
    && (!t.first && p < |es| ==> es[p].dirty)
  }

  /** The iterator goes on from i to j: only clean entries lie between, and it stops at a dirty one. */
  ghost predicate Advances(es: seq<CacheEntry>, i: nat, j: nat) {
    i < j <= |es| && (forall m :: i < m < j ==> !es[m].dirty) && (j < |es| ==> es[j].dirty)
  }

  /** Clean entries up to the iterator join the seen part. */
  lemma Absorb(es: seq<CacheEntry>, t: Parts, p: nat, goal: Goal, base: int, res: int) returns (u: Parts)
    requires SaneMod(base, res) && Scanning(es, t, p, goal, base, res) && |t.marked| + |t.seen| <= p < |es|
    ensures Scanning(es, u, p, goal, base, res) && |u.marked| + |u.seen| == p && u.rest != [] && u.rest[0] == es[p]
    ensures |u.rest| <= |t.rest| && u.first == t.first && u.marked == t.marked && u.keys == t.keys
  {
    hide Scan, ScanKeys, Selected, Passed;
    var b := |t.marked| + |t.seen|;
    if t.first {
      return t;
    }
    var d := p - b;
    SplitAt(es, t.marked, t.seen, t.rest, d);
    u := t.(seen := t.seen + t.rest[..d], rest := t.rest[d..]);
    ScanSkipsClean(t.marked, t.seen, t.rest, d, base, res);
    forall i | b <= i < p ensures Passed(es[i], base, res) {
      CleanIsPassed(es[i], base, res);
    }
  }

  lemma SplitAt(es: seq<CacheEntry>, a: seq<CacheEntry>, b: seq<CacheEntry>, c: seq<CacheEntry>, d: nat)
    requires es == a + b + c && d <= |c|
    ensures es == a + (b + c[..d]) + c[d..]
    ensures forall i :: 0 <= i < |c| ==> c[i] == es[|a| + |b| + i]
  {
    assert c == c[..d] + c[d..];
  }

  lemma CleanIsPassed(e: CacheEntry, base: int, res: int)
    requires SaneMod(base, res)
    ensures !e.dirty || (e.len <= CLEAN_BUF_SIZE && !Selected(e.key, base, res)) <==> Passed(e, base, res)
  {
  }

  /** A value that is too large ends the scan with the list as it is. */
  lemma ScanEnds(es: seq<CacheEntry>, t: Parts, p: nat, goal: Goal, base: int, res: int)
    requires SaneMod(base, res) && Scanning(es, t, p, goal, base, res)
    requires p == |es| || es[p].len > CLEAN_BUF_SIZE
    ensures es == goal.list && t.keys == goal.keys
  {
    hide Scan, ScanKeys, Selected;
    if p == |es| {
      var b := |t.marked| + |t.seen|;
      assert forall i :: 0 <= i < |t.rest| ==> t.rest[i] == es[b + i];
      ScanDone(t.marked, t.seen, t.rest, t.first, base, res);
    } else {
      var u := Absorb(es, t, p, goal, base, res);
      ScanStop(u.marked, u.seen, u.rest, u.first, base, res);
    }
  }

  /** An entry that is not selected is passed. */
  lemma ScanPasses(es: seq<CacheEntry>, t: Parts, p: nat, j: nat, goal: Goal, base: int, res: int) returns (u: Parts)
    requires SaneMod(base, res) && Scanning(es, t, p, goal, base, res)
    requires p < |es| && es[p].len <= CLEAN_BUF_SIZE && !Selected(es[p].key, base, res) && Advances(es, p, j)
    ensures Scanning(es, u, j, goal, base, res) && |u.rest| <= |t.rest| && !u.first && u.keys == t.keys
  {
    hide Scan, ScanKeys, Selected, Passed;
    if p < |t.marked| + |t.seen| {
      u := t;
    } else {
      u := Absorb(es, t, p, goal, base, res);
      ScanStop(u.marked, u.seen, u.rest, u.first, base, res);
      CleanIsPassed(es[p], base, res);
      u := Parts(u.marked, u.seen + [es[p]], u.rest[1..], false, u.keys);
    }
  }

  /** A selected entry is cleaned and moves to the front, where the scan starts over. */
  lemma ScanMarks(es: seq<CacheEntry>, t: Parts, p: nat, es': seq<CacheEntry>, j: nat, goal: Goal, base: int, res: int)
    returns (u: Parts)
    requires SaneMod(base, res) && Scanning(es, t, p, goal, base, res)
    requires p < |es| && es[p].len <= CLEAN_BUF_SIZE && Selected(es[p].key, base, res)
    requires es' == [es[p].(dirty := false)] + es[..p] + es[p + 1..] && Advances(es', 0, j)
    ensures Scanning(es', u, j, goal, base, res) && |u.rest| < |t.rest| && u.keys == t.keys + [es[p].key]
  {
    hide Scan, ScanKeys, Selected, Passed;
    CleanIsPassed(es[p], base, res);
    u := Absorb(es, t, p, goal, base, res);
    ScanStop(u.marked, u.seen, u.rest, u.first, base, res);
    var e' := es[p].(dirty := false);
    MarkedParts(es, u, p, e');
    assert u.keys + ([es[p].key] + ScanKeys(u.rest[1..], false, base, res)) ==
      (u.keys + [es[p].key]) + ScanKeys(u.rest[1..], false, base, res);
    u := Parts([e'] + u.marked, u.seen, u.rest[1..], false, u.keys + [es[p].key]);
    CleanIsPassed(e', base, res);
    PassedFront(es, e', p, es', base, res);
  }

  lemma PassedFront(es: seq<CacheEntry>, e: CacheEntry, p: nat, es': seq<CacheEntry>, base: int, res: int)
    requires p < |es| && es' == [e] + es[..p] + es[p + 1..]
    requires SaneMod(base, res) && Passed(e, base, res) && forall i :: 0 <= i < p ==> Passed(es[i], base, res)
    ensures forall i :: 0 <= i < p + 1 ==> Passed(es'[i], base, res)
  {
    hide Passed;
  }

  lemma MarkedParts(es: seq<CacheEntry>, t: Parts, p: nat, e: CacheEntry)
    requires es == t.marked + t.seen + t.rest && |t.marked| + |t.seen| == p < |es|
    ensures [e] + es[..p] + es[p + 1..] == ([e] + t.marked) + t.seen + t.rest[1..]
  {
    assert es[..p] == t.marked + t.seen && es[p + 1..] == t.rest[1..];
  }

  /** How the scan goes on at an entry where the iterator stops. */
  lemma ScanStop(marked: seq<CacheEntry>, seen: seq<CacheEntry>, rest: seq<CacheEntry>, first: bool, base: int,
                 res: int)
    requires SaneMod(base, res) && rest != [] && Stops(rest[0], first)
    ensures Scan(marked, seen, rest, first, base, res) ==
      var e := rest[0];
      if e.len > CLEAN_BUF_SIZE then marked + seen + rest
      else if Selected(e.key, base, res) then Scan([e.(dirty := false)] + marked, seen, rest[1..], false, base, res)
      else Scan(marked, seen + [e], rest[1..], false, base, res)
    ensures ScanKeys(rest, first, base, res) ==
      var e := rest[0];
      if e.len > CLEAN_BUF_SIZE then []
      else (if Selected(e.key, base, res) then [e.key] else []) + ScanKeys(rest[1..], false, base, res)
  {
  }

  lemma ScanDone(marked: seq<CacheEntry>, seen: seq<CacheEntry>, rest: seq<CacheEntry>, first: bool, base: int,
                 res: int)
    requires SaneMod(base, res) && (!first || rest == []) && forall i :: 0 <= i < |rest| ==> !rest[i].dirty
    ensures Scan(marked, seen, rest, first, base, res) == marked + seen + rest
    ensures ScanKeys(rest, first, base, res) == []
  {
    if rest != [] {
      ScanSkipsClean(marked, seen, rest, |rest|, base, res);
      assert rest[..|rest|] == rest && rest[|rest|..] == [];
      assert marked + (seen + rest) == marked + seen + rest;
    }
  }

  lemma MarkCleanAt(es: seq<CacheEntry>, p: nat)
    requires DistinctKeys(es) && p < |es|
    ensures MarkClean(es, es[p].key) == [es[p].(dirty := false)] + es[..p] + es[p + 1..]
  {
    IndexOfAt(es, p);
  }

  lemma ScanStarts(es: seq<CacheEntry>, goal: Goal, base: int, res: int)
    requires SaneMod(base, res) && goal == Goal(CleanedList(es, base, res), ScanKeys(es, true, base, res))
    ensures Scanning(es, Parts([], [], es, true, []), 0, goal, base, res)
  {
    hide Scan, ScanKeys;
    assert [] + [] + es == es;
  }
}
