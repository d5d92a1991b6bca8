/** The hash table behind tab completion: every prefix of every word, with the words that have it. */
module CompletionHashes {
  import opened Options
  import opened Bytes

  type Word = seq<byte>

  datatype Bucket = Bucket(h: u32, key: Word, count: nat, data: seq<Word>)

  datatype Pair = Pair(key: Word, word: Word)

  /** The words entered under a key, newest first. */
  ghost function Entered(log: seq<Pair>, p: Word): seq<Word> {
    if log == [] then []
    else
      var u, older := log[|log| - 1], Entered(log[..|log| - 1], p);
      if u.key == p then [u.word] + older else older
  }

  /** The words with a prefix, newest first, each as often as it was added. */
  ghost function WithPrefix(words: seq<Word>, p: Word): seq<Word> {
    if words == [] then []
    else
      var w, older := words[|words| - 1], WithPrefix(words[..|words| - 1], p);
      if p <= w then [w] + older else older
  }

  /** The updates of a word's prefixes up to length n. */
  ghost function Prefixes(w: Word, n: nat): seq<Pair>
    requires n <= |w|
  {
    if n == 0 then [] else Prefixes(w, n - 1) + [Pair(w[..n], w)]
  }

  ghost function LogOf(words: seq<Word>): seq<Pair> {
    if words == [] then []
    else var w := words[|words| - 1]; LogOf(words[..|words| - 1]) + Prefixes(w, |w|)
  }

  lemma EnteredSnoc(log: seq<Pair>, u: Pair, p: Word)
    ensures Entered(log + [u], p) == (if u.key == p then [u.word] else []) + Entered(log, p)
  {
    assert (log + [u])[..|log|] == log;
  }

  /** A word's prefixes enter it once under each of them. */
  lemma {:induction false} EnteredPrefixes(log: seq<Pair>, w: Word, n: nat, p: Word)
    requires n <= |w| && p != []
    ensures Entered(log + Prefixes(w, n), p) == (if p <= w[..n] then [w] else []) + Entered(log, p)
    decreases n
  {
    if n == 0 {
      assert log + [] == log;
    } else {
      EnteredPrefixes(log, w, n - 1, p);
      assert log + Prefixes(w, n) == (log + Prefixes(w, n - 1)) + [Pair(w[..n], w)];
      EnteredSnoc(log + Prefixes(w, n - 1), Pair(w[..n], w), p);
      PrefixStep(w, n, p);
    }
  }

  lemma PrefixStep(w: Word, n: nat, p: Word)
    requires 0 < n <= |w|
    ensures p <= w[..n] <==> p <= w[..n - 1] || p == w[..n]
    ensures !(p <= w[..n - 1] && p == w[..n])
  {
    if |p| < n {
      assert w[..n][..|p|] == w[..|p|] == w[..n - 1][..|p|];
    } else if |p| == n {
      assert p <= w[..n] <==> p == w[..n];
    }
  }

  /** Looking words up by prefix is filtering the list of all words. */
  lemma {:induction false} EnteredWords(words: seq<Word>, p: Word)
    requires p != []
    ensures Entered(LogOf(words), p) == WithPrefix(words, p)
  {
    if words != [] {
      var front, w := words[..|words| - 1], words[|words| - 1];
      EnteredWords(front, p);
      EnteredPrefixes(LogOf(front), w, |w|, p);
      assert w[..|w|] == w;
    }
  }

  /** The words of the first bucket with a key. */
  ghost function DataOf(chain: seq<Bucket>, p: Word): seq<Word> {
    if chain == [] then [] else if chain[0].key == p then chain[0].data else DataOf(chain[1..], p)
  }

  ghost predicate NotIn(chain: seq<Bucket>, i: nat, p: Word)
    requires i <= |chain|
  {
    forall j :: 0 <= j < i ==> chain[j].key != p
  }

  lemma {:induction false} DataAt(chain: seq<Bucket>, i: nat, p: Word)
    requires i <= |chain| && NotIn(chain, i, p)
    ensures i < |chain| && chain[i].key == p ==> DataOf(chain, p) == chain[i].data
    ensures i == |chain| ==> DataOf(chain, p) == []
    decreases |chain|
  {
    if i > 0 {
      assert chain[0].key != p;
      assert forall j :: 0 <= j < i - 1 ==> chain[1..][j] == chain[j + 1];
      DataAt(chain[1..], i - 1, p);
    }
  }

  /** One more word in a bucket is seen under its key and under no other. */
  lemma {:induction false} DataAfterAdd(chain: seq<Bucket>, i: nat, w: Word, p: Word)
    requires i < |chain| && NotIn(chain, i, chain[i].key)
    ensures var b := chain[i];
      var added := chain[i := b.(data := [w] + b.data, count := b.count + 1)];
      DataOf(added, p) == (if p == b.key then [w] else []) + DataOf(chain, p)
    decreases |chain|
  {
    var b := chain[i];
    var b' := b.(data := [w] + b.data, count := b.count + 1);
    if i > 0 {
      assert chain[i := b'][1..] == chain[1..][i - 1 := b'];
      assert chain[0].key != b.key;
      assert forall j :: 0 <= j < i - 1 ==> chain[1..][j] == chain[j + 1];
      DataAfterAdd(chain[1..], i - 1, w, p);
    } else {
      assert chain[0 := b'][1..] == chain[1..];
    }
  }

  lemma DataAfterPush(chain: seq<Bucket>, b: Bucket, p: Word)
    ensures DataOf([b] + chain, p) == if p == b.key then b.data else DataOf(chain, p)
  {
    assert ([b] + chain)[1..] == chain;
  }

  /** Where the buckets of a chain belong, and what they say of themselves. */
  ghost predicate ChainOk(chain: seq<Bucket>, hash: Word -> u32, size: nat, index: nat)
    requires size > 0
  {
    forall i :: 0 <= i < |chain| ==>
      && chain[i].key != [] && chain[i].h == hash(chain[i].key) && chain[i].h % size == index
      && chain[i].count == |chain[i].data| > 0
  }

  class HashTable {
    const size: u32
    const hash: Word -> u32
    const buckets: array<seq<Bucket>>

    /** The updates and the words so far. */
    ghost var log: seq<Pair>
    ghost var words: seq<Word>

    ghost predicate Valid()
      reads this`log, buckets
    {
      && size > 0 && buckets.Length == size
      && (forall i :: 0 <= i < size ==> ChainOk(buckets[i], hash, size, i))
      && (forall p: Word :: p != [] ==> DataOf(buckets[hash(p) % size], p) == Entered(log, p))
    }

    /** All updates of the words added are done. */
    ghost predicate Ready()
      reads this, buckets
    {
      Valid() && log == LogOf(words)
    }

    constructor (n: u32, f: Word -> u32)
      requires n > 0
      ensures Ready() && fresh(buckets) && words == [] && size == n && hash == f
    {
      size, hash := n, f;
      buckets := new seq<Bucket>[n](_ => []);
      log, words := [], [];
    }

    /** completion_hash_update: one more word under a key. */
    method Update(key: Word, word: Word) returns (ok: bool)
      requires Valid()
      modifies buckets, this`log
      ensures Valid()
      ensures ok <==> key != []
      ensures log == old(log) + if ok then [Pair(key, word)] else []
    {
      hide ChainOk, DataOf, Entered;
      var h := hash(key);
      var index := h % size;
      if |key| == 0 {
        assert log + [] == log;
        return false;
      }
      var chain := buckets[index];
      var i := FindIn(chain, h, key, index);
      if i < |chain| {
        buckets[index] := chain[i := chain[i].(data := [word] + chain[i].data, count := chain[i].count + 1)];
        KeepsAdd(chain, hash, size, index, i, word);
      } else {
        buckets[index] := [Bucket(h, key, 1, [word])] + chain;
        KeepsPush(chain, hash, size, index, key, word);
      }
      log := log + [Pair(key, word)];
      forall p: Word | p != [] ensures DataOf(buckets[hash(p) % size], p) == Entered(log, p) {
        EnteredSnoc(old(log), Pair(key, word), p);
        if i < |chain| {
          DataAfterAdd(chain, i, word, p);
        } else {
          DataAfterPush(chain, Bucket(h, key, 1, [word]), p);
          DataAt(chain, |chain|, key);
        }
      }
      return true;
    }

    /** The loop over a chain: the index of the bucket of a key, or the length. */
    method FindIn(chain: seq<Bucket>, h: u32, key: Word, ghost index: nat) returns (i: nat)
      requires size > 0 && ChainOk(chain, hash, size, index) && h == hash(key)
      ensures i <= |chain| && NotIn(chain, i, key) && (i < |chain| ==> chain[i].key == key)
    {
      i := 0;
      while i < |chain|
        invariant i <= |chain| && NotIn(chain, i, key)
      {
        if chain[i].h == h && |chain[i].key| == |key| && chain[i].key == key {
          return;
        }
        i := i + 1;
      }
    }

    /** add_word: enters a word under each of its prefixes. */
    method AddWord(word: Word)
      requires Ready()
      modifies this, buckets
      ensures Ready() && words == old(words) + [word]
    {
      hide Valid, Prefixes;
      ghost var was := log;
      PrefixesStep(word, 0, was);
      var i := 0;
      while i < |word|
        invariant i <= |word| && Valid() && log == was + Prefixes(word, i) && words == old(words)
      {
        var ok := Update(word[..i + 1], word);
        PrefixesStep(word, i + 1, was);
        i := i + 1;
      }
      words := words + [word];
      assert words[..|words| - 1] == old(words);
    }

    /** completion_hash_find: the bucket of a key. */
    method Find(key: Word) returns (b: Option<Bucket>)
      requires Valid()
      ensures key == [] ==> b.None?
      ensures key != [] ==> (b.None? <==> Entered(log, key) == [])
      ensures b.Some? ==> b.value.key == key && b.value.data == Entered(log, key) && b.value.count == |b.value.data|
    {
      hide DataOf, Entered;
      var h := hash(key);
      var index := h % size;
      var chain := buckets[index];
      var i := FindIn(chain, h, key, index);
      DataAt(chain, i, key);
      if i < |chain| {
        return Some(chain[i]);
      }
      return None;
    }

    /** find_all_matches: the words with a prefix. */
    method FindAllMatches(str: Word) returns (b: Option<Bucket>, resLength: nat)
      requires Ready()
      ensures resLength == if b.Some? then |str| else 0
      ensures b.None? <==> str == [] || WithPrefix(words, str) == []
      ensures b.Some? ==> b.value.data == WithPrefix(words, str)
    {
      hide Valid, WithPrefix, Entered;
      b := Find(str);
      if str != [] {
        EnteredWords(words, str);
      }
      resLength := if b.None? then 0 else |str|;
    }

    /** find_longest_match: how far all the words with a prefix agree. */
    method FindLongestMatch(str: Word) returns (b: Option<Bucket>, resLength: nat)
      requires Ready()
      ensures b.None? <==> str == [] || WithPrefix(words, str) == []
      ensures b.None? ==> resLength == 0
      ensures b.Some? ==> b.value.data == WithPrefix(words, str)
      ensures b.Some? ==> IsLongestCommon(WithPrefix(words, str), b.value.key, resLength)
    {
      hide Valid, WithPrefix, Entered, LogOf;
      b := Find(str);
      if str == [] || b.None? {
        if str != [] {
          EnteredWords(words, str);
        }
        return b, 0;
      }
      EnteredWords(words, str);
      ghost var all := WithPrefix(words, str);
      var count := b.value.count;
      var lm := |str|;
      var s := b.value.data[0];
      PrefixMembers(words, str);
      assert s in all && str == s[..lm];
      while lm < |s|
        invariant 0 < lm <= |s| && s == all[0] && all == WithPrefix(words, s[..lm]) && count == |all|
        invariant b.Some? && b.value.data == all && b.value.key == s[..lm]
      {
        var c := Find(s[..lm + 1]);
        EnteredWords(words, s[..lm + 1]);
        LongerPrefix(words, s[..lm], s[..lm + 1]);
        FirstStays(words, s, lm);
        if c.None? {
          break;
        }
        if c.value.count < count {
          CommonEnds(words, all, s, lm);
          return b, lm;
        }
        b := c;
        lm := lm + 1;
      }
      assert s[..|s|] == s;
      CommonWhole(words, all, s);
      resLength := lm;
    }
  }

  /** All words begin with key, and its length is the most of which this can be said. */
  ghost predicate IsLongestCommon(ws: seq<Word>, key: Word, n: nat) {
    && |key| == n
    && (forall w :: w in ws ==> key <= w)
    && (forall longer: Word :: |longer| > n ==> exists w :: w in ws && !(longer <= w))
  }

  lemma {:induction false} PrefixMembers(words: seq<Word>, p: Word)
    ensures forall w :: w in WithPrefix(words, p) ==> p <= w && w in words
  {
    if words != [] {
      PrefixMembers(words[..|words| - 1], p);
    }
  }

  lemma ShorterPrefix(s: Word, n: nat, w: Word)
    requires n < |s|
    ensures s[..n + 1] <= w ==> s[..n] <= w
  {
    if s[..n + 1] <= w {
      assert w[..n] == w[..n + 1][..n] == s[..n];
    }
  }

  /** The newest word with a prefix is still the newest with more of itself as the prefix. */
  lemma {:induction false} FirstStays(words: seq<Word>, s: Word, n: nat)
    requires n < |s| && WithPrefix(words, s[..n]) != [] && s == WithPrefix(words, s[..n])[0]
    ensures WithPrefix(words, s[..n + 1]) != [] && WithPrefix(words, s[..n + 1])[0] == s
  {
    var front, w := words[..|words| - 1], words[|words| - 1];
    ShorterPrefix(s, n, w);
    if s[..n] <= w {
      assert w == s && s[..n + 1] <= w;
    } else {
      FirstStays(front, s, n);
    }
  }

  lemma CommonEnds(words: seq<Word>, all: seq<Word>, s: Word, n: nat)
    requires n < |s| && all == WithPrefix(words, s[..n]) && all != [] && s == all[0]
    requires |WithPrefix(words, s[..n + 1])| < |all|
    ensures IsLongestCommon(all, s[..n], n)
  {
    PrefixMembers(words, s[..n]);
    assert s in all;
    forall longer: Word | |longer| > n ensures exists w :: w in all && !(longer <= w) {
      if forall w :: w in all ==> longer <= w {
        assert longer <= s;
        forall w | w in all ensures s[..n + 1] <= w {
          assert s[..n + 1] == longer[..n + 1] == w[..|longer|][..n + 1] == w[..n + 1];
        }
        LongerPrefix(words, s[..n], s[..n + 1]);
      }
    }
  }

  lemma CommonWhole(words: seq<Word>, all: seq<Word>, s: Word)
    requires all == WithPrefix(words, s) && all != [] && s == all[0]
    ensures IsLongestCommon(all, s, |s|)
  {
    PrefixMembers(words, s);
    assert s in all;
    forall longer: Word | |longer| > |s| ensures exists w :: w in all && !(longer <= w) {
      assert !(longer <= s);
    }
  }

  /** A longer prefix has fewer words, or the same. */
  lemma {:induction false} LongerPrefix(words: seq<Word>, p: Word, q: Word)
    requires p <= q
    ensures |WithPrefix(words, q)| <= |WithPrefix(words, p)|
    ensures |WithPrefix(words, q)| == |WithPrefix(words, p)| ==> WithPrefix(words, q) == WithPrefix(words, p)
    ensures (forall w :: w in WithPrefix(words, p) ==> q <= w) ==> WithPrefix(words, q) == WithPrefix(words, p)
  {
    if words != [] {
      var front, w := words[..|words| - 1], words[|words| - 1];
      LongerPrefix(front, p, q);
      assert forall x :: x in WithPrefix(front, p) ==> x in WithPrefix(words, p);
      if p <= w {
        assert w in WithPrefix(words, p);
      }
      if q <= w {
        assert p <= w by { assert q[..|p|] == p && w[..|q|] == q; assert w[..|p|] == w[..|q|][..|p|]; }
      }
    }
  }

  lemma KeepsAdd(chain: seq<Bucket>, hash: Word -> u32, size: nat, index: nat, i: nat, w: Word)
    requires size > 0 && ChainOk(chain, hash, size, index) && i < |chain|
    ensures ChainOk(chain[i := chain[i].(data := [w] + chain[i].data, count := chain[i].count + 1)], hash, size, index)
  {
  }

  lemma KeepsPush(chain: seq<Bucket>, hash: Word -> u32, size: nat, index: nat, key: Word, w: Word)
    requires size > 0 && ChainOk(chain, hash, size, index) && key != [] && hash(key) % size == index
    ensures ChainOk([Bucket(hash(key), key, 1, [w])] + chain, hash, size, index)
  {
  }

  lemma PrefixesStep(w: Word, n: nat, log: seq<Pair>)
    requires n <= |w|
    ensures n == 0 ==> log + Prefixes(w, n) == log
    ensures n > 0 ==> log + Prefixes(w, n) == (log + Prefixes(w, n - 1)) + [Pair(w[..n], w)]
  {
  }
}
