/**
 The streaming part of MD5 (RFC 1321): buffering, the bit count, padding and output.
 The transformation of one 64-byte block is a parameter.
 */
module Md5 {
  import opened Arithmetic
  import opened Bytes
  import opened ChunkAllocators

  const BLOCK := 64

  datatype Words = Words(a: u32, b: u32, c: u32, d: u32)

  type Transform = (Words, seq<byte>) -> Words

  const INIT := Words(0x6745_2301, 0xefcd_ab89, 0x98ba_dcfe, 0x1032_5476)

  /** The state after the blocks of data, one after the other. */
  function Fold(f: Transform, s: Words, data: seq<byte>): Words
    requires |data| % BLOCK == 0
    decreases |data|
  {
    if data == [] then s else Fold(f, f(s, data[..BLOCK]), data[BLOCK..])
  }

  lemma {:induction false} FoldAppend(f: Transform, s: Words, a: seq<byte>, b: seq<byte>)
    requires |a| % BLOCK == 0 && |b| % BLOCK == 0
    ensures (|a| + |b|) % BLOCK == 0 && Fold(f, s, a + b) == Fold(f, Fold(f, s, a), b)
    decreases |a|
  {
    if a == [] {
      assert a + b == b;
    } else {
      assert (a + b)[..BLOCK] == a[..BLOCK] && (a + b)[BLOCK..] == a[BLOCK..] + b;
      FoldAppend(f, f(s, a[..BLOCK]), a[BLOCK..], b);
    }
  }

  lemma FoldBlock(f: Transform, s: Words, a: seq<byte>, b: seq<byte>)
    requires |a| % BLOCK == 0 && |b| == BLOCK
    ensures Fold(f, s, a + b) == f(Fold(f, s, a), b)
  {
    FoldAppend(f, s, a, b);
    assert b[..BLOCK] == b && b[BLOCK..] == [];
  }

  function Zeros(n: nat): (r: seq<byte>)
    ensures |r| == n
  {
    seq(n, _ => 0)
  }

  /** One bit, then zeros up to 56 bytes modulo 64: at least one byte, at most a block. */
  function PadLen(len: nat): (n: nat)
    ensures 0 < n <= BLOCK && (len + n) % BLOCK == 56
  {
    var index := len % BLOCK;
    if index < 56 then 56 - index else 120 - index
  }

  /** What goes behind a message of len bytes: padding, and the bit count modulo 2^64. */
  function Trailer(len: nat): (r: seq<byte>)
    ensures |r| == PadLen(len) + 8
    ensures (len + |r|) % BLOCK == 0
  {
    assert (len + PadLen(len) + 8) % BLOCK == 0 by { ModOfSum(64, (len + PadLen(len)) / BLOCK); }
    [0x80] + Zeros(PadLen(len) - 1) + EncodeU64(8 * len % TWO_64)
  }

  function Padded(msg: seq<byte>): (r: seq<byte>)
    ensures |r| % BLOCK == 0
  {
    msg + Trailer(|msg|)
  }

  function EncodeWords(w: Words): (r: seq<byte>)
    ensures |r| == 16
  {
    EncodeU32(w.a) + EncodeU32(w.b) + EncodeU32(w.c) + EncodeU32(w.d)
  }

  /** The digest as RFC 1321 defines it, for any block transformation. */
  function Digest(f: Transform, msg: seq<byte>): (r: seq<byte>)
    ensures |r| == 16
  {
    EncodeWords(Fold(f, INIT, Padded(msg)))
  }

  /** The initial words are the bytes from 01 to ef upwards and back downwards, section 3.3 of RFC 1321. */
  lemma InitialBytes()
    ensures EncodeWords(INIT) ==
      [0x01, 0x23, 0x45, 0x67, 0x89, 0xab, 0xcd, 0xef, 0xfe, 0xdc, 0xba, 0x98, 0x76, 0x54, 0x32, 0x10]
  {
    hide EncodeU32;
    BytesOfWord([0x01, 0x23, 0x45, 0x67], INIT.a);
    BytesOfWord([0x89, 0xab, 0xcd, 0xef], INIT.b);
    BytesOfWord([0xfe, 0xdc, 0xba, 0x98], INIT.c);
    BytesOfWord([0x76, 0x54, 0x32, 0x10], INIT.d);
  }

  /** The digest byte by byte: the four words in order, of each the low byte first. */
  lemma DigestBytes(f: Transform, msg: seq<byte>)
    ensures var w := Fold(f, Words(0x6745_2301, 0xefcd_ab89, 0x98ba_dcfe, 0x1032_5476), Padded(msg));
      Digest(f, msg) ==
        [w.a % 256, w.a / 0x100 % 256, w.a / 0x1_0000 % 256, w.a / 0x100_0000,
         w.b % 256, w.b / 0x100 % 256, w.b / 0x1_0000 % 256, w.b / 0x100_0000,
         w.c % 256, w.c / 0x100 % 256, w.c / 0x1_0000 % 256, w.c / 0x100_0000,
         w.d % 256, w.d / 0x100 % 256, w.d / 0x1_0000 % 256, w.d / 0x100_0000]
  {
    hide Fold, Padded, EncodeU32;
    var w := Fold(f, INIT, Padded(msg));
    WordBytes(w.a);
    WordBytes(w.b);
    WordBytes(w.c);
    WordBytes(w.d);
  }

  /** Two messages with the same padded form are the same. */
  lemma PaddedInjective(m: seq<byte>, n: seq<byte>)
    requires 8 * |m| < TWO_64 && 8 * |n| < TWO_64 && Padded(m) == Padded(n)
    ensures m == n
  {
    hide EncodeU64, Trailer;
    var p, q := Padded(m), Padded(n);
    TrailerEnd(|m|);
    TrailerEnd(|n|);
    assert p[|p| - 8..] == Trailer(|m|)[PadLen(|m|)..];
    assert q[|q| - 8..] == Trailer(|n|)[PadLen(|n|)..];
    EncodeU64Injective(8 * |m|, 8 * |n|);
    assert p[..|m|] == m && q[..|n|] == n;
  }

  lemma TrailerEnd(len: nat)
    requires 8 * len < TWO_64
    ensures Trailer(len)[PadLen(len)..] == EncodeU64(8 * len)
  {
    hide EncodeU64;
  }

  lemma ModOfSum(a: int, k: int)
    ensures (a + BLOCK * k) % BLOCK == a % BLOCK
  {
  }

  /** The two count words after more bytes: a wrapped low word shows as a smaller one and carries. */
  lemma CountStep(lo: u32, hi: u32, len: nat, more: nat)
    requires lo + TWO_32 * hi == 8 * len % TWO_64 && more < TWO_32
    ensures var shifted := more * 8 % TWO_32;
      var lo' := (lo + shifted) % TWO_32;
      var hi' := (hi + (if lo' < shifted then 1 else 0) + more / 0x2000_0000) % TWO_32;
      lo' + TWO_32 * hi' == 8 * (len + more) % TWO_64
  {
    var shifted, top := more * 8 % TWO_32, more / 0x2000_0000;
    assert more * 8 == top * TWO_32 + shifted;
    var lo' := (lo + shifted) % TWO_32;
    var carry := if lo' < shifted then 1 else 0;
    assert lo + shifted == lo' + carry * TWO_32;
    var h := hi + carry + top;
    var hi' := h % TWO_32;
    assert h == hi' + h / TWO_32 * TWO_32;
    assert lo + TWO_32 * hi + 8 * more == lo' + TWO_32 * hi' + (h / TWO_32) * TWO_64;
    var q := 8 * len / TWO_64;
    assert 8 * (len + more) == (q + h / TWO_32) * TWO_64 + (lo' + TWO_32 * hi');
    ModUnique(8 * (len + more), q + h / TWO_32, lo' + TWO_32 * hi');
  }

  lemma ModUnique(x: int, q: int, r: int)
    requires x == q * TWO_64 + r && 0 <= r < TWO_64
    ensures x % TWO_64 == r
  {
  }

  /** The low word gives the position in the block, even after wrapping around. */
  lemma IndexFromCount(lo: u32, hi: u32, len: nat)
    requires lo + TWO_32 * hi == 8 * len % TWO_64
    ensures lo / 8 % BLOCK == len % BLOCK
  {
    var q := 8 * len / TWO_64;
    var k := q * 0x80_0000_0000_0000 + hi * 0x80_0000;
    assert 512 * k == q * TWO_64 + TWO_32 * hi;
    assert 8 * len == lo + 512 * k;
    ByEight(lo, k, len);
  }

  lemma ByEight(lo: nat, k: int, len: nat)
    requires 8 * len == lo + 512 * k
    ensures lo / 8 % BLOCK == len % BLOCK
  {
    assert len == lo / 8 + BLOCK * k;
    ModOfSum(lo / 8, k);
  }

  lemma CarryFirst(hi: u32, top: nat)
    ensures ((hi + 1) % TWO_32 + top) % TWO_32 == (hi + 1 + top) % TWO_32
  {
    if hi + 1 == TWO_32 {
      assert (TWO_32 + top) % TWO_32 == top % TWO_32;
    }
  }

  /** The whole blocks of a message, and what is left over. */
  ghost function Whole(msg: seq<byte>): (r: seq<byte>)
    ensures |r| % BLOCK == 0 && |r| <= |msg|
  {
    msg[..|msg| - |msg| % BLOCK]
  }

  ghost function Rest(msg: seq<byte>): (r: seq<byte>)
    ensures |r| == |msg| % BLOCK
  {
    msg[|msg| - |msg| % BLOCK..]
  }

  lemma SplitUnique(msg: seq<byte>, a: seq<byte>, b: seq<byte>)
    requires msg == a + b && |a| % BLOCK == 0 && |b| < BLOCK
    ensures Whole(msg) == a && Rest(msg) == b
  {
    ModOfSum(|b|, |a| / BLOCK);
  }

  /** The test for another block in the input; the sum is one of 32-bit words. */
  predicate BlockAhead(i: nat, len: nat) {
    (i + 63) % TWO_32 < len
  }

  /** The loop over the blocks of an input of len bytes, with index bytes in the buffer, comes to position i. */
  ghost predicate Reaches(index: nat, len: nat, i: nat)
    requires index < BLOCK
    decreases i
  {
    i == BLOCK - index || (i > BLOCK && Reaches(index, len, i - BLOCK) && BlockAhead(i - BLOCK, len))
  }

  /** What an update can take after a message of done bytes. */
  predicate CanTake(done: nat, len: nat) {
    len < TWO_32 && (done % BLOCK == 0 || done % BLOCK + len < TWO_32)
  }

  /** Then the sum does not wrap at any position of the loop. */
  lemma GuardIsExact(done: nat, len: nat, i: nat)
    requires CanTake(done, len) && i <= len && (done + i) % BLOCK == 0
    ensures BlockAhead(i, len) <==> i + BLOCK <= len
  {
    var q := (done + i) / BLOCK - done / BLOCK;
    assert i == BLOCK * q - done % BLOCK;
  }

  lemma {:induction false} ReachedInside(index: nat, len: nat, i: nat)
    requires index < BLOCK <= index + len && CanTake(index, len) && Reaches(index, len, i)
    ensures i <= len && (index + i) % BLOCK == 0
    decreases i
  {
    if i != BLOCK - index {
      ReachedInside(index, len, i - BLOCK);
      GuardIsExact(index, len, i - BLOCK);
    }
  }

  lemma {:induction false} ReachesUpTo(index: nat, len: nat, i: nat, n: nat)
    requires 0 < index < BLOCK && len < TWO_32 <= index + len && i <= TWO_32 - index && i + index == BLOCK * (n + 1)
    ensures Reaches(index, len, i)
    decreases n
  {
    if n > 0 {
      ReachesUpTo(index, len, i - BLOCK, n - 1);
    }
  }

  /** Exactly when MD5Update reads no byte beyond its input. */
  lemma BlocksStayInside(index: nat, len: nat)
    requires index < BLOCK <= index + len && len < TWO_32
    ensures (forall i: nat :: Reaches(index, len, i) && BlockAhead(i, len) ==> i + BLOCK <= len) <==>
      CanTake(index, len)
  {
    hide BlockAhead, Reaches;
    if CanTake(index, len) {
      forall i: nat | Reaches(index, len, i) && BlockAhead(i, len) ensures i + BLOCK <= len {
        ReachedInside(index, len, i);
        GuardIsExact(index, len, i);
      }
    } else {
      ReachesUpTo(index, len, TWO_32 - index, TWO_32 / BLOCK - 1);
      WrapsAtEnd(index, len);
    }
  }

  lemma WrapsAtEnd(index: nat, len: nat)
    requires 0 < index < BLOCK && len < TWO_32 <= index + len
    ensures BlockAhead(TWO_32 - index, len) && TWO_32 - index + BLOCK > len
  {
  }

  class Md5Context {
    var count0: u32
    var count1: u32
    var state: Words
    const buffer: array<byte>
    const transform: Transform

    /** What has been fed in so far. */
    ghost var msg: seq<byte>

    ghost predicate Valid()
      reads this, buffer
    {
      && buffer.Length == BLOCK
      && count0 + TWO_32 * count1 == 8 * |msg| % TWO_64
      && state == Fold(transform, INIT, Whole(msg))
      && buffer[..|msg| % BLOCK] == Rest(msg)
    }

    /** MD5Init. */
    constructor (f: Transform)
      ensures Valid() && fresh(buffer) && msg == [] && transform == f
    {
      transform := f;
      count0, count1 := 0, 0;
      state := INIT;
      buffer := new byte[BLOCK];
      msg := [];
    }

    method AddCount(more: nat)
      requires more < TWO_32 && count0 + TWO_32 * count1 == 8 * |msg| % TWO_64
      modifies this`count0, this`count1
      ensures count0 + TWO_32 * count1 == 8 * (|msg| + more) % TWO_64
    {
      CountStep(count0, count1, |msg|, more);
      CarryFirst(count1, more / 0x2000_0000);
      var shifted := more * 8 % TWO_32;
      count0 := (count0 + shifted) % TWO_32;
      if count0 < shifted {
        count1 := (count1 + 1) % TWO_32;
      }
      count1 := (count1 + more / 0x2000_0000) % TWO_32;
    }

    /** The block that completes the buffer. */
    method FirstBlock(input: seq<byte>, index: nat)
      requires buffer.Length == BLOCK && index == |msg| % BLOCK && |input| + index >= BLOCK
      requires state == Fold(transform, INIT, Whole(msg)) && buffer[..index] == Rest(msg)
      modifies this`state, buffer
      ensures var part := BLOCK - index;
        (|msg| + part) % BLOCK == 0 && state == Fold(transform, INIT, msg + input[..part])
    {
      hide Fold;
      var part := BLOCK - index;
      CopyInto(buffer, index, input[..part]);
      assert buffer[..] == Rest(msg) + input[..part];
      state := transform(state, buffer[..]);
      FoldBlock(transform, INIT, Whole(msg), buffer[..]);
      assert Whole(msg) + (Rest(msg) + input[..part]) == msg + input[..part];
    }

    /** The blocks that the input holds in full, from i on. */
    method Blocks(input: seq<byte>, from: nat) returns (i: nat)
      requires from <= |input| && CanTake(|msg|, |input|)
      requires (|msg| + from) % BLOCK == 0 && state == Fold(transform, INIT, msg + input[..from])
      modifies this`state
      ensures i <= |input| < i + BLOCK && (|msg| + i) % BLOCK == 0 && state == Fold(transform, INIT, msg + input[..i])
    {
      hide Fold, BlockAhead, CanTake;
      i := from;
      GuardIsExact(|msg|, |input|, i);
      while BlockAhead(i, |input|)
        invariant i <= |input| && (|msg| + i) % BLOCK == 0 && state == Fold(transform, INIT, msg + input[..i])
        invariant BlockAhead(i, |input|) <==> i + BLOCK <= |input|
        decreases |input| - i
      {
        state := transform(state, input[i..i + 64]);
        FoldBlock(transform, INIT, msg + input[..i], input[i..i + 64]);
        assert msg + input[..i] + input[i..i + 64] == msg + input[..i + 64];
        ModOfSum(|msg| + i, 1);
        TakesShort(|msg|, |input|);
        i := (i + 64) % TWO_32;
        GuardIsExact(|msg|, |input|, i);
      }
    }

    /** MD5Update: however the message is cut into inputs, the context holds their concatenation. */
    method Update(input: seq<byte>)
      requires Valid() && CanTake(|msg|, |input|)
      modifies this, buffer
      ensures Valid() && msg == old(msg) + input
    {
      hide Fold, Whole, Rest, CanTake;
      TakesShort(|msg|, |input|);
      IndexFromCount(count0, count1, |msg|);
      var index := count0 / 8 % BLOCK;
      AddCount(|input|);
      var part := BLOCK - index;
      var i := 0;
      if |input| >= part {
        FirstBlock(input, index);
        i := Blocks(input, part);
        index := 0;
        SplitUnique(msg + input, msg + input[..i], input[i..]);
      } else {
        assert msg + input == Whole(msg) + (Rest(msg) + input) by { Parts(msg); }
        SplitUnique(msg + input, Whole(msg), Rest(msg) + input);
        assert input[0..] == input;
      }
      KeepRest(input[i..], index, msg + input);
    }

    /** What does not fill a block goes to the buffer. */
    method KeepRest(rest: seq<byte>, index: nat, ghost whole: seq<byte>)
      requires buffer.Length == BLOCK && index + |rest| < BLOCK && Rest(whole) == buffer[..index] + rest
      requires count0 + TWO_32 * count1 == 8 * |whole| % TWO_64 && state == Fold(transform, INIT, Whole(whole))
      modifies buffer, this`msg
      ensures Valid() && msg == whole
    {
      hide Fold, Whole, Rest;
      CopyInto(buffer, index, rest);
      msg := whole;
      assert buffer[..index + |rest|] == old(buffer[..index]) + rest;
    }

    /** MD5Final: the digest of everything fed in; the context is cleared. */
    method Final() returns (digest: seq<byte>)
      requires Valid()
      modifies this, buffer
      ensures digest == Digest(transform, old(msg))
      ensures count0 == count1 == 0 && state == Words(0, 0, 0, 0) && buffer[..] == Zeros(BLOCK)
    {
      hide Fold, Whole, Rest, EncodeU32, EncodeWords, CanTake;
      ghost var m := msg;
      var bits := EncodeU32(count0) + EncodeU32(count1);
      BitCount(count0, count1, 8 * |msg| % TWO_64);
      IndexFromCount(count0, count1, |msg|);
      var index := count0 / 8 % BLOCK;
      var padLen := if index < 56 then 56 - index else 120 - index;
      var padding := [0x80] + Zeros(BLOCK - 1);
      assert padding[..padLen] == [0x80] + Zeros(padLen - 1);
      TakesShort(|msg|, padLen);
      Update(padding[..padLen]);
      TakesShort(|msg|, |bits|);
      Update(bits);
      assert msg == Padded(m);
      SplitUnique(msg, Padded(m), []);
      digest := EncodeWords(state);
      count0, count1, state := 0, 0, Words(0, 0, 0, 0);
      forall k | 0 <= k < BLOCK {
        buffer[k] := 0;
      }
    }
  }

  lemma TakesShort(done: nat, len: nat)
    ensures CanTake(done, len) ==> len < TWO_32
    ensures len <= BLOCK ==> CanTake(done, len)
  {
  }

  lemma BitCount(lo: u32, hi: u32, n: u64)
    requires lo + TWO_32 * hi == n
    ensures EncodeU32(lo) + EncodeU32(hi) == EncodeU64(n)
  {
    hide EncodeU32;
    DivUnique(n, TWO_32, hi, lo);
  }

  function Concat(parts: seq<seq<byte>>): seq<byte> {
    if parts == [] then [] else parts[0] + Concat(parts[1..])
  }

  /** Each part can be taken after the parts before it. */
  predicate CanTakeAll(done: nat, parts: seq<seq<byte>>)
    decreases |parts|
  {
    parts == [] || (CanTake(done, |parts[0]|) && CanTakeAll(done + |parts[0]|, parts[1..]))
  }

  /** Parts of whole blocks, the last one apart, always can. */
  lemma {:induction false} WholeBlocksFit(done: nat, parts: seq<seq<byte>>)
    requires done % BLOCK == 0
    requires forall i :: 0 <= i < |parts| ==> |parts[i]| < TWO_32 && (i + 1 < |parts| ==> |parts[i]| % BLOCK == 0)
    ensures CanTakeAll(done, parts)
    decreases |parts|
  {
    if |parts| > 1 {
      ModOfSum(done, |parts[0]| / BLOCK);
      WholeBlocksFit(done + |parts[0]|, parts[1..]);
    }
  }

  lemma ConcatStep(parts: seq<seq<byte>>, i: nat, done: seq<byte>)
    requires i <= |parts|
    ensures i < |parts| ==> done + Concat(parts[i..]) == (done + parts[i]) + Concat(parts[i + 1..])
    ensures i == |parts| ==> done + Concat(parts[i..]) == done
    ensures parts[0..] == parts && [] + Concat(parts) == Concat(parts)
  {
    if i < |parts| {
      assert parts[i..][1..] == parts[i + 1..];
    }
  }

  /** A message given in any number of parts has the digest of the whole message. */
  method DigestOfParts(f: Transform, parts: seq<seq<byte>>) returns (digest: seq<byte>)
    requires CanTakeAll(0, parts)
    ensures digest == Digest(f, Concat(parts))
  {
    hide Digest, Concat, Md5Context.Valid, CanTake;
    var c := new Md5Context(f);
    ConcatStep(parts, 0, []);
    for i := 0 to |parts|
      invariant c.Valid() && c.transform == f && c.msg + Concat(parts[i..]) == Concat(parts)
      invariant fresh(c) && fresh(c.buffer) && CanTakeAll(|c.msg|, parts[i..])
    {
      ConcatStep(parts, i, c.msg);
      assert parts[i..][1..] == parts[i + 1..];
      c.Update(parts[i]);
    }
    ConcatStep(parts, |parts|, c.msg);
    digest := c.Final();
  }

  lemma Parts(msg: seq<byte>)
    ensures Whole(msg) + Rest(msg) == msg
  {
  }
}
