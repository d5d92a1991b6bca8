/**
 MurmurHash3_x64_128 over 64-bit words, modelled as integers modulo 2^64, and why it never
 confuses two keys of the same length of up to sixteen bytes: Unhash computes the key from the hash.
 */
module Murmur {
  import opened Arithmetic
  import opened Bytes

  const TWO_27 := 0x800_0000
  const TWO_33 := 0x2_0000_0000
  const TWO_37 := 0x20_0000_0000

  /** Bitwise exclusive or. */
  function Xor(a: nat, b: nat): nat {
    if a == 0 && b == 0 then 0 else (a % 2 + b % 2) % 2 + 2 * Xor(a / 2, b / 2)
  }

  lemma LowAndHigh(p: nat, y: nat)
    requires p < 2
    ensures (p + 2 * y) % 2 == p && (p + 2 * y) / 2 == y
  {
  }

  lemma {:induction false} XorParts(a: nat, b: nat)
    ensures Xor(a, b) == (a % 2 + b % 2) % 2 + 2 * Xor(a / 2, b / 2)
    ensures Xor(a, b) % 2 == (a % 2 + b % 2) % 2 && Xor(a, b) / 2 == Xor(a / 2, b / 2)
  {
    if a == 0 && b == 0 {
      assert Xor(0, 0) == 0;
    } else {
      LowAndHigh((a % 2 + b % 2) % 2, Xor(a / 2, b / 2));
    }
  }

  lemma XorOfZeros()
    ensures Xor(0, 0) == 0
  {
  }

  lemma {:induction false} XorTwice(a: nat, b: nat)
    ensures Xor(Xor(a, b), b) == a
    decreases a + b
  {
    hide Xor;
    XorOfZeros();
    if a != 0 || b != 0 {
      XorParts(a, b);
      XorParts(Xor(a, b), b);
      XorTwice(a / 2, b / 2);
    }
  }

  lemma {:induction false} XorZero(a: nat)
    ensures Xor(a, 0) == a
  {
    if a != 0 {
      XorZero(a / 2);
    }
  }

  function Pow2(n: nat): nat {
    if n == 0 then 1 else 2 * Pow2(n - 1)
  }

  lemma {:induction false} XorBound(a: nat, b: nat, n: nat)
    requires a < Pow2(n) && b < Pow2(n)
    ensures Xor(a, b) < Pow2(n)
  {
    if n > 0 && (a != 0 || b != 0) {
      XorBound(a / 2, b / 2, n - 1);
    }
  }

  /** The high part of an exclusive or with a small number is the high part of the large one. */
  lemma {:induction false} XorHigh(a: nat, b: nat, n: nat)
    requires b < Pow2(n) && Pow2(n) > 0
    ensures Xor(a, b) / Pow2(n) == a / Pow2(n)
    decreases n
  {
    if n == 0 {
      XorZero(a);
    } else {
      XorHigh(a / 2, b / 2, n - 1);
      PowPositive(n - 1);
      HalfThenDiv(a, Pow2(n - 1));
      HalfThenDiv(Xor(a, b), Pow2(n - 1));
      if a == 0 && b == 0 {} else {
        assert Xor(a, b) / 2 == Xor(a / 2, b / 2);
      }
    }
  }

  lemma PowPositive(n: nat)
    ensures Pow2(n) > 0
  {
  }

  lemma HalfThenDiv(a: nat, p: nat)
    requires p > 0
    ensures a / (2 * p) == (a / 2) / p
  {
    var q, r := (a / 2) / p, (a / 2) % p;
    assert a / 2 == q * p + r;
    assert a == 2 * (q * p + r) + a % 2;
    assert a == q * (2 * p) + (2 * r + a % 2) && 0 <= 2 * r + a % 2 < 2 * p;
    DivUnique(a, 2 * p, q, 2 * r + a % 2);
  }

  function Mul(x: u64, c: u64): u64 {
    x * c % TWO_64
  }

  /** Multiplying by an odd constant is undone by multiplying by its inverse modulo 2^64. */
  lemma MulUndone(x: u64, c: u64, d: u64)
    requires c * d % TWO_64 == 1
    ensures Mul(Mul(x, c), d) == x
  {
    var q, t := x * c / TWO_64, c * d / TWO_64;
    var y := Mul(x, c);
    assert x * c == q * TWO_64 + y && c * d == t * TWO_64 + 1;
    calc {
      y * d;
      (x * c - q * TWO_64) * d;
      x * c * d - q * TWO_64 * d;
      x * (c * d) - q * d * TWO_64;
      { assert x * (c * d) == x * (t * TWO_64 + 1); }
      x * t * TWO_64 + x - q * d * TWO_64;
      (x * t - q * d) * TWO_64 + x;
    }
    DivUnique(y * d, TWO_64, x * t - q * d, x);
  }

  /** Rotation left by r, where high is 2^(64-r) and low is 2^r. */
  function Rotl(x: u64, high: nat, low: nat): u64
    requires high > 0 && low > 0 && high * low == TWO_64
  {
    RotlParts(x, high, low);
    x % high * low + x / high
  }

  lemma RotlParts(x: u64, high: nat, low: nat)
    requires high > 0 && low > 0 && high * low == TWO_64
    ensures x / high < low
    ensures 0 <= x % high * low + x / high < TWO_64
  {
    var q, r := x / high, x % high;
    assert x == q * high + r;
    assert q >= low ==> q * high >= low * high;
    assert r * low <= (high - 1) * low == TWO_64 - low;
  }

  /** A rotation is undone by rotating the rest of the way. */
  lemma RotlUndone(x: u64, high: nat, low: nat)
    requires high > 0 && low > 0 && high * low == TWO_64
    ensures Rotl(Rotl(x, high, low), low, high) == x
  {
    RotlBack(x, high, low);
  }

  lemma RotlBack(x: u64, high: nat, low: nat)
    requires high > 0 && low > 0 && high * low == TWO_64
    ensures Rotl(x, high, low) / low == x % high && Rotl(x, high, low) % low == x / high
  {
    RotlParts(x, high, low);
    DivUnique(Rotl(x, high, low), low, x % high, x / high);
  }

  lemma {:induction false} PowAdd(m: nat, n: nat)
    ensures Pow2(m + n) == Pow2(m) * Pow2(n)
  {
    if m > 0 {
      PowAdd(m - 1, n);
    }
  }

  lemma PowZero()
    ensures Pow2(0) == 1
  {
  }

  lemma PowOne()
    ensures Pow2(1) == 2
  {
    assert Pow2(0) == 1;
  }

  lemma Pow33()
    ensures Pow2(8) == 256 && Pow2(33) == TWO_33 && Pow2(64) == TWO_64
  {
    hide Pow2;
    PowOne();
    PowAdd(1, 1);
    PowAdd(2, 2);
    PowAdd(4, 4);
    PowAdd(8, 8);
    PowAdd(16, 16);
    PowAdd(32, 32);
    PowAdd(1, 32);
  }

  function XorW(a: u64, b: u64): u64 {
    Pow33();
    XorBound(a, b, 64);
    Xor(a, b)
  }

  function XorShift(k: u64): u64 {
    XorW(k, k / TWO_33)
  }

  /** A shift by more than half the word is undone by doing it again. */
  lemma XorShiftUndone(x: u64)
    ensures XorShift(XorShift(x)) == x
  {
    hide Xor;
    Pow33();
    XorHigh(x, x / TWO_33, 33);
    XorTwice(x, x / TWO_33);
  }

  function Fmix(k: u64): u64 {
    XorShift(Mul(XorShift(Mul(XorShift(k), 0xff51afd7ed558ccd)), 0xc4ceb9fe1a85ec53))
  }

  function Unfmix(k: u64): u64 {
    XorShift(Mul(XorShift(Mul(XorShift(k), 0x9cb4b2f8129337db)), 0x4f74430c22a54005))
  }

  lemma FmixUndone(x: u64)
    ensures Unfmix(Fmix(x)) == x
  {
    hide XorShift, Mul;
    var a := XorShift(Mul(XorShift(x), 0xff51afd7ed558ccd));
    XorShiftUndone(Mul(a, 0xc4ceb9fe1a85ec53));
    MulUndone(a, 0xc4ceb9fe1a85ec53, 0x9cb4b2f8129337db);
    XorShiftUndone(Mul(XorShift(x), 0xff51afd7ed558ccd));
    MulUndone(XorShift(x), 0xff51afd7ed558ccd, 0x4f74430c22a54005);
    XorShiftUndone(x);
  }

  const C1: u64 := 0x87c37b91114253d5
  const C2: u64 := 0x4cf5ad432745937f
  const C1_INVERSE: u64 := 0xa98409e882ce4d7d
  const C2_INVERSE: u64 := 0xa81e14edd9de2c7f

  function Mix1(k: u64): u64 { Mul(Rotl(Mul(k, C1), TWO_33, TWO_31), C2) }
  function Mix2(k: u64): u64 { Mul(Rotl(Mul(k, C2), TWO_31, TWO_33), C1) }

  function Unmix1(k: u64): u64 { Mul(Rotl(Mul(k, C2_INVERSE), TWO_31, TWO_33), C1_INVERSE) }
  function Unmix2(k: u64): u64 { Mul(Rotl(Mul(k, C1_INVERSE), TWO_33, TWO_31), C2_INVERSE) }

  lemma MixUndone(x: u64)
    ensures Unmix1(Mix1(x)) == x && Unmix2(Mix2(x)) == x
  {
    hide Mul, Rotl;
    MulUndone(Rotl(Mul(x, C1), TWO_33, TWO_31), C2, C2_INVERSE);
    RotlUndone(Mul(x, C1), TWO_33, TWO_31);
    MulUndone(x, C1, C1_INVERSE);
    MulUndone(Rotl(Mul(x, C2), TWO_31, TWO_33), C1, C1_INVERSE);
    RotlUndone(Mul(x, C2), TWO_31, TWO_33);
    MulUndone(x, C2, C2_INVERSE);
  }

  lemma {:induction false} XorCommutes(a: nat, b: nat)
    ensures Xor(a, b) == Xor(b, a)
    decreases a + b
  {
    if a != 0 || b != 0 {
      XorCommutes(a / 2, b / 2);
    }
  }

  lemma XorUndone(x: u64, y: u64)
    ensures XorW(XorW(x, y), y) == x && XorW(XorW(y, x), y) == x
  {
    hide Xor;
    XorCommutes(x, y);
    XorTwice(x, y);
  }

  function Add(x: u64, y: u64): u64 { (x + y) % TWO_64 }

  function Sub(x: u64, y: u64): u64 { (x - y) % TWO_64 }

  lemma AddUndone(x: u64, y: u64)
    ensures Sub(Add(x, y), y) == x
  {
  }

  datatype State = State(h1: u64, h2: u64)

  /** Finalization: the length goes in, the two halves are added into each other, mixed, and added again. */
  function Finish(h: State, len: u64): State {
    var h1, h2 := XorW(h.h1, len), XorW(h.h2, len);
    var a1 := Add(h1, h2);
    var a2 := Add(h2, a1);
    var b1 := Add(Fmix(a1), Fmix(a2));
    State(b1, Add(Fmix(a2), b1))
  }

  function Unfinish(g: State, len: u64): State {
    var f2 := Sub(g.h2, g.h1);
    var a1, a2 := Unfmix(Sub(g.h1, f2)), Unfmix(f2);
    var h2 := Sub(a2, a1);
    State(XorW(Sub(a1, h2), len), XorW(h2, len))
  }

  lemma FinishUndone(h: State, len: u64)
    ensures Unfinish(Finish(h, len), len) == h
  {
    hide Fmix, Unfmix, Add, Sub, XorW;
    var h1, h2 := XorW(h.h1, len), XorW(h.h2, len);
    var a1 := Add(h1, h2);
    var a2 := Add(h2, a1);
    AddUndone(Fmix(a2), Add(Fmix(a1), Fmix(a2)));
    AddUndone(Fmix(a1), Fmix(a2));
    FmixUndone(a1);
    FmixUndone(a2);
    AddUndone(h2, a1);
    AddUndone(h1, h2);
    XorUndone(h.h1, len);
    XorUndone(h.h2, len);
  }

  /** Up to eight bytes, low byte first, as one word: how getblock reads them. */
  function Word(s: seq<byte>): (w: u64)
    requires |s| <= 8
  {
    WordBound(s);
    LittleEndian(s)
  }

  function LittleEndian(s: seq<byte>): nat {
    if s == [] then 0 else var low: int := s[0]; low + 256 * LittleEndian(s[1..])
  }

  lemma {:induction false} WordBound(s: seq<byte>)
    requires |s| <= 8
    ensures LittleEndian(s) < Pow2(8 * |s|) <= TWO_64
  {
    hide Pow2;
    Pow33();
    PowZero();
    if s != [] {
      WordBound(s[1..]);
      PowAdd(8, 8 * (|s| - 1));
    }
    PowMonotone(8 * |s|, 64);
  }

  lemma PowMonotone(m: nat, n: nat)
    requires m <= n
    ensures Pow2(m) <= Pow2(n)
    decreases n
  {
    if m < n {
      PowMonotone(m, n - 1);
    }
  }

  /** The n low bytes of a number. */
  function LowBytes(w: nat, n: nat): (s: seq<byte>)
    ensures |s| == n
  {
    if n == 0 then [] else [w % 256] + LowBytes(w / 256, n - 1)
  }

  lemma {:induction false} WordUndone(s: seq<byte>)
    ensures LowBytes(LittleEndian(s), |s|) == s
  {
    if s != [] {
      var low: int, rest := s[0], LittleEndian(s[1..]);
      assert (low + 256 * rest) % 256 == low && (low + 256 * rest) / 256 == rest;
      WordUndone(s[1..]);
    }
  }

  function Half1(h1: u64, h2: u64, k: u64): u64 {
    Add(Mul(Add(Rotl(XorW(h1, Mix1(k)), TWO_37, TWO_27), h2), 5), 0x52dce729)
  }

  function Half2(h2: u64, h1: u64, k: u64): u64 {
    Add(Mul(Add(Rotl(XorW(h2, Mix2(k)), TWO_33, TWO_31), h1), 5), 0x38495ab5)
  }

  /** One round of the body, over sixteen bytes. */
  function Body(h: State, block: seq<byte>): State
    requires |block| == 16
  {
    var h1 := Half1(h.h1, h.h2, Word(block[..8]));
    State(h1, Half2(h.h2, h1, Word(block[8..])))
  }

  function BodyAll(h: State, data: seq<byte>): State
    decreases |data|
  {
    if |data| < 16 then h else BodyAll(Body(h, data[..16]), data[16..])
  }

  /** The tail switch: the second word is mixed in from nine bytes on, the first from one. */
  function Tail(h: State, tail: seq<byte>): State
    requires |tail| < 16
  {
    if |tail| == 0 then h
    else if |tail| <= 8 then h.(h1 := XorW(h.h1, Mix1(Word(tail))))
    else State(XorW(h.h1, Mix1(Word(tail[..8]))), XorW(h.h2, Mix2(Word(tail[8..]))))
  }

  /** The hash: body over whole blocks, then the tail, then finalization with the length. */
  function Hash(data: seq<byte>, seed: u32): State
    requires |data| < TWO_31
  {
    Finish(Tail(BodyAll(State(seed, seed), data), data[|data| - |data| % 16..]), |data|)
  }

  /** Bits that do not meet: the exclusive or is the sum. */
  lemma {:induction false} XorDisjoint(a: nat, b: nat, n: nat)
    requires b < Pow2(n)
    ensures Xor(a * Pow2(n), b) == a * Pow2(n) + b
    decreases n
  {
    hide Xor;
    if n == 0 {
      XorZero(a);
    } else {
      var x := a * Pow2(n - 1);
      assert a * Pow2(n) == 2 * x;
      XorParts(2 * x, b);
      XorDisjoint(a, b / 2, n - 1);
    }
  }

  /** x shifted left by n bits. */
  function Shifted(x: nat, n: nat): nat {
    x * Pow2(n)
  }

  lemma ByteTimes(word: nat, b: nat, p: nat)
    requires b < 256 && p > 0
    ensures b * p < 256 * p && word * (256 * p) + b * p == (b + 256 * word) * p
  {
    assert b * p + (256 - b) * p == 256 * p;
  }

  /** One case of the tail switch: a byte goes below those that are there. */
  lemma ByteBelow(word: nat, low: byte, i: nat)
    requires i < 8
    ensures Shifted(low, 8 * i) < TWO_64
    ensures Xor(Shifted(word, 8 * (i + 1)), Shifted(low, 8 * i)) == Shifted(low + 256 * word, 8 * i)
  {
    hide Xor, Pow2;
    var b: int, p := low, Pow2(8 * i);
    assert Pow2(8 * i + 8) == 256 * p <= TWO_64 by {
      Pow33();
      PowAdd(8, 8 * i);
      PowMonotone(8 * i + 8, 64);
    }
    PowPositive(8 * i);
    ByteTimes(word, b, p);
    XorDisjoint(word, b * p, 8 * i + 8);
  }

  /** The cases of the tail switch for one word, from the last byte down. */
  method TailWord(s: seq<byte>) returns (k: u64)
    requires |s| <= 8
    ensures k == Word(s)
  {
    hide Xor, Pow2, LittleEndian, Shifted;
    k := 0;
    ShiftNone(8 * |s|, LittleEndian(s));
    assert s[|s|..] == [];
    for i := |s| downto 0
      invariant k == Shifted(LittleEndian(s[i..]), 8 * i)
    {
      ByteBelow(LittleEndian(s[i + 1..]), s[i], i);
      WordStep(s, i);
      k := XorW(k, Shifted(s[i], 8 * i));
    }
    assert s[0..] == s;
  }

  lemma ShiftNone(n: nat, x: nat)
    ensures Shifted(LittleEndian([]), n) == 0 && Shifted(x, 0) == x
  {
  }

  lemma WordStep(s: seq<byte>, i: nat)
    requires i < |s|
    ensures var b: int := s[i]; LittleEndian(s[i..]) == b + 256 * LittleEndian(s[i + 1..])
  {
    assert s[i..][1..] == s[i + 1..];
  }

  /** The tail switch: from nine bytes on it falls through from the second word to the first. */
  method MixTail(h: State, tail: seq<byte>) returns (g: State)
    requires |tail| < 16
    ensures g == Tail(h, tail)
  {
    hide Xor, Mix1, Mix2, LittleEndian;
    g := h;
    if |tail| > 8 {
      var k2 := TailWord(tail[8..]);
      g := g.(h2 := XorW(g.h2, Mix2(k2)));
    }
    if |tail| > 0 {
      var k1 := TailWord(if |tail| > 8 then tail[..8] else tail);
      g := g.(h1 := XorW(g.h1, Mix1(k1)));
    }
  }

  /** The hash as the code computes it, block by block. */
  method MurmurHash3X64128(key: seq<byte>, seed: u32) returns (out: State)
    requires |key| < TWO_31
    ensures out == Hash(key, seed)
  {
    hide Body, Finish, Tail;
    var blocks := |key| / 16;
    var h := State(seed, seed);
    ghost var rest := key;
    for i := 0 to blocks
      invariant rest == key[16 * i..] && BodyAll(h, rest) == BodyAll(State(seed, seed), key)
    {
      assert rest[..16] == key[16 * i..16 * i + 16];
      h := Body(h, key[16 * i..16 * i + 16]);
      rest := rest[16..];
    }
    h := MixTail(h, key[16 * blocks..]);
    out := Finish(h, |key|);
  }

  /** The key words of one round, from the halves before and after it. */
  function Unhalf1(h1: u64, h2: u64, g: u64): u64 {
    Unmix1(XorW(Rotl(Sub(Mul(Sub(g, 0x52dce729), FIFTH), h2), TWO_27, TWO_37), h1))
  }

  function Unhalf2(h2: u64, h1: u64, g: u64): u64 {
    Unmix2(XorW(Rotl(Sub(Mul(Sub(g, 0x38495ab5), FIFTH), h1), TWO_31, TWO_33), h2))
  }

  /** Five times this is one, modulo 2^64. */
  const FIFTH: u64 := 0xcccccccccccccccd

  lemma RoundUndone(x: u64, y: u64, c: u64, high: nat, low: nat)
    requires high > 0 && low > 0 && high * low == TWO_64
    ensures Rotl(Sub(Mul(Sub(Add(Mul(Add(Rotl(x, high, low), y), 5), c), c), FIFTH), y), low, high) == x
  {
    hide Add, Sub, Mul, Rotl;
    var a := Rotl(x, high, low);
    AddUndone(Mul(Add(a, y), 5), c);
    MulUndone(Add(a, y), 5, FIFTH);
    AddUndone(a, y);
    RotlUndone(x, high, low);
  }

  lemma HalvesUndone(h: u64, g: u64, k: u64)
    ensures Unhalf1(h, g, Half1(h, g, k)) == k && Unhalf2(h, g, Half2(h, g, k)) == k
  {
    hide Add, Sub, Mul, Rotl, XorW, Mix1, Mix2, Unmix1, Unmix2;
    RoundUndone(XorW(h, Mix1(k)), g, 0x52dce729, TWO_37, TWO_27);
    RoundUndone(XorW(h, Mix2(k)), g, 0x38495ab5, TWO_33, TWO_31);
    XorUndone(Mix1(k), h);
    XorUndone(Mix2(k), h);
    MixUndone(k);
  }

  /** The block between two states. */
  function Unbody(h: State, g: State): seq<byte> {
    LowBytes(Unhalf1(h.h1, h.h2, g.h1), 8) + LowBytes(Unhalf2(h.h2, g.h1, g.h2), 8)
  }

  lemma BodyUndone(h: State, block: seq<byte>)
    requires |block| == 16
    ensures Unbody(h, Body(h, block)) == block
  {
    hide Half1, Half2, Unhalf1, Unhalf2, LowBytes, LittleEndian;
    HalvesUndone(h.h1, h.h2, Word(block[..8]));
    HalvesUndone(h.h2, Body(h, block).h1, Word(block[8..]));
    WordUndone(block[..8]);
    WordUndone(block[8..]);
    assert block == block[..8] + block[8..];
  }

  /** The tail between two states. */
  function Untail(h: State, g: State, len: nat): seq<byte> {
    LowBytes(Unmix1(XorW(g.h1, h.h1)), if len > 8 then 8 else len)
    + LowBytes(Unmix2(XorW(g.h2, h.h2)), if len > 8 then len - 8 else 0)
  }

  lemma TailUndone(h: State, tail: seq<byte>)
    requires |tail| < 16
    ensures Untail(h, Tail(h, tail), |tail|) == tail
  {
    hide XorW, Mix1, Mix2, Unmix1, Unmix2, LittleEndian;
    var first, second := if |tail| > 8 then tail[..8] else tail, if |tail| > 8 then tail[8..] else [];
    assert tail == first + second;
    if tail != [] {
      XorUndone(Mix1(Word(first)), h.h1);
      MixUndone(Word(first));
      WordUndone(first);
    }
    if second != [] {
      XorUndone(Mix2(Word(second)), h.h2);
      MixUndone(Word(second));
      WordUndone(second);
    }
  }

  /** The last n bytes of a key with len bytes, from its hash and the state before them. */
  function Unrest(out: State, h: State, len: u64, n: nat): seq<byte>
    requires n <= 16
  {
    var g := Unfinish(out, len);
    if n == 16 then Unbody(h, g) else Untail(h, g, n)
  }

  /** The key of a hash, for keys of up to sixteen bytes. */
  function Unhash(out: State, len: nat, seed: u32): seq<byte>
    requires len <= 16
  {
    Unrest(out, State(seed, seed), len, len)
  }

  lemma {:induction false} BodyAllAppend(h: State, p: seq<byte>, d: seq<byte>)
    requires |p| % 16 == 0
    ensures BodyAll(h, p + d) == BodyAll(BodyAll(h, p), d)
    decreases |p|
  {
    hide Body;
    if p == [] {
      assert p + d == d;
    } else {
      assert (p + d)[..16] == p[..16] && (p + d)[16..] == p[16..] + d;
      BodyAllAppend(Body(h, p[..16]), p[16..], d);
    }
  }

  /** What is left for the tail, and what goes through the body. */
  lemma Rest(h: State, p: seq<byte>, d: seq<byte>)
    requires |p| % 16 == 0 && |d| <= 16
    ensures var all := p + d; all[|all| - |all| % 16..] == if |d| < 16 then d else []
    ensures BodyAll(h, d) == if |d| < 16 then h else Body(h, d)
  {
    hide Body;
    var q := |p| / 16;
    assert |p + d| == 16 * q + |d|;
    if |d| == 16 {
      assert d[..16] == d && d[16..] == [];
      assert |p + d| == 16 * (q + 1);
    } else {
      assert |p + d| % 16 == |d|;
    }
  }

  /** Of every key, of any length: hash and whole blocks give back what comes after these blocks, up to one more. */
  lemma RestUndone(p: seq<byte>, d: seq<byte>, seed: u32)
    requires |p| % 16 == 0 && |d| <= 16 && |p| + |d| < TWO_31
    ensures Unrest(Hash(p + d, seed), BodyAll(State(seed, seed), p), |p| + |d|, |d|) == d
  {
    hide Tail, Body, BodyAll, Finish, Unfinish, Unbody, Untail;
    var h := BodyAll(State(seed, seed), p);
    BodyAllAppend(State(seed, seed), p, d);
    Rest(h, p, d);
    if |d| < 16 {
      FinishUndone(Tail(h, d), |p| + |d|);
      TailUndone(h, d);
    } else {
      TailEmpty(Body(h, d));
      FinishUndone(Body(h, d), |p| + |d|);
      BodyUndone(h, d);
    }
  }

  /** Of every key of up to sixteen bytes the hash gives back the key. */
  lemma HashUndone(d: seq<byte>, seed: u32)
    requires |d| <= 16
    ensures Unhash(Hash(d, seed), |d|, seed) == d
  {
    hide Hash, Unrest;
    RestUndone([], d, seed);
    assert [] + d == d;
  }

  /** Keys of the same length, up to sixteen bytes, have the same hash only if they are equal. */
  lemma HashInjective(d: seq<byte>, e: seq<byte>, seed: u32)
    requires |d| == |e| <= 16 && Hash(d, seed) == Hash(e, seed)
    ensures d == e
  {
    hide Hash, Unhash;
    HashUndone(d, seed);
    HashUndone(e, seed);
  }

  lemma TailEmpty(h: State)
    ensures Tail(h, []) == h
  {
  }
}
