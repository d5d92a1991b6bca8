/** The hash of one key, worked out: it fixes the constants of the hash and the order of its steps. */
module HashValues {
  import opened Bytes
  import opened Murmur
  import opened HashedKeys

  /** A digit to the base of four, that is two bits. */
  type Digit = x: int | 0 <= x < 4

  /** Exclusive or of two such digits: any two of one, two and three give the third. */
  function DigitXor(x: Digit, y: Digit): Digit {
    if x == 0 then y else if y == 0 then x else if x == y then 0 else 6 - x - y
  }

  lemma DigitsXor(x: Digit, y: Digit)
    ensures Xor(x, y) == DigitXor(x, y)
  {
    hide Xor;
    XorParts(x, y);
    XorParts(x / 2, y / 2);
    XorOfZeros();
  }

  /** High and low parts do not meet in an exclusive or. */
  lemma {:induction false} XorSplit(a: nat, b: nat, x: nat, y: nat, n: nat)
    requires x < Pow2(n) && y < Pow2(n)
    ensures Xor(a * Pow2(n) + x, b * Pow2(n) + y) == Xor(a, b) * Pow2(n) + Xor(x, y)
    decreases n
  {
    hide Xor;
    if n == 0 {
      XorOfZeros();
    } else {
      HalfAbove(a, Pow2(n - 1), x);
      HalfAbove(b, Pow2(n - 1), y);
      HalfAbove(Xor(a, b), Pow2(n - 1), 0);
      XorParts(a * Pow2(n) + x, b * Pow2(n) + y);
      XorParts(x, y);
      XorSplit(a, b, x / 2, y / 2, n - 1);
    }
  }

  lemma HalfAbove(a: nat, p: nat, x: nat)
    ensures var n := a * (2 * p) + x; a * (2 * p) == 2 * (a * p) && n / 2 == a * p + x / 2 && n % 2 == x % 2
  {
    assert a * (2 * p) == 2 * (a * p);
  }

  /** One digit more. */
  lemma OneDigit(a: nat, b: nat, x: Digit, y: Digit)
    ensures Xor(4 * a + x, 4 * b + y) == 4 * Xor(a, b) + DigitXor(x, y)
  {
    hide Xor, DigitXor, Pow2;
    PowOne();
    PowAdd(1, 1);
    XorSplit(a, b, x, y, 2);
    DigitsXor(x, y);
  }

  /** Digits behind a number. */
  function Number(h: nat, s: seq<Digit>): nat {
    if s == [] then h else 4 * Number(h, s[..|s| - 1]) + s[|s| - 1]
  }

  /** What is above the digits stays. */
  lemma {:induction false} XorNumbers(h: nat, s: seq<Digit>, t: seq<Digit>, z: seq<Digit>)
    requires |s| == |t| == |z| && forall i :: 0 <= i < |s| ==> z[i] == DigitXor(s[i], t[i])
    ensures Xor(Number(h, s), Number(0, t)) == Number(h, z)
  {
    hide Xor, DigitXor;
    if s == [] {
      XorZero(h);
    } else {
      var n := |s| - 1;
      XorNumbers(h, s[..n], t[..n], z[..n]);
      OneDigit(Number(h, s[..n]), Number(0, t[..n]), s[n], t[n]);
    }
  }

  /** Four digits from i on. */
  function FourDigits(s: seq<Digit>, i: nat): nat
    requires i + 4 <= |s|
  {
    var a: int, b: int, c: int, d: int := s[i], s[i + 1], s[i + 2], s[i + 3];
    64 * a + 16 * b + 4 * c + d
  }

  function Sixteen(s: seq<Digit>): nat
    requires |s| == 16
  {
    0x100_0000 * FourDigits(s, 0) + 0x1_0000 * FourDigits(s, 4) + 0x100 * FourDigits(s, 8) + FourDigits(s, 12)
  }

  lemma NumberOfFour(h: nat, s: seq<Digit>, i: nat)
    requires i + 4 <= |s|
    ensures Number(h, s[..i + 4]) == 256 * Number(h, s[..i]) + FourDigits(s, i)
  {
    hide Number;
    NumberStep(h, s, i);
    NumberStep(h, s, i + 1);
    NumberStep(h, s, i + 2);
    NumberStep(h, s, i + 3);
  }

  lemma NumberStep(h: nat, s: seq<Digit>, i: nat)
    requires i < |s|
    ensures Number(h, s[..i + 1]) == 4 * Number(h, s[..i]) + s[i] && Number(h, s[..0]) == h
  {
    assert s[..i + 1][..i] == s[..i];
  }

  lemma NumberOfSixteen(h: nat, s: seq<Digit>)
    requires |s| == 16
    ensures Number(h, s) == 0x1_0000_0000 * h + Sixteen(s)
  {
    hide Number, FourDigits;
    NumberStep(h, s, 0);
    NumberOfFour(h, s, 0);
    NumberOfFour(h, s, 4);
    NumberOfFour(h, s, 8);
    NumberOfFour(h, s, 12);
    assert s[..16] == s;
  }

  lemma SixteenBound(s: seq<Digit>)
    requires |s| == 16
    ensures Sixteen(s) < TWO_32
  {
  }

  /** A word with low byte s, and another byte. */
  lemma XorByteIs(h: nat, s: seq<Digit>, t: seq<Digit>, z: seq<Digit>)
    requires |s| == |t| == |z| == 4 && h < 0x100_0000_0000_0000
    requires forall i :: 0 <= i < 4 ==> z[i] == DigitXor(s[i], t[i])
    ensures 256 * h + FourDigits(s, 0) < TWO_64 && FourDigits(t, 0) < 256
    ensures XorW(256 * h + FourDigits(s, 0), FourDigits(t, 0)) == 256 * h + FourDigits(z, 0)
  {
    hide Xor, Number, DigitXor;
    NumberOfByte(h, s);
    NumberOfByte(0, t);
    NumberOfByte(h, z);
    XorNumbers(h, s, t, z);
  }

  lemma NumberOfByte(h: nat, s: seq<Digit>)
    requires |s| == 4
    ensures Number(h, s) == 256 * h + FourDigits(s, 0) < 256 * h + 256
  {
    hide Number;
    NumberStep(h, s, 0);
    NumberOfFour(h, s, 0);
    assert s[..4] == s;
  }

  /** A word with high half h and low half s, and the word itself shifted right by 33. */
  lemma XorShiftIs(h: u32, s: seq<Digit>, t: seq<Digit>, z: seq<Digit>)
    requires |s| == |t| == |z| == 16 && Sixteen(t) == h / 2
    requires forall i :: 0 <= i < 16 ==> z[i] == DigitXor(s[i], t[i])
    ensures 0x1_0000_0000 * h + Sixteen(s) < TWO_64
    ensures XorShift(0x1_0000_0000 * h + Sixteen(s)) == 0x1_0000_0000 * h + Sixteen(z)
  {
    hide Xor, Number, Sixteen, DigitXor;
    SixteenBound(s);
    NumberOfSixteen(h, s);
    NumberOfSixteen(0, t);
    NumberOfSixteen(h, z);
    XorNumbers(h, s, t, z);
  }

  lemma SeedXor()
    ensures XorW(0x5624a621d52e3e3, 0x11) == 0x5624a621d52e3f2
  {
    hide XorW;
    XorByteIs(0x5624a621d52e3, [3, 2, 0, 3], [0, 1, 0, 1], [3, 3, 0, 2]);
  }

  lemma FirstLength()
    ensures XorW(0x5624a621d52e3f2, 0x8) == 0x5624a621d52e3fa
  {
    hide XorW;
    XorByteIs(0x5624a621d52e3, [3, 3, 0, 2], [0, 0, 2, 0], [3, 3, 2, 2]);
  }

  lemma SecondLength()
    ensures XorW(0x11, 0x8) == 0x19
  {
    hide XorW;
    XorByteIs(0x0, [0, 1, 0, 1], [0, 0, 2, 0], [0, 1, 2, 1]);
  }

  lemma FirstShift1()
    ensures XorShift(0x5624a621d52e413) == 0x5624a621fe3c122
  {
    hide XorShift;
    XorShiftIs(0x5624a62,
      [0, 1, 3, 1, 1, 1, 0, 2, 3, 2, 1, 0, 0, 1, 0, 3],
      [0, 0, 0, 2, 2, 3, 0, 1, 0, 2, 1, 1, 0, 3, 0, 1],
      [0, 1, 3, 3, 3, 2, 0, 3, 3, 0, 0, 1, 0, 2, 0, 2]);
  }

  lemma FirstShift2()
    ensures XorShift(0xd8d1bfdb14a403a) == 0xd8d1bfdb78ccdc4
  {
    hide XorShift;
    XorShiftIs(0xd8d1bfd,
      [2, 3, 0, 1, 1, 0, 2, 2, 1, 0, 0, 0, 0, 3, 2, 2],
      [0, 0, 1, 2, 3, 0, 1, 2, 2, 0, 3, 1, 3, 3, 3, 2],
      [2, 3, 1, 3, 2, 0, 3, 0, 3, 0, 3, 1, 3, 0, 1, 0]);
  }

  lemma FirstShift3()
    ensures XorShift(0x4c216dfd1f2b668c) == 0x4c216dfd393bd072
  {
    hide XorShift;
    XorShiftIs(0x4c216dfd,
      [0, 1, 3, 3, 0, 2, 2, 3, 1, 2, 1, 2, 2, 0, 3, 0],
      [0, 2, 1, 2, 0, 1, 0, 0, 2, 3, 1, 2, 3, 3, 3, 2],
      [0, 3, 2, 1, 0, 3, 2, 3, 3, 1, 0, 0, 1, 3, 0, 2]);
  }

  lemma FirstFmix()
    ensures Fmix(0x5624a621d52e413) == 0x4c216dfd393bd072
  {
    hide XorShift;
    FirstShift1();
    assert Mul(0x5624a621fe3c122, 0xff51afd7ed558ccd) == 0xd8d1bfdb14a403a;
    FirstShift2();
    assert Mul(0xd8d1bfdb78ccdc4, 0xc4ceb9fe1a85ec53) == 0x4c216dfd1f2b668c;
    FirstShift3();
  }

  lemma SecondShift1()
    ensures XorShift(0x5624a621d52e42c) == 0x5624a621fe3c11d
  {
    hide XorShift;
    XorShiftIs(0x5624a62,
      [0, 1, 3, 1, 1, 1, 0, 2, 3, 2, 1, 0, 0, 2, 3, 0],
      [0, 0, 0, 2, 2, 3, 0, 1, 0, 2, 1, 1, 0, 3, 0, 1],
      [0, 1, 3, 3, 3, 2, 0, 3, 3, 0, 0, 1, 0, 1, 3, 1]);
  }

  lemma SecondShift2()
    ensures XorShift(0x10f4acc60e9e8039) == 0x10f4acc606e4d65a
  {
    hide XorShift;
    XorShiftIs(0x10f4acc6,
      [0, 0, 3, 2, 2, 1, 3, 2, 2, 0, 0, 0, 0, 3, 2, 1],
      [0, 0, 2, 0, 1, 3, 2, 2, 1, 1, 1, 2, 1, 2, 0, 3],
      [0, 0, 1, 2, 3, 2, 1, 0, 3, 1, 1, 2, 1, 1, 2, 2]);
  }

  lemma SecondShift3()
    ensures XorShift(0x888f1c83b28e772e) == 0x888f1c83f6c9f96f
  {
    hide XorShift;
    XorShiftIs(0x888f1c83,
      [2, 3, 0, 2, 2, 0, 3, 2, 1, 3, 1, 3, 0, 2, 3, 2],
      [1, 0, 1, 0, 1, 0, 1, 3, 2, 0, 3, 2, 1, 0, 0, 1],
      [3, 3, 1, 2, 3, 0, 2, 1, 3, 3, 2, 1, 1, 2, 3, 3]);
  }

  lemma SecondFmix()
    ensures Fmix(0x5624a621d52e42c) == 0x888f1c83f6c9f96f
  {
    hide XorShift;
    SecondShift1();
    assert Mul(0x5624a621fe3c11d, 0xff51afd7ed558ccd) == 0x10f4acc60e9e8039;
    SecondShift2();
    assert Mul(0x10f4acc606e4d65a, 0xc4ceb9fe1a85ec53) == 0x888f1c83b28e772e;
    SecondShift3();
  }

  /** The hash of the eight bytes of one and two, with seed 17. */
  lemma HashOfOneTwo()
    ensures Hash([1, 0, 0, 0, 2, 0, 0, 0], 17) == State(0xd4b08a813005c9e1, 0x5d3fa70526cfc350)
  {
    hide XorW, Fmix, Mix1;
    var d: seq<byte> := [1, 0, 0, 0, 2, 0, 0, 0];
    assert d[|d| - |d| % 16..] == d;
    assert Word(d) == 0x200000001;
    MixOfOneTwo();
    XorWCommutes(17, 0x5624a621d52e3e3);
    SeedXor();
    FirstLength();
    SecondLength();
    FirstFmix();
    SecondFmix();
  }

  /** The key under which the statistics of the pair (1, 2) are stored. */
  lemma StoredKeyOfOneTwo()
    ensures KeyHash(IntPair(1, 2)) ==
      [0xe1, 0xc9, 0x05, 0x30, 0x81, 0x8a, 0xb0, 0xd4, 0x50, 0xc3, 0xcf, 0x26, 0x05, 0xa7, 0x3f, 0x5d]
  {
    hide Hash, EncodeU64;
    assert KeyBytes(IntPair(1, 2)) == [1, 0, 0, 0, 2, 0, 0, 0];
    HashOfOneTwo();
    FirstBytes();
    SecondBytes();
  }

  lemma FirstBytes()
    ensures EncodeU64(0xd4b08a813005c9e1) == [0xe1, 0xc9, 0x05, 0x30, 0x81, 0x8a, 0xb0, 0xd4]
  {
  }

  lemma SecondBytes()
    ensures EncodeU64(0x5d3fa70526cfc350) == [0x50, 0xc3, 0xcf, 0x26, 0x05, 0xa7, 0x3f, 0x5d]
  {
  }

  lemma MixOfOneTwo()
    ensures Mix1(0x200000001) == 0x5624a621d52e3e3
  {
    assert Mul(0x200000001, C1) == 0xaa48233b114253d5;
    assert Rotl(0xaa48233b114253d5, TWO_33, TWO_31) == 0x88a129ead524119d;
  }

  lemma XorWCommutes(a: u64, b: u64)
    ensures XorW(a, b) == XorW(b, a)
  {
    XorCommutes(a, b);
  }
}
