/** Bytes, and the little-endian words that the cache, the log and the encoders write. */
module Bytes {

  type byte = b: int | 0 <= b < 256

  const TWO_31 := 0x8000_0000
  const TWO_32 := 0x1_0000_0000
  const TWO_64 := 0x1_0000_0000_0000_0000

  type u32 = x: int | 0 <= x < TWO_32

  type u64 = x: int | 0 <= x < TWO_64

  /** A number as a signed 32-bit word. */
  function Signed32(n: int): (r: int)
    ensures -TWO_31 <= r < TWO_31
  {
    var m := n % TWO_32;
    if m < TWO_31 then m else m - TWO_32
  }

  /** The four bytes of a 32-bit word, low byte first. */
  function EncodeU32(n: int): (s: seq<byte>)
    requires 0 <= n < TWO_32
    ensures |s| == 4
    ensures DecodeU32(s) == n
  {
    var q1 := n / 256;
    var q2 := q1 / 256;
    [n % 256, q1 % 256, q2 % 256, q2 / 256]
  }

  lemma WordBytes(w: u32)
    ensures EncodeU32(w) == [w % 256, w / 0x100 % 256, w / 0x1_0000 % 256, w / 0x100_0000]
  {
  }

  /** A word is made of these bytes, if they make it. */
  lemma BytesOfWord(s: seq<byte>, w: u32)
    requires |s| == 4 && DecodeU32(s) == w
    ensures EncodeU32(w) == s
  {
    var b0: int, b1: int, b2: int, b3: int := s[0], s[1], s[2], s[3];
    LowByte(b2, b3);
    LowByte(b1, b2 + 256 * b3);
    LowByte(b0, b1 + 256 * (b2 + 256 * b3));
  }

  lemma LowByte(b: int, q: int)
    requires 0 <= b < 256
    ensures (b + 256 * q) % 256 == b && (b + 256 * q) / 256 == q
  {
  }

  function DecodeU32(s: seq<byte>): (n: int)
    requires |s| == 4
    ensures 0 <= n < TWO_32
  {
    var b0: int, b1: int, b2: int, b3: int := s[0], s[1], s[2], s[3];
    b0 + 256 * (b1 + 256 * (b2 + 256 * b3))
  }

  /** The eight bytes of a 64-bit word, low byte first. */
  function EncodeU64(n: int): (s: seq<byte>)
    requires 0 <= n < TWO_64
    ensures |s| == 8
  {
    EncodeU32(n % TWO_32) + EncodeU32(n / TWO_32)
  }

  lemma EncodeU64Injective(x: int, y: int)
    requires 0 <= x < TWO_64 && 0 <= y < TWO_64 && EncodeU64(x) == EncodeU64(y)
    ensures x == y
  {
    hide EncodeU32, DecodeU32;
    assert EncodeU64(x)[..4] == EncodeU32(x % TWO_32) && EncodeU64(x)[4..] == EncodeU32(x / TWO_32);
    assert EncodeU64(y)[..4] == EncodeU32(y % TWO_32) && EncodeU64(y)[4..] == EncodeU32(y / TWO_32);
    assert DecodeU32(EncodeU32(x % TWO_32)) == DecodeU32(EncodeU32(y % TWO_32));
    assert DecodeU32(EncodeU32(x / TWO_32)) == DecodeU32(EncodeU32(y / TWO_32));
  }
}
