/** The MD5 message digest as sections 3.1 to 3.5 of RFC 1321 define it: one message, padded, taken
    in blocks of 64 bytes. */
module Md5Definition {

  type Byte = bv8

  datatype Words = Words(a: bv32, b: bv32, c: bv32, d: bv32)

  const INITIAL: Words := Words(0x67452301, 0xefcdab89, 0x98badcfe, 0x10325476)

  // ---------- the four rounds (section 3.4) ----------

  datatype Round = Round1 | Round2 | Round3 | Round4

  function RoundOf(i: nat): Round {
    if i < 16 then Round1 else if i < 32 then Round2 else if i < 48 then Round3 else Round4
  }

  function F(x: bv32, y: bv32, z: bv32): bv32 {
    (x & y) | (!x & z)
  }

  function G(x: bv32, y: bv32, z: bv32): bv32 {
    (x & z) | (y & !z)
  }

  function H(x: bv32, y: bv32, z: bv32): bv32 {
    x ^ y ^ z
  }

  function I(x: bv32, y: bv32, z: bv32): bv32 {
    y ^ (x | !z)
  }

  function Auxiliary(r: Round, x: bv32, y: bv32, z: bv32): bv32 {
    match r
    case Round1 => F(x, y, z)
    case Round2 => G(x, y, z)
    case Round3 => H(x, y, z)
    case Round4 => I(x, y, z)
  }

  /** Which word of the block step i uses. */
  function MessageIndex(i: nat): (k: nat)
    ensures k < 16
  {
    match RoundOf(i)
    case Round1 => i % 16
    case Round2 => (5 * i + 1) % 16
    case Round3 => (3 * i + 5) % 16
    case Round4 => (7 * i) % 16
  }

  datatype Amount = Amount(bits: bv6)

  function Shift(i: nat): Amount {
    var k := i % 4;
    match RoundOf(i)
    case Round1 => if k == 0 then Amount(7) else if k == 1 then Amount(12) else if k == 2 then Amount(17) else Amount(22)
    case Round2 => if k == 0 then Amount(5) else if k == 1 then Amount(9) else if k == 2 then Amount(14) else Amount(20)
    case Round3 => if k == 0 then Amount(4) else if k == 1 then Amount(11) else if k == 2 then Amount(16) else Amount(23)
    case Round4 => if k == 0 then Amount(6) else if k == 1 then Amount(10) else if k == 2 then Amount(15) else Amount(21)
  }

  /** The bits pushed out on the left come in again on the right. */
  function Rotated(v: bv32, s: bv6): bv32
    requires s <= 32
  {
    (v << s) | (v >> (32 - s))
  }

  datatype Constant = Constant(value: bv32)

  function Table1(i: int): Constant {
    if i < 4 then (if i == 0 then Constant(0xd76aa478) else if i == 1 then Constant(0xe8c7b756)
      else if i == 2 then Constant(0x242070db) else Constant(0xc1bdceee)) else
    if i < 8 then (if i == 4 then Constant(0xf57c0faf) else if i == 5 then Constant(0x4787c62a)
      else if i == 6 then Constant(0xa8304613) else Constant(0xfd469501)) else
    if i < 12 then (if i == 8 then Constant(0x698098d8) else if i == 9 then Constant(0x8b44f7af)
      else if i == 10 then Constant(0xffff5bb1) else Constant(0x895cd7be)) else
    (if i == 12 then Constant(0x6b901122) else if i == 13 then Constant(0xfd987193)
      else if i == 14 then Constant(0xa679438e) else Constant(0x49b40821))
  }

  function Table2(i: int): Constant {
    if i < 4 then (if i == 0 then Constant(0xf61e2562) else if i == 1 then Constant(0xc040b340)
      else if i == 2 then Constant(0x265e5a51) else Constant(0xe9b6c7aa)) else
    if i < 8 then (if i == 4 then Constant(0xd62f105d) else if i == 5 then Constant(0x02441453)
      else if i == 6 then Constant(0xd8a1e681) else Constant(0xe7d3fbc8)) else
    if i < 12 then (if i == 8 then Constant(0x21e1cde6) else if i == 9 then Constant(0xc33707d6)
      else if i == 10 then Constant(0xf4d50d87) else Constant(0x455a14ed)) else
    (if i == 12 then Constant(0xa9e3e905) else if i == 13 then Constant(0xfcefa3f8)
      else if i == 14 then Constant(0x676f02d9) else Constant(0x8d2a4c8a))
  }

  function Table3(i: int): Constant {
    if i < 4 then (if i == 0 then Constant(0xfffa3942) else if i == 1 then Constant(0x8771f681)
      else if i == 2 then Constant(0x6d9d6122) else Constant(0xfde5380c)) else
    if i < 8 then (if i == 4 then Constant(0xa4beea44) else if i == 5 then Constant(0x4bdecfa9)
      else if i == 6 then Constant(0xf6bb4b60) else Constant(0xbebfbc70)) else
    if i < 12 then (if i == 8 then Constant(0x289b7ec6) else if i == 9 then Constant(0xeaa127fa)
      else if i == 10 then Constant(0xd4ef3085) else Constant(0x04881d05)) else
    (if i == 12 then Constant(0xd9d4d039) else if i == 13 then Constant(0xe6db99e5)
      else if i == 14 then Constant(0x1fa27cf8) else Constant(0xc4ac5665))
  }

  function Table4(i: int): Constant {
    if i < 4 then (if i == 0 then Constant(0xf4292244) else if i == 1 then Constant(0x432aff97)
      else if i == 2 then Constant(0xab9423a7) else Constant(0xfc93a039)) else
    if i < 8 then (if i == 4 then Constant(0x655b59c3) else if i == 5 then Constant(0x8f0ccc92)
      else if i == 6 then Constant(0xffeff47d) else Constant(0x85845dd1)) else
    if i < 12 then (if i == 8 then Constant(0x6fa87e4f) else if i == 9 then Constant(0xfe2ce6e0)
      else if i == 10 then Constant(0xa3014314) else Constant(0x4e0811a1)) else
    (if i == 12 then Constant(0xf7537e82) else if i == 13 then Constant(0xbd3af235)
      else if i == 14 then Constant(0x2ad7d2bb) else Constant(0xeb86d391))
  }

  /** The table T: the integer part of 2^32 times abs(sin(i + 1)), with i in radians. */
  function T(i: nat): Constant {
    match RoundOf(i)
    case Round1 => Table1(i)
    case Round2 => Table2(i - 16)
    case Round3 => Table3(i - 32)
    case Round4 => Table4(i - 48)
  }

  function Total(a: bv32, f: bv32, x: bv32, t: bv32): bv32 {
    a + f + x + t
  }

  function Plus(v: bv32, w: bv32): bv32 {
    v + w
  }

  /** b + ((a + f + X[k] + T[i]) <<< s) */
  function Mix(b: bv32, a: bv32, f: bv32, x: bv32, t: bv32, s: bv6): bv32
    requires s <= 32
  {
    Plus(b, Rotated(Total(a, f, x, t), s))
  }

  /** Step i replaces the first word; the roles of the words then move round by one. */
  function Step(w: Words, x: bv32, i: nat): Words {
    Words(w.d, Mix(w.b, w.a, Auxiliary(RoundOf(i), w.b, w.c, w.d), x, T(i).value, Shift(i).bits), w.b, w.c)
  }

  function Steps(w: Words, block: seq<Byte>, i: nat): Words
    requires |block| == 64
  {
    if i == 0 then w else Step(Steps(w, block, i - 1), WordAt(block, MessageIndex(i - 1)), i - 1)
  }

  /** Four bytes, low-order byte first. */
  function WordFrom(b0: Byte, b1: Byte, b2: Byte, b3: Byte): bv32 {
    (b0 as bv32) | ((b1 as bv32) << 8) | ((b2 as bv32) << 16) | ((b3 as bv32) << 24)
  }

  function WordAt(block: seq<Byte>, k: nat): bv32
    requires 4 * k + 4 <= |block|
  {
    WordFrom(block[4 * k], block[4 * k + 1], block[4 * k + 2], block[4 * k + 3])
  }

  function Sum(v: Words, w: Words): Words {
    Words(Plus(v.a, w.a), Plus(v.b, w.b), Plus(v.c, w.c), Plus(v.d, w.d))
  }

  function Compress(w: Words, block: seq<Byte>): Words
    requires |block| == 64
  {
    Sum(w, Steps(w, block, 64))
  }

  function Blocks(w: Words, data: seq<Byte>): Words
    requires |data| % 64 == 0
    decreases |data|
  {
    if data == [] then w else Blocks(Compress(w, data[..64]), data[64..])
  }

  // ---------- padding and output (sections 3.1, 3.2 and 3.5) ----------

  function ByteOf(x: nat): Byte {
    (x % 256) as bv8
  }

  function LittleEndian(x: nat, n: nat): (s: seq<Byte>)
    ensures |s| == n
  {
    if n == 0 then [] else [ByteOf(x)] + LittleEndian(x / 256, n - 1)
  }

  function Zeros(n: nat): (s: seq<Byte>)
    ensures |s| == n && forall i :: 0 <= i < n ==> s[i] == 0
  {
    seq(n, _ => 0)
  }

  /** After a one bit, as few zero bits as bring the length to 448 modulo 512. */
  function ZeroBytes(length: nat): (z: nat)
    ensures z < 64 && (length + 1 + z) % 64 == 56
  {
    (119 - length % 64) % 64
  }

  const TWO_64: nat := 0x1_0000_0000_0000_0000

  /** The length of the message in bits, of which only the low 64 bits are used. */
  function LengthField(length: nat): (s: seq<Byte>)
    ensures |s| == 8
  {
    LittleEndian(8 * length % TWO_64, 8)
  }

  lemma PaddingLength(length: nat)
    ensures var n := 1 + ZeroBytes(length) + 8;
      (length + n) % 64 == 0 && 9 <= n <= 72
  {
  }

  function Padding(length: nat): (p: seq<Byte>)
    ensures (length + |p|) % 64 == 0
    ensures 9 <= |p| <= 72
  {
    PaddingLength(length);
    [0x80] + Zeros(ZeroBytes(length)) + LengthField(length)
  }

  function Padded(message: seq<Byte>): (p: seq<Byte>)
    ensures |p| % 64 == 0
  {
    hide Padding;
    message + Padding(|message|)
  }

  function WordBytes(w: bv32): (s: seq<Byte>)
    ensures |s| == 4
  {
    [(w & 0xff) as bv8, ((w >> 8) & 0xff) as bv8, ((w >> 16) & 0xff) as bv8, (w >> 24) as bv8]
  }

  function Output(w: Words): (s: seq<Byte>)
    ensures |s| == 16
  {
    WordBytes(w.a) + WordBytes(w.b) + WordBytes(w.c) + WordBytes(w.d)
  }

  function Digest(message: seq<Byte>): seq<Byte> {
    Output(Blocks(INITIAL, Padded(message)))
  }

  // ---------- consequences ----------

  /** By every amount that occurs, Rotated is the circular shift. */
  lemma RotatedIsCircular(v: bv32)
    ensures Rotated(v, 4) == v.RotateLeft(4) && Rotated(v, 5) == v.RotateLeft(5)
    ensures Rotated(v, 6) == v.RotateLeft(6) && Rotated(v, 7) == v.RotateLeft(7)
    ensures Rotated(v, 9) == v.RotateLeft(9) && Rotated(v, 10) == v.RotateLeft(10)
    ensures Rotated(v, 11) == v.RotateLeft(11) && Rotated(v, 12) == v.RotateLeft(12)
    ensures Rotated(v, 14) == v.RotateLeft(14) && Rotated(v, 15) == v.RotateLeft(15)
    ensures Rotated(v, 16) == v.RotateLeft(16) && Rotated(v, 17) == v.RotateLeft(17)
    ensures Rotated(v, 20) == v.RotateLeft(20) && Rotated(v, 21) == v.RotateLeft(21)
    ensures Rotated(v, 22) == v.RotateLeft(22) && Rotated(v, 23) == v.RotateLeft(23)
  {
  }

  lemma {:induction false} BlocksConcat(w: Words, s: seq<Byte>, t: seq<Byte>)
    requires |s| % 64 == 0 && |t| % 64 == 0
    ensures Blocks(w, s + t) == Blocks(Blocks(w, s), t)
    decreases |s|
  {
    hide Compress;
    if s == [] {
      assert s + t == t;
    } else {
      BlocksConcat(Compress(w, s[..64]), s[64..], t);
      assert (s + t)[..64] == s[..64] && (s + t)[64..] == s[64..] + t;
    }
  }

  lemma OneBlock(w: Words, block: seq<Byte>)
    requires |block| == 64
    ensures Blocks(w, block) == Compress(w, block)
  {
    hide Compress;
    assert block[..64] == block && block[64..] == [];
    assert Blocks(Compress(w, block), []) == Compress(w, block);
  }

  /** Nothing of a word is lost or moved on the way through bytes. */
  lemma WordBytesRoundTrip(w: bv32)
    ensures var s := WordBytes(w); |s| == 4 && WordFrom(s[0], s[1], s[2], s[3]) == w
  {
  }

  /** The digest determines the final words. */
  lemma OutputInjective(v: Words, w: Words)
    requires Output(v) == Output(w)
    ensures v == w
  {
    hide WordFrom;
    WordBytesRoundTrip(v.a);
    WordBytesRoundTrip(v.b);
    WordBytesRoundTrip(v.c);
    WordBytesRoundTrip(v.d);
    WordBytesRoundTrip(w.a);
    WordBytesRoundTrip(w.b);
    WordBytesRoundTrip(w.c);
    WordBytesRoundTrip(w.d);
    hide WordBytes;
    var s, t := Output(v), Output(w);
    assert WordBytes(v.a) == s[..4] == t[..4] == WordBytes(w.a);
    assert WordBytes(v.b) == s[4..8] == t[4..8] == WordBytes(w.b);
    assert WordBytes(v.c) == s[8..12] == t[8..12] == WordBytes(w.c);
    assert WordBytes(v.d) == s[12..16] == t[12..16] == WordBytes(w.d);
  }
}
