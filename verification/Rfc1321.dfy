/** MD5 as RFC 1321 describes it: the step schedule by its formulas, the digest of a whole message. */
module Rfc1321 {

  datatype Md5State = Md5State(a: bv32, b: bv32, c: bv32, d: bv32)

  const INITIAL := Md5State(0x67452301, 0xefcdab89, 0x98badcfe, 0x10325476)

  // ---- The four auxiliary functions, section 3.4 ----

  function F(x: bv32, y: bv32, z: bv32): bv32 {
    (x & y) | (!x & z)
  }

  function G(x: bv32, y: bv32, z: bv32): bv32 {
    (x & z) | (y & !z)
  }

  function H(x: bv32, y: bv32, z: bv32): bv32 {
    x ^ y ^ z
  }

  function I(x: bv32, y: bv32, z: bv32): bv32 {
    y ^ (x | !z)
  }

  function Auxiliary(j: nat, x: bv32, y: bv32, z: bv32): bv32 {
    if j < 16 then F(x, y, z) else if j < 32 then G(x, y, z) else if j < 48 then H(x, y, z) else I(x, y, z)
  }

  function RotateLeft(x: bv32, n: nat): bv32
    requires 0 < n < 32
  {
    (x << n) | (x >> (32 - n))
  }

  /** The value section 3.4 assigns: b + ((a + aux + x + t) rotated left by s). */
  function NewRegister(a: bv32, b: bv32, aux: bv32, x: bv32, s: nat, t: bv32): bv32
    requires 0 < s < 32
  {
    b + RotateLeft(a + aux + x + t, s)
  }

  // ---- The schedule of the 64 steps ----

  /** Which word of the block step j adds. */
  function WordIndex(j: nat): (k: nat)
    ensures k < 16
  {
    if j < 16 then j
    else if j < 32 then (5 * j + 1) % 16
    else if j < 48 then (3 * j + 5) % 16
    else 7 * j % 16
  }

  function ShiftAmount(j: nat): (s: nat)
    ensures 0 < s < 32
  {
    var row := if j < 16 then [7, 12, 17, 22]
               else if j < 32 then [5, 9, 14, 20]
               else if j < 48 then [4, 11, 16, 23]
               else [6, 10, 15, 21];
    row[j % 4]
  }

  /** Entry j + 1 of the sine table. */
  function Sine(j: nat): bv32 {
    match j
    case 0 => 0xd76aa478 case 1 => 0xe8c7b756 case 2 => 0x242070db case 3 => 0xc1bdceee
    case 4 => 0xf57c0faf case 5 => 0x4787c62a case 6 => 0xa8304613 case 7 => 0xfd469501
    case 8 => 0x698098d8 case 9 => 0x8b44f7af case 10 => 0xffff5bb1 case 11 => 0x895cd7be
    case 12 => 0x6b901122 case 13 => 0xfd987193 case 14 => 0xa679438e case 15 => 0x49b40821
    case 16 => 0xf61e2562 case 17 => 0xc040b340 case 18 => 0x265e5a51 case 19 => 0xe9b6c7aa
    case 20 => 0xd62f105d case 21 => 0x02441453 case 22 => 0xd8a1e681 case 23 => 0xe7d3fbc8
    case 24 => 0x21e1cde6 case 25 => 0xc33707d6 case 26 => 0xf4d50d87 case 27 => 0x455a14ed
    case 28 => 0xa9e3e905 case 29 => 0xfcefa3f8 case 30 => 0x676f02d9 case 31 => 0x8d2a4c8a
    case 32 => 0xfffa3942 case 33 => 0x8771f681 case 34 => 0x6d9d6122 case 35 => 0xfde5380c
    case 36 => 0xa4beea44 case 37 => 0x4bdecfa9 case 38 => 0xf6bb4b60 case 39 => 0xbebfbc70
    case 40 => 0x289b7ec6 case 41 => 0xeaa127fa case 42 => 0xd4ef3085 case 43 => 0x04881d05
    case 44 => 0xd9d4d039 case 45 => 0xe6db99e5 case 46 => 0x1fa27cf8 case 47 => 0xc4ac5665
    case 48 => 0xf4292244 case 49 => 0x432aff97 case 50 => 0xab9423a7 case 51 => 0xfc93a039
    case 52 => 0x655b59c3 case 53 => 0x8f0ccc92 case 54 => 0xffeff47d case 55 => 0x85845dd1
    case 56 => 0x6fa87e4f case 57 => 0xfe2ce6e0 case 58 => 0xa3014314 case 59 => 0x4e0811a1
    case 60 => 0xf7537e82 case 61 => 0xbd3af235 case 62 => 0x2ad7d2bb case _ => 0xeb86d391
  }

  type Words = s: seq<bv32> | |s| == 16 witness seq(16, _ => 0)

  /** One step; the four registers trade places so that every step reads the same. */
  function Step(q: Md5State, x: Words, j: nat): Md5State {
    Md5State(q.d, NewRegister(q.a, q.b, Auxiliary(j, q.b, q.c, q.d), x[WordIndex(j)], ShiftAmount(j), Sine(j)), q.b, q.c)
  }

  function Steps(q: Md5State, x: Words, n: nat): Md5State {
    if n == 0 then q else Step(Steps(q, x, n - 1), x, n - 1)
  }

  // ---- Words and bytes, low-order byte first ----

  function WordOf(b0: bv8, b1: bv8, b2: bv8, b3: bv8): bv32 {
    (b0 as bv32) | ((b1 as bv32) << 8) | ((b2 as bv32) << 16) | ((b3 as bv32) << 24)
  }

  function BytesOf(w: bv32): (b: seq<bv8>)
    ensures |b| == 4
  {
    [(w & 0xff) as bv8, ((w >> 8) & 0xff) as bv8, ((w >> 16) & 0xff) as bv8, ((w >> 24) & 0xff) as bv8]
  }

  type Block = s: seq<bv8> | |s| == 64 witness seq(64, _ => 0)

  function WordsOf(block: Block): Words {
    seq(16, i requires 0 <= i < 16 => WordOf(block[4 * i], block[4 * i + 1], block[4 * i + 2], block[4 * i + 3]))
  }

  // ---- Blocks and messages ----

  /** Addition modulo 2^32. */
  function AddWords(x: bv32, y: bv32): bv32 {
    x + y
  }

  function Sum(h: Md5State, q: Md5State): Md5State {
    Md5State(AddWords(h.a, q.a), AddWords(h.b, q.b), AddWords(h.c, q.c), AddWords(h.d, q.d))
  }

  function Transform(h: Md5State, block: Block): Md5State {
    Sum(h, Steps(h, WordsOf(block), 64))
  }

  /** The state after the complete 64-byte blocks at the head of m. */
  function Digested(h: Md5State, m: seq<bv8>): Md5State
    decreases |m|
  {
    if |m| < 64 then h else Digested(Transform(h, m[..64]), m[64..])
  }

  /** Blocks can be digested in two goes, cut at any multiple of 64. */
  lemma {:induction false} DigestedConcat(h: Md5State, m: seq<bv8>, n: seq<bv8>)
    requires |m| % 64 == 0
    ensures Digested(h, m + n) == Digested(Digested(h, m), n)
    decreases |m|
  {
    hide Transform;
    if m == [] {
      assert m + n == n;
    } else {
      DigestedConcat(Transform(h, m[..64]), m[64..], n);
      assert (m + n)[..64] == m[..64] && (m + n)[64..] == m[64..] + n;
    }
  }

  /** Number of padding bytes of section 3.1: at least one, up to 56 modulo 64. */
  function PaddingLength(length: nat): (n: nat)
    ensures 1 <= n <= 64 && (length + n) % 64 == 56
  {
    var r := length % 64;
    if r < 56 then 56 - r else 120 - r
  }

  lemma PaddingLengthIsLeast(length: nat, n: nat)
    requires 1 <= n && (length + n) % 64 == 56
    ensures PaddingLength(length) <= n
  {
  }

  function Padding(length: nat): (p: seq<bv8>)
    ensures |p| == PaddingLength(length)
  {
    seq(PaddingLength(length), i => if i == 0 then 0x80 else 0)
  }

  const TWO32: nat := 0x1_0000_0000

  /** The bit length of section 3.2: two words, low-order word first, modulo 2^64. */
  function LengthBytes(length: nat): (b: seq<bv8>)
    ensures |b| == 8
  {
    BytesOf((8 * length % TWO32) as bv32) + BytesOf((8 * length / TWO32 % TWO32) as bv32)
  }

  function Padded(m: seq<bv8>): (p: seq<bv8>)
    ensures |p| % 64 == 0
  {
    var n := PaddingLength(|m|);
    assert (|m| + n + 8) % 64 == 0;
    m + Padding(|m|) + LengthBytes(|m|)
  }

  function StateBytes(h: Md5State): (b: seq<bv8>)
    ensures |b| == 16
  {
    BytesOf(h.a) + BytesOf(h.b) + BytesOf(h.c) + BytesOf(h.d)
  }

  function Md5(m: seq<bv8>): seq<bv8> {
    StateBytes(Digested(INITIAL, Padded(m)))
  }
}
