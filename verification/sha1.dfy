/** Section numbers are those of FIPS 180-4, the Secure Hash Standard. */
module Sha1Standard {
  type Block = m: seq<bv32> | |m| == 16 witness seq(16, _ => 0)

  /** Section 3.2: addition modulo 2^32. */
  function Add(x: bv32, y: bv32): bv32 { x + y }

  /** The five working variables, and also the five words of a hash value. */
  datatype Regs = Regs(a: bv32, b: bv32, c: bv32, d: bv32, e: bv32) {
    function Plus(r: Regs): Regs { Regs(Add(a, r.a), Add(b, r.b), Add(c, r.c), Add(d, r.d), Add(e, r.e)) }

    function Words(): (ws: seq<bv32>)
      ensures |ws| == 5
    {
      [a, b, c, d, e]
    }
  }

  function Sum5(a: bv32, b: bv32, c: bv32, d: bv32, e: bv32): bv32 { a + b + c + d + e }

  function Rotl(x: bv32, n: bv6): bv32
    requires n <= 32
  {
    (x << n) | (x >> (32 - n))
  }

  function Ch(x: bv32, y: bv32, z: bv32): bv32 { (x & y) ^ (!x & z) }

  function Parity(x: bv32, y: bv32, z: bv32): bv32 { x ^ y ^ z }

  function Maj(x: bv32, y: bv32, z: bv32): bv32 { (x & y) ^ (x & z) ^ (y & z) }

  /** Section 4.1.1. */
  function F(t: nat, x: bv32, y: bv32, z: bv32): bv32 {
    if t < 20 then Ch(x, y, z) else if 40 <= t < 60 then Maj(x, y, z) else Parity(x, y, z)
  }

  /** Section 4.2.1. */
  function K(t: nat): bv32 {
    if t < 20 then 0x5a827999 else if t < 40 then 0x6ed9eba1 else if t < 60 then 0x8f1bbcdc else 0xca62c1d6
  }

  /** Where the constants come from: they are the leading 32 bits of the square roots of 2, 3, 5 and 10. */
  lemma ConstantsAreRoots(t: nat)
    ensures var k, n := K(t) as nat, if t < 20 then 2 else if t < 40 then 3 else if t < 60 then 5 else 10;
            k * k <= n * 0x1000_0000_0000_0000 < (k + 1) * (k + 1)
  {
  }

  function Mix(a: bv32, b: bv32, c: bv32, d: bv32): bv32 { Rotl(a ^ b ^ c ^ d, 1) }

  /** Section 6.1.2, step 1: the message schedule of 80 words. */
  function W(m: Block, t: nat): bv32 {
    if t < 16 then m[t]
    else Mix(W(m, t - 3), W(m, t - 8), W(m, t - 14), W(m, t - 16))
  }

  /** Section 6.1.2, step 3, for one t. */
  function Step(r: Regs, t: nat, w: bv32): Regs {
    Regs(Sum5(Rotl(r.a, 5), F(t, r.b, r.c, r.d), r.e, K(t), w), r.a, Rotl(r.b, 30), r.c, r.d)
  }

  function Rounds(h: Regs, m: Block, t: nat): Regs {
    if t == 0 then h else Step(Rounds(h, m, t - 1), t - 1, W(m, t - 1))
  }

  /** Section 6.1.2: the next hash value. */
  function Compress(h: Regs, m: Block): Regs { h.Plus(Rounds(h, m, 80)) }

  /** Section 5.3.1. */
  const IV := Regs(0x67452301, 0xefcdab89, 0x98badcfe, 0x10325476, 0xc3d2e1f0)

  function BigEndian(b0: bv8, b1: bv8, b2: bv8, b3: bv8): bv32 {
    ((b0 as bv32) << 24) | ((b1 as bv32) << 16) | ((b2 as bv32) << 8) | (b3 as bv32)
  }

  /** Section 5.2.1: 64 bytes as sixteen words. */
  function Parse(bytes: seq<bv8>): Block
    requires |bytes| == 64
  {
    seq(16, i requires 0 <= i < 16 => BigEndian(bytes[4 * i], bytes[4 * i + 1], bytes[4 * i + 2], bytes[4 * i + 3]))
  }

  /** The hash value after all the blocks of the data. */
  function HashBlocks(data: seq<bv8>): Regs
    requires |data| % 64 == 0
  {
    if data == [] then IV
    else Compress(HashBlocks(data[..|data| - 64]), Parse(data[|data| - 64..]))
  }

  function Byte(n: nat): bv8 { (n % 256) as bv8 }

  function Power256(k: nat): (r: nat)
    ensures r > 0
  {
    if k == 0 then 1 else 256 * Power256(k - 1)
  }

  function Bytes32(n: nat): (r: seq<bv8>)
    ensures |r| == 4
  {
    [Byte(n / Power256(3)), Byte(n / Power256(2)), Byte(n / Power256(1)), Byte(n / Power256(0))]
  }

  /** A 64-bit number, most significant byte first. */
  function Bytes64(n: nat): (r: seq<bv8>)
    ensures |r| == 8
  {
    Bytes32(n / 0x1_0000_0000) + Bytes32(n)
  }

  function Zeros(n: nat): (r: seq<bv8>)
    ensures |r| == n
  {
    seq(n, _ => 0)
  }

  lemma PadLength(n: nat)
    ensures (n + 1 + (55 - n) % 64 + 8) % 64 == 0
  {
  }

  /** Section 5.1.1, the message length taken modulo 2^64. */
  function Pad(m: seq<bv8>): (r: seq<bv8>)
    ensures |r| % 64 == 0
  {
    PadLength(|m|);
    m + [0x80] + Zeros((55 - |m|) % 64) + Bytes64((8 * |m|) % 0x1_0000_0000_0000_0000)
  }

  /** The message comes first, the 64-bit length last, a one bit and zeros between, and no shorter way of doing that
      gives whole blocks. */
  lemma PadIsShortest(m: seq<bv8>)
    ensures var p, n := Pad(m), |m|;
            && n + 9 <= |p| < n + 9 + 64 && |p| % 64 == 0
            && p[..n] == m && p[n] == 0x80 && (forall i :: n < i < |p| - 8 ==> p[i] == 0)
            && p[|p| - 8..] == Bytes64((8 * n) % 0x1_0000_0000_0000_0000)
  {
    hide Bytes64;
    PadLength(|m|);
  }

  /** The k-th byte of a word, counted from the least significant. */
  function ByteOf(w: bv32, k: nat): bv8
    requires k < 4
  {
    ((w >> (8 * k)) & 255) as bv8
  }

  function BytesOf(w: bv32): seq<bv8> { [ByteOf(w, 0), ByteOf(w, 1), ByteOf(w, 2), ByteOf(w, 3)] }

  /** Where the initial value comes from: least significant byte first, the hexadecimal digits of its words count up
      from 0, then down from f, and in the last word down from f and up from 0 in turn. */
  lemma InitialPattern()
    ensures BytesOf(IV.a) + BytesOf(IV.b) == [0x01, 0x23, 0x45, 0x67, 0x89, 0xab, 0xcd, 0xef]
    ensures BytesOf(IV.c) + BytesOf(IV.d) == [0xfe, 0xdc, 0xba, 0x98, 0x76, 0x54, 0x32, 0x10]
    ensures BytesOf(IV.e) == [0xf0, 0xe1, 0xd2, 0xc3]
  {
  }

  /** The words of the last hash value, each most significant byte first. */
  function Digest(h: Regs): seq<bv8> {
    seq(20, i requires 0 <= i < 20 => ByteOf(h.Words()[i / 4], 3 - i % 4))
  }

  /** SHA-1 of a message. */
  function Sha1(m: seq<bv8>): seq<bv8> { Digest(HashBlocks(Pad(m))) }
}
