/** The secure hash standard, FIPS 180-4, as far as SHA-1 needs it: sections 4.1.1, 4.2.1, 5.1.1, 5.2.1, 5.3.1 and 6.1.2. */
module Sha1Standard {

  type word = bv32

  /** The five working variables, and also the five words of a hash value. */
  datatype State = State(a: word, b: word, c: word, d: word, e: word)

  type Block = m: seq<word> | |m| == 16 witness seq(16, _ => 0)

  function Rotl(x: word, n: nat): word
    requires 0 < n < 32
  {
    (x << n) | (x >> (32 - n))
  }

  // Section 4.1.1

  function Ch(x: word, y: word, z: word): word {
    (x & y) ^ ((!x) & z)
  }

  function Parity(x: word, y: word, z: word): word {
    x ^ y ^ z
  }

  function Maj(x: word, y: word, z: word): word {
    (x & y) ^ (x & z) ^ (y & z)
  }

  function F(t: nat, x: word, y: word, z: word): word {
    if t < 20 then Ch(x, y, z) else if t < 40 then Parity(x, y, z) else if t < 60 then Maj(x, y, z) else Parity(x, y, z)
  }

  // Section 4.2.1

  function K(t: nat): word {
    if t < 20 then 0x5a827999 else if t < 40 then 0x6ed9eba1 else if t < 60 then 0x8f1bbcdc else 0xca62c1d6
  }

  // Section 5.3.1

  const INITIAL := State(0x67452301, 0xefcdab89, 0x98badcfe, 0x10325476, 0xc3d2e1f0)

  // Section 6.1.2

  /** The message schedule: 80 words made from the 16 words of a block. */
  function W(m: Block, t: nat): word {
    if t < 16 then m[t] else Rotl(W(m, t - 3) ^ W(m, t - 8) ^ W(m, t - 14) ^ W(m, t - 16), 1)
  }

  /** Addition is modulo 2^32. */
  function Sum5(a: word, b: word, c: word, d: word, e: word): word {
    a + b + c + d + e
  }

  function Round(s: State, t: nat, w: word): State {
    State(Sum5(Rotl(s.a, 5), F(t, s.b, s.c, s.d), s.e, K(t), w), s.a, Rotl(s.b, 30), s.c, s.d)
  }

  /** The working variables after the first `t` rounds. */
  function Rounds(s: State, m: Block, t: nat): State {
    if t == 0 then s else Round(Rounds(s, m, t - 1), t - 1, W(m, t - 1))
  }

  function Plus(x: word, y: word): word {
    x + y
  }

  function Sum(s: State, r: State): State {
    State(Plus(s.a, r.a), Plus(s.b, r.b), Plus(s.c, r.c), Plus(s.d, r.d), Plus(s.e, r.e))
  }

  function Compress(s: State, m: Block): State {
    Sum(s, Rounds(s, m, 80))
  }

  // Section 5.1.1

  /** The number of zero bytes between the bit 1 and the length. */
  function ZeroBytes(length: nat): nat {
    (64 - (length + 9) % 64) % 64
  }

  /** A 64-bit number as eight bytes, most significant first. */
  function Bytes64(n: bv64): (s: seq<bv8>)
    ensures |s| == 8
  {
    [(n >> 56) as bv8, ((n >> 48) & 0xff) as bv8, ((n >> 40) & 0xff) as bv8, ((n >> 32) & 0xff) as bv8,
     ((n >> 24) & 0xff) as bv8, ((n >> 16) & 0xff) as bv8, ((n >> 8) & 0xff) as bv8, (n & 0xff) as bv8]
  }

  /**
    The number of bits of a message. The standard bounds messages below 2^64
    bits, where taking the remainder changes nothing.
   */
  function BitLength(message: seq<bv8>): bv64 {
    Low64(|message| * 8)
  }

  function Low64(n: nat): bv64 {
    (n % 0x1_0000_0000_0000_0000) as bv64
  }

  function Zeros(n: nat): (s: seq<bv8>)
    ensures |s| == n
  {
    seq(n, _ => 0)
  }

  /** The message, the bit 1, zero bits, and `length` in 64 bits. */
  function PadWith(message: seq<bv8>, length: bv64): seq<bv8> {
    message + [0x80] + Zeros(ZeroBytes(|message|)) + Bytes64(length)
  }

  function Pad(message: seq<bv8>): seq<bv8> {
    PadWith(message, BitLength(message))
  }

  lemma RoundUp(length: nat)
    ensures (length + 1 + ZeroBytes(length) + 8) % 64 == 0 && ZeroBytes(length) < 64
  {
    var n := length + 9;
    if n % 64 != 0 {
      assert n + (64 - n % 64) == 64 * (n / 64 + 1);
    }
  }

  /** What is padded is the least number of whole blocks of 64 bytes that the message, the bit 1 and the length fit into. */
  lemma PadIsWhole(message: seq<bv8>)
    ensures |Pad(message)| % 64 == 0 && |message| + 1 + 8 <= |Pad(message)| < |message| + 1 + 8 + 64
  {
    hide Bytes64, BitLength, ZeroBytes;
    RoundUp(|message|);
  }

  // Section 5.2.1

  function Word(b0: bv8, b1: bv8, b2: bv8, b3: bv8): word {
    ((b0 as bv32) << 24) | ((b1 as bv32) << 16) | ((b2 as bv32) << 8) | (b3 as bv32)
  }

  /** The 16 words of 64 bytes. */
  function ToBlock(bytes: seq<bv8>): Block
    requires |bytes| == 64
  {
    seq(16, i requires 0 <= i < 16 => Word(bytes[4 * i], bytes[4 * i + 1], bytes[4 * i + 2], bytes[4 * i + 3]))
  }

  /** Hashing block by block. */
  function HashBlocks(s: State, bytes: seq<bv8>): State {
    if |bytes| < 64 then s
    else Compress(HashBlocks(s, bytes[..|bytes| - 64]), ToBlock(bytes[|bytes| - 64..]))
  }

  function Sha1(message: seq<bv8>): State {
    HashBlocks(INITIAL, Pad(message))
  }
}
