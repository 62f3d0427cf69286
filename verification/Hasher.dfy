/** The streaming class `SHA1` of include/sha1.hpp. */
module Hasher {
  import opened Bytes
  import opened Sha1Standard
  import opened Sha1Transform
  import Hex

  lemma WordForms(b0: bv8, b1: bv8, b2: bv8, b3: bv8)
    ensures (b3 as bv32 & 0xff) | ((b2 as bv32 & 0xff) << 8) | ((b1 as bv32 & 0xff) << 16) | ((b0 as bv32 & 0xff) << 24)
            == Word(b0, b1, b2, b3)
  {
  }

  method BufferToBlock(buffer: seq<bv8>) returns (block: array<word>)
    requires |buffer| == BLOCK_BYTES
    ensures fresh(block) && block.Length == BLOCK_INTS && block[..] == ToBlock(buffer)
  {
    hide Word;
    block := new word[BLOCK_INTS];
    var i := 0;
    while i < BLOCK_INTS
      invariant 0 <= i <= BLOCK_INTS
      invariant forall k :: 0 <= k < i ==> block[k] == ToBlock(buffer)[k]
    {
      WordForms(buffer[4 * i], buffer[4 * i + 1], buffer[4 * i + 2], buffer[4 * i + 3]);
      block[i] := (buffer[4 * i + 3] as bv32 & 0xff) | ((buffer[4 * i + 2] as bv32 & 0xff) << 8)
                | ((buffer[4 * i + 1] as bv32 & 0xff) << 16) | ((buffer[4 * i] as bv32 & 0xff) << 24);
      i := i + 1;
    }
  }

  function HighWord(n: bv64): word {
    (n >> 32) as bv32
  }

  function LowWord(n: bv64): word {
    (n & 0xffff_ffff) as bv32
  }

  lemma LengthWords(n: bv64)
    ensures var b := Bytes64(n);
            Word(b[0], b[1], b[2], b[3]) == HighWord(n) && Word(b[4], b[5], b[6], b[7]) == LowWord(n)
  {
  }

  lemma ZeroWord()
    ensures Word(0, 0, 0, 0) == 0
  {
  }

  /** Writing the length over the last two words of a block is appending its eight bytes to the first 56. */
  lemma LengthIsLast(head: seq<bv8>, full: seq<bv8>, n: bv64)
    requires |head| == 56 && |full| == 64 && full[..56] == head
    ensures ToBlock(head + Bytes64(n)) == ToBlock(full)[14 := HighWord(n)][15 := LowWord(n)]
  {
    hide Word, HighWord, LowWord, Bytes64;
    var bytes, b := head + Bytes64(n), Bytes64(n);
    LengthWords(n);
    assert bytes[56] == b[0] && bytes[57] == b[1] && bytes[58] == b[2] && bytes[59] == b[3];
    assert bytes[60] == b[4] && bytes[61] == b[5] && bytes[62] == b[6] && bytes[63] == b[7];
    forall i | 0 <= i < 14
      ensures ToBlock(bytes)[i] == ToBlock(full)[i]
    {
      assert forall k :: 0 <= k < 56 ==> bytes[k] == full[..56][k];
    }
  }

  lemma ZeroBlock()
    ensures ToBlock(Zeros(64)) == ZERO_BLOCK
  {
    hide Word;
    ZeroWord();
  }

  lemma Remainder64(quotient: nat, rest: nat)
    requires rest < 64
    ensures (64 * quotient + rest) % 64 == rest
  {
  }

  lemma ZeroBytesOf(blocks: nat, rest: nat)
    requires rest < 64
    ensures ZeroBytes(64 * blocks + rest) == if rest <= 55 then 55 - rest else 119 - rest
  {
    if rest <= 54 {
      Remainder64(blocks, rest + 9);
      assert ZeroBytes(64 * blocks + rest) == (64 - (rest + 9)) % 64;
    } else {
      Remainder64(blocks + 1, rest - 55);
      assert ZeroBytes(64 * blocks + rest) == (64 - (rest - 55)) % 64;
    }
  }

  lemma OneMoreBlock(s: State, bytes: seq<bv8>, last: seq<bv8>)
    requires |last| == 64
    ensures HashBlocks(s, bytes + last) == Compress(HashBlocks(s, bytes), ToBlock(last))
  {
    hide Compress, ToBlock;
    var all := bytes + last;
    assert all[..|all| - 64] == bytes && all[|all| - 64..] == last;
  }

  /** What is left of a message, with the bit 1 and zeros up to the end of the block. */
  function FullTail(rest: seq<bv8>): (bytes: seq<bv8>)
    requires |rest| < BLOCK_BYTES
    ensures |bytes| == BLOCK_BYTES
  {
    rest + [0x80] + Zeros(63 - |rest|)
  }

  /** A message that leaves at most 55 bytes over is padded to one more block. */
  lemma PadInOneBlock(message: seq<bv8>, blocks: nat, rest: seq<bv8>, length: bv64)
    requires |rest| <= 55 && |message| == 64 * blocks + |rest| && message[64 * blocks..] == rest
    ensures HashBlocks(INITIAL, PadWith(message, length))
            == Compress(HashBlocks(INITIAL, message[..64 * blocks]),
                        ToBlock(rest + [0x80] + Zeros(55 - |rest|) + Bytes64(length)))
  {
    hide ToBlock, HashBlocks, Bytes64, ZeroBytes, Compress;
    ZeroBytesOf(blocks, |rest|);
    var last := rest + [0x80] + Zeros(55 - |rest|) + Bytes64(length);
    assert message == message[..64 * blocks] + rest;
    assert PadWith(message, length) == message[..64 * blocks] + last;
    OneMoreBlock(INITIAL, message[..64 * blocks], last);
  }

  /** A message that leaves 56 bytes or more is padded to two. */
  lemma PadInTwoBlocks(message: seq<bv8>, blocks: nat, rest: seq<bv8>, length: bv64)
    requires 56 <= |rest| < 64 && |message| == 64 * blocks + |rest| && message[64 * blocks..] == rest
    ensures HashBlocks(INITIAL, PadWith(message, length))
            == Compress(Compress(HashBlocks(INITIAL, message[..64 * blocks]), ToBlock(FullTail(rest))),
                        ToBlock(Zeros(56) + Bytes64(length)))
  {
    hide ToBlock, HashBlocks, Bytes64, ZeroBytes, Compress;
    ZeroBytesOf(blocks, |rest|);
    var last1, last2 := FullTail(rest), Zeros(56) + Bytes64(length);
    assert message == message[..64 * blocks] + rest;
    assert Zeros(119 - |rest|) == Zeros(63 - |rest|) + Zeros(56);
    assert PadWith(message, length) == (message[..64 * blocks] + last1) + last2;
    OneMoreBlock(INITIAL, message[..64 * blocks], last1);
    OneMoreBlock(INITIAL, message[..64 * blocks] + last1, last2);
  }

  function Number(w: word): uint32 {
    w as int
  }

  /** Words in network order, one after the other. */
  function WordBytes(words: seq<word>): (bytes: seq<byte>)
    ensures |bytes| == 4 * |words|
  {
    if words == [] then [] else WordBytes(words[..|words| - 1]) + BigEndian(Number(words[|words| - 1]))
  }

  function DigestBytes(s: State): (bytes: seq<byte>)
    ensures |bytes| == 20
  {
    WordBytes([s.a, s.b, s.c, s.d, s.e])
  }

  /** A number in hexadecimal, padded with zeros to `width` digits. */
  function HexNumber(n: nat, width: nat): seq<byte> {
    if width == 0 then [] else HexNumber(n / 16, width - 1) + [Hex.Digit(n % 16)]
  }

  lemma HexNumberPair(n: nat, quotient: nat, b: byte, width: nat)
    requires n == 0x100 * quotient + b
    ensures HexNumber(n, width + 2) == HexNumber(quotient, width) + Hex.Pair(b)
  {
    assert HexNumber(n, width + 2) == HexNumber(n / 16 / 16, width) + [Hex.Digit(n / 16 % 16)] + [Hex.Digit(n % 16)];
    assert n / 16 / 16 == quotient && n / 16 % 16 == b / 16 && n % 16 == b % 16;
  }

  lemma ByteQuotients(n: uint32)
    ensures var b := BigEndian(n);
            && n == 0x100 * (n / 0x100) + b[3]
            && n / 0x100 == 0x100 * (n / 0x1_0000) + b[2]
            && n / 0x1_0000 == 0x100 * (n / 0x100_0000) + b[1]
            && n / 0x100_0000 == b[0]
  {
  }

  /** Eight digits of a word are two digits for each of its bytes. */
  lemma HexNumberOfBytes(n: uint32)
    ensures HexNumber(n, 8) == Hex.Encode(BigEndian(n))
  {
    var b := BigEndian(n);
    ByteQuotients(n);
    EncodeFour(b);
    var q1: nat, q2: nat, q3: nat := n / 0x100, n / 0x1_0000, n / 0x100_0000;
    HexOfQuotients(n, q1, q2, q3, b);
  }

  lemma EmptyNumber()
    ensures HexNumber(0, 0) == []
  {
  }

  lemma HexOfQuotients(n: nat, q1: nat, q2: nat, q3: nat, b: seq<byte>)
    requires |b| == 4 && n == 0x100 * q1 + b[3] && q1 == 0x100 * q2 + b[2] && q2 == 0x100 * q3 + b[1] && q3 == b[0]
    ensures HexNumber(n, 8) == Hex.Pair(b[0]) + Hex.Pair(b[1]) + Hex.Pair(b[2]) + Hex.Pair(b[3])
  {
    hide *;
    EmptyNumber();
    HexNumberPair(n, q1, b[3], 6);
    HexNumberPair(q1, q2, b[2], 4);
    HexNumberPair(q2, q3, b[1], 2);
    HexNumberPair(q3, 0, b[0], 0);
  }

  lemma EncodeFour(b: seq<byte>)
    requires |b| == 4
    ensures Hex.Encode(b) == Hex.Pair(b[0]) + Hex.Pair(b[1]) + Hex.Pair(b[2]) + Hex.Pair(b[3])
  {
    hide Hex.Pair;
    assert b[1..][1..] == b[2..] && b[2..][1..] == b[3..] && b[3..][1..] == [];
    assert Hex.Encode(b[3..]) == Hex.Pair(b[3]);
    assert Hex.Encode(b[2..]) == Hex.Pair(b[2]) + Hex.Pair(b[3]);
    assert Hex.Encode(b[1..]) == Hex.Pair(b[1]) + (Hex.Pair(b[2]) + Hex.Pair(b[3]));
  }

  lemma EncodeFirst(s: seq<byte>)
    requires s != []
    ensures Hex.Encode(s) == Hex.Pair(s[0]) + Hex.Encode(s[1..])
  {
    hide Hex.Pair;
  }

  lemma EncodeNothing()
    ensures Hex.Encode([]) == []
  {
  }

  lemma TailOfConcat(a: seq<byte>, b: seq<byte>)
    requires a != []
    ensures (a + b)[0] == a[0] && (a + b)[1..] == a[1..] + b
  {
  }

  lemma {:induction false} EncodeConcat(a: seq<byte>, b: seq<byte>)
    ensures Hex.Encode(a + b) == Hex.Encode(a) + Hex.Encode(b)
  {
    hide *;
    if a == [] {
      EncodeNothing();
      Nothing(b);
      Nothing(Hex.Encode(b));
    } else {
      EncodeConcat(a[1..], b);
      EncodeFirst(a);
      EncodeFirst(a + b);
      TailOfConcat(a, b);
      Associate(Hex.Pair(a[0]), Hex.Encode(a[1..]), Hex.Encode(b));
    }
  }

  method HexOfDigest(digest: array<word>) returns (hex: seq<byte>)
    requires digest.Length == 5
    ensures hex == Hex.Encode(DigestBytes(StateOf(digest[..])))
  {
    hide HexNumber, Hex.Encode, BigEndian, Number;
    hex := [];
    var i := 0;
    assert hex == Hex.Encode(WordBytes([])) by {
      assert |Hex.Encode([])| == 0;
    }
    assert digest[..0] == [];
    while i < 5
      invariant 0 <= i <= 5
      invariant hex == Hex.Encode(WordBytes(digest[..i]))
    {
      HexNumberOfBytes(Number(digest[i]));
      assert digest[..i + 1][..i] == digest[..i];
      EncodeConcat(WordBytes(digest[..i]), BigEndian(Number(digest[i])));
      hex := hex + HexNumber(Number(digest[i]), 8);
      i := i + 1;
    }
    assert digest[..5] == [digest[0], digest[1], digest[2], digest[3], digest[4]];
  }

  /** What is left after padding in place and writing the length over the last two words. */
  lemma OneLastBlock(message: seq<bv8>, blocks: nat, rest: seq<bv8>, length: bv64)
    requires |rest| <= 55 && |message| == 64 * blocks + |rest| && message[64 * blocks..] == rest
    ensures Compress(HashBlocks(INITIAL, message[..64 * blocks]),
                     ToBlock(FullTail(rest))[15 := LowWord(length)][14 := HighWord(length)])
            == HashBlocks(INITIAL, PadWith(message, length))
  {
    hide Compress, HashBlocks, ToBlock, HighWord, LowWord, Bytes64, PadWith;
    var head, full := rest + [0x80] + Zeros(55 - |rest|), FullTail(rest);
    assert full[..56] == head;
    PadInOneBlock(message, blocks, rest, length);
    LengthIsLast(head, full, length);
    SwapUpdates(ToBlock(full), HighWord(length), LowWord(length));
  }

  lemma SwapUpdates(words: seq<word>, high: word, low: word)
    requires |words| == 16
    ensures words[14 := high][15 := low] == words[15 := low][14 := high]
  {
  }

  /** A last block that holds nothing but the length. */
  lemma LengthAlone(length: bv64)
    ensures ToBlock(Zeros(56) + Bytes64(length)) == ZERO_BLOCK[15 := LowWord(length)][14 := HighWord(length)]
  {
    hide ToBlock, HighWord, LowWord, Bytes64;
    assert Zeros(64)[..56] == Zeros(56);
    ZeroBlock();
    LengthIsLast(Zeros(56), Zeros(64), length);
    SwapUpdates(ToBlock(Zeros(64)), HighWord(length), LowWord(length));
  }

  method ClearWords(block: array<word>)
    requires block.Length == BLOCK_INTS
    modifies block
    ensures forall k :: 0 <= k < BLOCK_INTS - 2 ==> block[k] == 0
  {
    var i := 0;
    while i < BLOCK_INTS - 2
      invariant 0 <= i <= BLOCK_INTS - 2
      invariant forall k :: 0 <= k < i ==> block[k] == 0
    {
      block[i] := 0;
      i := i + 1;
    }
  }

  method WriteLength(block: array<word>, totalBits: bv64, ghost last: Block)
    requires block.Length == BLOCK_INTS && forall k :: 0 <= k < BLOCK_INTS - 2 ==> block[k] == last[k]
    modifies block
    ensures block[..] == last[15 := LowWord(totalBits)][14 := HighWord(totalBits)]
  {
    hide LowWord, HighWord;
    block[BLOCK_INTS - 1] := LowWord(totalBits);
    block[BLOCK_INTS - 2] := HighWord(totalBits);
    assert forall k :: 0 <= k < BLOCK_INTS - 2 ==> block[k] == last[k];
  }

  function TotalBits(transforms: nat, size: nat): bv64 {
    Low64((transforms * BLOCK_BYTES + size) * 8)
  }

  lemma Sha1OfLength(message: seq<bv8>, length: bv64)
    requires length == BitLength(message)
    ensures Sha1(message) == HashBlocks(INITIAL, PadWith(message, length))
  {
    hide HashBlocks, PadWith, BitLength;
  }

  lemma FilledIsFullTail(rest: seq<bv8>)
    requires |rest| < BLOCK_BYTES
    ensures rest + [0x80] + Zeros(BLOCK_BYTES - |rest + [0x80]|) == FullTail(rest)
  {
  }

  lemma TotalBitsOf(message: seq<bv8>, transforms: nat, size: nat)
    requires |message| == 64 * transforms + size
    ensures TotalBits(transforms, size) == BitLength(message)
  {
    hide Low64;
    assert (transforms * BLOCK_BYTES + size) * 8 == |message| * 8;
  }

  const ZERO_BLOCK: Block := seq(16, _ => 0)

  /** A block that is full is compressed, and the buffer starts anew. */
  lemma FullBuffer(message: seq<bv8>, blocks: nat, part: seq<bv8>)
    requires 64 * blocks <= |message| && |message| + |part| == 64 * blocks + 64
    ensures HashBlocks(INITIAL, (message + part)[..64 * (blocks + 1)])
            == Compress(HashBlocks(INITIAL, message[..64 * blocks]), ToBlock(message[64 * blocks..] + part))
  {
    hide *;
    assert (message + part)[..64 * (blocks + 1)] == message[..64 * blocks] + (message[64 * blocks..] + part);
    OneMoreBlock(INITIAL, message[..64 * blocks], message[64 * blocks..] + part);
  }

  lemma NothingHashed()
    ensures HashBlocks(INITIAL, []) == INITIAL
  {
  }

  lemma ZeroBlockWords()
    ensures forall k :: 0 <= k < 16 ==> ZERO_BLOCK[k] == 0
  {
  }

  class SHA1 {
    const digest: array<word>
    var buffer: seq<bv8>
    var transforms: nat
    /** Everything that was given to `Update` since the last reset. */
    ghost var message: seq<bv8>

    ghost predicate Valid()
      reads this, digest
    {
      digest.Length == 5 && Absorbed(message, buffer, transforms, digest[..])
    }

    constructor ()
      ensures Valid() && fresh(digest) && message == []
    {
      digest := new word[5];
      new;
      Reset();
    }

    method Reset()
      requires digest.Length == 5
      modifies this, digest
      ensures Valid() && message == []
      ensures digest[..] == [0x67452301, 0xefcdab89, 0x98badcfe, 0x10325476, 0xc3d2e1f0] && buffer == [] && transforms == 0
    {
      digest[0] := 0x67452301;
      digest[1] := 0xefcdab89;
      digest[2] := 0x98badcfe;
      digest[3] := 0x10325476;
      digest[4] := 0xc3d2e1f0;
      buffer, transforms, message := [], 0, [];
      NothingHashed();
    }

    /** However a message is cut into parts, the parts add up to it. */
    method Update(s: seq<bv8>)
      requires Valid()
      modifies this, digest
      ensures Valid() && message == old(message) + s
    {
      hide Compress, ToBlock, HashBlocks, StateOf;
      var i := 0;
      while true
        invariant 0 <= i <= |s|
        invariant Valid() && message == old(message) + s[..i]
        decreases |s| - i
      {
        var n := if |s| - i < BLOCK_BYTES - |buffer| then |s| - i else BLOCK_BYTES - |buffer|;
        ghost var before := message;
        var part := s[i..i + n];
        buffer := buffer + part;
        i := i + n;
        message := message + part;
        assert message == old(message) + s[..i];
        if |buffer| != BLOCK_BYTES {
          assert message[..64 * transforms] == before[..64 * transforms];
          assert s[..i] == s;
          return;
        }
        FullBuffer(before, transforms, part);
        var block := BufferToBlock(buffer);
        Transform(digest, block);
        transforms := transforms + 1;
        buffer := [];
      }
    }

    method FillBuffer()
      requires |buffer| <= BLOCK_BYTES
      modifies `buffer
      ensures buffer == old(buffer) + Zeros(BLOCK_BYTES - |old(buffer)|)
    {
      while |buffer| < BLOCK_BYTES
        invariant |old(buffer)| <= |buffer| <= BLOCK_BYTES
        invariant buffer == old(buffer) + Zeros(|buffer| - |old(buffer)|)
      {
        buffer := buffer + [0x00];
      }
    }

    /** Pads in place, compressing once already if the length does not fit any more, and returns the last block. */
    method LastBlock() returns (block: array<word>)
      requires Valid()
      modifies this, digest
      ensures fresh(block) && block.Length == BLOCK_INTS && digest.Length == 5
      ensures Compress(StateOf(digest[..]), block[..]) == Sha1(old(message))
    {
      hide TotalBits, BitLength, Compress, ToBlock, HashBlocks, StateOf, HighWord, LowWord, Sha1, PadWith, FullTail, Zeros;
      var totalBits := TotalBits(transforms, |buffer|);
      FilledIsFullTail(buffer);
      TotalBitsOf(message, transforms, |buffer|);
      Sha1OfLength(message, totalBits);
      buffer := buffer + [0x80];
      var origSize := |buffer|;
      FillBuffer();
      block := BufferToBlock(buffer);
      ghost var last: Block := block[..];
      if origSize > BLOCK_BYTES - 8 {
        PadInTwoBlocks(message, transforms, old(buffer), totalBits);
        LengthAlone(totalBits);
        Transform(digest, block);
        transforms := transforms + 1;
        ClearWords(block);
        last := ZERO_BLOCK;
        ZeroBlockWords();
      } else {
        OneLastBlock(message, transforms, old(buffer), totalBits);
      }
      WriteLength(block, totalBits, last);
    }

    /** Pads, returns the digest in hexadecimal and starts anew. */
    method Final() returns (hex: seq<byte>)
      requires Valid()
      modifies this, digest
      ensures hex == Hex.Encode(DigestBytes(Sha1(old(message))))
      ensures Valid() && message == []
      ensures digest[..] == [0x67452301, 0xefcdab89, 0x98badcfe, 0x10325476, 0xc3d2e1f0] && buffer == [] && transforms == 0
    {
      hide Compress, ToBlock, HashBlocks, StateOf, Sha1, Hex.Encode, DigestBytes;
      var block := LastBlock();
      Transform(digest, block);
      hex := HexOfDigest(digest);
      Reset();
    }
  }

  method FromString(str: seq<bv8>) returns (hex: seq<byte>)
    ensures hex == Hex.Encode(DigestBytes(Sha1(str)))
  {
    hide Sha1, DigestBytes, Hex.Encode;
    var checksum := new SHA1();
    checksum.Update(str);
    assert [] + str == str;
    hex := checksum.Final();
  }

  /** The state of a hasher that was given `message`. */
  ghost predicate Absorbed(message: seq<bv8>, buffer: seq<bv8>, transforms: nat, digest: seq<word>)
    requires |digest| == 5
  {
    && |buffer| < BLOCK_BYTES
    && |message| == 64 * transforms + |buffer|
    && buffer == message[64 * transforms..]
    && StateOf(digest) == HashBlocks(INITIAL, message[..64 * transforms])
  }
}
