/** `cmn::Hash`: the twenty bytes of a SHA-1 digest. */
module Hashing {
  import opened Bytes
  import Hasher
  import Hex
  import Sha1Standard

  const HASH_SIZE := 20

  function Bits(data: seq<byte>): seq<bv8> {
    seq(|data|, i requires 0 <= i < |data| => data[i] as bv8)
  }

  /** What `SHA1::from_string` returns. */
  function FromString(data: seq<byte>): (hex: seq<byte>)
    ensures |hex| == 2 * HASH_SIZE
  {
    Hex.Encode(Hasher.DigestBytes(Sha1Standard.Sha1(Bits(data))))
  }

  /** The hash of `data`: its hexadecimal digest, read back. */
  function Of(data: seq<byte>): seq<byte> {
    Hex.Decode(FromString(data))
  }

  /** The hash is the digest of FIPS 180-4, and printing it gives the digest text again. */
  lemma HashIsDigest(data: seq<byte>)
    ensures Of(data) == Hasher.DigestBytes(Sha1Standard.Sha1(Bits(data)))
    ensures |Of(data)| == HASH_SIZE
    ensures Hex.Encode(Of(data)) == FromString(data)
  {
    Hex.DecodeEncode(Hasher.DigestBytes(Sha1Standard.Sha1(Bits(data))));
  }

  method HashOf(data: seq<byte>) returns (hash: seq<byte>)
    ensures hash == Of(data)
  {
    var hex := Hasher.FromString(Bits(data));
    hash := Hex.HexToBytes(hex);
  }

  method AsHex(hash: seq<byte>) returns (hex: seq<byte>)
    ensures hex == Hex.Encode(hash)
  {
    hide Hex.Pair;
    hex := [];
    var i := 0;
    while i < |hash|
      invariant 0 <= i <= |hash|
      invariant hex + Hex.Encode(hash[i..]) == Hex.Encode(hash)
    {
      assert hash[i..][1..] == hash[i + 1..];
      hex := hex + Hex.Pair(hash[i]);
      i := i + 1;
    }
  }
}
