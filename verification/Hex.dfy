/** Hexadecimal text: `hex_to_bytes` and `Hash::as_hex` of src/common.cpp. */
module Hex {
  import opened Bytes

  function Digit(n: nat): byte
    requires n < 16
  {
    if n < 10 then 48 + n else 97 + (n - 10)
  }

  /** The value of a hexadecimal digit of either case. */
  function DigitValue(c: int): Option<nat> {
    if 48 <= c <= 57 then Some(c - 48)
    else if 97 <= c <= 102 then Some(c - 97 + 10)
    else if 65 <= c <= 70 then Some(c - 65 + 10)
    else None
  }

  /** Two digits, lower case, with a leading zero. */
  function Pair(b: byte): (s: seq<byte>)
    ensures |s| == 2
  {
    [Digit(b / 16), Digit(b % 16)]
  }

  function Encode(bytes: seq<byte>): (s: seq<byte>)
    ensures |s| == 2 * |bytes|
  {
    if bytes == [] then [] else Pair(bytes[0]) + Encode(bytes[1..])
  }

  predicate IsSpace(c: int) {
    c == 32 || 9 <= c <= 13
  }

  /**
    `strtol(text, nullptr, 16)` of a text of one or two characters, cast to a
    byte: white space and a sign may come first, and what is no digit ends
    the number.
   */
  function ByteOf(text: seq<byte>): byte
    requires 1 <= |text| <= 2
  {
    var first := DigitValue(text[0]);
    var second := if |text| == 2 then DigitValue(text[1]) else None;
    if first.Some? then
      if second.Some? then first.value * 16 + second.value else first.value
    else if second.None? then 0
    else if IsSpace(text[0]) || text[0] == 43 then second.value
    else if text[0] == 45 then (256 - second.value) % 256
    else 0
  }

  /** One byte for every two characters; an odd character at the end gives one more. */
  function Decode(hex: seq<byte>): (r: seq<byte>)
    ensures |hex| <= 2 * |r| <= |hex| + 1
  {
    if hex == [] then []
    else if |hex| == 1 then [ByteOf(hex)]
    else [ByteOf(hex[..2])] + Decode(hex[2..])
  }

  method HexToBytes(hex: seq<byte>) returns (bytes: seq<byte>)
    ensures bytes == Decode(hex)
  {
    hide ByteOf;
    bytes := [];
    var i := 0;
    while i < |hex|
      invariant 0 <= i <= |hex| + 1
      invariant bytes + Decode(if i <= |hex| then hex[i..] else []) == Decode(hex)
    {
      var j := if i + 2 <= |hex| then i + 2 else |hex|;
      ghost var rest := hex[i..];
      assert rest[..j - i] == hex[i..j] && rest[j - i..] == hex[j..];
      assert rest[..|rest|] == rest;
      assert Decode(rest) == [ByteOf(hex[i..j])] + Decode(hex[j..]);
      bytes := bytes + [ByteOf(hex[i..j])];
      i := i + 2;
    }
  }

  lemma DigitRoundTrip(n: nat)
    requires n < 16
    ensures DigitValue(Digit(n)) == Some(n)
  {
  }

  lemma PairRoundTrip(b: byte)
    ensures ByteOf(Pair(b)) == b
  {
    DigitRoundTrip(b / 16);
    DigitRoundTrip(b % 16);
  }

  /** Decoding undoes encoding. */
  lemma {:induction false} DecodeEncode(bytes: seq<byte>)
    ensures Decode(Encode(bytes)) == bytes
  {
    hide ByteOf, Pair;
    if bytes == [] {
    } else {
      var s := Encode(bytes);
      DecodeEncode(bytes[1..]);
      PairRoundTrip(bytes[0]);
      assert s[..2] == Pair(bytes[0]) && s[2..] == Encode(bytes[1..]);
    }
  }

  predicate IsLowerHex(c: int) {
    48 <= c <= 57 || 97 <= c <= 102
  }

  predicate AllLowerHex(hex: seq<byte>) {
    forall k :: 0 <= k < |hex| ==> IsLowerHex(hex[k])
  }

  predicate Even(n: nat) {
    n % 2 == 0
  }

  lemma EvenStep(n: nat)
    ensures Even(n + 2) == Even(n)
  {
  }

  lemma LowerPair(pair: seq<byte>)
    requires |pair| == 2
    ensures Pair(ByteOf(pair)) == pair <==> AllLowerHex(pair)
  {
  }

  lemma AllLowerHexConcat(hex: seq<byte>, n: nat)
    requires n <= |hex|
    ensures AllLowerHex(hex) <==> AllLowerHex(hex[..n]) && AllLowerHex(hex[n..])
  {
    hide IsLowerHex;
    if AllLowerHex(hex[..n]) && AllLowerHex(hex[n..]) {
      forall k | 0 <= k < |hex|
        ensures IsLowerHex(hex[k])
      {
        assert hex[k] == if k < n then hex[..n][k] else hex[n..][k - n];
      }
    }
  }

  lemma EmptyIsLowerHex()
    ensures AllLowerHex([])
  {
  }

  /** Encoding undoes decoding exactly on texts of even length that consist of lower-case digits. */
  lemma {:induction false} EncodeDecode(hex: seq<byte>)
    ensures Encode(Decode(hex)) == hex <==> Even(|hex|) && AllLowerHex(hex)
  {
    hide ByteOf, Pair, IsLowerHex, AllLowerHex;
    if hex == [] {
      EmptyIsLowerHex();
    } else if |hex| > 1 {
      hide Even;
      EncodeDecode(hex[2..]);
      LowerPair(hex[..2]);
      AllLowerHexConcat(hex, 2);
      EvenStep(|hex| - 2);
      assert hex == hex[..2] + hex[2..];
      assert Encode(Decode(hex)) == Pair(ByteOf(hex[..2])) + Encode(Decode(hex[2..]));
    }
  }

  // ----- Numbers of any length

  /** "0123456789abcdef" */
  const LOWER: seq<byte> := [48, 49, 50, 51, 52, 53, 54, 55, 56, 57, 97, 98, 99, 100, 101, 102]

  /** "0123456789ABCDEF" */
  const UPPER: seq<byte> := [48, 49, 50, 51, 52, 53, 54, 55, 56, 57, 65, 66, 67, 68, 69, 70]

  /** The line is `n` in base 16, in digits of either case, with any number of leading zeros. */
  predicate Spells(line: seq<byte>, n: nat) {
    if line == [] then n == 0
    else
      var last := line[|line| - 1];
      (last == LOWER[n % 16] || last == UPPER[n % 16]) && Spells(line[..|line| - 1], n / 16)
  }

  lemma DigitIsInTable(c: byte, d: nat)
    requires d < 16
    ensures DigitValue(c) == Some(d) <==> c == LOWER[d] || c == UPPER[d]
    ensures d < 16 && Digit(d) == LOWER[d]
  {
  }

  lemma ValueIsDigit(c: byte)
    ensures DigitValue(c).Some? ==> DigitValue(c).value < 16
  {
  }
}
