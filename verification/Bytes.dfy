/** Bytes, line ends, 32-bit words and their network (big-endian) order. */
module Bytes {

  type byte = b: int | 0 <= b < 256
  type uint32 = n: int | 0 <= n < 0x1_0000_0000

  datatype Option<+T> = None | Some(value: T)

  const CR: byte := 13
  const LF: byte := 10
  const CRLF: seq<byte> := [CR, LF]

  /** The four bytes of `n`, most significant first. */
  function BigEndian(n: uint32): (s: seq<byte>)
    ensures |s| == 4
  {
    [n / 0x100_0000, n / 0x1_0000 % 0x100, n / 0x100 % 0x100, n % 0x100]
  }

  /** Reads a 32-bit word that is stored most significant byte first. */
  function FromBigEndian(s: seq<byte>): uint32
    requires |s| == 4
  {
    var a: int, b: int, c: int, d: int := s[0], s[1], s[2], s[3];
    a * 0x100_0000 + b * 0x1_0000 + c * 0x100 + d
  }

  lemma BigEndianRoundTrip(n: uint32)
    ensures FromBigEndian(BigEndian(n)) == n
  {
    var s := BigEndian(n);
    assert s[2] == n / 0x100 - n / 0x1_0000 * 0x100;
    assert s[1] == n / 0x1_0000 - n / 0x100_0000 * 0x100;
  }

  /** The codes of the characters of an ASCII text. */
  function Ascii(text: string): (s: seq<byte>)
    requires forall i :: 0 <= i < |text| ==> text[i] as int < 128
    ensures |s| == |text|
  {
    seq(|text|, i requires 0 <= i < |text| => text[i] as int)
  }

  /** The text is `n` in base 10, with any number of leading zeros. */
  predicate SpellsDecimal(text: seq<byte>, n: nat) {
    if text == [] then n == 0
    else text[|text| - 1] == 48 + n % 10 && SpellsDecimal(text[..|text| - 1], n / 10)
  }

  // ----- Sequences

  /** The parts, one after the other. */
  function Concat(parts: seq<seq<byte>>): seq<byte> {
    if parts == [] then [] else parts[0] + Concat(parts[1..])
  }

  lemma Associate<T>(a: seq<T>, b: seq<T>, c: seq<T>)
    ensures a + (b + c) == (a + b) + c
  {
  }

  lemma Nothing<T>(s: seq<T>)
    ensures [] + s == s && s + [] == s
  {
  }

  lemma CutConcat<T>(a: seq<T>, b: seq<T>)
    ensures (a + b)[..|a|] == a && (a + b)[|a|..] == b
  {
  }
}
