/** `encodeBase64` of include/httprequest.hpp, and a decoder after section 4 of RFC 4648. */
module Base64 {
  import opened Bytes

  const PAD: byte := 61

  type sextet = n: int | 0 <= n < 64

  /** The alphabet of table 1 of RFC 4648. */
  function Char(n: sextet): byte {
    if n < 26 then 65 + n
    else if n < 52 then 97 + (n - 26)
    else if n < 62 then 48 + (n - 52)
    else if n == 62 then 43
    else 47
  }

  // The 24 bits of three bytes, six at a time

  function Sextet0(a: byte): sextet {
    a / 4
  }

  function Sextet1(a: byte, b: byte): sextet {
    a % 4 * 16 + b / 16
  }

  function Sextet2(b: byte, c: byte): sextet {
    b % 16 * 4 + c / 64
  }

  function Sextet3(c: byte): sextet {
    c % 64
  }

  function Quad(a: byte, b: byte, c: byte): (s: seq<byte>)
    ensures |s| == 4
  {
    [Char(Sextet0(a)), Char(Sextet1(a, b)), Char(Sextet2(b, c)), Char(Sextet3(c))]
  }

  function Encode(data: seq<byte>): seq<byte> {
    if data == [] then []
    else if |data| == 1 then [Char(Sextet0(data[0])), Char(Sextet1(data[0], 0)), PAD, PAD]
    else if |data| == 2 then
      [Char(Sextet0(data[0])), Char(Sextet1(data[0], data[1])), Char(Sextet2(data[1], 0)), PAD]
    else Quad(data[0], data[1], data[2]) + Encode(data[3..])
  }

  /** The bytes are collected in a register of three, which is written when it is full. */
  method EncodeBase64(data: seq<byte>) returns (result: seq<byte>)
    ensures result == Encode(data)
  {
    hide Char, Quad, Sextet0, Sextet1, Sextet2, Sextet3, Encode;
    result := [];
    var c := 0;
    var charArray := new byte[3];
    var i := 0;
    Nothing(Encode(data));
    Nothing(data);
    while i < |data|
      invariant 0 <= i <= |data| && 0 <= c < 3
      invariant result + Encode(charArray[..c] + data[i..]) == Encode(data)
    {
      ghost var register := charArray[..c];
      charArray[c] := data[i];
      assert charArray[..c + 1] == register + [data[i]];
      assert data[i..] == [data[i]] + data[i + 1..];
      Associate(register, [data[i]], data[i + 1..]);
      c := c + 1;
      i := i + 1;
      if c == 3 {
        EncodeFull(charArray[..c], data[i..]);
        Associate(result, Quad(charArray[0], charArray[1], charArray[2]), Encode(data[i..]));
        result := result + Quad(charArray[0], charArray[1], charArray[2]);
        c := 0;
        Nothing(data[i..]);
      }
    }
    assert charArray[..c] + data[i..] == charArray[..c];
    var end := EncodeRest(charArray, c);
    result := result + end;
  }

  lemma EncodeFull(register: seq<byte>, rest: seq<byte>)
    requires |register| == 3
    ensures Encode(register + rest) == Quad(register[0], register[1], register[2]) + Encode(rest)
  {
    hide Quad;
    assert (register + rest)[3..] == rest;
  }

  /** One or two bytes that are left over, padded to four characters. */
  method EncodeRest(charArray: array<byte>, count: nat) returns (result: seq<byte>)
    requires charArray.Length == 3 && count < 3
    ensures result == Encode(charArray[..count])
  {
    hide Char, Sextet0, Sextet1, Sextet2;
    result := [];
    var c := count;
    if c > 0 {
      result := result + [Char(Sextet0(charArray[0]))];
      if c == 1 {
        result := result + [Char(Sextet1(charArray[0], 0))];
      } else {
        result := result + [Char(Sextet1(charArray[0], charArray[1]))];
        result := result + [Char(Sextet2(charArray[1], 0))];
      }
      ghost var sextets := result;
      c := c + 1;
      while c < 4
        invariant count < c <= 4 && result == sextets + Padding(c - count - 1)
      {
        result := result + [PAD];
        c := c + 1;
      }
    }
  }

  function Padding(n: nat): (s: seq<byte>)
    ensures |s| == n
  {
    seq(n, _ => PAD)
  }

  // ----- Decoding

  function Value(c: int): Option<sextet> {
    if 65 <= c <= 90 then Some(c - 65)
    else if 97 <= c <= 122 then Some(c - 97 + 26)
    else if 48 <= c <= 57 then Some(c - 48 + 52)
    else if c == 43 then Some(62)
    else if c == 47 then Some(63)
    else None
  }

  // Three bytes from four sextets

  function Byte0(p: sextet, q: sextet): byte {
    p * 4 + q / 16
  }

  function Byte1(q: sextet, r: sextet): byte {
    q % 16 * 16 + r / 4
  }

  function Byte2(r: sextet, s: sextet): byte {
    r % 4 * 64 + s
  }

  /** The bytes of a group of four characters; bits that are not used must be zero. */
  function DecodeGroup(t: seq<byte>, last: bool): Option<seq<byte>>
    requires |t| == 4
  {
    match (Value(t[0]), Value(t[1]), Value(t[2]), Value(t[3]))
    case (Some(p), Some(q), Some(r), Some(s)) => Some([Byte0(p, q), Byte1(q, r), Byte2(r, s)])
    case (Some(p), Some(q), Some(r), None) =>
      if last && t[3] == PAD && Byte2(r, 0) == 0 then Some([Byte0(p, q), Byte1(q, r)]) else None
    case (Some(p), Some(q), None, None) =>
      if last && t[2] == PAD && t[3] == PAD && Byte1(q, 0) == 0 then Some([Byte0(p, q)]) else None
    case _ => None
  }

  function Decode(t: seq<byte>): Option<seq<byte>> {
    if t == [] then Some([])
    else if |t| < 4 then None
    else
      match (DecodeGroup(t[..4], |t| == 4), Decode(t[4..]))
      case (Some(group), Some(rest)) => Some(group + rest)
      case _ => None
  }

  lemma CharValue(n: sextet)
    ensures Value(Char(n)) == Some(n) && Char(n) != PAD
  {
  }

  lemma ValueChar(c: byte)
    ensures Value(c).Some? ==> Char(Value(c).value) == c
    ensures Value(PAD) == None
  {
  }

  lemma BytesOfSextets(a: byte, b: byte, c: byte)
    ensures Byte0(Sextet0(a), Sextet1(a, b)) == a
    ensures Byte1(Sextet1(a, b), Sextet2(b, c)) == b
    ensures Byte2(Sextet2(b, c), Sextet3(c)) == c
  {
  }

  lemma UnusedBits(a: byte)
    ensures Byte1(Sextet1(a, 0), 0) == 0 && Byte2(Sextet2(a, 0), 0) == 0
  {
  }

  lemma SextetsOfBytes(p: sextet, q: sextet, r: sextet, s: sextet)
    ensures Sextet0(Byte0(p, q)) == p
    ensures Sextet1(Byte0(p, q), Byte1(q, r)) == q
    ensures Sextet2(Byte1(q, r), Byte2(r, s)) == r
    ensures Sextet3(Byte2(r, s)) == s
  {
    SplitByte0(p, q);
    SplitByte1(q, r);
    SplitByte2(r, s);
    hide Byte0, Byte1, Byte2;
  }

  lemma SplitByte0(p: sextet, q: sextet)
    ensures Byte0(p, q) / 4 == p && Byte0(p, q) % 4 == q / 16
  {
  }

  lemma SplitByte1(q: sextet, r: sextet)
    ensures Byte1(q, r) / 16 == q % 16 && Byte1(q, r) % 16 == r / 4
  {
  }

  lemma SplitByte2(r: sextet, s: sextet)
    ensures Byte2(r, s) / 64 == r % 4 && Byte2(r, s) % 64 == s
  {
  }

  lemma GroupOfQuad(a: byte, b: byte, c: byte, last: bool)
    ensures DecodeGroup(Quad(a, b, c), last) == Some([a, b, c])
  {
    CharValue(Sextet0(a));
    CharValue(Sextet1(a, b));
    CharValue(Sextet2(b, c));
    CharValue(Sextet3(c));
    BytesOfSextets(a, b, c);
    hide Char, Value, Sextet0, Sextet1, Sextet2, Sextet3, Byte0, Byte1, Byte2;
  }

  lemma GroupOfOne(a: byte)
    ensures |Encode([a])| == 4 && DecodeGroup(Encode([a]), true) == Some([a])
  {
    var p, q := Sextet0(a), Sextet1(a, 0);
    BytesOfSextets(a, 0, 0);
    UnusedBits(a);
    PaddedGroup(p, q);
    hide *;
    EncodeOne(a);
  }

  lemma EncodeOne(a: byte)
    ensures Encode([a]) == [Char(Sextet0(a)), Char(Sextet1(a, 0)), PAD, PAD]
  {
    hide Char, Sextet0, Sextet1;
  }

  lemma PaddedGroup(p: sextet, q: sextet)
    requires Byte1(q, 0) == 0
    ensures DecodeGroup([Char(p), Char(q), PAD, PAD], true) == Some([Byte0(p, q)])
  {
    CharValue(p);
    CharValue(q);
    ValueChar(PAD);
    hide Char, Value, Byte0, Byte1, Byte2;
  }

  lemma GroupOfTwo(a: byte, b: byte)
    ensures |Encode([a, b])| == 4 && DecodeGroup(Encode([a, b]), true) == Some([a, b])
  {
    CharValue(Sextet0(a));
    CharValue(Sextet1(a, b));
    CharValue(Sextet2(b, 0));
    ValueChar(PAD);
    BytesOfSextets(a, b, 0);
    UnusedBits(b);
    hide Char, Value, Sextet0, Sextet1, Sextet2, Sextet3, Byte0, Byte1, Byte2;
  }

  /** There are four characters for every three bytes begun. */
  lemma {:induction false} EncodedLength(data: seq<byte>)
    ensures |Encode(data)| == 4 * ((|data| + 2) / 3)
  {
    hide Quad, Char, Sextet0, Sextet1, Sextet2;
    if |data| >= 3 {
      EncodedLength(data[3..]);
      assert (|data| + 2) / 3 == (|data| - 3 + 2) / 3 + 1;
    }
  }

  /** Decoding gives the bytes back. */
  lemma {:induction false} DecodeEncode(data: seq<byte>)
    ensures Decode(Encode(data)) == Some(data)
  {
    hide Quad, DecodeGroup, Char, Sextet0, Sextet1, Sextet2;
    if 1 <= |data| <= 2 {
      if |data| == 1 {
        GroupOfOne(data[0]);
        assert data == [data[0]];
      } else {
        GroupOfTwo(data[0], data[1]);
        assert data == [data[0], data[1]];
      }
      var t := Encode(data);
      assert t[..4] == t && t[4..] == [] && data + [] == data;
    } else if |data| >= 3 {
      DecodeEncode(data[3..]);
      var quad, t := Quad(data[0], data[1], data[2]), Encode(data);
      GroupOfQuad(data[0], data[1], data[2], |t| == 4);
      assert t[..4] == quad && t[4..] == Encode(data[3..]);
      assert data == [data[0], data[1], data[2]] + data[3..];
    }
  }

  lemma GroupIsEncoding(t: seq<byte>, last: bool)
    requires |t| == 4 && DecodeGroup(t, last).Some?
    ensures var group := DecodeGroup(t, last).value;
            1 <= |group| <= 3 && Encode(group) == t && (|group| < 3 ==> last)
  {
    CharsOfValues(t);
    assert t == [t[0], t[1], t[2], t[3]];
    var p, q := Value(t[0]).value, Value(t[1]).value;
    if Value(t[3]).Some? {
      SextetsOfBytes(p, q, Value(t[2]).value, Value(t[3]).value);
      EncodeThree(Byte0(p, q), Byte1(q, Value(t[2]).value), Byte2(Value(t[2]).value, Value(t[3]).value));
    } else if Value(t[2]).Some? {
      SextetsOfBytes(p, q, Value(t[2]).value, 0);
    } else {
      SextetsOfBytes(p, q, 0, 0);
    }
    hide Char, Value, Sextet0, Sextet1, Sextet2, Sextet3, Byte0, Byte1, Byte2;
  }

  lemma CharsOfValues(t: seq<byte>)
    ensures forall i :: 0 <= i < |t| && Value(t[i]).Some? ==> Char(Value(t[i]).value) == t[i]
    ensures Value(PAD) == None
  {
    forall i | 0 <= i < |t| && Value(t[i]).Some?
      ensures Char(Value(t[i]).value) == t[i]
    {
      ValueChar(t[i]);
    }
  }

  lemma EncodeThree(a: byte, b: byte, c: byte)
    ensures Encode([a, b, c]) == Quad(a, b, c)
  {
    hide Quad;
    assert [a, b, c][3..] == [] && Quad(a, b, c) + [] == Quad(a, b, c);
  }

  /** Nothing but the encoding of some bytes is decoded to them. */
  lemma {:induction false} EncodeDecode(t: seq<byte>)
    requires Decode(t).Some?
    ensures Encode(Decode(t).value) == t
  {
    hide DecodeGroup, Quad, Char, Sextet0, Sextet1, Sextet2;
    if t == [] {
    } else {
      var group, rest := DecodeGroup(t[..4], |t| == 4).value, Decode(t[4..]).value;
      GroupIsEncoding(t[..4], |t| == 4);
      EncodeDecode(t[4..]);
      assert t == t[..4] + t[4..];
      if |group| == 3 {
        assert (group + rest)[3..] == rest && group[3..] == [];
        assert Encode(group) == Quad(group[0], group[1], group[2]);
      } else {
        assert t[4..] == [] && group + rest == group;
      }
    }
  }
}
