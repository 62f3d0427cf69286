/** `Handshake` of src/message.cpp. */
module Handshakes {
  import opened Bytes
  import Hashing
  import Hex

  datatype Handshake = Handshake(extensions: seq<byte>, infoHash: seq<byte>, peerId: seq<byte>)

  /** "BitTorrent protocol" */
  const PROTOCOL: seq<byte> :=
    [66, 105, 116, 84, 111, 114, 114, 101, 110, 116, 32, 112, 114, 111, 116, 111, 99, 111, 108]

  predicate WellFormed(h: Handshake) {
    |h.extensions| == 8 && |h.infoHash| == Hashing.HASH_SIZE
  }

  function Serialise(protocol: seq<byte>, h: Handshake): seq<byte>
    requires |protocol| < 256
  {
    [|protocol|] + protocol + h.extensions + h.infoHash + h.peerId
  }

  /** How many white-space characters `s` starts with; extracting the length with `>>` skips them. */
  function Spaces(s: seq<byte>): (n: nat)
    ensures n <= |s|
    ensures n < |s| ==> !Hex.IsSpace(s[n])
    ensures forall i :: 0 <= i < n ==> Hex.IsSpace(s[i])
  {
    if s == [] || !Hex.IsSpace(s[0]) then 0 else Spaces(s[1..]) + 1
  }

  /** The constructor that reads a handshake. Where the bytes run out the source leaves the hash undefined. */
  function Parse(data: seq<byte>): Option<Handshake> {
    var s := data[Spaces(data)..];
    if s == [] || |s| < 1 + s[0] as int + 8 + Hashing.HASH_SIZE then None
    else
      var rest := s[1 + s[0]..];
      Some(Handshake(rest[..8], rest[8..8 + Hashing.HASH_SIZE], rest[8 + Hashing.HASH_SIZE..]))
  }

  /** The end of `s` from `at` on is the part after the protocol string exactly if `at` is where that part starts. */
  lemma ReadFrom(protocol: seq<byte>, h: Handshake, at: nat)
    requires |protocol| < 256 && WellFormed(h)
    requires at + 8 + Hashing.HASH_SIZE <= |Serialise(protocol, h)|
    ensures var rest := Serialise(protocol, h)[at..];
            Handshake(rest[..8], rest[8..8 + Hashing.HASH_SIZE], rest[8 + Hashing.HASH_SIZE..]) == h
            <==> at == 1 + |protocol|
  {
    var rest, fields := Serialise(protocol, h)[at..], h.extensions + h.infoHash + h.peerId;
    if at == 1 + |protocol| {
      CutConcat([|protocol|] + protocol, fields);
      assert Serialise(protocol, h) == [|protocol|] + protocol + fields;
      CutConcat(h.extensions, h.infoHash + h.peerId);
      CutConcat(h.infoHash, h.peerId);
      assert fields == h.extensions + (h.infoHash + h.peerId);
      assert rest[8..8 + Hashing.HASH_SIZE] == (h.infoHash + h.peerId)[..Hashing.HASH_SIZE];
      assert rest[8 + Hashing.HASH_SIZE..] == (h.infoHash + h.peerId)[Hashing.HASH_SIZE..];
    } else {
      assert |rest[8 + Hashing.HASH_SIZE..]| != |h.peerId|;
    }
  }

  /**
    A handshake is read back if and only if its first byte that is no white
    space, at index `i`, holds the length of the protocol string less `i`.
    With a length that is not the code of a white-space character, as that of
    the string of BitTorrent, `i` is 0 and this is so; otherwise the reader
    takes a byte of the string, or one behind it, for the length.
   */
  lemma HandshakeRoundTrip(protocol: seq<byte>, h: Handshake)
    requires |protocol| < 256 && WellFormed(h)
    ensures var s := Serialise(protocol, h);
            Parse(s) == Some(h) <==> Spaces(s) < |s| && Spaces(s) + s[Spaces(s)] as int == |protocol|
    ensures !Hex.IsSpace(|protocol|) ==> Parse(Serialise(protocol, h)) == Some(h)
  {
    var s := Serialise(protocol, h);
    var i := Spaces(s);
    if i < |s| {
      var length: int := s[i];
      if i + 1 + length + 8 + Hashing.HASH_SIZE <= |s| {
        ReadFrom(protocol, h, i + 1 + length);
        assert s[i..][1 + length..] == s[i + 1 + length..];
      }
    }
  }

  lemma BitTorrentHandshakeRoundTrip(h: Handshake)
    requires WellFormed(h)
    ensures Parse(Serialise(PROTOCOL, h)) == Some(h)
  {
    HandshakeRoundTrip(PROTOCOL, h);
    assert |PROTOCOL| == 19;
  }

  /** Of two strings of nine bytes, one makes a handshake that is read back, and the other does not. */
  lemma WhiteSpaceLengthMayBeMisread(h: Handshake)
    requires WellFormed(h)
    ensures Parse(Serialise([8, 0, 0, 0, 0, 0, 0, 0, 0], h)) == Some(h)
    ensures Parse(Serialise([7, 0, 0, 0, 0, 0, 0, 0, 0], h)) != Some(h)
  {
    HandshakeRoundTrip([8, 0, 0, 0, 0, 0, 0, 0, 0], h);
    HandshakeRoundTrip([7, 0, 0, 0, 0, 0, 0, 0, 0], h);
    SecondByteIsFirstNonSpace([8, 0, 0, 0, 0, 0, 0, 0, 0], h);
    SecondByteIsFirstNonSpace([7, 0, 0, 0, 0, 0, 0, 0, 0], h);
    hide Parse, Serialise, Spaces;
  }

  lemma SecondByteIsFirstNonSpace(protocol: seq<byte>, h: Handshake)
    requires 0 < |protocol| < 256 && Hex.IsSpace(|protocol|) && !Hex.IsSpace(protocol[0])
    ensures var s := Serialise(protocol, h); |s| > 1 && Spaces(s) == 1 && s[1] == protocol[0]
  {
    var s := Serialise(protocol, h);
    assert s[1] == protocol[0] && s[1..][0] == s[1];
  }

  // ----- What is read as a handshake

  /** Tab, line feed, vertical tab, form feed, carriage return, space. */
  predicate White(c: int) {
    c == 9 || c == 10 || c == 11 || c == 12 || c == 13 || c == 32
  }

  /** White space and a handshake with the protocol string `protocol`, the length of which is no white space. */
  predicate IsHandshake(data: seq<byte>, spaces: seq<byte>, protocol: seq<byte>, h: Handshake) {
    && (forall i :: 0 <= i < |spaces| ==> White(spaces[i]))
    && |protocol| < 256 && !White(|protocol|) && WellFormed(h)
    && data == spaces + Serialise(protocol, h)
  }

  lemma WhiteIsSpace(c: byte)
    ensures White(c) <==> Hex.IsSpace(c)
  {
  }

  lemma {:induction false} SpacesBefore(spaces: seq<byte>, rest: seq<byte>)
    requires (forall i :: 0 <= i < |spaces| ==> White(spaces[i])) && rest != [] && !White(rest[0])
    ensures Spaces(spaces + rest) == |spaces|
  {
    hide White, Hex.IsSpace;
    WhiteIsSpace(rest[0]);
    if spaces == [] {
      assert spaces + rest == rest;
    } else {
      WhiteIsSpace(spaces[0]);
      SpacesBefore(spaces[1..], rest);
      assert (spaces + rest)[1..] == spaces[1..] + rest;
    }
  }

  lemma HandshakeIsRead(data: seq<byte>, spaces: seq<byte>, protocol: seq<byte>, h: Handshake)
    requires IsHandshake(data, spaces, protocol, h)
    ensures Parse(data) == Some(h)
  {
    hide Spaces, White, Hex.IsSpace;
    var s := Serialise(protocol, h);
    SpacesBefore(spaces, s);
    CutConcat(spaces, s);
    ReadFrom(protocol, h, 1 + |protocol|);
  }

  lemma SpacesAreWhite(data: seq<byte>)
    ensures forall i :: 0 <= i < Spaces(data) ==> White(data[i])
    ensures Spaces(data) < |data| ==> !White(data[Spaces(data)])
  {
    hide White, Hex.IsSpace;
    forall i | 0 <= i < |data|
      ensures White(data[i]) <==> Hex.IsSpace(data[i])
    {
      WhiteIsSpace(data[i]);
    }
  }

  lemma Regroup(spaces: seq<byte>, n: byte, s: seq<byte>, rest: seq<byte>, h: Handshake)
    requires n as int < |s| && |s[1..]| >= n as int && s[0] == n && rest == s[1 + n..] && rest == h.extensions + h.infoHash + h.peerId
    ensures spaces + s == spaces + ([n] + s[1..1 + n as int] + h.extensions + h.infoHash + h.peerId)
  {
    assert s == [n] + s[1..1 + n as int] + rest;
  }

  lemma ReadIsHandshake(data: seq<byte>) returns (spaces: seq<byte>, protocol: seq<byte>)
    requires Parse(data).Some?
    ensures IsHandshake(data, spaces, protocol, Parse(data).value)
  {
    hide Spaces, White, Hex.IsSpace;
    SpacesAreWhite(data);
    var k := Spaces(data);
    var s := data[k..];
    spaces, protocol := data[..k], s[1..1 + s[0] as int];
    var h, rest := Parse(data).value, s[1 + s[0]..];
    assert rest == h.extensions + h.infoHash + h.peerId;
    Regroup(spaces, s[0], s, rest, h);
    assert data == spaces + s;
  }

  /**
    For every data: it is read as this handshake if and only if it is some
    white space, a protocol string with its length in one byte that is not
    white space, and the parts of the handshake.
   */
  lemma HandshakeIsExact(data: seq<byte>, h: Handshake)
    ensures Parse(data) == Some(h) <==> exists spaces, protocol :: IsHandshake(data, spaces, protocol, h)
  {
    hide Parse, IsHandshake;
    if Parse(data) == Some(h) {
      var spaces, protocol := ReadIsHandshake(data);
      assert IsHandshake(data, spaces, protocol, h);
    }
    forall spaces, protocol | IsHandshake(data, spaces, protocol, h)
      ensures Parse(data) == Some(h)
    {
      HandshakeIsRead(data, spaces, protocol, h);
    }
  }

  /** The handshake of BitTorrent: 19, the name of the protocol, eight bytes, the info hash and the peer id. */
  lemma BytesOfHandshake(h: Handshake)
    requires WellFormed(h)
    ensures Serialise(PROTOCOL, h) == [19] + Ascii("BitTorrent protocol") + h.extensions + h.infoHash + h.peerId
  {
    assert PROTOCOL == Ascii("BitTorrent protocol");
  }
}
