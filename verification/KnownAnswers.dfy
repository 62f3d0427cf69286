/** Texts and bytes as the standards and BEP 3 give them, against the definitions of the other modules. */
module KnownAnswers {
  import opened Bytes
  import opened Messages
  import opened PeerProtocol
  import Base64
  import Chunked
  import Filling
  import Hasher
  import Hashing
  import Headers
  import Hex
  import PeerConduct
  import Pieces
  import Responses
  import Sha1Example
  import Sha1Standard
  import Swarm
  import Wire
  import WireSyntax

  // ----- SHA-1

  lemma HexOfWord(w: Sha1Standard.word, a: byte, b: byte, c: byte, d: byte)
    requires Hasher.Number(w) == a as int * 0x100_0000 + b as int * 0x1_0000 + c as int * 0x100 + d as int
    ensures Hex.Encode(BigEndian(Hasher.Number(w))) == Hex.Pair(a) + Hex.Pair(b) + Hex.Pair(c) + Hex.Pair(d)
  {
    Wire.Digits256(Hasher.Number(w), a, b, c, d);
    Hasher.EncodeFour(BigEndian(Hasher.Number(w)));
    hide Hex.Encode, Hex.Pair, Hasher.Number;
  }

  lemma HexOfDigest(s: Sha1Standard.State)
    ensures Hex.Encode(Hasher.DigestBytes(s))
            == Hex.Encode(BigEndian(Hasher.Number(s.a))) + Hex.Encode(BigEndian(Hasher.Number(s.b)))
               + Hex.Encode(BigEndian(Hasher.Number(s.c))) + Hex.Encode(BigEndian(Hasher.Number(s.d)))
               + Hex.Encode(BigEndian(Hasher.Number(s.e)))
  {
    hide BigEndian, Hasher.Number, Hex.Encode;
    var w := [s.a, s.b, s.c, s.d, s.e];
    assert w[..4] == [s.a, s.b, s.c, s.d] && w[..4][..3] == [s.a, s.b, s.c];
    assert [s.a, s.b, s.c][..2] == [s.a, s.b] && [s.a, s.b][..1] == [s.a] && [s.a][..0] == [];
    var a, b, c := Hasher.WordBytes([s.a]), Hasher.WordBytes([s.a, s.b]), Hasher.WordBytes([s.a, s.b, s.c]);
    assert a == [] + BigEndian(Hasher.Number(s.a));
    Nothing(BigEndian(Hasher.Number(s.a)));
    Hasher.EncodeConcat(a, BigEndian(Hasher.Number(s.b)));
    Hasher.EncodeConcat(b, BigEndian(Hasher.Number(s.c)));
    Hasher.EncodeConcat(c, BigEndian(Hasher.Number(s.d)));
    Hasher.EncodeConcat(Hasher.WordBytes(w[..4]), BigEndian(Hasher.Number(s.e)));
  }

  lemma PairsOfAbc()
    ensures Hex.Pair(0xa9) + Hex.Pair(0x99) + Hex.Pair(0x3e) + Hex.Pair(0x36) == Ascii("a9993e36")
    ensures Hex.Pair(0x47) + Hex.Pair(0x06) + Hex.Pair(0x81) + Hex.Pair(0x6a) == Ascii("4706816a")
    ensures Hex.Pair(0xba) + Hex.Pair(0x3e) + Hex.Pair(0x25) + Hex.Pair(0x71) == Ascii("ba3e2571")
    ensures Hex.Pair(0x78) + Hex.Pair(0x50) + Hex.Pair(0xc2) + Hex.Pair(0x6c) == Ascii("7850c26c")
    ensures Hex.Pair(0x9c) + Hex.Pair(0xd0) + Hex.Pair(0xd8) + Hex.Pair(0x9d) == Ascii("9cd0d89d")
  {
  }

  lemma JoinedDigest()
    ensures Ascii("a9993e36") + Ascii("4706816a") + Ascii("ba3e2571") + Ascii("7850c26c") + Ascii("9cd0d89d")
            == Ascii("a9993e364706816aba3e25717850c26c9cd0d89d")
  {
  }

  lemma BitsOfAbc()
    ensures Hashing.Bits(Ascii("abc")) == Sha1Example.ABC
  {
  }

  lemma HexOfAbc(s: Sha1Standard.State)
    requires s == Sha1Standard.State(0xa9993e36, 0x4706816a, 0xba3e2571, 0x7850c26c, 0x9cd0d89d)
    ensures Hex.Encode(Hasher.DigestBytes(s)) == Ascii("a9993e364706816aba3e25717850c26c9cd0d89d")
  {
    hide Hex.Encode, Hex.Pair, Ascii, BigEndian, Hasher.DigestBytes;
    HexOfDigest(s);
    HexOfWord(0xa9993e36, 0xa9, 0x99, 0x3e, 0x36);
    HexOfWord(0x4706816a, 0x47, 0x06, 0x81, 0x6a);
    HexOfWord(0xba3e2571, 0xba, 0x3e, 0x25, 0x71);
    HexOfWord(0x7850c26c, 0x78, 0x50, 0xc2, 0x6c);
    HexOfWord(0x9cd0d89d, 0x9c, 0xd0, 0xd8, 0x9d);
    PairsOfAbc();
    JoinedDigest();
  }

  /** `SHA1::from_string("abc")` is the digest that FIPS 180 gives. */
  lemma DigestOfAbc()
    ensures Hashing.FromString(Ascii("abc")) == Ascii("a9993e364706816aba3e25717850c26c9cd0d89d")
  {
    hide Sha1Standard.Sha1, Hex.Encode, Ascii, Hasher.DigestBytes, Hashing.Bits;
    BitsOfAbc();
    Sha1Example.DigestOfAbc();
    HexOfAbc(Sha1Standard.Sha1(Sha1Example.ABC));
  }

  // ----- Hexadecimal text

  lemma OneByteOf(a: byte, b: byte)
    ensures Hex.Decode([a, b]) == [Hex.ByteOf([a, b])]
  {
    hide Hex.ByteOf;
    assert [a, b][2..] == [] && [a, b][..2] == [a, b];
    assert Hex.Decode([]) == [];
  }

  /** `c` is the digit of value `d`, in either case. */
  predicate IsDigitOf(c: byte, d: nat) {
    d < 16 && (c == Hex.LOWER[d] || c == Hex.UPPER[d])
  }

  lemma DigitValueOf(c: byte, d: nat)
    requires d < 16
    ensures IsDigitOf(c, d) <==> Hex.DigitValue(c) == Some(d)
  {
    Hex.DigitIsInTable(c, d);
  }

  /**
    What `strtol` makes of a digit behind white space or a plus, behind a
    minus, behind anything else, and before anything else.
   */
  lemma DigitAlone(a: byte, c: byte, d: nat)
    requires IsDigitOf(c, d) && forall n: nat :: !IsDigitOf(a, n)
    ensures Hex.Decode([a, c])
            == [if 9 <= a <= 13 || a == 32 || a == 43 then d else if a == 45 then (256 - d) % 256 else 0]
    ensures Hex.Decode([c, a]) == [d]
  {
    DigitValueOf(c, d);
    NoDigit(a);
    hide Hex.DigitValue, Hex.Decode, IsDigitOf;
    OneByteOf(a, c);
    OneByteOf(c, a);
  }

  lemma NoDigit(a: byte)
    requires forall n: nat :: !IsDigitOf(a, n)
    ensures Hex.DigitValue(a).None?
  {
    Hex.ValueIsDigit(a);
    hide Hex.DigitValue, IsDigitOf;
    if Hex.DigitValue(a).Some? {
      DigitValueOf(a, Hex.DigitValue(a).value);
    }
  }

  /** Two digits, in either case. */
  lemma TwoDigits(a: byte, c: byte, high: nat, low: nat)
    requires IsDigitOf(a, high) && IsDigitOf(c, low)
    ensures 16 * high + low < 256 && Hex.Decode([a, c]) == [16 * high + low]
  {
    DigitValueOf(a, high);
    DigitValueOf(c, low);
    hide Hex.DigitValue, Hex.Decode;
    OneByteOf(a, c);
  }

  lemma LastOne(c: byte)
    ensures Hex.Decode([c]) == [Hex.ByteOf([c])] && Hex.ByteOf([c]) == if Hex.DigitValue(c).Some? then Hex.DigitValue(c).value else 0
  {
    hide Hex.DigitValue;
  }

  /** An odd character at the end of a text is a byte of its own: its value as a digit, or zero. */
  lemma {:induction false} OddDigitIsAByte(bytes: seq<byte>, c: byte)
    ensures forall d :: IsDigitOf(c, d) ==> Hex.Decode(Hex.Encode(bytes) + [c]) == bytes + [d]
    ensures (forall d: nat :: !IsDigitOf(c, d)) ==> Hex.Decode(Hex.Encode(bytes) + [c]) == bytes + [0]
  {
    hide Hex.ByteOf, Hex.Pair, Hex.DigitValue, IsDigitOf;
    if bytes == [] {
      LastOne(c);
      Nothing([c]);
      forall d: nat | IsDigitOf(c, d)
        ensures Hex.DigitValue(c) == Some(d)
      {
        IsBelow16(c, d);
        DigitValueOf(c, d);
      }
      if forall d: nat :: !IsDigitOf(c, d) {
        NoDigit(c);
      }
    } else {
      var s, more := Hex.Encode(bytes) + [c], Hex.Encode(bytes[1..]) + [c];
      OddDigitIsAByte(bytes[1..], c);
      Hex.PairRoundTrip(bytes[0]);
      Associate(Hex.Pair(bytes[0]), Hex.Encode(bytes[1..]), [c]);
      CutConcat(Hex.Pair(bytes[0]), more);
      assert s[..2] == Hex.Pair(bytes[0]) && s[2..] == more;
      assert Hex.Decode(s) == [bytes[0]] + Hex.Decode(more);
      hide Hex.Decode, Hex.Encode;
      assert bytes == [bytes[0]] + bytes[1..];
      forall d: byte
        ensures [bytes[0]] + (bytes[1..] + [d]) == bytes + [d]
      {
        Associate([bytes[0]], bytes[1..], [d]);
      }
      forall d: nat | IsDigitOf(c, d)
        ensures d < 256
      {
        IsBelow16(c, d);
      }
    }
  }

  lemma IsBelow16(c: byte, d: nat)
    requires IsDigitOf(c, d)
    ensures d < 16
  {
  }

  // ----- Base64

  lemma ThreeBytes(a: byte, b: byte, c: byte, rest: seq<byte>)
    ensures Base64.Encode([a, b, c] + rest) == Base64.Quad(a, b, c) + Base64.Encode(rest)
  {
    hide Base64.Quad;
    Base64.EncodeFull([a, b, c], rest);
  }

  /** Test vectors of section 10 of RFC 4648. */
  lemma Base64Vectors()
    ensures Base64.Encode(Ascii("foobar")) == Ascii("Zm9vYmFy")
    ensures Base64.Encode(Ascii("fooba")) == Ascii("Zm9vYmE=")
    ensures Base64.Encode(Ascii("foob")) == Ascii("Zm9vYg==")
  {
    assert Base64.Quad(102, 111, 111) == Ascii("Zm9v") by {
      Quads();
    }
    FooIs("bar");
    FooIs("ba");
    FooIs("b");
    Endings();
    hide Base64.Encode, Base64.Quad, Ascii;
    JoinedVectors();
  }

  lemma JoinedVectors()
    ensures Ascii("Zm9v") + Ascii("YmFy") == Ascii("Zm9vYmFy")
    ensures Ascii("Zm9v") + Ascii("YmE=") == Ascii("Zm9vYmE=") && Ascii("Zm9v") + Ascii("Yg==") == Ascii("Zm9vYg==")
    ensures "foo" + "bar" == "foobar" && "foo" + "ba" == "fooba" && "foo" + "b" == "foob"
  {
  }

  lemma FooIs(rest: string)
    requires forall i :: 0 <= i < |rest| ==> rest[i] as int < 128
    ensures Base64.Encode(Ascii("foo" + rest)) == Base64.Quad(102, 111, 111) + Base64.Encode(Ascii(rest))
  {
    hide Base64.Encode, Base64.Quad;
    assert Ascii("foo" + rest) == [102, 111, 111] + Ascii(rest);
    ThreeBytes(102, 111, 111, Ascii(rest));
  }

  lemma Quads()
    ensures Base64.Quad(102, 111, 111) == Ascii("Zm9v") && Base64.Quad(98, 97, 114) == Ascii("YmFy")
  {
  }

  /** The alphabet of table 1 of RFC 4648: 26 capital letters. */
  lemma Base64Capitals(n: nat)
    requires n < 26
    ensures Base64.Char(n) == Ascii("ABCDEFGHIJKLMNOPQRSTUVWXYZ")[n]
  {
  }

  /** 26 small letters. */
  lemma Base64Letters(n: nat)
    requires n < 26
    ensures Base64.Char(26 + n) == Ascii("abcdefghijklmnopqrstuvwxyz")[n]
  {
  }

  /** Ten digits, a plus and a slash. */
  lemma Base64Others(n: nat)
    requires n < 12
    ensures Base64.Char(52 + n) == Ascii("0123456789+/")[n]
  {
  }

  lemma Endings()
    ensures Base64.Encode(Ascii("bar")) == Ascii("YmFy")
    ensures Base64.Encode(Ascii("ba")) == Ascii("YmE=") && Base64.Encode(Ascii("b")) == Ascii("Yg==")
  {
    assert Ascii("bar") == [98, 97, 114] + [];
    ThreeBytes(98, 97, 114, []);
    Quads();
    assert Base64.Encode([]) == [];
    Nothing(Base64.Quad(98, 97, 114));
    hide Base64.Quad;
  }

  // ----- Messages of peers

  /** The only message in these bytes. */
  ghost predicate Carries(stream: seq<byte>, msg: Message) {
    Wire.Read(stream) == Wire.Chain([msg], Wire.LengthFailed)
  }

  lemma FrameCarries(stream: seq<byte>, ty: MessageType, payload: seq<byte>)
    requires Wire.Fits(payload) && stream == Wire.Frame(ty, payload)
    ensures Carries(stream, Message(Some(ty), payload))
  {
    Wire.MessageArrives(ty, payload);
    hide Wire.Frame, Wire.Read, Wire.Fits;
  }

  /** The five bytes of a Choke and of an Unchoke, and what they do to a peer. */
  lemma ChokeBytes(l: Local, me: nat, tor: Torrent, msg: Message)
    requires Carries([0, 0, 0, 1, 0], msg) || Carries([0, 0, 0, 1, 1], msg)
    ensures HandleMessage(l, me, tor, msg, 0, []).peer.choked <==> Carries([0, 0, 0, 1, 0], msg)
  {
    hide *;
    WireSyntax.CodesOfBep3();
    WireSyntax.BareMessage(Choke, 0);
    WireSyntax.BareMessage(Unchoke, 1);
    OneMessage([0, 0, 0, 1, 0], Message(Some(Choke), []), msg);
    OneMessage([0, 0, 0, 1, 1], Message(Some(Unchoke), []), msg);
    PeerConduct.FlagsFollowMessages(l, me, tor, msg, 0, []);
  }

  lemma OneMessage(stream: seq<byte>, msg: Message, other: Message)
    requires Wire.Read(stream) == Wire.Chain([msg], Wire.LengthFailed)
    ensures Carries(stream, other) <==> other == msg
  {
    hide Wire.Read;
    if Carries(stream, other) {
      assert [msg][0] == [other][0];
    }
  }

  lemma BitfieldFrame(c: byte)
    ensures Wire.Frame(Bitfield, [c]) == [0, 0, 0, 2, 5, c] && Wire.Fits([c])
  {
  }

  /** The bytes of a Bitfield of eight pieces: the peer has piece `k` if bit `k` from the high end is set. */
  lemma BitfieldBytes(l: Local, me: nat, tor: Torrent, c: byte, k: nat)
    requires k < 8
    ensures Carries([0, 0, 0, 2, 5, c], Message(Some(Bitfield), [c]))
    ensures HasPiece(HandleMessage(l, me, tor, Message(Some(Bitfield), [c]), 0, []).peer.available, k)
            <==> PeerConduct.BitSet(c, k)
  {
    BitfieldFrame(c);
    hide Wire.Frame, Wire.Fits, Bits, HasPiece, PeerConduct.BitSet, HandleMessage, Carries;
    FrameCarries([0, 0, 0, 2, 5, c], Bitfield, [c]);
    PeerConduct.FlagsFollowMessages(l, me, tor, Message(Some(Bitfield), [c]), 0, []);
    PeerConduct.BitfieldNamesPieces([c], 0, k);
  }

  lemma PieceFrame(b: byte)
    ensures Wire.Frame(Piece, Pieces.Reply(1, 16384, [b])) == [0, 0, 0, 10, 7, 0, 0, 0, 1, 0, 0, 64, 0, b]
    ensures Wire.Fits(Pieces.Reply(1, 16384, [b]))
  {
  }

  /** The bytes of a Piece: one byte for the second block of piece 1, which then holds this byte. */
  lemma PieceBytes(l: Local, me: nat, tor: Torrent, b: byte)
    requires tor.pieceLength > 0 && l.peer.piece.Some?
    requires var q := l.peer.piece.value;
             && q.index == 1 && 1 < |q.blocks| <= Pieces.BlockCount(q.size)
             && !q.blocks[0].filled && !q.blocks[1].filled
    ensures Carries([0, 0, 0, 10, 7, 0, 0, 0, 1, 0, 0, 64, 0, b], Message(Some(Piece), Pieces.Reply(1, 16384, [b])))
    ensures var next := HandleMessage(l, me, tor, Message(Some(Piece), Pieces.Reply(1, 16384, [b])), 0, []);
            && next.peer.piece.Some? && next.peer.piece.value.index == 1
            && Filling.Filled(next.peer.piece.value) == Filling.Filled(l.peer.piece.value)[1 := [b]]
  {
    var q, msg := l.peer.piece.value, Message(Some(Piece), Pieces.Reply(1, 16384, [b]));
    PieceFrame(b);
    hide Wire.Frame, Wire.Fits, Carries, Pieces.Reply, Pieces.BlockCount, AfterAccept, Download, Filling.Filled, Pieces.Unfilled,
         Pieces.AcceptStatus, HandlePiece;
    FrameCarries([0, 0, 0, 10, 7, 0, 0, 0, 1, 0, 0, 64, 0, b], Piece, Pieces.Reply(1, 16384, [b]));
    Filling.ReplyAddsData(l, 1, [b]);
    var r := AfterAccept(l, msg.payload, 0);
    FirstIsUnfilled(q, r.peer.piece.value, [b]);
    Filling.IncompleteIsKept(l, me, tor, msg.payload, []);
    Filling.DownloadKeepsData(r, tor);
    Swarm.DownloadKeepsPiece(r, tor);
  }

  lemma FirstIsUnfilled(q: Pieces.PieceState, t: Pieces.PieceState, data: seq<byte>)
    requires 1 < |q.blocks| <= Pieces.BlockCount(q.size) && !q.blocks[0].filled
    requires t.size == q.size && |t.blocks| == |q.blocks| && Filling.Filled(t) == Filling.Filled(q)[1 := data]
    ensures |t.blocks| <= Pieces.BlockCount(t.size) && Pieces.Unfilled(t) != {}
  {
    hide Pieces.BlockCount;
    assert 0 !in Filling.Filled(q) && 0 !in Filling.Filled(t);
    assert 0 in Pieces.Unfilled(t);
  }

  lemma RequestFrame()
    ensures Wire.RequestPayload(1, 65536, 16384) == [0, 0, 0, 1, 0, 0, 64, 0, 0, 0, 64, 0]
    ensures Wire.Frame(Request, Wire.RequestPayload(1, 65536, 16384)) == [0, 0, 0, 13, 6, 0, 0, 0, 1, 0, 0, 64, 0, 0, 0, 64, 0]
  {
  }

  // ----- Characters of header fields

  /** "!#$%&'*+-.^_`|~" */
  const TOKEN_MARKS: seq<byte> := [33, 35, 36, 37, 38, 39, 42, 43, 45, 46, 94, 95, 96, 124, 126]

  /** The characters of a token are those of section 3.2.6 of RFC 7230: digits, letters and fifteen marks. */
  lemma TokenCharacters(c: byte)
    ensures Headers.IsToken(c) <==> 48 <= c <= 57 || 65 <= c <= 90 || 97 <= c <= 122 || c in TOKEN_MARKS
    ensures TOKEN_MARKS == Ascii("!#$%&'*+-.^_`|~")
  {
    assert c in TOKEN_MARKS <==> c in {33, 35, 36, 37, 38, 39, 42, 43, 45, 46, 94, 95, 96, 124, 126};
  }

  /** White space, and the characters of a value: white space, visible characters and obsolete text. */
  lemma ValueCharacters(c: byte)
    ensures Headers.IsWhite(c) <==> c == 9 || c == 32
    ensures Headers.IsValue(c) <==> c == 9 || (32 <= c && c != 127)
  {
  }

  // ----- A response

  lemma {:induction false} LowerTextAt(s: seq<byte>, i: nat)
    requires i < |s|
    ensures |Responses.LowerText(s)| == |s| && Responses.LowerText(s)[i] == Responses.Lower(s[i])
  {
    hide Responses.Lower;
    if i > 0 {
      LowerTextAt(s[1..], i - 1);
    } else if |s| > 1 {
      LowerTextAt(s[1..], 0);
    }
  }

  lemma LowerTextIs(s: seq<byte>, t: seq<byte>)
    requires |s| == |t| && forall i :: 0 <= i < |s| ==> t[i] == Responses.Lower(s[i])
    ensures Responses.LowerText(s) == t
  {
    hide Responses.Lower, Responses.LowerText;
    if s == [] {
      assert |Responses.LowerText(s)| == 0 by {
        NoText();
      }
    } else {
      LowerTextAt(s, 0);
      forall i | 0 <= i < |s|
        ensures Responses.LowerText(s)[i] == t[i]
      {
        LowerTextAt(s, i);
      }
    }
  }

  lemma NoText()
    ensures Responses.LowerText([]) == []
  {
  }

  /** Capital letters become small ones. */
  lemma CapitalLetters(s: seq<byte>, i: nat)
    requires i < |s| && 65 <= s[i] <= 90
    ensures |Responses.LowerText(s)| == |s| && Responses.LowerText(s)[i] == 97 + (s[i] - 65)
  {
    LowerTextAt(s, i);
    hide Responses.LowerText;
  }

  /** Everything else stays as it is. */
  lemma {:induction false} OthersStay(s: seq<byte>)
    ensures Responses.LowerText(s) == s <==> forall i :: 0 <= i < |s| ==> !(65 <= s[i] <= 90)
  {
    if s == [] {
    } else {
      OthersStay(s[1..]);
      assert s == [s[0]] + s[1..];
      assert forall i :: 0 < i < |s| ==> s[i] == s[1..][i - 1];
      LowerTextAt(s, 0);
      if Responses.LowerText(s) == s {
        assert Responses.LowerText(s)[1..] == Responses.LowerText(s[1..]);
      }
    }
  }

  lemma Coding()
    ensures Responses.CHUNKED == Ascii("chunked")
  {
  }

  /** The name of the field that names a coding. */
  lemma NameOfCoding()
    ensures Responses.LowerText(Ascii("Transfer-Encoding")) == Responses.TRANSFER_ENCODING
  {
    hide Responses.LowerText;
    LowerTextIs(Ascii("Transfer-Encoding"), Ascii("transfer-encoding"));
    assert Responses.TRANSFER_ENCODING == Ascii("transfer-encoding");
  }

  /** The name of the field that announces a length. */
  lemma NameOfLength()
    ensures Responses.LowerText(Ascii("Content-Length")) == Responses.CONTENT_LENGTH
  {
    hide Responses.LowerText;
    LowerTextIs(Ascii("Content-Length"), Ascii("content-length"));
    assert Responses.CONTENT_LENGTH == Ascii("content-length");
  }

  /** A status of HTTP/1.0, all of whose numbers differ. */
  function Ok(): Responses.Status {
    Responses.Status(1, 0, 203, Ascii("OK"))
  }

  lemma OkText()
    ensures Responses.ValidStatus(Ok()) && Responses.StatusText(Ok()) == Ascii("HTTP/1.0 203 OK")
  {
    assert forall i :: 0 <= i < 2 ==> Headers.Is(Headers.Value, Ascii("OK")[i]);
  }

  function OneField(name: string, value: string): seq<Headers.Field>
    requires (forall i :: 0 <= i < |name| ==> name[i] as int < 128) && forall i :: 0 <= i < |value| ==> value[i] as int < 128
  {
    [Headers.Field(Ascii(name), Ascii(value))]
  }

  lemma HeaderOf(f: Headers.Field)
    ensures Responses.ValidStatus(Ok())
    ensures Responses.HeaderText(Ok(), [f]) == Ascii("HTTP/1.0 203 OK") + [13, 10] + (f.name + [58, 32] + f.value + [13, 10])
    ensures Responses.LowerNames([f]) == [Headers.Field(Responses.LowerText(f.name), f.value)]
  {
    hide Responses.LowerText, Responses.StatusText;
    OkText();
    assert [f][1..] == [];
    assert Headers.Lines([f]) == Headers.Line(f) + Headers.Lines([]);
    Nothing(Headers.Line(f));
    Nothing([Headers.Field(Responses.LowerText(f.name), f.value)]);
  }

  lemma FramingOfOne(f: Headers.Field)
    ensures Responses.FramingOf([f])
            == if f.name == Responses.TRANSFER_ENCODING then
                 if f.value == Responses.CHUNKED then Some(Responses.Framing(true, None)) else None
               else if f.name == Responses.CONTENT_LENGTH then
                 if Responses.StringToUint(f.value).None? then None
                 else Some(Responses.Framing(false, Responses.StringToUint(f.value)))
               else Some(Responses.Framing(false, None))
  {
    hide Responses.StringToUint;
    assert [f][..0] == [];
  }

  lemma LengthFive()
    ensures Responses.StringToUint(Ascii("5")) == Some(5)
  {
    assert Ascii("5")[..0] == [];
    assert SpellsDecimal(Ascii("5"), 5);
    Responses.DigitsAreRead(Ascii("5"), 5);
  }

  lemma TokenText(s: seq<byte>)
    requires s != [] && forall i :: 0 <= i < |s| ==> 65 <= s[i] <= 90 || 97 <= s[i] <= 122 || s[i] == 45
    ensures Headers.All(Headers.Token, s)
  {
  }

  lemma PlainValue(s: seq<byte>)
    requires s != [] && forall i :: 0 <= i < |s| ==> 33 <= s[i] <= 126
    ensures Headers.All(Headers.Value, s) && Headers.Stripped(s)
  {
  }

  lemma OneFieldIsValid(f: Headers.Field)
    requires f.name != [] && Headers.All(Headers.Token, f.name) && Headers.All(Headers.Value, f.value) && Headers.Stripped(f.value)
    requires Responses.FramingOf(Responses.LowerNames([f])).Some?
    ensures Responses.ValidHeader(Ok(), [f])
  {
    hide Responses.FramingOf, Responses.LowerNames, Headers.All, Headers.Stripped;
    OkText();
  }

  function LengthField(): Headers.Field {
    Headers.Field(Ascii("Content-Length"), Ascii("5"))
  }

  function CodingField(): Headers.Field {
    Headers.Field(Ascii("Transfer-Encoding"), Ascii("chunked"))
  }

  lemma LengthFieldIsValid()
    ensures Responses.ValidHeader(Ok(), [LengthField()])
    ensures Responses.FramingOf(Responses.LowerNames([LengthField()])) == Some(Responses.Framing(false, Some(5)))
  {
    var f := LengthField();
    TokenText(f.name);
    PlainValue(f.value);
    NameOfLength();
    LengthFive();
    assert Responses.TRANSFER_ENCODING[0] != Responses.CONTENT_LENGTH[0];
    hide Responses.LowerText, Responses.StringToUint, Ascii, Headers.All, Headers.Stripped, Responses.FramingOf, Responses.LowerNames;
    HeaderOf(f);
    FramingOfOne(Headers.Field(Responses.LowerText(f.name), f.value));
    OneFieldIsValid(f);
  }

  lemma OnePart(text: seq<byte>)
    ensures Concat([text]) == text
  {
    assert [text][1..] == [];
    Nothing(text);
  }

  /** A whole response with a length, byte by byte. */
  lemma PlainExample()
    ensures var text := Ascii("HTTP/1.0 203 OK") + [13, 10] + (Ascii("Content-Length") + [58, 32] + Ascii("5") + [13, 10])
                        + ([13, 10] + Ascii("hello"));
            Responses.Receive([text])
            == Responses.Received(Responses.Response(Some(Ok()), [Headers.Field(Responses.CONTENT_LENGTH, Ascii("5"))], Ascii("hello")))
  {
    var f, body := LengthField(), Ascii("hello");
    NameOfLength();
    LengthFieldIsValid();
    hide Responses.LowerText, Responses.Receive, Responses.FramingOf, Responses.ValidHeader, Responses.HeaderText, Ascii;
    HeaderOf(f);
    var text := Responses.HeaderText(Ok(), [f]) + (CRLF + body);
    OnePart(text);
    Responses.PlainResponseIsReceived(Ok(), [f], body, [text]);
  }

  lemma CodingFieldIsValid()
    ensures Responses.ValidHeader(Ok(), [CodingField()])
    ensures Responses.FramingOf(Responses.LowerNames([CodingField()])) == Some(Responses.Framing(true, None))
  {
    var f := CodingField();
    TokenText(f.name);
    PlainValue(f.value);
    NameOfCoding();
    Coding();
    hide Responses.LowerText, Responses.StringToUint, Ascii, Headers.All, Headers.Stripped, Responses.FramingOf, Responses.LowerNames;
    HeaderOf(f);
    FramingOfOne(Headers.Field(Responses.LowerText(f.name), f.value));
    OneFieldIsValid(f);
  }

  /** A chunk whose size is written with a capital letter. */
  function TenBytes(): Chunked.Chunk {
    Chunked.Chunk(Ascii("A"), Ascii("0123456789"))
  }

  lemma TenBytesAreChunked()
    ensures Chunked.IsChunkedBody([TenBytes()], Ascii("0"))
    ensures Chunked.Encode([TenBytes()]) == Ascii("A") + [13, 10] + Ascii("0123456789") + [13, 10]
    ensures Chunked.Data([TenBytes()]) == Ascii("0123456789")
  {
    assert Ascii("A")[..0] == [] && Ascii("0")[..0] == [];
    assert Hex.Spells([], 0);
    assert Hex.Spells(Ascii("A"), 10) && Hex.Spells(Ascii("0"), 0);
    assert [TenBytes()][1..] == [];
    hide Hex.Spells;
    Nothing(Ascii("A") + [13, 10] + Ascii("0123456789") + [13, 10]);
    Nothing(Ascii("0123456789"));
  }

  /** A whole chunked response, byte by byte. */
  lemma ChunkedExample()
    ensures var text := Ascii("HTTP/1.0 203 OK") + [13, 10] + (Ascii("Transfer-Encoding") + [58, 32] + Ascii("chunked") + [13, 10])
                        + ([13, 10] + (Ascii("A") + [13, 10] + Ascii("0123456789") + [13, 10] + (Ascii("0") + [13, 10] + [13, 10])));
            Responses.Receive([text])
            == Responses.Received(Responses.Response(Some(Ok()), [Headers.Field(Responses.TRANSFER_ENCODING, Ascii("chunked"))],
                                                     Ascii("0123456789")))
  {
    var f := CodingField();
    NameOfCoding();
    CodingFieldIsValid();
    TenBytesAreChunked();
    hide Responses.LowerText, Responses.Receive, Responses.FramingOf, Responses.ValidHeader, Responses.HeaderText, Ascii,
         Chunked.Encode, Chunked.Data, Chunked.IsChunkedBody;
    HeaderOf(f);
    var text := Responses.HeaderText(Ok(), [f]) + (CRLF + (Chunked.Encode([TenBytes()]) + (Ascii("0") + CRLF + CRLF)));
    OnePart(text);
    Responses.ChunkedResponseIsDecoded(Ok(), [f], [TenBytes()], Ascii("0"), CRLF, [text]);
  }
}
