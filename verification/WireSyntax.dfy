/** Exactly what the read chain makes of the bytes of a connection, and the messages of BEP 3 byte by byte. */
module WireSyntax {
  import opened Bytes
  import opened Messages
  import opened Wire

  /** What no message can be read from, and why reading stops there. */
  datatype Tail =
    | NoLength(bytes: seq<byte>)
    | NoBody(length: uint32, bytes: seq<byte>)
    | NoType(code: byte, payload: seq<byte>, rest: seq<byte>)

  predicate IsTail(t: Tail) {
    match t
    case NoLength(bytes) => |bytes| < 4
    case NoBody(length, bytes) => |bytes| < length
    case NoType(code, payload, _) => !(code <= 8 || code == 20) && |payload| + 1 < 0x1_0000_0000
  }

  function TailBytes(t: Tail): seq<byte> {
    match t
    case NoLength(bytes) => bytes
    case NoBody(length, bytes) => BigEndian(length) + bytes
    case NoType(code, payload, rest) => BigEndian((|payload| + 1) % 0x1_0000_0000) + ([code] + payload) + rest
  }

  function TailChain(t: Tail): Chain {
    match t
    case NoLength(_) => Chain([], LengthFailed)
    case NoBody(_, _) => Chain([], BodyFailed)
    case NoType(_, payload, _) => Chain([Message(None, payload)], UnknownType)
  }

  lemma KnownCodes(code: byte)
    ensures TryFrom(code).Some? <==> code <= 8 || code == 20
  {
  }

  lemma TailIsRead(t: Tail)
    requires IsTail(t)
    ensures Read(TailBytes(t)) == TailChain(t)
  {
    match t
    case NoLength(bytes) =>
    case NoBody(length, bytes) =>
      BigEndianRoundTrip(length);
      CutConcat(BigEndian(length), bytes);
      hide BigEndian, FromBigEndian, FromBody;
    case NoType(code, payload, rest) =>
      KnownCodes(code);
      ReadUnknown(code, payload, rest);
      hide Read, BigEndian, TryFrom;
  }

  /** The connection carried these messages and keepalives, and then what no message can be read from. */
  predicate Carries(stream: seq<byte>, items: seq<Item>, t: Tail) {
    AllFit(items) && IsTail(t) && stream == Transmit(items) + TailBytes(t)
  }

  /** What is handed over, and why reading stops. */
  function Handed(items: seq<Item>, t: Tail): Chain {
    Chain(MessagesOf(items) + TailChain(t).messages, TailChain(t).end)
  }

  lemma CarriedIsRead(stream: seq<byte>, items: seq<Item>, t: Tail)
    requires Carries(stream, items, t)
    ensures Read(stream) == Handed(items, t)
  {
    hide Read, TailBytes, TailChain, Transmit, MessagesOf, AllFit, IsTail;
    TailIsRead(t);
    ReadTransmitted(items, TailBytes(t));
  }

  lemma FromBigEndianIs(s: seq<byte>)
    requires |s| == 4
    ensures BigEndian(FromBigEndian(s)) == s
  {
    Digits256(FromBigEndian(s), s[0], s[1], s[2], s[3]);
  }

  lemma CodeOfKnown(code: byte)
    requires TryFrom(code).Some?
    ensures Code(TryFrom(code).value) == code
  {
  }

  /** The first item of a stream that does not end there. */
  lemma FirstItem(stream: seq<byte>) returns (item: Item, rest: seq<byte>)
    requires |stream| >= 4
    requires var len := FromBigEndian(stream[..4]);
             len == 0 || (len <= |stream| - 4 && TryFrom(stream[4]).Some?)
    ensures stream == ItemBytes(item) + rest && (item.Sent? ==> Fits(item.payload)) && |rest| < |stream|
  {
    var len := FromBigEndian(stream[..4]);
    FromBigEndianIs(stream[..4]);
    if len == 0 {
      item, rest := KeepAlive, stream[4..];
    } else {
      CodeOfKnown(stream[4]);
      hide BigEndian, FromBigEndian, TryFrom, Code;
      item, rest := Sent(TryFrom(stream[4]).value, stream[5..4 + len]), stream[4 + len..];
      WrittenLengthOf(item.payload);
      assert stream == stream[..4] + ([stream[4]] + stream[5..4 + len]) + rest;
    }
  }

  lemma LastBytes(stream: seq<byte>) returns (t: Tail)
    requires |stream| >= 4 ==>
               var len := FromBigEndian(stream[..4]);
               len != 0 && (len > |stream| - 4 || TryFrom(stream[4]).None?)
    ensures IsTail(t) && TailBytes(t) == stream
  {
    if |stream| < 4 {
      t := NoLength(stream);
    } else {
      var len := FromBigEndian(stream[..4]);
      FromBigEndianIs(stream[..4]);
      if len > |stream| - 4 {
        t := NoBody(len, stream[4..]);
      } else {
        KnownCodes(stream[4]);
        hide BigEndian, FromBigEndian, TryFrom;
        t := NoType(stream[4], stream[5..4 + len], stream[4 + len..]);
        assert stream == stream[..4] + ([stream[4]] + stream[5..4 + len]) + stream[4 + len..];
      }
    }
  }

  lemma PrependItem(item: Item, items: seq<Item>, t: Tail, rest: seq<byte>)
    requires Carries(rest, items, t) && (item.Sent? ==> Fits(item.payload))
    ensures Carries(ItemBytes(item) + rest, [item] + items, t)
  {
    hide ItemBytes, TailBytes, IsTail, Fits;
    assert ([item] + items)[1..] == items;
    assert forall i :: 0 < i < |[item] + items| ==> ([item] + items)[i] == items[i - 1];
    Associate(ItemBytes(item), Transmit(items), TailBytes(t));
  }

  /** Whatever bytes a connection carries, they are messages and keepalives up to some point. */
  lemma {:induction false} EveryStreamCarries(stream: seq<byte>) returns (items: seq<Item>, t: Tail)
    ensures Carries(stream, items, t)
    decreases |stream|
  {
    hide BigEndian, FromBigEndian, TryFrom, Fits, ItemBytes, TailBytes;
    if |stream| >= 4 && (var len := FromBigEndian(stream[..4]);
                         len == 0 || (len <= |stream| - 4 && TryFrom(stream[4]).Some?)) {
      var item, rest := FirstItem(stream);
      items, t := EveryStreamCarries(rest);
      PrependItem(item, items, t, rest);
      items := [item] + items;
    } else {
      t := LastBytes(stream);
      items := [];
      Nothing(stream);
    }
  }

  /**
    For every connection: the messages handed over and the reason why reading
    stops are these if and only if the bytes are these messages with
    keepalives among them, followed by a length that is cut short, a body that
    is cut short, or a message of unknown type.
   */
  lemma ReadIsExact(stream: seq<byte>, chain: Chain)
    ensures Read(stream) == chain <==> exists items, t :: Carries(stream, items, t) && chain == Handed(items, t)
  {
    hide Read, Carries, Handed;
    var items, t := EveryStreamCarries(stream);
    CarriedIsRead(stream, items, t);
    forall items, t | Carries(stream, items, t)
      ensures Read(stream) == Handed(items, t)
    {
      CarriedIsRead(stream, items, t);
    }
  }

  // ----- The messages of BEP 3

  /** The codes that BEP 3, section "peer messages", and BEP 10 give the messages. */
  lemma CodesOfBep3()
    ensures TryFrom(0) == Some(Choke) && TryFrom(1) == Some(Unchoke)
    ensures TryFrom(2) == Some(Interested) && TryFrom(3) == Some(NotInterested)
    ensures TryFrom(4) == Some(Have) && TryFrom(5) == Some(Bitfield)
    ensures TryFrom(6) == Some(Request) && TryFrom(7) == Some(Piece)
    ensures TryFrom(8) == Some(Cancel) && TryFrom(20) == Some(Extension)
  {
  }

  lemma OneByteLength()
    ensures BigEndian(1) == [0, 0, 0, 1]
  {
  }

  /** A message without payload is the bytes 0, 0, 0, 1 and its code: it is written so, and read so. */
  lemma BareMessage(ty: MessageType, n: byte)
    requires TryFrom(n) == Some(ty)
    ensures Frame(ty, []) == [0, 0, 0, 1, n]
    ensures Read([0, 0, 0, 1, n]) == Chain([Message(Some(ty), [])], LengthFailed)
  {
    CodeOfKnown(n);
    OneByteLength();
    WrittenLengthOf([]);
    MessageArrives(ty, []);
    hide BigEndian, TryFrom, Read, Code;
  }

  /** The bytes of each message without payload, as they are written and as they are read. */
  lemma BytesOfMessages()
    ensures Frame(Choke, []) == [0, 0, 0, 1, 0] && Read([0, 0, 0, 1, 0]).messages == [Message(Some(Choke), [])]
    ensures Frame(Unchoke, []) == [0, 0, 0, 1, 1] && Read([0, 0, 0, 1, 1]).messages == [Message(Some(Unchoke), [])]
    ensures Frame(Interested, []) == [0, 0, 0, 1, 2] && Read([0, 0, 0, 1, 2]).messages == [Message(Some(Interested), [])]
    ensures Frame(NotInterested, []) == [0, 0, 0, 1, 3] && Read([0, 0, 0, 1, 3]).messages == [Message(Some(NotInterested), [])]
    ensures Frame(Have, []) == [0, 0, 0, 1, 4] && Read([0, 0, 0, 1, 4]).messages == [Message(Some(Have), [])]
    ensures Frame(Bitfield, []) == [0, 0, 0, 1, 5] && Read([0, 0, 0, 1, 5]).messages == [Message(Some(Bitfield), [])]
    ensures Frame(Request, []) == [0, 0, 0, 1, 6] && Read([0, 0, 0, 1, 6]).messages == [Message(Some(Request), [])]
    ensures Frame(Piece, []) == [0, 0, 0, 1, 7] && Read([0, 0, 0, 1, 7]).messages == [Message(Some(Piece), [])]
    ensures Frame(Cancel, []) == [0, 0, 0, 1, 8] && Read([0, 0, 0, 1, 8]).messages == [Message(Some(Cancel), [])]
    ensures Frame(Extension, []) == [0, 0, 0, 1, 20] && Read([0, 0, 0, 1, 20]).messages == [Message(Some(Extension), [])]
  {
    hide *;
    CodesOfBep3();
    BareMessage(Choke, 0);
    BareMessage(Unchoke, 1);
    BareMessage(Interested, 2);
    BareMessage(NotInterested, 3);
    BareMessage(Have, 4);
    BareMessage(Bitfield, 5);
    BareMessage(Request, 6);
    BareMessage(Piece, 7);
    BareMessage(Cancel, 8);
    BareMessage(Extension, 20);
  }
}
