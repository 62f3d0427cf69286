/**
  Messages and handshakes as bytes: src/message.cpp, `Message::request` of
  include/message.hpp, `push_bytes` of include/common.hpp, and the reading
  side of src/peer.cpp. The host is little-endian.
 */
module Wire {
  import opened Bytes
  import opened Messages
  import P = Pieces
  import PP = PeerProtocol

  // ----- Byte order

  function Htonl(n: uint32): uint32 {
    n % 0x100 * 0x100_0000 + n / 0x100 % 0x100 * 0x1_0000 + n / 0x1_0000 % 0x100 * 0x100 + n / 0x100_0000
  }

  /** A word as it lies in the memory of a little-endian host, which is also what `push_bytes` appends. */
  function InMemory(n: uint32): (s: seq<byte>)
    ensures |s| == 4
  {
    [n % 0x100, n / 0x100 % 0x100, n / 0x1_0000 % 0x100, n / 0x100_0000]
  }

  function FromMemory(s: seq<byte>): uint32
    requires |s| == 4
  {
    var a: int, b: int, c: int, d: int := s[0], s[1], s[2], s[3];
    d * 0x100_0000 + c * 0x1_0000 + b * 0x100 + a
  }

  lemma Digits256(n: int, a: int, b: int, c: int, d: int)
    requires 0 <= a < 0x100 && 0 <= b < 0x100 && 0 <= c < 0x100 && 0 <= d < 0x100
    requires n == a * 0x100_0000 + b * 0x1_0000 + c * 0x100 + d
    ensures n / 0x100_0000 == a && n / 0x1_0000 % 0x100 == b && n / 0x100 % 0x100 == c && n % 0x100 == d
  {
    assert n / 0x1_0000 == a * 0x100 + b;
    assert n / 0x100 == (a * 0x100 + b) * 0x100 + c;
  }

  /** A word in network order, pushed byte by byte, is the word most significant byte first. */
  lemma PushedInNetworkOrder(n: uint32)
    ensures InMemory(Htonl(n)) == BigEndian(n)
  {
    Digits256(Htonl(n), n % 0x100, n / 0x100 % 0x100, n / 0x1_0000 % 0x100, n / 0x100_0000);
  }

  /** Four bytes of the network, read as a word and reordered, are the number they denote. */
  lemma ReadInNetworkOrder(s: seq<byte>)
    requires |s| == 4
    ensures Htonl(FromMemory(s)) == FromBigEndian(s)
  {
    Digits256(FromMemory(s), s[3], s[2], s[1], s[0]);
  }

  // ----- One message

  function Code(ty: MessageType): byte {
    match ty
    case Choke => 0
    case Unchoke => 1
    case Interested => 2
    case NotInterested => 3
    case Have => 4
    case Bitfield => 5
    case Request => 6
    case Piece => 7
    case Cancel => 8
    case Extension => 20
  }

  /** The enumerator with the given code, if the code is at most that of Cancel or is that of Extension. */
  function TryFrom(src: byte): (ty: Option<MessageType>)
    ensures forall t :: Code(t) == src <==> ty == Some(t)
  {
    if src <= Code(Cancel) || src == Code(Extension) then
      Some(match src
           case 0 => Choke
           case 1 => Unchoke
           case 2 => Interested
           case 3 => NotInterested
           case 4 => Have
           case 5 => Bitfield
           case 6 => Request
           case 7 => Piece
           case 8 => Cancel
           case _ => Extension)
    else None
  }

  /** The constructor that reads a received body. Its `at` needs a first byte. */
  function FromBody(body: seq<byte>): Message
    requires body != []
  {
    Message(TryFrom(body[0]), body[1..])
  }

  function Body(ty: MessageType, payload: seq<byte>): seq<byte> {
    [Code(ty)] + payload
  }

  /** The length that is written: one more than that of the payload, in 32 bits. */
  function WrittenLength(payload: seq<byte>): uint32 {
    (|payload| + 1) % 0x1_0000_0000
  }

  function Frame(ty: MessageType, payload: seq<byte>): seq<byte> {
    BigEndian(WrittenLength(payload)) + Body(ty, payload)
  }

  method Serialize(ty: MessageType, payload: seq<byte>) returns (s: seq<byte>)
    ensures s == Frame(ty, payload)
  {
    var len := Htonl(WrittenLength(payload));
    PushedInNetworkOrder(WrittenLength(payload));
    hide WrittenLength, Htonl, InMemory, BigEndian;
    s := [];
    s := s + InMemory(len);
    s := s + [Code(ty)];
    s := s + payload;
  }

  // ----- The read chain

  /** Why reading stopped: the bytes ended in a length, they ended in a body, or a message had an unknown type. */
  datatype End = LengthFailed | BodyFailed | UnknownType

  /** The messages handed to `async_handle_message`, in order. */
  datatype Chain = Chain(messages: seq<Message>, end: End)

  /** All that the read chain makes of the bytes of a connection. */
  function Read(stream: seq<byte>): Chain
    decreases |stream|
  {
    if |stream| < 4 then Chain([], LengthFailed)
    else
      var len, rest := FromBigEndian(stream[..4]), stream[4..];
      if len == 0 then Read(rest)
      else if |rest| < len then Chain([], BodyFailed)
      else
        var msg := FromBody(rest[..len]);
        if msg.ty.None? then Chain([msg], UnknownType)
        else Prepend(msg, Read(rest[len..]))
  }

  function Prepend(msg: Message, chain: Chain): Chain {
    Chain([msg] + chain.messages, chain.end)
  }

  /** `async_read_message`, `async_read_len` and the handler of the body, one after the other. */
  method ReadMessages(stream: seq<byte>) returns (messages: seq<Message>, end: End)
    ensures Read(stream) == Chain(messages, end)
  {
    hide FromBigEndian, Htonl, FromMemory, FromBody;
    messages := [];
    var rest := stream;
    while true
      invariant Read(stream) == Chain(messages + Read(rest).messages, Read(rest).end)
      decreases |rest|
    {
      if |rest| < 4 {
        return messages, LengthFailed;
      }
      var recvBuffer := rest[..4];
      ReadInNetworkOrder(recvBuffer);
      var len := Htonl(FromMemory(recvBuffer));
      if len == 0 {
        rest := rest[4..];
      } else {
        if |rest[4..]| < len {
          return messages, BodyFailed;
        }
        recvBuffer := rest[4..][..len];
        var msg := FromBody(recvBuffer);
        Associate(messages, [msg], Read(rest[4..][len..]).messages);
        messages := messages + [msg];
        if msg.ty.None? {
          return messages, UnknownType;
        }
        rest := rest[4..][len..];
      }
    }
  }

  // ----- What is sent is what is read

  datatype Item = KeepAlive | Sent(ty: MessageType, payload: seq<byte>)

  function ItemBytes(item: Item): seq<byte> {
    match item
    case KeepAlive => BigEndian(0)
    case Sent(ty, payload) => Frame(ty, payload)
  }

  function Transmit(items: seq<Item>): seq<byte> {
    if items == [] then [] else ItemBytes(items[0]) + Transmit(items[1..])
  }

  function ItemMessages(item: Item): seq<Message> {
    match item
    case KeepAlive => []
    case Sent(ty, payload) => [Message(Some(ty), payload)]
  }

  function MessagesOf(items: seq<Item>): seq<Message> {
    if items == [] then [] else ItemMessages(items[0]) + MessagesOf(items[1..])
  }

  predicate Fits(payload: seq<byte>) {
    |payload| + 1 < 0x1_0000_0000
  }

  predicate AllFit(items: seq<Item>) {
    forall i :: 0 <= i < |items| && items[i].Sent? ==> Fits(items[i].payload)
  }

  lemma ReadKeepAlive(rest: seq<byte>)
    ensures Read(BigEndian(0) + rest) == Read(rest)
  {
    BigEndianRoundTrip(0);
    hide FromBigEndian, BigEndian;
    var s := BigEndian(0) + rest;
    assert s[..4] == BigEndian(0) && s[4..] == rest;
  }

  lemma WrittenLengthOf(payload: seq<byte>)
    ensures Fits(payload) ==> WrittenLength(payload) == |payload| + 1
  {
  }

  lemma ReadFrame(ty: MessageType, payload: seq<byte>, rest: seq<byte>)
    requires Fits(payload)
    ensures Read(Frame(ty, payload) + rest) == Prepend(Message(Some(ty), payload), Read(rest))
  {
    var len, body := WrittenLength(payload), Body(ty, payload);
    var s := Frame(ty, payload) + rest;
    BigEndianRoundTrip(len);
    WrittenLengthOf(payload);
    assert TryFrom(Code(ty)) == Some(ty);
    hide FromBigEndian, BigEndian, TryFrom, WrittenLength;
    Associate(BigEndian(len), body, rest);
    CutConcat(BigEndian(len), body + rest);
    CutConcat(body, rest);
    assert FromBody(body) == Message(Some(ty), payload);
  }

  lemma ReadItem(item: Item, rest: seq<byte>)
    requires item.Sent? ==> Fits(item.payload)
    ensures Read(ItemBytes(item) + rest) == Chain(ItemMessages(item) + Read(rest).messages, Read(rest).end)
  {
    match item
    case KeepAlive =>
      ReadKeepAlive(rest);
      hide Read, BigEndian;
    case Sent(ty, payload) =>
      ReadFrame(ty, payload, rest);
      hide Read, Frame;
  }

  /**
    Any sequence of messages and keepalives is read back as exactly these
    messages in their order, whatever follows on the connection.
   */
  lemma {:induction false} ReadTransmitted(items: seq<Item>, rest: seq<byte>)
    requires AllFit(items)
    ensures Read(Transmit(items) + rest) == Chain(MessagesOf(items) + Read(rest).messages, Read(rest).end)
  {
    hide Read, ItemBytes, ItemMessages, Frame, BigEndian, Fits;
    if items == [] {
      Nothing(rest);
      Nothing(Read(rest).messages);
    } else {
      var item := items[0];
      ReadTransmitted(items[1..], rest);
      ReadItem(item, Transmit(items[1..]) + rest);
      Associate(ItemBytes(item), Transmit(items[1..]), rest);
      Associate(ItemMessages(item), MessagesOf(items[1..]), Read(rest).messages);
    }
  }

  lemma ReadUnknown(code: byte, payload: seq<byte>, rest: seq<byte>)
    requires Fits(payload) && TryFrom(code).None?
    ensures Read(BigEndian(WrittenLength(payload)) + ([code] + payload) + rest) == Chain([Message(None, payload)], UnknownType)
  {
    var len, body := WrittenLength(payload), [code] + payload;
    BigEndianRoundTrip(len);
    WrittenLengthOf(payload);
    hide FromBigEndian, BigEndian, TryFrom, WrittenLength;
    Associate(BigEndian(len), body, rest);
    CutConcat(BigEndian(len), body + rest);
    CutConcat(body, rest);
    assert FromBody(body) == Message(None, payload);
  }

  /** A message of unknown type is still handed over, and nothing after it is ever read. */
  lemma UnknownTypeEndsChain(items: seq<Item>, code: byte, payload: seq<byte>, rest: seq<byte>)
    requires AllFit(items) && Fits(payload) && TryFrom(code).None?
    ensures Read(Transmit(items) + (BigEndian(WrittenLength(payload)) + ([code] + payload) + rest))
            == Chain(MessagesOf(items) + [Message(None, payload)], UnknownType)
  {
    hide Read, FromBigEndian, BigEndian, TryFrom, WrittenLength, Transmit, MessagesOf, Fits;
    ReadUnknown(code, payload, rest);
    ReadTransmitted(items, BigEndian(WrittenLength(payload)) + ([code] + payload) + rest);
  }

  lemma {:induction false} ReadPayloadsFit(stream: seq<byte>, i: nat)
    requires i < |Read(stream).messages|
    ensures Fits(Read(stream).messages[i].payload)
    decreases |stream|
  {
    hide FromBigEndian, TryFrom;
    if |stream| >= 4 {
      var len, rest := FromBigEndian(stream[..4]), stream[4..];
      if len == 0 {
        ReadPayloadsFit(rest, i);
      } else if len <= |rest| && FromBody(rest[..len]).ty.Some? && i > 0 {
        ReadPayloadsFit(rest[len..], i - 1);
      }
    }
  }

  /** A message arrives if and only if its length, type included, fits the 32 bits it is written in. */
  lemma MessageArrives(ty: MessageType, payload: seq<byte>)
    ensures Read(Frame(ty, payload)) == Chain([Message(Some(ty), payload)], LengthFailed) <==> Fits(payload)
  {
    hide Fits, Frame;
    var chain := Read(Frame(ty, payload));
    assert Frame(ty, payload) + [] == Frame(ty, payload);
    if Fits(payload) {
      ReadFrame(ty, payload, []);
    }
    if chain == Chain([Message(Some(ty), payload)], LengthFailed) {
      ReadPayloadsFit(Frame(ty, payload), 0);
      assert chain.messages[0].payload == payload;
    }
  }

  // ----- Requests

  /** An unsigned difference wraps in 32 bits. */
  function Left(size: uint32, offset: uint32): uint32 {
    (size - offset) % 0x1_0000_0000
  }

  lemma LeftOf(size: uint32, offset: uint32)
    requires offset <= size
    ensures Left(size, offset) == size - offset
  {
  }

  /** The payload of `Message::request`. */
  function RequestPayload(index: uint32, size: uint32, offset: uint32): (s: seq<byte>)
    ensures |s| == 12
  {
    var left := Left(size, offset);
    BigEndian(index) + BigEndian(offset) + BigEndian(if left < P.BLOCK_SIZE then left else P.BLOCK_SIZE)
  }

  method MakeRequest(index: uint32, size: uint32, offset: uint32) returns (payload: seq<byte>)
    ensures payload == RequestPayload(index, size, offset)
  {
    var left := Left(size, offset);
    var length := if left < P.BLOCK_SIZE then left else P.BLOCK_SIZE;
    PushedInNetworkOrder(index);
    PushedInNetworkOrder(offset);
    PushedInNetworkOrder(length);
    hide Htonl, InMemory, BigEndian;
    payload := [];
    payload := payload + InMemory(Htonl(index));
    payload := payload + InMemory(Htonl(offset));
    payload := payload + InMemory(Htonl(length));
  }

  /** What a peer reads in a request. */
  function Requested(payload: seq<byte>): PP.BlockRequest
    requires |payload| == 12
  {
    PP.BlockRequest(FromBigEndian(payload[..4]), FromBigEndian(payload[4..8]), FromBigEndian(payload[8..]))
  }

  /**
    The bytes of a request ask for the range of the block, and a peer that
    answers with that piece index, that offset and that much data fills
    exactly this block with it.
   */
  lemma RequestAndReplyAgree(p: P.PieceState, i: nat, data: seq<byte>, junk: nat)
    requires |p.blocks| <= P.BlockCount(p.size) && i < |p.blocks|
    ensures P.BlockOffset(i) < 0x1_0000_0000
    ensures var asked := Requested(RequestPayload(p.index, p.size, P.BlockOffset(i)));
            && asked == PP.RequestFor(p.index, p.size, i)
            && (|data| == asked.length && !p.blocks[i].filled ==>
                  var reply := P.Reply(asked.piece, asked.offset, data);
                  && P.AcceptStatus(p, reply) == P.Ok
                  && P.NamedBlock(reply, junk) == i
                  && P.Accept(p, reply).blocks[i].data == data)
  {
    P.BlocksTilePiece(p.size, i);
    RequestOfBlock(p.index, p.size, i);
    if |data| == P.BlockLength(p.size, i) {
      P.EchoedRequestIsAccepted(p, i, data, junk);
    }
    hide P.Accept, P.AcceptStatus, P.NamedBlock, P.BlockLength, P.BlockCount, RequestPayload, Requested;
  }

  lemma RequestOfBlock(index: uint32, size: uint32, i: nat)
    requires i < P.BlockCount(size) && P.BlockOffset(i) < 0x1_0000_0000
    ensures Requested(RequestPayload(index, size, P.BlockOffset(i))) == PP.RequestFor(index, size, i)
  {
    P.BlocksTilePiece(size, i);
    var offset, length: uint32 := P.BlockOffset(i), P.BlockLength(size, i);
    BigEndianRoundTrip(index);
    BigEndianRoundTrip(offset);
    BigEndianRoundTrip(length);
    LeftOf(size, offset);
    hide BigEndian, FromBigEndian, P.BlockCount, Left;
    var payload := RequestPayload(index, size, offset);
    assert payload[..4] == BigEndian(index) && payload[4..8] == BigEndian(offset) && payload[8..] == BigEndian(length);
  }
}
