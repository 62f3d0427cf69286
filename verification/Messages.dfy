/** The messages of include/message.hpp. Wire has their form on the wire. */
module Messages {
  import opened Bytes

  datatype MessageType =
    Choke | Unchoke | Interested | NotInterested | Have | Bitfield | Request | Piece | Cancel | Extension

  /** The type is missing if the byte that names it is unknown. */
  datatype Message = Message(ty: Option<MessageType>, payload: seq<byte>)
}
