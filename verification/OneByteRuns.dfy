/** Short runs with one peer and a torrent of one byte, in which things go wrong. */
module OneByteRuns {
  import opened Bytes
  import opened Pieces
  import opened Messages
  import opened PeerProtocol
  import opened Swarm
  import opened ClosedPeers
  import opened OnePeerRuns
  import PeerConduct
  import Hashing

  /** A torrent of one piece of one byte. */
  function OneByte(hash: seq<byte>): Torrent {
    Torrent(1, 1, [hash])
  }

  /** The peer sends a fourth message. */
  function OneByteRun(msg: Message, heap: seq<byte>): seq<Event> {
    Opening([128]) + [Received(0, msg, 0, heap)]
  }

  /** The peer has asked for the only block. */
  function Asking(): Local {
    Local(
      NewPeer().(choked := false, available := ByteBits(128),
                 piece := Some(PieceState(0, 1, [BlockState(false, true, [])], None)),
                 outstanding := map[0 := true], sent := [BlockRequest(0, 0, 1)]),
      [], [PeerConnected(0)])
  }

  lemma AskingFollows(hash: seq<byte>)
    ensures Download(Waiting(OneByte(hash), ByteBits(128), false), OneByte(hash)) == Asking()
  {
    var l := Waiting(OneByte(hash), ByteBits(128), false);
    assert l.work == [0] by {
      assert Indices(1) == Indices(0) + [0];
    }
    assert BlockCount(1) == 1 && BlockLength(1, 0) == 1;
    var t := TakePiece(l, OneByte(hash));
    assert t.work == [] && t.peer.piece == Some(Fresh(0, 1));
    assert NextBlock(t.peer.piece.value) == Some(0);
    assert Requests(l, OneByte(hash));
    assert Reserve(t.peer.piece.value).blocks == [BlockState(false, true, [])];
    assert map[][0 := true] == map[0 := true];
    assert Turn(l, OneByte(hash)) == Asking();
    var q := Asking().peer.piece.value;
    assert NextBlock(q) == None;
    assert !Requests(Asking(), OneByte(hash));
    assert Turn(Asking(), OneByte(hash)) == Asking();
  }

  lemma ReplyCompletes(b: byte)
    ensures AcceptStatus(Asking().peer.piece.value, Reply(0, 0, [b])) == Ok
    ensures IsComplete(PieceAfter(Asking(), Reply(0, 0, [b]), 0))
  {
    hide Hashing.Of, FromBigEndian, BigEndian, Reply, DataLength;
    var l, payload := Asking(), Reply(0, 0, [b]);
    assert BlockCount(1) == 1 && BlockLength(1, 0) == 1 && BlockOffset(0) == 0;
    EchoedRequestIsAccepted(l.peer.piece.value, 0, [b], 0);
    assert NamedBlock(payload, 0) == 0;
    hide NamedBlock, AcceptStatus, BlockLength;
    assert PieceAfter(l, payload, 0).blocks[0].filled;
  }

  lemma ReplyIsData(b: byte, heap: seq<byte>)
    ensures Finalize(PieceAfter(Asking(), Reply(0, 0, [b]), 0), heap).finalized == Some([b])
  {
    hide FromBigEndian, BigEndian, Reply, DataLength, AcceptStatus, NamedBlock;
    var l, payload := Asking(), Reply(0, 0, [b]);
    assert BlockCount(1) == 1 && BlockLength(1, 0) == 1 && BlockOffset(0) == 0;
    EchoedRequestIsAccepted(l.peer.piece.value, 0, [b], 0);
    var blocks := PieceAfter(l, payload, 0).blocks;
    assert |blocks| == 1 && blocks[0].data == [b];
    OneBlock(blocks);
    assert Overwrite(heap, [b], 1) == [b];
  }

  lemma OneBlock(blocks: seq<BlockState>)
    requires |blocks| == 1
    ensures Pieces.Joined(blocks) == blocks[0].data
  {
    assert blocks[..0] == [];
    Nothing(blocks[0].data);
  }

  lemma ReplyFailsCheck(hash: seq<byte>, b: byte, heap: seq<byte>)
    requires hash != Hashing.Of([b])
    ensures FailsCheck(Asking(), OneByte(hash), Reply(0, 0, [b]), 0, heap)
  {
    hide Hashing.Of, Reply, AcceptStatus, PieceAfter, IsComplete, Finalize;
    ReplyCompletes(b);
    ReplyIsData(b, heap);
  }

  lemma AvailableAgain()
    ensures Asking().peer.piece.Some? && !Asking().peer.choked && Asking().peer.available != []
    ensures HasPiece(Asking().peer.available, (Asking().work + [Asking().peer.piece.value.index])[0])
  {
  }

  /** The state in which the fourth message arrives. */
  function Third(hash: seq<byte>): System
    requires OneByte(hash).Usable()
  {
    Swarm.Run(Initial(OneByte(hash), 1), OneByte(hash), Opening([128]))
  }

  lemma ThirdIsAsking(hash: seq<byte>)
    ensures OneByte(hash).Usable() && OnlyPeer(Third(hash), Asking())
  {
    hide Initial, Swarm.Run, Waiting, Asking, OnlyPeer, Opening, Download, ByteBits, Bits;
    AfterOpening(OneByte(hash), [128]);
    BitsOfOneByte(128);
    AskingFollows(hash);
  }

  lemma FourthFollows(hash: seq<byte>, msg: Message, heap: seq<byte>)
    requires OneByte(hash).Usable()
    ensures Swarm.Run(Initial(OneByte(hash), 1), OneByte(hash), OneByteRun(msg, heap))
            == Step(Third(hash), OneByte(hash), Received(0, msg, 0, heap))
  {
    hide Swarm.Run, Initial, Step, Opening;
    PeerConduct.RunStep(Initial(OneByte(hash), 1), OneByte(hash), Opening([128]), Received(0, msg, 0, heap));
  }

  /** A byte with the wrong hash: the peer ends up closed and holds the piece again. */
  lemma ClosedPeerHoldsPiece(hash: seq<byte>, b: byte, heap: seq<byte>)
    requires |hash| == Hashing.HASH_SIZE && hash != Hashing.Of([b])
    ensures OneByte(hash).Usable()
    ensures HoldsClosed(Swarm.Run(Initial(OneByte(hash), 1), OneByte(hash),
                                  OneByteRun(Message(Some(Piece), Reply(0, 0, [b])), heap)), 0)
  {
    hide Initial, Step, Swarm.Run, HandleMessage, Asking, FailsCheck, Reply, HasPiece, Third, OneByteRun, Hashing.Of;
    var reply := Message(Some(Piece), Reply(0, 0, [b]));
    ThirdIsAsking(hash);
    FourthFollows(hash, reply, heap);
    OnlyPeerStep(Third(hash), Asking(), OneByte(hash), reply, heap);
    ReplyFailsCheck(hash, b, heap);
    AvailableAgain();
    FailedCheckTakesPiece(Asking(), 0, OneByte(hash), reply, 0, heap);
  }

  /** A message of unknown type: the read chain ends, and the peer holds the piece. */
  lemma StoppedPeerHoldsPiece(hash: seq<byte>, payload: seq<byte>)
    requires |hash| == Hashing.HASH_SIZE
    ensures OneByte(hash).Usable()
    ensures PeerConduct.Strands(Swarm.Run(Initial(OneByte(hash), 1), OneByte(hash), OneByteRun(Message(None, payload), [])), 0)
  {
    hide Initial, Swarm.Run, Third, OneByteRun;
    ThirdIsAsking(hash);
    FourthFollows(hash, Message(None, payload), []);
    AvailableAgain();
  }

  lemma LongReplyIsAccepted(b: byte, x: byte)
    ensures var q := PieceAfter(Asking(), Reply(0, 0, [b, x]), 0);
            AcceptStatus(Asking().peer.piece.value, Reply(0, 0, [b, x])) == Ok && IsComplete(q) && q.finalized.None?
            && q.index == 0 && q.size == 1 && Pieces.Joined(q.blocks) == [b, x]
  {
    var l, payload := Asking(), Reply(0, 0, [b, x]);
    assert payload[..4] == BigEndian(0) && payload[4..8] == BigEndian(0);
    BigEndianRoundTrip(0);
    assert BlockCount(1) == 1;
    assert payload[8..8 + DataLength(payload)] == [b, x];
    hide FromBigEndian, BigEndian;
    var q := PieceAfter(l, payload, 0);
    assert |q.blocks| == 1 && q.blocks[0].data == [b, x];
    OneBlock(q.blocks);
  }

  /**
    A reply of two bytes for a piece of one: the download has written past
    the buffer of the piece, and reports it as correct.
   */
  lemma LongReplyIsReported(b: byte, x: byte, heap: seq<byte>)
    ensures var q := PieceAfter(Asking(), Reply(0, 0, [b, x]), 0); IsComplete(q) && |Pieces.Joined(q.blocks)| == 2 && q.size == 1
    ensures HandlePiece(Asking(), 0, OneByte(Hashing.Of([b])), Reply(0, 0, [b, x]), 0, heap).results
            == Asking().results + [PieceComplete(CompletePiece([b], 0, 1))]
  {
    LongReplyIsAccepted(b, x);
    hide Hashing.Of, Reply, AcceptStatus, IsComplete, Pieces.Joined, ReleaseBlock, Pieces.Accept, NamedBlock;
    assert Overwrite(heap, [b, x], 1) == [b];
  }
}
