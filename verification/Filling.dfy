/** How a piece fills: what the download loop leaves alone, and what a reply to an outstanding request adds. */
module Filling {
  import opened Bytes
  import opened Pieces
  import opened Messages
  import opened PeerProtocol
  import opened Pipeline
  import opened Swarm

  /** The data of the filled blocks. */
  function Filled(q: PieceState): map<nat, seq<byte>> {
    map i: nat | i < |q.blocks| && q.blocks[i].filled :: q.blocks[i].data
  }

  /** The two pieces have the same index, size and data. */
  predicate SameData(q: PieceState, t: PieceState) {
    t.index == q.index && t.size == q.size && Filled(t) == Filled(q)
  }

  lemma UnfilledIsRest(q: PieceState)
    ensures Unfilled(q) == Below(BlockCount(q.size)) - Filled(q).Keys
  {
    hide BlockCount;
  }

  lemma CompleteIsFilled(q: PieceState)
    requires |q.blocks| <= BlockCount(q.size)
    ensures IsComplete(q) <==> Unfilled(q) == {}
  {
    hide BlockCount;
    if Unfilled(q) == {} {
      assert |q.blocks| !in Unfilled(q);
      assert forall i: nat :: i < |q.blocks| && !q.blocks[i].filled ==> i in Unfilled(q);
    }
    assert IsComplete(q) ==> forall i: nat :: i !in Unfilled(q);
  }

  lemma ReserveKeepsData(q: PieceState)
    ensures SameData(q, Reserve(q))
  {
    hide BlockCount;
  }

  lemma TurnKeepsData(l: Local, tor: Torrent)
    requires Requests(l, tor)
    ensures var start, t := TakePiece(l, tor), Turn(l, tor);
            && start.peer.piece.Some? && t.peer.piece.Some? && SameData(start.peer.piece.value, t.peer.piece.value)
            && t.work == start.work && t.results == l.results
  {
    ReserveKeepsData(TakePiece(l, tor).peer.piece.value);
    hide SameData, IsComplete, Reserve, NextBlock;
  }

  lemma IdleTurn(l: Local, tor: Torrent)
    requires l.peer.piece.None? && tor.pieceLength > 0 && !Requests(l, tor)
    ensures Turn(l, tor).peer.piece.None? && Turn(l, tor).results == l.results
  {
  }

  /** The download loop reports nothing, and goes on with the data of the piece it finds, or takes the front one of the queue. */
  lemma {:induction false} DownloadKeepsData(l: Local, tor: Torrent)
    requires tor.pieceLength > 0
    ensures Download(l, tor).results == l.results
    ensures Download(l, tor).peer.piece.Some? ==>
              var start, t := TakePiece(l, tor), Download(l, tor);
              && start.peer.piece.Some? && SameData(start.peer.piece.value, t.peer.piece.value) && t.work == start.work
    decreases l.peer.piece.None?, Idle(l)
  {
    if |l.peer.outstanding| < PIPELINE_LIMIT {
      if Requests(l, tor) {
        TurnTakesABlock(l, tor);
        TurnKeepsData(l, tor);
        DownloadKeepsData(Turn(l, tor), tor);
        hide Turn;
      } else if l.peer.piece.None? {
        IdleTurn(l, tor);
        hide Turn;
      }
    }
    hide Filled, IsComplete, Requests;
  }

  /** An unchoked peer in the middle of a piece, with a full pipeline. */
  ghost predicate Active(l: Local, tor: Torrent) {
    && Pipelined(l.peer) && !l.peer.choked && l.peer.available != []
    && l.peer.piece.Some?
    && var q := l.peer.piece.value;
       && q.size == tor.pieceLength && Unfilled(q) != {}
       && |l.peer.outstanding| == if |Unfilled(q)| < PIPELINE_LIMIT then |Unfilled(q)| else PIPELINE_LIMIT
  }

  lemma FreshIsUnfilled(index: uint32, size: uint32)
    requires size > 0
    ensures Unfilled(Fresh(index, size)) != {}
  {
    assert 0 < BlockCount(size);
    hide BlockCount;
    assert 0 in Unfilled(Fresh(index, size));
  }

  /** When the download loop ends with a piece in hand that is not complete, the peer is active. */
  lemma LoopMakesActive(l: Local, tor: Torrent)
    requires tor.pieceLength > 0 && Pipelined(l.peer) && !l.peer.choked && l.peer.available != []
    requires l.peer.piece.Some? ==> Unfilled(l.peer.piece.value) != {} && l.peer.piece.value.size == tor.pieceLength
    requires Download(l, tor).peer.piece.Some?
    ensures Active(Download(l, tor), tor)
  {
    DownloadFillsPipeline(l, tor);
    DownloadKeepsAvailability(l, tor);
    DownloadKeepsData(l, tor);
    var start, t := TakePiece(l, tor).peer.piece.value, Download(l, tor).peer.piece.value;
    if l.peer.piece.None? {
      FreshIsUnfilled(start.index, tor.pieceLength);
    }
    UnfilledIsRest(start);
    UnfilledIsRest(t);
    hide Download, Filled, Unfilled, Pipelined, BlockCount;
  }

  /** An active peer waits for some block. */
  lemma OutstandingBlock(l: Local, tor: Torrent) returns (q: PieceState, i: nat)
    requires Active(l, tor)
    ensures l.peer.piece == Some(q) && i in l.peer.outstanding
  {
    q := l.peer.piece.value;
    hide Unfilled;
    assert l.peer.outstanding.Keys != {};
    i :| i in l.peer.outstanding;
  }

  /** A reply for block `i` with any data of at most BLOCK_SIZE bytes. */
  function ReplyFor(q: PieceState, i: nat, data: seq<byte>): Message
    requires BlockOffset(i) < 0x1_0000_0000
  {
    Message(Some(Piece), Reply(q.index, BlockOffset(i), data))
  }

  /** A block that is started and not filled takes any data that is not longer than BLOCK_SIZE bytes. */
  lemma ReplyIsAccepted(q: PieceState, i: nat, data: seq<byte>)
    requires |q.blocks| <= BlockCount(q.size) && i < |q.blocks| && !q.blocks[i].filled
    requires |data| <= BLOCK_SIZE
    ensures BlockOffset(i) < 0x1_0000_0000
    ensures var payload := ReplyFor(q, i, data).payload;
            && AcceptStatus(q, payload) == Ok && NamedBlock(payload, 0) == i
            && Pieces.Accept(q, payload) == q.(blocks := q.blocks[i := q.blocks[i].(filled := true, data := data)])
  {
    BlocksTilePiece(q.size, i);
    var payload := ReplyFor(q, i, data).payload;
    assert payload[..4] == BigEndian(q.index);
    assert payload[4..8] == BigEndian(BlockOffset(i));
    BigEndianRoundTrip(q.index);
    BigEndianRoundTrip(BlockOffset(i));
    assert payload[8..8 + DataLength(payload)] == data;
    hide FromBigEndian, BigEndian, BlockCount;
  }

  lemma AcceptedFills(q: PieceState, i: nat, data: seq<byte>)
    requires i < |q.blocks|
    ensures var t := q.(blocks := q.blocks[i := q.blocks[i].(filled := true, data := data)]);
            Filled(t) == Filled(q)[i := data]
  {
  }

  lemma ReleaseKeepsData(q: PieceState, i: nat)
    ensures SameData(q, Release(q, i)) && Release(q, i).finalized == q.finalized
  {
  }

  /** A block that is started and not filled takes the data of a reply, whether it is outstanding or not. */
  lemma ReplyAddsData(l: Local, i: nat, data: seq<byte>)
    requires l.peer.piece.Some? && |data| <= BLOCK_SIZE
    requires var q := l.peer.piece.value; |q.blocks| <= BlockCount(q.size) && i < |q.blocks| && !q.blocks[i].filled
    ensures BlockOffset(i) < 0x1_0000_0000
    ensures var q, payload := l.peer.piece.value, ReplyFor(l.peer.piece.value, i, data).payload;
            var r := AfterAccept(l, payload, 0);
            && AcceptStatus(q, payload) == Ok
            && r.peer.piece.Some? && r.peer.piece.value.size == q.size && r.peer.piece.value.index == q.index
            && r.peer.piece.value.finalized == q.finalized
            && Filled(r.peer.piece.value) == Filled(q)[i := data]
            && |r.peer.piece.value.blocks| == |q.blocks|
  {
    var q := l.peer.piece.value;
    ReplyIsAccepted(q, i, data);
    var t := q.(blocks := q.blocks[i := q.blocks[i].(filled := true, data := data)]);
    AcceptedFills(q, i, data);
    ReleaseKeepsData(t, i);
    hide ReplyFor, AcceptStatus, Pieces.Accept, NamedBlock, Filled, BlockCount;
  }

  /** An outstanding block takes the data of a reply, and is no longer outstanding. */
  lemma BlockIsFilled(l: Local, tor: Torrent, i: nat, data: seq<byte>)
    requires Active(l, tor) && i in l.peer.outstanding && |data| <= BLOCK_SIZE
    ensures i < BlockCount(tor.pieceLength) && BlockOffset(i) < 0x1_0000_0000
    ensures var q, payload := l.peer.piece.value, ReplyFor(l.peer.piece.value, i, data).payload;
            var r := AfterAccept(l, payload, 0);
            && AcceptStatus(q, payload) == Ok
            && r.peer.piece.Some? && r.peer.piece.value.size == q.size && r.peer.piece.value.finalized == q.finalized
            && Filled(r.peer.piece.value) == Filled(q)[i := data]
            && i in Unfilled(q) && Unfilled(r.peer.piece.value) == Unfilled(q) - {i}
  {
    var q := l.peer.piece.value;
    assert i in Reserved(q) && i in Unfilled(q);
    hide Filled, BlockCount, AfterAccept, AcceptStatus, Reply, Reserved, Unfilled;
    ReplyAddsData(l, i, data);
    UnfilledIsRest(q);
    UnfilledIsRest(AfterAccept(l, ReplyFor(q, i, data).payload, 0).peer.piece.value);
  }

  lemma AcceptKeepsPeer(l: Local, payload: seq<byte>, junk: nat)
    requires l.peer.piece.Some?
    ensures var p := AfterAccept(l, payload, junk).peer;
            p.choked == l.peer.choked && p.available == l.peer.available && p.closed == l.peer.closed
  {
    hide Pieces.Accept, NamedBlock, Release;
  }

  lemma NextIsActive(r: Local, tor: Torrent)
    requires tor.pieceLength > 0 && Pipelined(r.peer) && !r.peer.choked && r.peer.available != []
    requires r.peer.piece.Some? && Unfilled(r.peer.piece.value) != {} && r.peer.piece.value.size == tor.pieceLength
    ensures var next := Download(r, tor);
            && Active(next, tor) && next.work == r.work && next.results == r.results && next.peer.available == r.peer.available
            && SameData(r.peer.piece.value, next.peer.piece.value)
            && Unfilled(next.peer.piece.value) == Unfilled(r.peer.piece.value)
  {
    DownloadKeepsPiece(r, tor);
    DownloadKeepsAvailability(r, tor);
    LoopMakesActive(r, tor);
    DownloadKeepsData(r, tor);
    UnfilledIsRest(r.peer.piece.value);
    UnfilledIsRest(Download(r, tor).peer.piece.value);
    hide Download, Active, Filled, Unfilled, BlockCount;
  }

  lemma IncompleteIsKept(l: Local, me: nat, tor: Torrent, payload: seq<byte>, heap: seq<byte>)
    requires l.peer.piece.Some?
    requires var t := AfterAccept(l, payload, 0).peer.piece.value; |t.blocks| <= BlockCount(t.size) && Unfilled(t) != {}
    ensures HandlePiece(l, me, tor, payload, 0, heap) == AfterAccept(l, payload, 0)
  {
    hide AfterAccept, AcceptStatus, IsComplete, Unfilled, BlockCount, FinishPiece;
    CompleteIsFilled(AfterAccept(l, payload, 0).peer.piece.value);
  }

  /** A reply that does not complete the piece leaves the peer active, with one block less to go. */
  lemma ReplyFillsBlock(l: Local, me: nat, tor: Torrent, i: nat, data: seq<byte>)
    requires tor.pieceLength > 0 && Active(l, tor) && i in l.peer.outstanding && |data| <= BLOCK_SIZE
    requires BlockOffset(i) < 0x1_0000_0000
    requires Unfilled(l.peer.piece.value) != {i}
    ensures var q := l.peer.piece.value;
            var next := HandleMessage(l, me, tor, ReplyFor(q, i, data), 0, []);
            && Active(next, tor) && next.work == l.work && next.results == l.results && next.peer.available == l.peer.available
            && next.peer.piece.value.index == q.index
            && Filled(next.peer.piece.value) == Filled(q)[i := data]
            && i in Unfilled(q) && Unfilled(next.peer.piece.value) == Unfilled(q) - {i}
  {
    hide Download, AfterAccept, AcceptStatus, IsComplete, Reserved, RequestFor, Filled, Unfilled, BlockCount, HandlePiece, Reply;
    var payload := ReplyFor(l.peer.piece.value, i, data).payload;
    BlockIsFilled(l, tor, i, data);
    AcceptAndReleaseKeepPipeline(l, payload, 0);
    AcceptKeepsPeer(l, payload, 0);
    IncompleteIsKept(l, me, tor, payload, []);
    NextIsActive(AfterAccept(l, payload, 0), tor);
    hide Active, Pipelined;
  }
}
