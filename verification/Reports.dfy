/** What becomes of a piece when its last block has arrived, and of what is reported. */
module Reports {
  import opened Bytes
  import opened Pieces
  import opened Messages
  import opened PeerProtocol
  import opened Swarm
  import opened ClosedPeers
  import opened Filling
  import Hashing

  /** The payload is the last one that the piece of the peer waits for. */
  predicate Completes(l: Local, payload: seq<byte>, junk: nat) {
    && l.peer.piece.Some?
    && AcceptStatus(l.peer.piece.value, payload) == Ok
    && IsComplete(PieceAfter(l, payload, junk))
    && PieceAfter(l, payload, junk).finalized.None?
  }

  /** The bytes of the completed piece, in a buffer that held `heap`. */
  function Downloaded(l: Local, payload: seq<byte>, junk: nat, heap: seq<byte>): (data: seq<byte>)
    requires l.peer.piece.Some?
  {
    var q := PieceAfter(l, payload, junk);
    Overwrite(heap, Pieces.Joined(q.blocks), q.size)
  }

  lemma AcceptKeepsNames(l: Local, payload: seq<byte>, junk: nat)
    requires l.peer.piece.Some?
    ensures var q := PieceAfter(l, payload, junk); q.index == l.peer.piece.value.index && q.size == l.peer.piece.value.size
    ensures var r := AfterAccept(l, payload, junk);
            r.peer.closed == l.peer.closed && r.work == l.work && r.results == l.results
  {
    hide FromBigEndian, DataLength, NamedBlock;
  }

  /**
    A payload that completes a piece: if the bytes have the hash of the
    torrent, the piece is reported with these bytes, and otherwise the peer is
    closed and dropped and the piece goes to the end of the work queue.
   */
  lemma CompletedPieceIsReported(l: Local, me: nat, tor: Torrent, payload: seq<byte>, junk: nat, heap: seq<byte>)
    requires Completes(l, payload, junk)
    ensures var q := l.peer.piece.value;
            var data := Downloaded(l, payload, junk, heap);
            var r := HandlePiece(l, me, tor, payload, junk, heap);
            && r.peer.piece.None? && r.peer.outstanding == map[]
            && if Hashing.Of(data) == tor.PieceHash(q.index) then
                 && r.results == l.results + [PieceComplete(CompletePiece(data, q.index, q.size))]
                 && r.work == l.work && r.peer.closed == l.peer.closed
               else
                 && r.results == l.results + [PeerDropped(me)]
                 && r.work == l.work + [q.index] && r.peer.closed
  {
    AcceptKeepsNames(l, payload, junk);
    hide AfterAccept, AcceptStatus, IsComplete, Hashing.Of, Overwrite, Pieces.Joined;
    assert Stale(map[]) == map[];
  }

  /** Any other payload reports nothing and returns nothing, and the block it names is no longer outstanding. */
  lemma OtherPayloadsReportNothing(l: Local, me: nat, tor: Torrent, payload: seq<byte>, junk: nat, heap: seq<byte>)
    requires !Completes(l, payload, junk) && (l.peer.piece.Some? ==> l.peer.piece.value.finalized.None?)
    ensures var r := HandlePiece(l, me, tor, payload, junk, heap);
            && r.results == l.results && r.work == l.work && r.peer.closed == l.peer.closed
            && match l.peer.piece
               case None => r == l
               case Some(q) => r.peer.piece.Some? && NamedBlock(payload, junk) !in r.peer.outstanding
  {
    hide IsComplete, Hashing.Of, Finalize, NamedBlock, AcceptStatus;
    if l.peer.piece.Some? {
      AcceptKeepsNames(l, payload, junk);
      NotFinalized(l, payload, junk);
    }
  }

  lemma NotFinalized(l: Local, payload: seq<byte>, junk: nat)
    requires l.peer.piece.Some?
    ensures PieceAfter(l, payload, junk).finalized == l.peer.piece.value.finalized
  {
    hide FromBigEndian, DataLength, NamedBlock;
  }

  /** What handling a message adds to the results. */
  function Outcome(l: Local, me: nat, tor: Torrent, payload: seq<byte>, junk: nat, heap: seq<byte>): seq<Result> {
    if !Completes(l, payload, junk) then []
    else
      var q, data := l.peer.piece.value, Downloaded(l, payload, junk, heap);
      [if Hashing.Of(data) == tor.PieceHash(q.index) then PieceComplete(CompletePiece(data, q.index, q.size)) else PeerDropped(me)]
  }

  /** The outcome is what is added to the results, and a dropped peer is what is closed. */
  lemma HandlingHasOutcome(l: Local, me: nat, tor: Torrent, payload: seq<byte>, junk: nat, heap: seq<byte>)
    requires l.peer.piece.Some? ==> l.peer.piece.value.finalized.None?
    ensures var r := HandlePiece(l, me, tor, payload, junk, heap);
            var outcome := Outcome(l, me, tor, payload, junk, heap);
            && r.results == l.results + outcome
            && (r.peer.closed <==> l.peer.closed || outcome == [PeerDropped(me)])
  {
    hide HandlePiece, Completes, Downloaded, Hashing.Of, PieceAfter;
    if Completes(l, payload, junk) {
      CompletedPieceIsReported(l, me, tor, payload, junk, heap);
    } else {
      OtherPayloadsReportNothing(l, me, tor, payload, junk, heap);
      Nothing(l.results);
    }
  }

  lemma HandlePieceIsHandled(l: Local, me: nat, tor: Torrent, payload: seq<byte>, junk: nat, heap: seq<byte>)
    ensures HandleMessage(l, me, tor, Message(Some(Piece), payload), junk, heap)
            == Download(HandlePiece(l, me, tor, payload, junk, heap), tor)
  {
    hide Download, HandlePiece;
  }

  lemma StepOfMessage(s: System, tor: Torrent, k: nat, msg: Message, junk: nat, heap: seq<byte>)
    requires k < |s.peers| && s.peers[k].phase.Reading?
    ensures var t, r := Step(s, tor, Received(k, msg, junk, heap)), HandleMessage(LocalOf(s, k), k, tor, msg, junk, heap);
            |t.peers| == |s.peers| && t.peers[k].peer == r.peer && t.results == r.results && t.work == r.work
  {
    hide HandleMessage;
  }

  /**
    In a step of the whole download, a block that reaches a peer whose reads
    go on has its piece reported if it completes it with the right hash, drops
    the peer if it completes it with another hash, and reports nothing else.
   */
  lemma StepReports(s: System, tor: Torrent, k: nat, payload: seq<byte>, junk: nat, heap: seq<byte>)
    requires tor.pieceLength > 0 && k < |s.peers| && s.peers[k].phase.Reading?
    requires s.peers[k].peer.piece.Some? ==> s.peers[k].peer.piece.value.finalized.None?
    ensures var t := Step(s, tor, Received(k, Message(Some(Piece), payload), junk, heap));
            var outcome := Outcome(LocalOf(s, k), k, tor, payload, junk, heap);
            && |t.peers| == |s.peers| && t.results == s.results + outcome
            && (t.peers[k].peer.closed <==> s.peers[k].peer.closed || outcome == [PeerDropped(k)])
  {
    hide *;
    var l, msg := LocalOf(s, k), Message(Some(Piece), payload);
    LocalIs(s, k);
    HandlingHasOutcome(l, k, tor, payload, junk, heap);
    HandlePieceIsHandled(l, k, tor, payload, junk, heap);
    StepOfMessage(s, tor, k, msg, junk, heap);
    DownloadKeepsData(HandlePiece(l, k, tor, payload, junk, heap), tor);
    DownloadKeepsClosed(HandlePiece(l, k, tor, payload, junk, heap), tor);
  }

  lemma LocalIs(s: System, k: nat)
    requires k < |s.peers|
    ensures LocalOf(s, k) == Local(s.peers[k].peer, s.work, s.results)
  {
  }
}
