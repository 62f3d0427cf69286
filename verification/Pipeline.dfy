/**
  The pipeline of an open peer whose read chain is alive: which blocks are
  outstanding, and that none is ever forgotten.
 */
module Pipeline {
  import opened Bytes
  import opened Pieces
  import opened Messages
  import opened PeerProtocol
  import Hashing

  /** The reserved, unfilled blocks of a piece. */
  function Reserved(q: PieceState): set<nat> {
    set i: nat | i < |q.blocks| && q.blocks[i].reserved && !q.blocks[i].filled
  }

  /** The outstanding blocks are the reserved, unfilled blocks of piece `q`, each under its own index. */
  predicate Matches(outstanding: map<nat, bool>, q: PieceState) {
    outstanding.Keys == Reserved(q) && forall i :: i in outstanding ==> outstanding[i]
  }

  ghost predicate AllSent(p: PeerState) {
    p.piece.Some? ==>
      forall i :: i in p.outstanding ==> RequestFor(p.piece.value.index, p.piece.value.size, i) in p.sent
  }

  /**
    The pipeline invariant: the outstanding blocks are exactly the reserved,
    unfilled blocks of the held piece, each of them has been requested, and
    there are at most PIPELINE_LIMIT of them.
   */
  ghost predicate Pipelined(p: PeerState) {
    && |p.outstanding| <= PIPELINE_LIMIT
    && AllSent(p)
    && match p.piece
       case None => p.outstanding == map[]
       case Some(q) => Matches(p.outstanding, q) && |q.blocks| <= BlockCount(q.size) && q.finalized.None?
  }

  lemma FillingMatches(outstanding: map<nat, bool>, q: PieceState, payload: seq<byte>, i: nat)
    requires Matches(outstanding, q)
    requires AcceptStatus(q, payload) == Ok ==> i == NamedBlock(payload, 0)
    ensures Matches(outstanding - {i}, Release(Accept(q, payload), i))
  {
    var q' := Release(Accept(q, payload), i);
    assert Reserved(q') == Reserved(q) - {i};
  }

  lemma ReleasingMatches(outstanding: map<nat, bool>, q: PieceState, i: nat)
    requires Matches(outstanding, q)
    ensures Matches(outstanding - {i}, Release(q, i))
  {
    assert Reserved(Release(q, i)) == Reserved(q) - {i};
  }

  lemma UnreleasedMatches(outstanding: map<nat, bool>, q: PieceState, payload: seq<byte>, i: nat)
    requires Matches(outstanding, q) && i !in outstanding
    requires AcceptStatus(q, payload) == Ok ==> i == NamedBlock(payload, 0)
    ensures Matches(outstanding, Accept(q, payload))
  {
    assert Reserved(Accept(q, payload)) == Reserved(q);
  }

  lemma AcceptAndReleaseKeepPipeline(l: Local, payload: seq<byte>, junk: nat)
    requires Pipelined(l.peer) && l.peer.piece.Some?
    ensures Pipelined(AfterAccept(l, payload, junk).peer)
  {
    hide FromBigEndian, DataLength, Reserved, RequestFor;
    var q, i := l.peer.piece.value, NamedBlock(payload, junk);
    assert AcceptStatus(q, payload) == Ok ==> i == NamedBlock(payload, 0);
    if i in l.peer.outstanding {
      FillingMatches(l.peer.outstanding, q, payload, i);
    } else {
      UnreleasedMatches(l.peer.outstanding, q, payload, i);
    }
  }

  lemma ReleaseBlockKeepsPipeline(p: PeerState, i: nat)
    requires Pipelined(p)
    ensures Pipelined(ReleaseBlock(p, i))
  {
    hide Reserved;
    if i in p.outstanding {
      ReleasingMatches(p.outstanding, p.piece.value, i);
    }
  }

  lemma HandlePieceKeepsPipeline(l: Local, me: nat, tor: Torrent, payload: seq<byte>, junk: nat, heap: seq<byte>)
    requires Pipelined(l.peer)
    ensures Pipelined(HandlePiece(l, me, tor, payload, junk, heap).peer)
  {
    hide Hashing.Of;
    if l.peer.piece.Some? {
      AcceptAndReleaseKeepPipeline(l, payload, junk);
      hide Pieces.Accept, AcceptStatus, Reserved, ReleaseBlock, Finalize, NamedBlock;
      assert Stale(map[]) == map[];
    }
  }

  /** Every `emplace` of the download loop inserts a new entry, so PIPELINE_LIMIT - |blocks_| decreases. */
  lemma EmplaceInserts(l: Local, tor: Torrent)
    requires Pipelined(l.peer)
    requires |l.peer.outstanding| < PIPELINE_LIMIT
    requires Requests(l, tor)
    ensures var i := NextBlock(TakePiece(l, tor).peer.piece.value).value;
            && i !in l.peer.outstanding
            && Turn(l, tor).peer.outstanding == l.peer.outstanding[i := true]
            && |Turn(l, tor).peer.outstanding| == |l.peer.outstanding| + 1
  {
    ReserveTakesOne(TakePiece(l, tor).peer.piece.value);
  }

  lemma ReservingMatches(outstanding: map<nat, bool>, q: PieceState)
    requires Matches(outstanding, q) && NextBlock(q).Some?
    ensures Matches(outstanding[NextBlock(q).value := true], Reserve(q))
  {
    assert Reserved(Reserve(q)) == Reserved(q) + {NextBlock(q).value};
  }

  lemma TakingKeepsPipeline(l: Local, tor: Torrent)
    requires Pipelined(l.peer)
    ensures Pipelined(TakePiece(l, tor).peer)
  {
  }

  lemma RequestingKeepsPipeline(p: PeerState)
    requires Pipelined(p) && |p.outstanding| < PIPELINE_LIMIT
    requires p.piece.Some? && NextBlock(p.piece.value).Some?
    ensures Pipelined(RequestBlock(p))
  {
    ReservingMatches(p.outstanding, p.piece.value);
    hide Reserved;
  }

  lemma TurnKeepsPipeline(l: Local, tor: Torrent)
    requires Pipelined(l.peer)
    requires |l.peer.outstanding| < PIPELINE_LIMIT
    ensures Pipelined(Turn(l, tor).peer)
  {
    TakingKeepsPipeline(l, tor);
    if Requests(l, tor) {
      RequestingKeepsPipeline(TakePiece(l, tor).peer);
    } else {
      assert Stale(map[]) == map[];
    }
  }

  /** When the loop stops short of the limit with a piece in hand, every unfilled block is outstanding. */
  lemma StoppedLoopHasAllBlocks(l: Local, tor: Torrent)
    requires Pipelined(l.peer) && |l.peer.outstanding| < PIPELINE_LIMIT
    requires !Requests(l, tor)
    requires !l.peer.choked && l.peer.available != []
    requires Turn(l, tor).peer.piece.Some?
    ensures Turn(l, tor).peer.outstanding.Keys == Unfilled(Turn(l, tor).peer.piece.value)
  {
    TurnKeepsPipeline(l, tor);
    var q := Turn(l, tor).peer.piece.value;
    assert IsComplete(q) || NextBlock(q).None?;
    if NextBlock(q).None? {
      ReserveTakesOne(q);
      forall i: nat | i in Unfilled(q)
        ensures i in Turn(l, tor).peer.outstanding.Keys
      {
        assert i !in Available(q);
      }
    }
  }

  lemma SubsetSize(a: set<nat>, b: set<nat>)
    requires a <= b
    ensures |a| <= |b|
  {
    var rest := b - a;
    assert b == a + rest && a !! rest;
  }

  lemma OutstandingIsUnfilled(p: PeerState)
    requires Pipelined(p) && p.piece.Some?
    ensures p.outstanding.Keys <= Unfilled(p.piece.value)
  {
  }

  /**
    The download loop keeps the pipeline invariant, and on an unchoked peer
    with a bitfield it ends with either no piece in hand or as many
    outstanding blocks as the limit allows: PIPELINE_LIMIT of them, or every
    block of the piece that is not filled yet.
   */
  lemma {:induction false} DownloadFillsPipeline(l: Local, tor: Torrent)
    requires Pipelined(l.peer)
    ensures var p := Download(l, tor).peer;
            && Pipelined(p)
            && p.closed == l.peer.closed
            && (!l.peer.choked && l.peer.available != [] && p.piece.Some? ==>
                  var todo := |Unfilled(p.piece.value)|;
                  |p.outstanding| == if todo < PIPELINE_LIMIT then todo else PIPELINE_LIMIT)
    decreases l.peer.piece.None?, Idle(l)
  {
    hide Reserved, AllSent, RequestFor;
    if |l.peer.outstanding| >= PIPELINE_LIMIT {
      var q := l.peer.piece.value;
      OutstandingIsUnfilled(l.peer);
      SubsetSize(l.peer.outstanding.Keys, Unfilled(q));
    } else {
      TurnKeepsPipeline(l, tor);
      if Requests(l, tor) {
        TurnTakesABlock(l, tor);
        DownloadFillsPipeline(Turn(l, tor), tor);
      } else if !l.peer.choked && l.peer.available != [] && Turn(l, tor).peer.piece.Some? {
        StoppedLoopHasAllBlocks(l, tor);
      }
    }
  }

  lemma DispatchKeepsPipeline(l: Local, me: nat, tor: Torrent, msg: Message, junk: nat, heap: seq<byte>)
    requires Pipelined(l.peer)
    ensures Pipelined(Dispatch(l, me, tor, msg, junk, heap).peer)
  {
    hide HandlePiece, Matches, Bits;
    if msg.ty == Some(Piece) {
      HandlePieceKeepsPipeline(l, me, tor, msg.payload, junk, heap);
    }
  }

  /** Whatever message arrives, the pipeline invariant holds again when its handler returns. */
  lemma HandleMessageKeepsPipeline(l: Local, me: nat, tor: Torrent, msg: Message, junk: nat, heap: seq<byte>)
    requires Pipelined(l.peer)
    ensures Pipelined(HandleMessage(l, me, tor, msg, junk, heap).peer)
  {
    DispatchKeepsPipeline(l, me, tor, msg, junk, heap);
    DownloadFillsPipeline(Dispatch(l, me, tor, msg, junk, heap), tor);
  }
}
