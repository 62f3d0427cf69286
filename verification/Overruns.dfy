/**
  Finalizing copies the blocks of a piece into a buffer of the size of the
  piece, without comparing lengths: which histories and which runs write past it.
 */
module Overruns {
  import opened Bytes
  import opened Pieces
  import opened Messages
  import opened PeerProtocol
  import opened Pipeline
  import opened Swarm
  import opened Filling
  import ClosedPeers
  import OnePeerRuns
  import PeerConduct

  // ----- One piece

  /** No block holds more than BLOCK_SIZE bytes, and no more blocks are started than the piece has. */
  ghost predicate Small(q: PieceState) {
    && |q.blocks| <= BlockCount(q.size)
    && forall i :: 0 <= i < |q.blocks| ==> |q.blocks[i].data| <= BLOCK_SIZE
  }

  lemma AcceptKeepsSmall(q: PieceState, payload: seq<byte>)
    requires Small(q)
    ensures Small(Pieces.Accept(q, payload))
  {
    hide FromBigEndian, BlockCount;
  }

  lemma ReserveKeepsSmall(q: PieceState)
    requires Small(q)
    ensures Small(Reserve(q))
  {
    hide BlockCount;
  }

  lemma {:induction false} HistoryKeepsSmall(index: uint32, size: uint32, ops: seq<Op>)
    ensures var q := Pieces.Run(Fresh(index, size), ops); Small(q) && q.size == size
  {
    if ops == [] {
    } else {
      var n := |ops| - 1;
      HistoryKeepsSmall(index, size, ops[..n]);
      var q := Pieces.Run(Fresh(index, size), ops[..n]);
      match ops[n]
      case Next => ReserveKeepsSmall(q);
      case Deliver(payload) => AcceptKeepsSmall(q, payload);
      case _ =>
      hide BlockCount, Joined, IsComplete, Pieces.Run;
    }
  }

  lemma {:induction false} JoinedIsSmall(blocks: seq<BlockState>)
    requires forall i :: 0 <= i < |blocks| ==> |blocks[i].data| <= BLOCK_SIZE
    ensures |Joined(blocks)| <= BlockOffset(|blocks|)
  {
    if blocks == [] {
    } else {
      JoinedIsSmall(blocks[..|blocks| - 1]);
    }
  }

  /** The blocks of a piece together are as long as the piece if only whole blocks make it up, and longer otherwise. */
  lemma BlocksCoverPiece(size: uint32)
    ensures size <= BlockOffset(BlockCount(size))
    ensures BlockOffset(BlockCount(size)) == size <==> size % BLOCK_SIZE == 0
  {
  }

  lemma SmallFits(q: PieceState)
    requires Small(q) && q.size % BLOCK_SIZE == 0
    ensures |Joined(q.blocks)| <= q.size
  {
    JoinedIsSmall(q.blocks);
    BlocksCoverPiece(q.size);
    hide BlockCount, Joined;
  }

  /** Every block that is filled is filled with BLOCK_SIZE bytes. */
  ghost predicate Full(q: PieceState) {
    forall i :: 0 <= i < |q.blocks| && q.blocks[i].filled ==> |q.blocks[i].data| == BLOCK_SIZE
  }

  lemma {:induction false} JoinedIsFull(blocks: seq<BlockState>)
    requires forall i :: 0 <= i < |blocks| ==> |blocks[i].data| == BLOCK_SIZE
    ensures |Joined(blocks)| == BlockOffset(|blocks|)
  {
    if blocks == [] {
    } else {
      JoinedIsFull(blocks[..|blocks| - 1]);
    }
  }

  lemma FullOverflows(q: PieceState)
    requires IsComplete(q) && Full(q) && q.size % BLOCK_SIZE != 0
    ensures |Joined(q.blocks)| > q.size
  {
    JoinedIsFull(q.blocks);
    BlocksCoverPiece(q.size);
    hide BlockCount, Joined;
  }

  function FullBlock(): (data: seq<byte>)
    ensures |data| == BLOCK_SIZE
  {
    seq(BLOCK_SIZE, _ => 0)
  }

  /** A reply of BLOCK_SIZE bytes for block `i`, whatever the length of that block. */
  function FullReply(q: PieceState, i: nat): Message
    requires BlockOffset(i) < 0x1_0000_0000
  {
    ReplyFor(q, i, FullBlock())
  }

  lemma HistoryStep(p: PieceState, ops: seq<Op>, op: Op)
    ensures Pieces.Run(p, ops + [op]) == Apply(Pieces.Run(p, ops), op)
  {
    assert (ops + [op])[..|ops|] == ops;
  }

  /** The first `n` blocks of the piece are started, and filled with BLOCK_SIZE bytes. */
  ghost predicate FirstFull(q: PieceState, size: uint32, n: nat) {
    q.size == size && |q.blocks| == n && Full(q) && forall i :: 0 <= i < n ==> q.blocks[i].filled
  }

  lemma OneMoreFull(q: PieceState, size: uint32, n: nat) returns (payload: seq<byte>)
    requires FirstFull(q, size, n) && n < BlockCount(size)
    ensures FirstFull(Pieces.Accept(Reserve(q), payload), size, n + 1)
  {
    ReplyIsAccepted(Reserve(q), n, FullBlock());
    payload := FullReply(Reserve(q), n).payload;
    hide BlockCount, Pieces.Accept, AcceptStatus, NamedBlock, Reply, FullBlock;
  }

  /** The first `n` blocks can all be filled with BLOCK_SIZE bytes. */
  lemma {:induction false} FullHistory(index: uint32, size: uint32, n: nat) returns (ops: seq<Op>)
    requires n <= BlockCount(size)
    ensures FirstFull(Pieces.Run(Fresh(index, size), ops), size, n)
  {
    if n == 0 {
      ops := [];
    } else {
      hide BlockCount, FirstFull, Pieces.Run;
      var before := FullHistory(index, size, n - 1);
      var payload := OneMoreFull(Pieces.Run(Fresh(index, size), before), size, n - 1);
      ops := before + [Next] + [Deliver(payload)];
      HistoryStep(Fresh(index, size), before, Next);
      HistoryStep(Fresh(index, size), before + [Next], Deliver(payload));
    }
  }

  /** The blocks of a piece hold no more bytes than its buffer, whatever is delivered. */
  ghost predicate NeverOverruns(index: uint32, size: uint32) {
    forall ops :: |Joined(Pieces.Run(Fresh(index, size), ops).blocks)| <= size
  }

  /**
    The buffer of a piece suffices for every history if and only if the size
    of the piece is a multiple of the block size: `accept` lets the last,
    shorter block be as long as any other.
   */
  lemma BufferSuffices(index: uint32, size: uint32)
    ensures NeverOverruns(index, size) <==> size % BLOCK_SIZE == 0
  {
    hide Pieces.Run, Joined, BlockCount, Small, Full;
    if size % BLOCK_SIZE == 0 {
      forall ops
        ensures |Joined(Pieces.Run(Fresh(index, size), ops).blocks)| <= size
      {
        HistoryKeepsSmall(index, size, ops);
        SmallFits(Pieces.Run(Fresh(index, size), ops));
      }
    } else {
      var ops := FullHistory(index, size, BlockCount(size));
      FullOverflows(Pieces.Run(Fresh(index, size), ops));
    }
  }

  // ----- Over whole runs

  /** Event `e` completes the piece of its peer, whose blocks hold more bytes than the buffer that is allocated now. */
  ghost predicate Overruns(s: System, e: Event) {
    && Enabled(s, e) && e.Received? && e.msg.ty == Some(Piece)
    && var l := LocalOf(s, e.k);
       && l.peer.piece.Some?
       && AcceptStatus(l.peer.piece.value, e.msg.payload) == Ok
       && var q := ClosedPeers.PieceAfter(l, e.msg.payload, e.junk);
          IsComplete(q) && q.finalized.None? && |Joined(q.blocks)| > q.size
  }

  /** At event `i` a piece is finalized and written past its buffer. */
  ghost predicate OverrunAt(tor: Torrent, peers: nat, events: seq<Event>, i: nat)
    requires tor.Usable()
  {
    i < |events| && Overruns(Swarm.Run(Initial(tor, peers), tor, events[..i]), events[i])
  }

  // ----- Whole blocks: no run overruns

  ghost predicate SmallPiece(l: Local) {
    l.peer.piece.Some? ==> Small(l.peer.piece.value)
  }

  lemma AfterAcceptIsSmall(l: Local, payload: seq<byte>, junk: nat)
    requires l.peer.piece.Some? && SmallPiece(l)
    ensures SmallPiece(AfterAccept(l, payload, junk))
  {
    AcceptKeepsSmall(l.peer.piece.value, payload);
    hide Pieces.Accept, BlockCount, NamedBlock;
  }

  lemma HandlePieceKeepsSmall(l: Local, me: nat, tor: Torrent, payload: seq<byte>, junk: nat, heap: seq<byte>)
    requires SmallPiece(l)
    ensures SmallPiece(HandlePiece(l, me, tor, payload, junk, heap))
  {
    if l.peer.piece.Some? {
      AfterAcceptIsSmall(l, payload, junk);
      hide AfterAccept, AcceptStatus, IsComplete, Small, Finalize;
    }
  }

  lemma TurnKeepsSmall(l: Local, tor: Torrent)
    requires SmallPiece(l)
    ensures SmallPiece(Turn(l, tor))
  {
    if Requests(l, tor) {
      ReserveKeepsSmall(TakePiece(l, tor).peer.piece.value);
    }
    hide NextBlock, Reserve, IsComplete, BlockCount;
  }

  lemma {:induction false} DownloadKeepsSmall(l: Local, tor: Torrent)
    requires SmallPiece(l)
    ensures SmallPiece(Download(l, tor))
    decreases l.peer.piece.None?, Idle(l)
  {
    TurnKeepsSmall(l, tor);
    if |l.peer.outstanding| < PIPELINE_LIMIT && Requests(l, tor) {
      TurnTakesABlock(l, tor);
      DownloadKeepsSmall(Turn(l, tor), tor);
    }
    hide Small, Turn, Requests;
  }

  lemma DispatchKeepsSmall(l: Local, me: nat, tor: Torrent, msg: Message, junk: nat, heap: seq<byte>)
    requires SmallPiece(l)
    ensures SmallPiece(Dispatch(l, me, tor, msg, junk, heap))
  {
    hide HandlePiece, Small, Bits;
    HandlePieceKeepsSmall(l, me, tor, msg.payload, junk, heap);
  }

  lemma HandleMessageKeepsSmall(l: Local, me: nat, tor: Torrent, msg: Message, junk: nat, heap: seq<byte>)
    requires SmallPiece(l)
    ensures SmallPiece(HandleMessage(l, me, tor, msg, junk, heap))
  {
    DispatchKeepsSmall(l, me, tor, msg, junk, heap);
    if msg.ty.Some? {
      DownloadKeepsSmall(Dispatch(l, me, tor, msg, junk, heap), tor);
    }
    hide Dispatch, Download, SmallPiece;
  }

  lemma HandleKeepsSmall(l: Local, k: nat, tor: Torrent, e: Event)
    requires SmallPiece(l)
    ensures SmallPiece(Handle(l, k, tor, e))
  {
    hide BlockCount, HandleMessage;
    if e.Received? {
      HandleMessageKeepsSmall(l, k, tor, e.msg, e.junk, e.heap);
    }
  }

  ghost predicate AllSmall(s: System) {
    forall k :: 0 <= k < |s.peers| ==> SmallPiece(LocalOf(s, k))
  }

  lemma StepKeepsSmall(s: System, tor: Torrent, e: Event)
    requires AllSmall(s)
    ensures AllSmall(Step(s, tor, e))
  {
    if s.peers != [] {
      PeerConduct.StepOfPeer(s, tor, e, 0);
    }
    forall k | 0 <= k < |Step(s, tor, e).peers|
      ensures SmallPiece(LocalOf(Step(s, tor, e), k))
    {
      HandleKeepsSmall(LocalOf(s, k), k, tor, e);
      PeerConduct.StepOfPeer(s, tor, e, k);
      hide Step, Handle, Small;
    }
  }

  lemma {:induction false} RunKeepsSmall(tor: Torrent, peers: nat, events: seq<Event>)
    requires tor.Usable()
    ensures AllSmall(Swarm.Run(Initial(tor, peers), tor, events))
  {
    if events == [] {
    } else {
      var n := |events| - 1;
      RunKeepsSmall(tor, peers, events[..n]);
      StepKeepsSmall(Swarm.Run(Initial(tor, peers), tor, events[..n]), tor, events[n]);
      hide AllSmall, Step, Initial;
    }
  }

  lemma AfterAcceptKeepsSize(l: Local, payload: seq<byte>, junk: nat)
    requires l.peer.piece.Some?
    ensures AfterAccept(l, payload, junk).peer.piece.value.size == l.peer.piece.value.size
  {
    hide AcceptStatus, NamedBlock, DataLength;
  }

  /** An overrun needs a piece of the torrent, and a piece length that is no multiple of the block size. */
  lemma OverrunNeedsPartialBlock(s: System, tor: Torrent, e: Event)
    requires tor.Usable() && PeersOk(s, tor) && AllSmall(s) && Overruns(s, e)
    ensures tor.Pieces() > 0 && tor.pieceLength % BLOCK_SIZE != 0
  {
    var l := LocalOf(s, e.k);
    AfterAcceptIsSmall(l, e.msg.payload, e.junk);
    AfterAcceptKeepsSize(l, e.msg.payload, e.junk);
    hide AfterAccept, Small, AcceptStatus, IsComplete, Joined, Pipelined;
    assert PeerOk(s.peers[e.k], tor);
    var q := ClosedPeers.PieceAfter(l, e.msg.payload, e.junk);
    if q.size % BLOCK_SIZE == 0 {
      SmallFits(q);
    }
  }

  // ----- A partial block: a run that overruns

  lemma FullIsOfData(q: PieceState)
    ensures Full(q) <==> forall i :: i in Filled(q) ==> |Filled(q)[i]| == BLOCK_SIZE
  {
    assert forall i :: 0 <= i < |q.blocks| && q.blocks[i].filled ==> i in Filled(q) && Filled(q)[i] == q.blocks[i].data;
  }

  lemma FullReplyKeepsFull(q: PieceState, t: PieceState, i: nat)
    requires Full(q) && Filled(t) == Filled(q)[i := FullBlock()]
    ensures Full(t)
  {
    hide Full, Filled, FullBlock;
    FullIsOfData(q);
    FullIsOfData(t);
  }

  /** A reply that completes the piece: its blocks do not fit into its buffer. */
  lemma LastReplyOverruns(s: System, l: Local, tor: Torrent, i: nat)
    requires OnePeerRuns.OnlyPeer(s, l) && Active(l, tor) && Full(l.peer.piece.value) && tor.pieceLength % BLOCK_SIZE != 0
    requires i in l.peer.outstanding && BlockOffset(i) < 0x1_0000_0000 && Unfilled(l.peer.piece.value) == {i}
    ensures Overruns(s, Received(0, FullReply(l.peer.piece.value, i), 0, []))
  {
    var msg := FullReply(l.peer.piece.value, i);
    var t := ClosedPeers.PieceAfter(l, msg.payload, 0);
    BlockIsFilled(l, tor, i, FullBlock());
    FullReplyKeepsFull(l.peer.piece.value, t, i);
    AcceptAndReleaseKeepPipeline(l, msg.payload, 0);
    hide AfterAccept, AcceptStatus, IsComplete, Full, Unfilled, Joined, BlockCount, Filled, Reserved, FullBlock, Reply;
    CompleteIsFilled(t);
    FullOverflows(t);
  }

  /** From there, replies of BLOCK_SIZE bytes alone lead to an overrun. */
  lemma {:induction false} FillingLeadsToOverrun(s: System, l: Local, tor: Torrent) returns (events: seq<Event>, last: Event)
    requires tor.pieceLength > 0 && tor.pieceLength % BLOCK_SIZE != 0
    requires OnePeerRuns.OnlyPeer(s, l) && Active(l, tor) && Full(l.peer.piece.value)
    ensures Overruns(Swarm.Run(s, tor, events), last)
    decreases Unfilled(l.peer.piece.value)
  {
    hide *;
    var q, i := OutstandingBlock(l, tor);
    BlockIsFilled(l, tor, i, FullBlock());
    var msg := ReplyFor(q, i, FullBlock());
    FullReplyIs(q, i);
    var e := Received(0, msg, 0, []);
    if Unfilled(q) == {i} {
      LastReplyOverruns(s, l, tor, i);
      events, last := [], e;
      OnePeerRuns.RunNothing(s, tor);
    } else {
      ReplyFillsBlock(l, 0, tor, i, FullBlock());
      var next := HandleMessage(l, 0, tor, msg, 0, []);
      OnePeerRuns.OnlyPeerStep(s, l, tor, msg, []);
      var t := PieceInHand(next, tor);
      FullReplyKeepsFull(q, t, i);
      events, last := FillingLeadsToOverrun(Step(s, tor, e), next, tor);
      OnePeerRuns.RunOne(s, tor, e);
      OnePeerRuns.RunFrom(s, tor, [e], events);
      events := [e] + events;
    }
  }

  lemma PieceInHand(l: Local, tor: Torrent) returns (q: PieceState)
    requires Active(l, tor)
    ensures l.peer.piece == Some(q)
  {
    q := l.peer.piece.value;
  }

  lemma FullReplyIs(q: PieceState, i: nat)
    requires BlockOffset(i) < 0x1_0000_0000
    ensures FullReply(q, i) == ReplyFor(q, i, FullBlock()) && FullReply(q, i).ty.Some?
  {
  }

  /** After the opening of a run the peer is filling the first piece, and no block of it is filled. */
  lemma OpeningStartsFilling(tor: Torrent)
    requires tor.Usable() && tor.Pieces() > 0
    ensures var l := Download(OnePeerRuns.Waiting(tor, ByteBits(128), false), tor); Active(l, tor) && Full(l.peer.piece.value)
  {
    var l := OnePeerRuns.Waiting(tor, ByteBits(128), false);
    IdlePeerTakesPiece(l, tor);
    hide Download, Active;
    LoopMakesActive(l, tor);
    DownloadKeepsData(l, tor);
    FullIsOfData(Download(l, tor).peer.piece.value);
    hide Full;
    assert Filled(Fresh(0, tor.pieceLength)) == map[];
  }

  lemma NeedsPartialBlock(tor: Torrent, peers: nat, events: seq<Event>, i: nat)
    requires tor.Usable() && OverrunAt(tor, peers, events, i)
    ensures tor.Pieces() > 0 && tor.pieceLength % BLOCK_SIZE != 0
  {
    hide Swarm.Run, Initial, AllSmall, Overruns, Accounted, FileOk, ResultsOk, BytesOk, PeersOk;
    InvariantHolds(tor, peers, events[..i]);
    RunKeepsSmall(tor, peers, events[..i]);
    OverrunNeedsPartialBlock(Swarm.Run(Initial(tor, peers), tor, events[..i]), tor, events[i]);
  }

  /** One peer suffices, which follows the protocol except that its replies are all BLOCK_SIZE bytes long. */
  lemma OverrunningRun(tor: Torrent) returns (events: seq<Event>)
    requires tor.Usable() && tor.Pieces() > 0 && tor.pieceLength % BLOCK_SIZE != 0
    ensures events != [] && OverrunAt(tor, 1, events, |events| - 1)
  {
    hide Swarm.Run, Initial, Overruns, Active, Full, OnePeerRuns.OnlyPeer, OnePeerRuns.Opening, Download, ByteBits, Bits;
    var s := Swarm.Run(Initial(tor, 1), tor, OnePeerRuns.Opening([128]));
    OnePeerRuns.AfterOpening(tor, [128]);
    OnePeerRuns.BitsOfOneByte(128);
    OpeningStartsFilling(tor);
    var more, last := FillingLeadsToOverrun(s, Download(OnePeerRuns.Waiting(tor, ByteBits(128), false), tor), tor);
    OnePeerRuns.RunFrom(Initial(tor, 1), tor, OnePeerRuns.Opening([128]), more);
    var before := OnePeerRuns.Opening([128]) + more;
    events := before + [last];
    assert events[..|before|] == before;
  }

  /**
    Some run writes past the buffer of a piece if and only if there is a piece
    to download and the piece length is not a multiple of the block size: so
    for all other torrents `finalize` is defined in every run.
   */
  lemma OverrunsExactly(tor: Torrent)
    requires tor.Usable()
    ensures (exists peers: nat, events: seq<Event>, i: nat :: OverrunAt(tor, peers, events, i))
            <==> tor.Pieces() > 0 && tor.pieceLength % BLOCK_SIZE != 0
  {
    hide OverrunAt, Swarm.Run, Initial;
    forall peers: nat, events: seq<Event>, i: nat | OverrunAt(tor, peers, events, i)
      ensures tor.Pieces() > 0 && tor.pieceLength % BLOCK_SIZE != 0
    {
      NeedsPartialBlock(tor, peers, events, i);
    }
    if tor.Pieces() > 0 && tor.pieceLength % BLOCK_SIZE != 0 {
      var events := OverrunningRun(tor);
      assert OverrunAt(tor, 1, events, |events| - 1);
    }
  }
}
