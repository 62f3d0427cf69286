/** One peer that has the file and answers every request completes the download. */
module Completion {
  import opened Bytes
  import opened Pieces
  import opened Messages
  import opened PeerProtocol
  import opened Pipeline
  import opened Swarm
  import opened Filling
  import opened OnePeerRuns
  import ClosedPeers
  import Reports
  import PeerConduct
  import Hashing

  // ----- Pieces that fill with the bytes of the file

  /** What a request for block `b` of piece `i` asks for. */
  function BlockOf(tor: Torrent, file: seq<byte>, i: nat, b: nat): (data: seq<byte>)
    requires RegionStart(tor, i) + tor.pieceLength <= |file|
    requires BlockOffset(b) <= BlockOffset(b) + BlockLength(tor.pieceLength, b) <= tor.pieceLength
    ensures |data| == BlockLength(tor.pieceLength, b)
  {
    Region(tor, file, i)[BlockOffset(b)..BlockOffset(b) + BlockLength(tor.pieceLength, b)]
  }

  /** The blocks of a piece that are filled hold their part of the file. */
  ghost predicate Agrees(tor: Torrent, file: seq<byte>, q: PieceState) {
    && RegionStart(tor, q.index) + tor.pieceLength <= |file| && q.size == tor.pieceLength
    && forall b :: b in Filled(q) ==>
         && BlockOffset(b) <= BlockOffset(b) + BlockLength(tor.pieceLength, b) <= tor.pieceLength
         && Filled(q)[b] == BlockOf(tor, file, q.index, b)
  }

  lemma BlocksFit(tor: Torrent, b: nat)
    requires b < BlockCount(tor.pieceLength)
    ensures BlockOffset(b) <= BlockOffset(b) + BlockLength(tor.pieceLength, b) <= tor.pieceLength
    ensures BlockLength(tor.pieceLength, b) <= BLOCK_SIZE && BlockOffset(b) < 0x1_0000_0000
  {
    BlocksTilePiece(tor.pieceLength, b);
  }

  lemma ByteOfBlock(tor: Torrent, file: seq<byte>, i: nat, x: nat)
    requires RegionStart(tor, i) + tor.pieceLength <= |file|
    requires x / BLOCK_SIZE < BlockCount(tor.pieceLength)
    ensures var b := x / BLOCK_SIZE;
            && BlockOffset(b) <= BlockOffset(b) + BlockLength(tor.pieceLength, b) <= tor.pieceLength
            && (x % BLOCK_SIZE < BlockLength(tor.pieceLength, b) ==>
                  && x < tor.pieceLength
                  && BlockOf(tor, file, i, b)[x % BLOCK_SIZE] == Region(tor, file, i)[x])
  {
    BlocksFit(tor, x / BLOCK_SIZE);
    hide RegionStart, BlockCount;
    assert BlockOffset(x / BLOCK_SIZE) + x % BLOCK_SIZE == x;
  }

  lemma FilledData(tor: Torrent, file: seq<byte>, q: PieceState, b: nat)
    requires Agrees(tor, file, q) && b < |q.blocks| && q.blocks[b].filled
    ensures BlockOffset(b) <= BlockOffset(b) + BlockLength(tor.pieceLength, b) <= tor.pieceLength
    ensures q.blocks[b].data == BlockOf(tor, file, q.index, b)
  {
    hide RegionStart, BlockOf, BlockLength, BlockOffset;
    assert b in Filled(q);
  }

  /** A complete piece that agrees with the file is its part of the file. */
  lemma CompleteIsRegion(tor: Torrent, file: seq<byte>, q: PieceState)
    requires Agrees(tor, file, q) && IsComplete(q)
    ensures Joined(q.blocks) == Region(tor, file, q.index)
  {
    forall b: nat | b < |q.blocks|
      ensures |q.blocks[b].data| == BlockLength(q.size, b)
    {
      FilledData(tor, file, q, b);
    }
    JoinedLinesUp(q.size, q.blocks);
    hide BlockCount, BlockLength, Region, RegionStart, Joined, Filled, BlockOf;
    forall x: nat | x < q.size
      ensures Joined(q.blocks)[x] == Region(tor, file, q.index)[x]
    {
      FilledData(tor, file, q, x / BLOCK_SIZE);
      ByteOfBlock(tor, file, q.index, x);
    }
    SameBytes(Joined(q.blocks), Region(tor, file, q.index), q.size);
  }

  lemma SameBytes(a: seq<byte>, b: seq<byte>, n: nat)
    requires |a| == n == |b| && forall x: nat | x < n :: a[x] == b[x]
    ensures a == b
  {
  }

  // ----- What the peer and the queues hold

  /** What is reported is the file's. */
  ghost predicate ReportsAgree(tor: Torrent, file: seq<byte>, results: seq<Result>) {
    forall r :: r in results && r.PieceComplete? ==>
      RegionStart(tor, r.piece.index) + tor.pieceLength <= |file| && r.piece.data == Region(tor, file, r.piece.index)
  }

  ghost predicate HasAll(tor: Torrent, available: seq<bool>)
    requires tor.Usable()
  {
    available != [] && forall i: nat :: i < tor.Pieces() ==> HasPiece(available, i)
  }

  /** The peer has all pieces, and all it sent was the file's. */
  ghost predicate Honest(l: Local, tor: Torrent, file: seq<byte>)
    requires tor.Usable()
  {
    && HasAll(tor, l.peer.available)
    && (forall w :: w in l.work ==> w < tor.Pieces())
    && ReportsAgree(tor, file, l.results)
  }

  /** The peer is in the middle of piece `q`, or it has none and neither has the queue. */
  ghost predicate Serving(l: Local, tor: Torrent, file: seq<byte>)
    requires tor.Usable()
  {
    && Honest(l, tor, file)
    && match l.peer.piece
       case None => l.work == []
       case Some(q) => Active(l, tor) && q.index < tor.Pieces() && Agrees(tor, file, q)
  }

  lemma RegionIn(tor: Torrent, file: seq<byte>, i: nat)
    requires tor.Usable() && |file| == tor.fileLength && i < tor.Pieces()
    ensures RegionStart(tor, i) + tor.pieceLength <= |file|
  {
    RegionsFit(tor, i);
  }

  lemma FreshAgrees(tor: Torrent, file: seq<byte>, i: uint32)
    requires RegionStart(tor, i) + tor.pieceLength <= |file|
    ensures Agrees(tor, file, Fresh(i, tor.pieceLength))
  {
  }

  lemma SameDataAgrees(tor: Torrent, file: seq<byte>, q: PieceState, t: PieceState)
    requires Agrees(tor, file, q) && SameData(q, t)
    ensures Agrees(tor, file, t)
  {
    hide Filled, RegionStart, BlockOf, BlockLength, BlockOffset;
  }

  lemma NothingToTake(l: Local, tor: Torrent)
    requires l.peer.piece.None? && l.work == []
    ensures Download(l, tor) == l
  {
    hide HasPiece;
    assert Turn(l, tor) == l;
  }

  /** What the loop leaves when it takes a piece. */
  lemma LoopTakesPiece(l: Local, tor: Torrent)
    requires l.peer.piece.None? && l.peer.outstanding == map[] && !l.peer.choked && l.peer.available != [] && l.work != []
    requires tor.pieceLength > 0 && HasPiece(l.peer.available, l.work[0])
    ensures var t := Download(l, tor);
            && t.peer.piece.Some? && Active(t, tor) && t.work == l.work[1..] && t.results == l.results && t.peer.available == l.peer.available
            && SameData(Fresh(l.work[0], tor.pieceLength), t.peer.piece.value)
  {
    hide Download, Active, SameData, HasPiece;
    IdlePeerTakesPiece(l, tor);
    DownloadKeepsAvailability(l, tor);
    DownloadKeepsData(l, tor);
    LoopMakesActive(l, tor);
    assert l.peer.outstanding == map[];
  }

  /** A peer without a piece that starts its download loop ends up serving. */
  lemma LoopStartsServing(l: Local, tor: Torrent, file: seq<byte>)
    requires tor.Usable() && |file| == tor.fileLength
    requires Honest(l, tor, file) && !l.peer.choked && l.peer.piece.None? && l.peer.outstanding == map[]
    ensures Serving(Download(l, tor), tor, file)
    ensures Download(l, tor).peer.piece.Some? ==> |Download(l, tor).work| < |l.work|
  {
    hide Download, Active, SameData, Agrees, ReportsAgree, HasPiece, RegionStart;
    if l.work == [] {
      NothingToTake(l, tor);
    } else {
      var i := l.work[0];
      assert i in l.work && i < tor.Pieces();
      LoopTakesPiece(l, tor);
      RegionIn(tor, file, i);
      FreshAgrees(tor, file, i);
      SameDataAgrees(tor, file, Fresh(i, tor.pieceLength), Download(l, tor).peer.piece.value);
      SameIndex(Fresh(i, tor.pieceLength), Download(l, tor).peer.piece.value);
      assert forall w :: w in l.work[1..] ==> w in l.work;
    }
  }

  lemma SameIndex(q: PieceState, t: PieceState)
    requires SameData(q, t)
    ensures t.index == q.index
  {
  }

  // ----- Replies

  /** The reply that carries block `b` of the file. */
  function HonestReply(tor: Torrent, file: seq<byte>, q: PieceState, b: nat): Message
    requires RegionStart(tor, q.index) + tor.pieceLength <= |file| && b < BlockCount(tor.pieceLength)
  {
    BlocksFit(tor, b);
    ReplyFor(q, b, BlockOf(tor, file, q.index, b))
  }

  lemma OneMoreAgrees(tor: Torrent, file: seq<byte>, q: PieceState, t: PieceState, b: nat)
    requires Agrees(tor, file, q) && b < BlockCount(tor.pieceLength)
    requires BlockOffset(b) <= BlockOffset(b) + BlockLength(tor.pieceLength, b) <= tor.pieceLength
    requires t.index == q.index && t.size == q.size && Filled(t) == Filled(q)[b := BlockOf(tor, file, q.index, b)]
    ensures Agrees(tor, file, t)
  {
    hide Filled, RegionStart, BlockOf, BlockLength, BlockOffset, BlockCount;
  }

  /** A reply that is not the last one of the piece. */
  lemma ServeBlock(l: Local, tor: Torrent, file: seq<byte>, b: nat)
    requires tor.Usable() && Serving(l, tor, file) && l.peer.piece.Some? && b in l.peer.outstanding
    requires b < BlockCount(tor.pieceLength) && Unfilled(l.peer.piece.value) != {b}
    ensures var q := l.peer.piece.value;
            var next := HandleMessage(l, 0, tor, HonestReply(tor, file, q, b), 0, []);
            && Serving(next, tor, file) && next.work == l.work && next.peer.piece.Some?
            && b in Unfilled(q) && Unfilled(next.peer.piece.value) == Unfilled(q) - {b}
  {
    hide Filled, Unfilled, RegionStart, BlockOf, BlockLength, BlockCount, HandleMessage, ReportsAgree, HasPiece, Pipelined, ReplyFor, Agrees;
    var q := l.peer.piece.value;
    BlocksFit(tor, b);
    RegionOf(tor, file, q);
    ReplyFillsBlock(l, 0, tor, b, BlockOf(tor, file, q.index, b));
    var next := HandleMessage(l, 0, tor, HonestReply(tor, file, q, b), 0, []);
    OneMoreAgrees(tor, file, q, next.peer.piece.value, b);
  }

  lemma RegionOf(tor: Torrent, file: seq<byte>, q: PieceState)
    requires Agrees(tor, file, q)
    ensures RegionStart(tor, q.index) + tor.pieceLength <= |file| && q.size == tor.pieceLength
  {
    hide Filled, RegionStart;
  }

  /** The last reply of the piece completes it with its part of the file. */
  lemma LastBlockCompletes(l: Local, tor: Torrent, file: seq<byte>, b: nat)
    requires tor.Usable() && Serving(l, tor, file) && l.peer.piece.Some? && b in l.peer.outstanding
    requires b < BlockCount(tor.pieceLength) && Unfilled(l.peer.piece.value) == {b}
    requires RegionStart(tor, l.peer.piece.value.index) + tor.pieceLength <= |file|
    ensures var q := l.peer.piece.value;
            var payload := HonestReply(tor, file, q, b).payload;
            && Reports.Completes(l, payload, 0)
            && Reports.Downloaded(l, payload, 0, []) == Region(tor, file, q.index)
  {
    hide Filled, Unfilled, RegionStart, BlockLength, BlockOffset, BlockCount, HasPiece, ReportsAgree, IsComplete, AfterAccept,
         Joined, AcceptStatus, Region, Reply, Agrees, BlockOf;
    var q, payload := l.peer.piece.value, HonestReply(tor, file, l.peer.piece.value, b).payload;
    BlocksFit(tor, b);
    BlockIsFilled(l, tor, b, BlockOf(tor, file, q.index, b));
    AcceptAndReleaseKeepPipeline(l, payload, 0);
    Reports.AcceptKeepsNames(l, payload, 0);
    var t := ClosedPeers.PieceAfter(l, payload, 0);
    OneMoreAgrees(tor, file, q, t, b);
    CompleteIsFilled(t);
    CompleteIsRegion(tor, file, t);
    RegionOf(tor, file, q);
    RegionLength(tor, file, q.index);
    WholeBuffer([], Region(tor, file, q.index), q.size);
  }

  lemma RegionLength(tor: Torrent, file: seq<byte>, i: nat)
    requires RegionStart(tor, i) + tor.pieceLength <= |file|
    ensures |Region(tor, file, i)| == tor.pieceLength
  {
    hide RegionStart;
  }

  lemma WholeBuffer(heap: seq<byte>, data: seq<byte>, size: nat)
    requires |data| == size
    ensures Overwrite(heap, data, size) == data
  {
  }

  lemma HashIsRight(tor: Torrent, file: seq<byte>, i: nat)
    requires tor.Usable() && FileCorrect(file, tor) && i < tor.Pieces()
    ensures RegionStart(tor, i) + tor.pieceLength <= |file|
    ensures Hashing.Of(Region(tor, file, i)) == tor.PieceHash(i)
  {
    hide Hashing.Of, Region, RegionStart, IsWhole, Torrent.Pieces;
    WholePieces(tor, i);
  }

  /** The last reply of a piece: it is reported, and the peer goes on with the next one. */
  lemma ServePiece(l: Local, tor: Torrent, file: seq<byte>, b: nat)
    requires tor.Usable() && FileCorrect(file, tor)
    requires Serving(l, tor, file) && l.peer.piece.Some? && b in l.peer.outstanding
    requires b < BlockCount(tor.pieceLength) && Unfilled(l.peer.piece.value) == {b}
    requires RegionStart(tor, l.peer.piece.value.index) + tor.pieceLength <= |file|
    ensures var next := HandleMessage(l, 0, tor, HonestReply(tor, file, l.peer.piece.value, b), 0, []);
            Serving(next, tor, file) && (next.peer.piece.Some? ==> |next.work| < |l.work|)
  {
    hide Unfilled, RegionStart, BlockCount, Region, Reply, Download, HandlePiece, Hashing.Of, Reports.Completes, Reports.Downloaded,
         Agrees, BlockOf, HasPiece, Active, FileCorrect, Torrent.Pieces;
    var q, msg := l.peer.piece.value, HonestReply(tor, file, l.peer.piece.value, b);
    LastBlockCompletes(l, tor, file, b);
    Reports.CompletedPieceIsReported(l, 0, tor, msg.payload, 0, []);
    HashIsRight(tor, file, q.index);
    PeerConduct.HandlePieceSends(l, 0, tor, msg.payload, 0, []);
    var r := HandlePiece(l, 0, tor, msg.payload, 0, []);
    assert !r.peer.choked by {
      NotChoked(l, tor);
    }
    FileLength(tor, file);
    LoopStartsServing(r, tor, file);
  }

  lemma NotChoked(l: Local, tor: Torrent)
    requires Active(l, tor)
    ensures !l.peer.choked
  {
  }

  lemma FileLength(tor: Torrent, file: seq<byte>)
    requires FileCorrect(file, tor)
    ensures |file| == tor.fileLength
  {
  }

  // ----- The run

  /** As long as a piece is in hand there is a request to answer. */
  lemma {:induction false} ServeAll(s: System, l: Local, tor: Torrent, file: seq<byte>) returns (events: seq<Event>, done: Local)
    requires tor.Usable() && FileCorrect(file, tor) && OnlyPeer(s, l) && Serving(l, tor, file)
    ensures OnlyPeer(Swarm.Run(s, tor, events), done) && Serving(done, tor, file) && done.peer.piece.None?
    ensures Swarm.Run(s, tor, events).monitor == s.monitor
    decreases |l.work|, l.peer.piece.Some?, if l.peer.piece.Some? then Unfilled(l.peer.piece.value) else {}
  {
    if l.peer.piece.None? {
      events, done := [], l;
      RunNothing(s, tor);
    } else {
      hide *;
      ServingIsActive(l, tor, file);
      var q, b := OutstandingBlock(l, tor);
      BlockIsFilled(l, tor, b, []);
      var msg := HonestReply(tor, file, q, b);
      ReplyIsKnown(tor, file, q, b);
      var e := Received(0, msg, 0, []);
      if Unfilled(q) == {b} {
        ServePiece(l, tor, file, b);
      } else {
        ServeBlock(l, tor, file, b);
      }
      OnlyPeerStep(s, l, tor, msg, []);
      var more;
      more, done := ServeAll(Step(s, tor, e), HandleMessage(l, 0, tor, msg, 0, []), tor, file);
      events := [e] + more;
      RunOne(s, tor, e);
      RunFrom(s, tor, [e], more);
      MonitorIsApart(s, tor, e);
    }
  }

  lemma ServingIsActive(l: Local, tor: Torrent, file: seq<byte>)
    requires tor.Usable() && Serving(l, tor, file) && l.peer.piece.Some?
    ensures Active(l, tor) && RegionStart(tor, l.peer.piece.value.index) + tor.pieceLength <= |file| && tor.pieceLength > 0
  {
    hide Active, Filled, RegionStart;
  }

  lemma ReplyIsKnown(tor: Torrent, file: seq<byte>, q: PieceState, b: nat)
    requires RegionStart(tor, q.index) + tor.pieceLength <= |file| && b < BlockCount(tor.pieceLength)
    ensures HonestReply(tor, file, q, b).ty.Some?
  {
    hide RegionStart;
  }

  lemma MonitorIsApart(s: System, tor: Torrent, e: Event)
    requires !e.MonitorPops?
    ensures Step(s, tor, e).monitor == s.monitor
  {
    hide Handle;
  }

  // ----- The monitor

  /** Every piece that is not missing is the file's. */
  ghost predicate Copied(tor: Torrent, file: seq<byte>, m: Monitor)
    requires tor.Usable()
  {
    && |m.file| == |file| == tor.fileLength
    && forall i: nat | i < tor.Pieces() && i !in m.missing ::
         RegionStart(tor, i) + tor.pieceLength <= |file| && Region(tor, m.file, i) == Region(tor, file, i)
  }

  lemma WriteCopies(s: System, tor: Torrent, file: seq<byte>, c: CompletePiece)
    requires tor.Usable() && Copied(tor, file, s.monitor)
    requires c.index < tor.Pieces() && c.size == tor.pieceLength == |c.data|
    requires RegionStart(tor, c.index) + tor.pieceLength <= |file| && c.data == Region(tor, file, c.index)
    ensures Copied(tor, file, RecordPiece(s.monitor, c))
  {
    WriteHitsOwnRegion(s, tor, c);
    hide WriteAt, Region, RegionStart, FileOffset, Torrent.Pieces;
  }

  lemma PopCopies(s: System, tor: Torrent, file: seq<byte>)
    requires tor.Usable() && s.results != [] && Copied(tor, file, s.monitor)
    requires ResultsOk(s.results, tor) && ReportsAgree(tor, file, s.results)
    ensures Copied(tor, file, MonitorStep(s).monitor) && ReportsAgree(tor, file, MonitorStep(s).results)
  {
    hide RecordPiece, Region, RegionStart, Torrent.Pieces, Hashing.Of, Copied;
    assert s.results[0] in s.results && forall r :: r in s.results[1..] ==> r in s.results;
    if s.results[0].PieceComplete? {
      WriteCopies(s, tor, file, s.results[0].piece);
    }
  }

  /** No peer holds a piece and none is in the work queue. */
  predicate Unclaimed(s: System) {
    s.work == [] && forall n :: n in s.peers ==> n.peer.piece.None?
  }

  lemma NothingMissing(s: System)
    requires Accounted(s) && Unclaimed(s) && s.results == []
    ensures s.monitor.missing == {}
  {
    forall i: nat
      ensures i !in s.monitor.missing
    {
      NobodyHolds(s.peers, i);
      assert Places(s, i) == 0;
    }
  }

  lemma InvariantParts(s: System, tor: Torrent)
    requires tor.Usable() && Invariant(s, tor)
    ensures Accounted(s) && ResultsOk(s.results, tor)
  {
    hide Accounted, PeersOk, ResultsOk, FileOk, BytesOk;
  }

  lemma PopStep(s: System, tor: Torrent)
    requires s.results != [] && s.monitor.missing != {}
    ensures Step(s, tor, MonitorPops) == MonitorStep(s) && |MonitorStep(s).results| < |s.results|
    ensures Unclaimed(s) ==> Unclaimed(MonitorStep(s))
  {
    hide RecordPiece;
  }

  /** Once every piece is reported or written, the monitor writes what is left. */
  lemma {:induction false} PopAll(s: System, tor: Torrent, file: seq<byte>) returns (events: seq<Event>)
    requires tor.Usable() && Invariant(s, tor) && Unclaimed(s)
    requires Copied(tor, file, s.monitor) && ReportsAgree(tor, file, s.results)
    ensures var m := Swarm.Run(s, tor, events).monitor; m.missing == {} && Copied(tor, file, m)
    decreases |s.results|
  {
    hide *;
    InvariantParts(s, tor);
    if s.monitor.missing == {} {
      events := [];
      RunNothing(s, tor);
    } else if s.results == [] {
      NothingMissing(s);
    } else {
      MonitorKeepsInvariant(s, tor);
      PopCopies(s, tor, file);
      PopStep(s, tor);
      var more := PopAll(MonitorStep(s), tor, file);
      events := [MonitorPops] + more;
      RunOne(s, tor, MonitorPops);
      RunFrom(s, tor, [MonitorPops], more);
    }
  }

  // ----- The whole download

  function AllOnes(n: nat): seq<byte> {
    seq(n / 8 + 1, _ => 255)
  }

  lemma AllBitsSet(k: nat)
    requires k < 8
    ensures PeerConduct.BitSet(255, k)
  {
    PeerConduct.Powers();
  }

  lemma AllOnesHasAll(tor: Torrent)
    requires tor.Usable()
    ensures HasAll(tor, Bits(AllOnes(tor.Pieces())))
  {
    var n := tor.Pieces();
    hide Torrent.Pieces, PeerConduct.BitSet, Bits, HasPiece;
    PeerConduct.BitsLength(AllOnes(n));
    forall i: nat | i < n
      ensures HasPiece(Bits(AllOnes(n)), i)
    {
      AllBitsSet(i % 8);
      PeerConduct.BitfieldNamesPieces(AllOnes(n), i / 8, i % 8);
    }
  }

  lemma OpeningServes(tor: Torrent, file: seq<byte>)
    requires tor.Usable() && FileCorrect(file, tor)
    ensures Serving(Download(Waiting(tor, Bits(AllOnes(tor.Pieces())), false), tor), tor, file)
  {
    hide Download, Serving, HasAll, Bits, AllOnes, Torrent.Pieces, FileCorrect;
    AllOnesHasAll(tor);
    FileLength(tor, file);
    LoopStartsServing(Waiting(tor, Bits(AllOnes(tor.Pieces())), false), tor, file);
  }

  lemma DoneIsUnclaimed(s: System, l: Local, tor: Torrent, file: seq<byte>)
    requires tor.Usable() && OnlyPeer(s, l) && Serving(l, tor, file) && l.peer.piece.None?
    ensures Unclaimed(s) && ReportsAgree(tor, file, s.results)
  {
    hide ReportsAgree, HasAll, Agrees;
  }

  lemma NothingCopied(s: System, tor: Torrent, file: seq<byte>)
    requires tor.Usable() && |file| == tor.fileLength && s.monitor == Initial(tor, 1).monitor
    ensures Copied(tor, file, s.monitor)
  {
    hide RegionStart, Region, Indices;
  }

  lemma OpeningKeepsMonitor(tor: Torrent, bitfield: seq<byte>)
    requires tor.Usable()
    ensures Swarm.Run(Initial(tor, 1), tor, Opening(bitfield)).monitor == Initial(tor, 1).monitor
  {
    hide Step, Initial, Swarm.Run;
    var s := Initial(tor, 1);
    var a, b, c := Connected(0), Received(0, UNCHOKE, 0, []), Received(0, Message(Some(Bitfield), bitfield), 0, []);
    RunOne(s, tor, a);
    PeerConduct.RunStep(s, tor, [a], b);
    PeerConduct.RunStep(s, tor, [a] + [b], c);
    MonitorIsApart(s, tor, a);
    MonitorIsApart(Step(s, tor, a), tor, b);
    MonitorIsApart(Step(Step(s, tor, a), tor, b), tor, c);
  }

  lemma SameRegion(tor: Torrent, f: seq<byte>, g: seq<byte>, i: nat, x: nat)
    requires RegionStart(tor, i) <= x < RegionStart(tor, i) + tor.pieceLength <= |f| == |g|
    requires Region(tor, f, i) == Region(tor, g, i)
    ensures f[x] == g[x]
  {
    var start := RegionStart(tor, i);
    hide RegionStart;
    assert f[x] == Region(tor, f, i)[x - start] && g[x] == Region(tor, g, i)[x - start];
  }

  lemma Slot(x: nat, length: nat, n: nat) returns (i: nat)
    requires 0 < length && x < length * n
    ensures i < n && i * length <= x < i * length + length
  {
    QuotientBelow(x, length, n);
    i := x / length;
  }

  lemma PieceOfByte(tor: Torrent, x: nat) returns (i: nat)
    requires tor.Usable() && x < tor.pieceLength * tor.Pieces()
    ensures i < tor.Pieces() && RegionStart(tor, i) <= x < RegionStart(tor, i) + tor.pieceLength
  {
    assert tor.pieceLength > 0;
    hide Torrent.Pieces, Torrent.Usable;
    i := Slot(x, tor.pieceLength, tor.Pieces());
  }

  lemma CopiedByte(tor: Torrent, file: seq<byte>, m: Monitor, x: nat)
    requires tor.Usable() && Copied(tor, file, m) && m.missing == {} && x < tor.pieceLength * tor.Pieces()
    ensures x < |m.file| == |file| && m.file[x] == file[x]
  {
    hide Torrent.Pieces, RegionStart, Region;
    var i := PieceOfByte(tor, x);
    SameRegion(tor, m.file, file, i, x);
  }

  /** What the file holds once every piece was copied. */
  lemma CopiedFile(tor: Torrent, file: seq<byte>, events: seq<Event>)
    requires tor.Usable()
    requires var m := Swarm.Run(Initial(tor, 1), tor, events).monitor; Copied(tor, file, m) && m.missing == {}
    ensures var m := Swarm.Run(Initial(tor, 1), tor, events).monitor;
            && |m.file| == |file| == tor.fileLength
            && forall x: nat | x < |file| ::
                 m.file[x] == if x < tor.fileLength - tor.fileLength % tor.pieceLength then file[x] else 0
  {
    hide Swarm.Run, Initial, Torrent.Pieces, RegionStart, Region;
    PieceCount(tor);
    var m := Swarm.Run(Initial(tor, 1), tor, events).monitor;
    forall x: nat | x < |file|
      ensures m.file[x] == if x < tor.fileLength - tor.fileLength % tor.pieceLength then file[x] else 0
    {
      if x < tor.fileLength - tor.fileLength % tor.pieceLength {
        CopiedByte(tor, file, m, x);
      } else {
        TailStaysEmpty(tor, 1, events, x);
      }
    }
  }

  /**
    For every torrent and every file it describes there is a run, with one
    peer that has the file and answers each request with the bytes asked for,
    in which the download completes with this file, up to the remainder that
    is shorter than a piece.
   */
  lemma HonestPeerCompletes(tor: Torrent, file: seq<byte>) returns (events: seq<Event>)
    requires tor.Usable() && FileCorrect(file, tor)
    ensures var m := Swarm.Run(Initial(tor, 1), tor, events).monitor;
            && m.missing == {} && |m.file| == |file|
            && forall x: nat | x < |file| ::
                 m.file[x] == if x < tor.fileLength - tor.fileLength % tor.pieceLength then file[x] else 0
  {
    hide Swarm.Run, Initial, Opening, OnlyPeer, Serving, Download, Waiting, Bits, AllOnes, Copied, Unclaimed, ReportsAgree, Invariant,
         FileCorrect, Torrent.Pieces;
    var bits := AllOnes(tor.Pieces());
    var s0 := Initial(tor, 1);
    var s1 := Swarm.Run(s0, tor, Opening(bits));
    AfterOpening(tor, bits);
    OpeningServes(tor, file);
    var serve, done := ServeAll(s1, Download(Waiting(tor, Bits(bits), false), tor), tor, file);
    var s2 := Swarm.Run(s1, tor, serve);
    RunFrom(s0, tor, Opening(bits), serve);
    InvariantHolds(tor, 1, Opening(bits) + serve);
    DoneIsUnclaimed(s2, done, tor, file);
    OpeningKeepsMonitor(tor, bits);
    FileLength(tor, file);
    NothingCopied(s2, tor, file);
    var pops := PopAll(s2, tor, file);
    events := Opening(bits) + serve + pops;
    RunFrom(s0, tor, Opening(bits) + serve, pops);
    CopiedFile(tor, file, events);
  }
}
