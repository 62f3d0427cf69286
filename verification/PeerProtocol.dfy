/**
  What each completion handler of src/peer.cpp does to the peer, to the shared
  work queue and to the result queue. PeerObjects holds the objects; its
  methods are tied to the functions of this module.
 */
module PeerProtocol {
  import opened Bytes
  import opened Pieces
  import opened Messages
  import Hashing

  const PIPELINE_LIMIT := 5

  /** The parts of a torrent that the download reads. */
  datatype Torrent = Torrent(pieceLength: uint32, fileLength: uint32, pieceHashes: seq<seq<byte>>) {
    /** The constructor divides by the piece length, and piece_hash indexes the hashes unchecked. */
    predicate Usable() {
      0 < pieceLength && fileLength / pieceLength <= |pieceHashes|
    }

    function Pieces(): nat
      requires Usable()
    {
      fileLength / pieceLength
    }

    /** The access is unchecked in the source; no reachable state asks for a hash that is not there. */
    function PieceHash(i: nat): seq<byte> {
      if i < |pieceHashes| then pieceHashes[i] else []
    }
  }

  datatype CompletePiece = CompletePiece(data: seq<byte>, index: uint32, size: uint32)

  datatype Result = PieceComplete(piece: CompletePiece) | PeerConnected(peer: nat) | PeerDropped(peer: nat)

  datatype BlockRequest = BlockRequest(piece: uint32, offset: int, length: int)

  /**
    A peer. `outstanding` stands for blocks_: it maps an index to whether the
    block object under it belongs to the piece the peer now holds. Entries of
    a piece that was given up stay behind, and releasing one of them changes
    a block nobody will read. `sent` records the block requests written to
    the socket.
   */
  datatype PeerState = PeerState(
    choked: bool,
    available: seq<bool>,
    piece: Option<PieceState>,
    outstanding: map<nat, bool>,
    sent: seq<BlockRequest>,
    closed: bool)

  /** What one handler can touch: its peer and the two shared queues. */
  datatype Local = Local(peer: PeerState, work: seq<uint32>, results: seq<Result>)

  function NewPeer(): PeerState {
    PeerState(true, [], None, map[], [], false)
  }

  function Stale(outstanding: map<nat, bool>): map<nat, bool> {
    map i | i in outstanding :: false
  }

  function ReleaseBlock(p: PeerState, i: nat): PeerState {
    if i in p.outstanding then
      p.(outstanding := p.outstanding - {i},
         piece := if p.outstanding[i] && p.piece.Some? then Some(Release(p.piece.value, i)) else p.piece)
    else p
  }

  function ReleasePiece(l: Local): Local {
    if l.peer.piece.Some? then
      l.(work := l.work + [l.peer.piece.value.index],
         peer := l.peer.(piece := None, outstanding := Stale(l.peer.outstanding)))
    else l
  }

  function Close(l: Local, me: nat): Local {
    var r := ReleasePiece(l.(peer := l.peer.(closed := true)));
    r.(results := r.results + [PeerDropped(me)])
  }

  /** A complete piece is finalized into a buffer that held `heap`, and checked. */
  function FinishPiece(l: Local, me: nat, tor: Torrent, heap: seq<byte>): Local
    requires l.peer.piece.Some?
  {
    var p := Finalize(l.peer.piece.value, heap);
    var r := l.(peer := l.peer.(piece := Some(p), outstanding := map[]));
    if Hashing.Of(p.finalized.value) == tor.PieceHash(p.index) then
      r.(results := r.results + [PieceComplete(CompletePiece(p.finalized.value, p.index, p.size))],
         peer := r.peer.(piece := None))
    else
      Close(r, me)
  }

  /** The payload goes to the piece, and the block index it names is released whatever the answer. */
  function AfterAccept(l: Local, payload: seq<byte>, junk: nat): (r: Local)
    requires l.peer.piece.Some?
    ensures r.peer.piece.Some? && r.peer.piece.value.index == l.peer.piece.value.index
    ensures r.work == l.work && r.results == l.results
  {
    var accepted := l.peer.(piece := Some(Accept(l.peer.piece.value, payload)));
    l.(peer := ReleaseBlock(accepted, NamedBlock(payload, junk)))
  }

  function HandlePiece(l: Local, me: nat, tor: Torrent, payload: seq<byte>, junk: nat, heap: seq<byte>): Local
  {
    if l.peer.piece.None? then l
    else
      var r := AfterAccept(l, payload, junk);
      if AcceptStatus(l.peer.piece.value, payload) == Ok && IsComplete(r.peer.piece.value) then
        FinishPiece(r, me, tor, heap)
      else r
  }

  predicate HasPiece(available: seq<bool>, index: nat) {
    index < |available| && available[index]
  }

  /** The request that Message::request builds for block `i`. */
  function RequestFor(index: uint32, size: uint32, i: nat): BlockRequest {
    BlockRequest(index, BlockOffset(i), BlockLength(size, i))
  }

  /** A peer that holds no piece takes one from the front of the work queue. */
  function TakePiece(l: Local, tor: Torrent): Local {
    if l.peer.piece.None? && l.work != [] then
      l.(work := l.work[1..], peer := l.peer.(piece := Some(Fresh(l.work[0], tor.pieceLength))))
    else l
  }

  /** Block `i` becomes outstanding, unless its index is taken, and is asked for. */
  function Ask(p: PeerState, i: nat): PeerState
    requires p.piece.Some?
  {
    p.(outstanding := if i in p.outstanding then p.outstanding else p.outstanding[i := true],
       sent := p.sent + [RequestFor(p.piece.value.index, p.piece.value.size, i)])
  }

  /** The peer reserves the next block of its piece and asks for it. */
  function RequestBlock(p: PeerState): PeerState
    requires p.piece.Some? && NextBlock(p.piece.value).Some?
  {
    Ask(p.(piece := Some(Reserve(p.piece.value))), NextBlock(p.piece.value).value)
  }

  /** Whether one turn of the download loop requests a block, rather than returning. */
  predicate Requests(l: Local, tor: Torrent) {
    var t := TakePiece(l, tor).peer;
    && !l.peer.choked
    && l.peer.available != []
    && t.piece.Some?
    && (l.peer.piece.None? ==> HasPiece(t.available, t.piece.value.index))
    && !IsComplete(t.piece.value)
    && NextBlock(t.piece.value).Some?
  }

  /** One turn of the download loop. */
  function Turn(l: Local, tor: Torrent): Local {
    if l.peer.choked || l.peer.available == [] then l
    else
      var t := TakePiece(l, tor);
      if Requests(l, tor) then t.(peer := RequestBlock(t.peer))
      else if l.peer.piece.None? && t.peer.piece.Some? && !HasPiece(t.peer.available, t.peer.piece.value.index) then
        ReleasePiece(t)
      else t
  }

  function Idle(l: Local): set<nat> {
    if l.peer.piece.Some? then Available(l.peer.piece.value) else {}
  }

  lemma TurnTakesABlock(l: Local, tor: Torrent)
    requires Requests(l, tor)
    ensures Turn(l, tor).peer.piece.Some?
    ensures l.peer.piece.Some? ==> Idle(Turn(l, tor)) < Idle(l)
  {
    var p := TakePiece(l, tor).peer.piece.value;
    ReserveTakesOne(p);
  }

  /** `async_download`: requests blocks until the pipeline is full or nothing can be requested. */
  function Download(l: Local, tor: Torrent): Local
    decreases l.peer.piece.None?, Idle(l)
  {
    if |l.peer.outstanding| >= PIPELINE_LIMIT then l
    else if Requests(l, tor) then
      TurnTakesABlock(l, tor);
      Download(Turn(l, tor), tor)
    else Turn(l, tor)
  }

  /** The bits of a byte, most significant first. */
  function ByteBits(c: byte): (bits: seq<bool>)
    ensures |bits| == 8
  {
    [c / 128 % 2 == 1, c / 64 % 2 == 1, c / 32 % 2 == 1, c / 16 % 2 == 1,
     c / 8 % 2 == 1, c / 4 % 2 == 1, c / 2 % 2 == 1, c % 2 == 1]
  }

  /** Each payload byte gives eight availability bits. */
  function Bits(payload: seq<byte>): seq<bool> {
    if payload == [] then [] else Bits(payload[..|payload| - 1]) + ByteBits(payload[|payload| - 1])
  }

  /** The effect of one message before the download loop runs. */
  function Dispatch(l: Local, me: nat, tor: Torrent, msg: Message, junk: nat, heap: seq<byte>): Local
  {
    match msg.ty
    case Some(Choke) => l.(peer := l.peer.(choked := true))
    case Some(Unchoke) => l.(peer := l.peer.(choked := false))
    case Some(Bitfield) => l.(peer := l.peer.(available := Bits(msg.payload)))
    case Some(Piece) => HandlePiece(l, me, tor, msg.payload, junk, heap)
    case _ => l
  }

  /** `async_handle_message`: a message of unknown type ends the read chain without further ado. */
  function HandleMessage(l: Local, me: nat, tor: Torrent, msg: Message, junk: nat, heap: seq<byte>): Local
  {
    if msg.ty.None? then l
    else Download(Dispatch(l, me, tor, msg, junk, heap), tor)
  }

  // ----- Conservation: where a piece index can be

  function Queued(work: seq<uint32>, i: nat): nat {
    if work == [] then 0
    else Queued(work[..|work| - 1], i) + if work[|work| - 1] == i then 1 else 0
  }

  function Holds(p: PeerState, i: nat): nat {
    if p.piece.Some? && p.piece.value.index == i then 1 else 0
  }

  function Reports(r: Result, i: nat): nat {
    if r.PieceComplete? && r.piece.index == i then 1 else 0
  }

  function Pending(results: seq<Result>, i: nat): nat {
    if results == [] then 0
    else Pending(results[..|results| - 1], i) + Reports(results[|results| - 1], i)
  }

  /** How often piece `i` occurs among what one handler can touch. */
  function Copies(l: Local, i: nat): nat {
    Queued(l.work, i) + Holds(l.peer, i) + Pending(l.results, i)
  }

  lemma {:induction false} QueuedFront(work: seq<uint32>, i: nat)
    requires work != []
    ensures Queued(work, i) == Queued(work[1..], i) + if work[0] == i then 1 else 0
  {
    if |work| > 1 {
      var n := |work| - 1;
      QueuedFront(work[..n], i);
      assert work[1..][..n - 1] == work[..n][1..];
    }
  }

  lemma ReleasePieceConserves(l: Local, i: nat)
    ensures Copies(ReleasePiece(l), i) == Copies(l, i)
  {
    if l.peer.piece.Some? {
      assert (l.work + [l.peer.piece.value.index])[..|l.work|] == l.work;
    }
  }

  lemma PendingPush(results: seq<Result>, r: Result, i: nat)
    ensures Pending(results + [r], i) == Pending(results, i) + Reports(r, i)
  {
    assert (results + [r])[..|results|] == results;
  }

  lemma CloseConserves(l: Local, me: nat, i: nat)
    ensures Copies(Close(l, me), i) == Copies(l, i)
  {
    var c := l.(peer := l.peer.(closed := true));
    ReleasePieceConserves(c, i);
    PendingPush(ReleasePiece(c).results, PeerDropped(me), i);
  }

  lemma FinishPieceConserves(l: Local, me: nat, tor: Torrent, heap: seq<byte>, i: nat)
    requires l.peer.piece.Some?
    ensures Copies(FinishPiece(l, me, tor, heap), i) == Copies(l, i)
  {
    var p := Finalize(l.peer.piece.value, heap);
    var r := l.(peer := l.peer.(piece := Some(p), outstanding := map[]));
    assert Copies(r, i) == Copies(l, i);
    CloseConserves(r, me, i);
    PendingPush(r.results, PieceComplete(CompletePiece(p.finalized.value, p.index, p.size)), i);
  }

  lemma HandlePieceConserves(l: Local, me: nat, tor: Torrent, payload: seq<byte>, junk: nat, heap: seq<byte>, i: nat)
    ensures Copies(HandlePiece(l, me, tor, payload, junk, heap), i) == Copies(l, i)
  {
    if l.peer.piece.Some? {
      var r := AfterAccept(l, payload, junk);
      assert Copies(r, i) == Copies(l, i);
      FinishPieceConserves(r, me, tor, heap, i);
    }
  }

  lemma TurnConserves(l: Local, tor: Torrent, i: nat)
    ensures Copies(Turn(l, tor), i) == Copies(l, i)
  {
    if l.peer.piece.None? && l.work != [] {
      QueuedFront(l.work, i);
      ReleasePieceConserves(TakePiece(l, tor), i);
    }
  }

  lemma {:induction false} DownloadConserves(l: Local, tor: Torrent, i: nat)
    ensures Copies(Download(l, tor), i) == Copies(l, i)
    decreases l.peer.piece.None?, Idle(l)
  {
    if |l.peer.outstanding| < PIPELINE_LIMIT {
      TurnConserves(l, tor, i);
      if Requests(l, tor) {
        TurnTakesABlock(l, tor);
        DownloadConserves(Turn(l, tor), tor, i);
      }
    }
  }

  /** Handling a message neither loses nor duplicates a piece, whatever the message and the state of the peer. */
  lemma HandleMessageConserves(l: Local, me: nat, tor: Torrent, msg: Message, junk: nat, heap: seq<byte>, i: nat)
    ensures Copies(HandleMessage(l, me, tor, msg, junk, heap), i) == Copies(l, i)
  {
    hide Pieces.Accept, AcceptStatus, Bits, FinishPiece, ReleaseBlock, Pending, Queued;
    if msg.ty == Some(Piece) {
      HandlePieceConserves(l, me, tor, msg.payload, junk, heap, i);
    }
    assert Copies(Dispatch(l, me, tor, msg, junk, heap), i) == Copies(l, i);
    DownloadConserves(Dispatch(l, me, tor, msg, junk, heap), tor, i);
  }
}
