/**
  The whole download: any number of peers, the shared queues and the monitor,
  with completion handlers and monitor pops interleaved in any order. Runs in
  which a piece is written past its buffer are undefined in the source; which
  torrents have such runs is in Overruns.
 */
module Swarm {
  import opened Bytes
  import opened Pieces
  import opened Messages
  import opened PeerProtocol
  import opened Pipeline
  import Hashing

  /** Connecting until the handshake is read; Reading while a read is outstanding; Stopped after the last one. */
  datatype Phase = Connecting | Reading | Stopped

  datatype Node = Node(peer: PeerState, phase: Phase)

  datatype Monitor = Monitor(missing: set<nat>, file: seq<byte>, downloaded: nat)

  datatype System = System(peers: seq<Node>, work: seq<uint32>, results: seq<Result>, monitor: Monitor)

  /**
    One step. A handler is atomic, because all handlers run on one thread; the
    monitor only pops. Payloads, errors, timers, uninitialised memory and the
    order of events are arbitrary.
   */
  datatype Event =
    | ConnectFailed(k: nat)
    | Connected(k: nat)
    | Received(k: nat, msg: Message, junk: nat, heap: seq<byte>)
    | LengthReadFailed(k: nat)
    | BodyReadFailed(k: nat)
    | TimedOut(k: nat)
    | WriteFailed(k: nat, block: nat)
    | MonitorPops

  // ----- The monitor

  /** The indices below `n`. */
  function Below(n: nat): (r: set<nat>)
    ensures forall i: nat :: i in r <==> i < n
    ensures |r| == n
  {
    if n == 0 then {} else Below(n - 1) + {n - 1}
  }

  /** The file offset of a piece: a 32-bit product. */
  function FileOffset(c: CompletePiece): uint32 {
    c.index * c.size % 0x1_0000_0000
  }

  /** Writing at an offset overwrites, and extends the file if need be. */
  function WriteAt(file: seq<byte>, offset: nat, data: seq<byte>): (r: seq<byte>)
    ensures |r| == if offset + |data| < |file| then |file| else offset + |data|
    ensures r[offset..offset + |data|] == data
    ensures forall i :: 0 <= i < |file| && !(offset <= i < offset + |data|) ==> r[i] == file[i]
  {
    var before := if offset <= |file| then file[..offset] else file + seq(offset - |file|, _ => 0);
    before + data + if offset + |data| < |file| then file[offset + |data|..] else []
  }

  function RecordPiece(m: Monitor, c: CompletePiece): Monitor {
    Monitor(m.missing - {c.index}, WriteAt(m.file, FileOffset(c), c.data), m.downloaded + c.size)
  }

  // ----- Steps

  function LocalOf(s: System, k: nat): Local
    requires k < |s.peers|
  {
    Local(s.peers[k].peer, s.work, s.results)
  }

  function Put(s: System, k: nat, l: Local, phase: Phase): System
    requires k < |s.peers|
  {
    s.(peers := s.peers[k := Node(l.peer, phase)], work := l.work, results := l.results)
  }

  /** Whether the step can happen: a read completes only where one is outstanding, and so on. */
  predicate Enabled(s: System, e: Event) {
    match e
    case ConnectFailed(k) => k < |s.peers| && s.peers[k].phase.Connecting?
    case Connected(k) => k < |s.peers| && s.peers[k].phase.Connecting?
    case Received(k, _, _, _) => k < |s.peers| && s.peers[k].phase.Reading?
    case LengthReadFailed(k) => k < |s.peers| && s.peers[k].phase.Reading?
    case BodyReadFailed(k) => k < |s.peers| && s.peers[k].phase.Reading?
    case TimedOut(k) => k < |s.peers|
    case WriteFailed(k, _) => k < |s.peers|
    case MonitorPops => s.monitor.missing != {} && s.results != []
  }

  /** What the handler of an event makes of its peer and the queues. */
  function Handle(l: Local, k: nat, tor: Torrent, e: Event): Local {
    match e
    case ConnectFailed(_) => Close(l, k)
    case Connected(_) => l.(results := l.results + [PeerConnected(k)])
    case Received(_, msg, junk, heap) => HandleMessage(l, k, tor, msg, junk, heap)
    case LengthReadFailed(_) => Close(l, k)
    case BodyReadFailed(_) => ReleasePiece(l)
    case TimedOut(_) => Close(l, k)
    case WriteFailed(_, block) => l.(peer := ReleaseBlock(l.peer, block))
    case MonitorPops => l
  }

  function NextPhase(phase: Phase, e: Event): Phase {
    match e
    case ConnectFailed(_) => Stopped
    case Connected(_) => Reading
    case Received(_, msg, _, _) => if msg.ty.None? then Stopped else Reading
    case LengthReadFailed(_) => Stopped
    case BodyReadFailed(_) => Stopped
    case _ => phase
  }

  function MonitorStep(s: System): System
    requires s.results != []
  {
    var rest := s.(results := s.results[1..]);
    if s.results[0].PieceComplete? then rest.(monitor := RecordPiece(s.monitor, s.results[0].piece)) else rest
  }

  /** One step; an event that cannot happen changes nothing. */
  function Step(s: System, tor: Torrent, e: Event): System {
    if !Enabled(s, e) then s
    else if e.MonitorPops? then MonitorStep(s)
    else Put(s, e.k, Handle(LocalOf(s, e.k), e.k, tor, e), NextPhase(s.peers[e.k].phase, e))
  }

  function Run(s: System, tor: Torrent, events: seq<Event>): System {
    if events == [] then s else Step(Run(s, tor, events[..|events| - 1]), tor, events[|events| - 1])
  }

  /** The indices 0, 1, ..., n - 1 in the order the work queue is filled. */
  function Indices(n: uint32): (r: seq<uint32>)
    ensures |r| == n && forall i :: 0 <= i < n ==> r[i] == i
  {
    if n == 0 then [] else Indices(n - 1) + [n - 1]
  }

  function Initial(tor: Torrent, peers: nat): System
    requires tor.Usable()
  {
    System(
      seq(peers, _ => Node(NewPeer(), Connecting)),
      Indices(tor.Pieces()),
      [],
      Monitor(Below(tor.Pieces()), seq(tor.fileLength, _ => 0), 0))
  }

  // ----- The invariant

  function Held(peers: seq<Node>, i: nat): nat {
    if peers == [] then 0 else Held(peers[..|peers| - 1], i) + Holds(peers[|peers| - 1].peer, i)
  }

  /** How many places piece `i` is in, the file not counted. */
  function Places(s: System, i: nat): nat {
    Queued(s.work, i) + Held(s.peers, i) + Pending(s.results, i)
  }

  ghost predicate PeerOk(n: Node, tor: Torrent)
    requires tor.Usable()
  {
    && (n.peer.piece.Some? ==>
          && n.peer.piece.value.index < tor.Pieces()
          && n.peer.piece.value.size == tor.pieceLength
          && n.peer.piece.value.finalized.None?)
    && (n.phase.Connecting? ==> n.peer.piece.None? && n.peer.outstanding == map[])
    && (!n.phase.Stopped? && !n.peer.closed ==> Pipelined(n.peer))
  }

  /** A result that reports a piece carries the bytes that hash to what the torrent says. */
  ghost predicate ResultOk(r: Result, tor: Torrent)
    requires tor.Usable()
  {
    r.PieceComplete? ==>
      && r.piece.index < tor.Pieces()
      && r.piece.size == tor.pieceLength == |r.piece.data|
      && Hashing.Of(r.piece.data) == tor.pieceHashes[r.piece.index]
  }

  function RegionStart(tor: Torrent, i: nat): nat {
    i * tor.pieceLength
  }

  /** The bytes of the file that belong to piece `i`. */
  function Region(tor: Torrent, file: seq<byte>, i: nat): seq<byte>
    requires RegionStart(tor, i) + tor.pieceLength <= |file|
  {
    file[RegionStart(tor, i)..RegionStart(tor, i) + tor.pieceLength]
  }

  /** Piece `i` lies within the file. */
  predicate IsWhole(tor: Torrent, i: nat) {
    (i + 1) * tor.pieceLength <= tor.fileLength
  }

  lemma ProductGrows(a: nat, b: nat, length: nat)
    requires a <= b
    ensures a * length <= b * length
  {
    assert b * length == a * length + (b - a) * length;
  }

  /** As many pieces as fit into the file: what is left of it is shorter than a piece. */
  lemma PieceCount(tor: Torrent)
    requires tor.Usable()
    ensures tor.pieceLength * tor.Pieces() <= tor.fileLength < tor.pieceLength * (tor.Pieces() + 1)
    ensures tor.pieceLength * tor.Pieces() == tor.fileLength - tor.fileLength % tor.pieceLength
  {
  }

  /** The pieces of the torrent are those that lie within the file. */
  lemma WholePieces(tor: Torrent, i: nat)
    requires tor.Usable()
    ensures IsWhole(tor, i) <==> i < tor.Pieces()
  {
    PieceCount(tor);
    var n := tor.Pieces();
    if i < n {
      ProductGrows(i + 1, n, tor.pieceLength);
    } else {
      ProductGrows(n + 1, i + 1, tor.pieceLength);
    }
  }

  lemma RegionsFit(tor: Torrent, i: nat)
    requires tor.Usable() && i < tor.Pieces()
    ensures RegionStart(tor, i) + tor.pieceLength <= RegionStart(tor, tor.Pieces()) <= tor.fileLength
  {
    var n, len := tor.Pieces(), tor.pieceLength;
    assert n * len <= tor.fileLength;
    assert i * len + len == (i + 1) * len <= n * len;
  }

  /** Every region of a piece that is not missing holds the right bytes; all else is as it was created. */
  ghost predicate FileOk(m: Monitor, tor: Torrent)
    requires tor.Usable()
  {
    && |m.file| == tor.fileLength
    && (forall i: nat | i < tor.Pieces() && i !in m.missing ::
          RegionStart(tor, i) + tor.pieceLength <= |m.file| && Hashing.Of(Region(tor, m.file, i)) == tor.pieceHashes[i])
    && (forall i: nat | i < tor.Pieces() && i in m.missing ::
          RegionStart(tor, i) + tor.pieceLength <= |m.file| && forall x :: x in Region(tor, m.file, i) ==> x == 0)
    && (forall x :: RegionStart(tor, tor.Pieces()) <= x < |m.file| ==> m.file[x] == 0)
  }

  /** A missing piece is in exactly one place, and a piece that was written is in none. */
  ghost predicate Accounted(s: System) {
    forall i: nat :: Places(s, i) == if i in s.monitor.missing then 1 else 0
  }

  ghost predicate PeersOk(s: System, tor: Torrent)
    requires tor.Usable()
  {
    forall k :: 0 <= k < |s.peers| ==> PeerOk(s.peers[k], tor)
  }

  ghost predicate ResultsOk(results: seq<Result>, tor: Torrent)
    requires tor.Usable()
  {
    forall r :: r in results ==> ResultOk(r, tor)
  }

  /** Bytes downloaded and bytes missing add up. */
  predicate BytesOk(m: Monitor, tor: Torrent)
    requires tor.Usable()
  {
    m.downloaded + tor.pieceLength * |m.missing| == tor.pieceLength * tor.Pieces()
  }

  ghost predicate Invariant(s: System, tor: Torrent)
    requires tor.Usable()
  {
    && Accounted(s)
    && s.monitor.missing <= Below(tor.Pieces())
    && PeersOk(s, tor)
    && ResultsOk(s.results, tor)
    && FileOk(s.monitor, tor)
    && BytesOk(s.monitor, tor)
  }

  // ----- Counting

  lemma {:induction false} HeldPut(peers: seq<Node>, k: nat, n: Node, i: nat)
    requires k < |peers|
    ensures Held(peers[k := n], i) + Holds(peers[k].peer, i) == Held(peers, i) + Holds(n.peer, i)
  {
    var last := |peers| - 1;
    if k == last {
      assert peers[k := n][..last] == peers[..last];
    } else {
      HeldPut(peers[..last], k, n, i);
      assert peers[k := n][..last] == peers[..last][k := n];
    }
  }

  /** A handler that conserves the copies of a piece among what it touches conserves its places. */
  lemma PutConserves(s: System, k: nat, l: Local, phase: Phase, i: nat)
    requires k < |s.peers|
    requires Copies(l, i) == Copies(LocalOf(s, k), i)
    ensures Places(Put(s, k, l, phase), i) == Places(s, i)
  {
    HeldPut(s.peers, k, Node(l.peer, phase), i);
  }

  lemma {:induction false} PendingFront(results: seq<Result>, i: nat)
    requires results != []
    ensures Pending(results, i) == Reports(results[0], i) + Pending(results[1..], i)
  {
    if |results| > 1 {
      var n := |results| - 1;
      PendingFront(results[..n], i);
      assert results[1..][..n - 1] == results[..n][1..];
    }
  }

  lemma {:induction false} QueuedMember(work: seq<uint32>, k: nat)
    requires k < |work|
    ensures Queued(work, work[k]) > 0
  {
    if k < |work| - 1 {
      QueuedMember(work[..|work| - 1], k);
    }
  }

  lemma {:induction false} HeldMember(peers: seq<Node>, k: nat)
    requires k < |peers| && peers[k].peer.piece.Some?
    ensures Held(peers, peers[k].peer.piece.value.index) > 0
  {
    if k < |peers| - 1 {
      HeldMember(peers[..|peers| - 1], k);
    }
  }

  lemma {:induction false} PendingMember(results: seq<Result>, k: nat)
    requires k < |results| && results[k].PieceComplete?
    ensures Pending(results, results[k].piece.index) > 0
  {
    if k < |results| - 1 {
      PendingMember(results[..|results| - 1], k);
    }
  }

  lemma {:induction false} QueuedIndices(n: uint32, i: nat)
    ensures Queued(Indices(n), i) == if i < n then 1 else 0
  {
    if n == 0 {
    } else {
      QueuedIndices(n - 1, i);
      assert Indices(n)[..n - 1] == Indices(n - 1);
    }
  }

  lemma {:induction false} NobodyHolds(peers: seq<Node>, i: nat)
    requires forall n :: n in peers ==> n.peer.piece.None?
    ensures Held(peers, i) == 0
  {
    if peers == [] {
    } else {
      NobodyHolds(peers[..|peers| - 1], i);
    }
  }

  lemma InitialFile(tor: Torrent)
    requires tor.Usable()
    ensures FileOk(Monitor(Below(tor.Pieces()), seq(tor.fileLength, _ => 0), 0), tor)
  {
    forall i: nat | i < tor.Pieces()
      ensures RegionStart(tor, i) + tor.pieceLength <= tor.fileLength
    {
      RegionsFit(tor, i);
    }
  }

  lemma InitialAccount(tor: Torrent, peers: nat)
    requires tor.Usable()
    ensures Accounted(Initial(tor, peers))
  {
    var s := Initial(tor, peers);
    forall i: nat
      ensures Places(s, i) == if i in s.monitor.missing then 1 else 0
    {
      QueuedIndices(tor.Pieces(), i);
      NobodyHolds(s.peers, i);
    }
  }

  lemma InitialInvariant(tor: Torrent, peers: nat)
    requires tor.Usable()
    ensures Invariant(Initial(tor, peers), tor)
  {
    InitialAccount(tor, peers);
    InitialFile(tor);
    hide FileOk, Accounted, Below;
    assert PeersOk(Initial(tor, peers), tor);
  }

  // ----- Handlers keep the invariant

  ghost predicate LocalOk(l: Local, tor: Torrent)
    requires tor.Usable()
  {
    && (l.peer.piece.Some? ==>
          && l.peer.piece.value.index < tor.Pieces()
          && l.peer.piece.value.size == tor.pieceLength
          && l.peer.piece.value.finalized.None?)
    && (forall w :: w in l.work ==> w < tor.Pieces())
    && ResultsOk(l.results, tor)
  }

  lemma HandlePieceOk(l: Local, me: nat, tor: Torrent, payload: seq<byte>, junk: nat, heap: seq<byte>)
    requires tor.Usable() && LocalOk(l, tor)
    ensures LocalOk(HandlePiece(l, me, tor, payload, junk, heap), tor)
  {
    hide Hashing.Of;
    hide FromBigEndian, DataLength, Joined;
  }

  lemma TurnOk(l: Local, tor: Torrent)
    requires tor.Usable() && LocalOk(l, tor)
    ensures LocalOk(Turn(l, tor), tor)
  {
    if l.work != [] {
      assert l.work[0] in l.work;
      assert forall w :: w in l.work[1..] ==> w in l.work;
    }
  }

  lemma {:induction false} DownloadOk(l: Local, tor: Torrent)
    requires tor.Usable() && LocalOk(l, tor)
    ensures LocalOk(Download(l, tor), tor)
    decreases l.peer.piece.None?, Idle(l)
  {
    TurnOk(l, tor);
    if |l.peer.outstanding| < PIPELINE_LIMIT && Requests(l, tor) {
      TurnTakesABlock(l, tor);
      DownloadOk(Turn(l, tor), tor);
    }
  }

  lemma HandleOk(l: Local, k: nat, tor: Torrent, e: Event)
    requires tor.Usable() && LocalOk(l, tor)
    ensures LocalOk(Handle(l, k, tor, e), tor)
  {
    hide Hashing.Of;
    match e
    case Received(_, msg, junk, heap) =>
      if msg.ty.Some? {
        if msg.ty == Some(Piece) {
          HandlePieceOk(l, k, tor, msg.payload, junk, heap);
        }
        DownloadOk(Dispatch(l, k, tor, msg, junk, heap), tor);
      }
    case _ =>
  }

  lemma HandleConserves(l: Local, k: nat, tor: Torrent, e: Event, i: nat)
    ensures Copies(Handle(l, k, tor, e), i) == Copies(l, i)
  {
    match e
    case ConnectFailed(_) => CloseConserves(l, k, i);
    case Connected(_) => PendingPush(l.results, PeerConnected(k), i);
    case Received(_, msg, junk, heap) => HandleMessageConserves(l, k, tor, msg, junk, heap, i);
    case LengthReadFailed(_) => CloseConserves(l, k, i);
    case BodyReadFailed(_) => ReleasePieceConserves(l, i);
    case TimedOut(_) => CloseConserves(l, k, i);
    case WriteFailed(_, _) =>
    case MonitorPops =>
  }

  /** After the handler of an enabled event, the peer is as PeerOk demands. */
  lemma HandleKeepsPeer(s: System, k: nat, tor: Torrent, e: Event)
    requires tor.Usable() && Enabled(s, e) && !e.MonitorPops? && k == e.k
    requires PeerOk(s.peers[k], tor)
    requires LocalOk(Handle(LocalOf(s, k), k, tor, e), tor)
    ensures PeerOk(Node(Handle(LocalOf(s, k), k, tor, e).peer, NextPhase(s.peers[k].phase, e)), tor)
  {
    var l, n := LocalOf(s, k), s.peers[k];
    match e
    case Received(_, msg, junk, heap) =>
      if msg.ty.Some? && !Handle(l, k, tor, e).peer.closed {
        StaysClosed(l, k, tor, msg, junk, heap);
        HandleMessageKeepsPipeline(l, k, tor, msg, junk, heap);
      }
    case WriteFailed(_, block) =>
      if !n.phase.Stopped? && !n.peer.closed {
        ReleaseBlockKeepsPipeline(l.peer, block);
      }
    case TimedOut(_) => assert Stale(map[]) == map[];
    case _ =>
  }

  lemma {:induction false} DownloadKeepsClosed(l: Local, tor: Torrent)
    ensures Download(l, tor).peer.closed == l.peer.closed
    decreases l.peer.piece.None?, Idle(l)
  {
    if |l.peer.outstanding| < PIPELINE_LIMIT && Requests(l, tor) {
      TurnTakesABlock(l, tor);
      DownloadKeepsClosed(Turn(l, tor), tor);
    }
  }

  lemma DispatchKeepsClosed(l: Local, me: nat, tor: Torrent, msg: Message, junk: nat, heap: seq<byte>)
    ensures l.peer.closed ==> Dispatch(l, me, tor, msg, junk, heap).peer.closed
  {
    hide Bits, Pieces.Accept, AcceptStatus, Finalize, NamedBlock, IsComplete, Release;
  }

  lemma StaysClosed(l: Local, me: nat, tor: Torrent, msg: Message, junk: nat, heap: seq<byte>)
    ensures l.peer.closed ==> HandleMessage(l, me, tor, msg, junk, heap).peer.closed
  {
    DispatchKeepsClosed(l, me, tor, msg, junk, heap);
    DownloadKeepsClosed(Dispatch(l, me, tor, msg, junk, heap), tor);
    hide Dispatch, Download;
  }

  /** In an accounted state, what a handler is given is in order. */
  lemma GivenInOrder(s: System, tor: Torrent, k: nat)
    requires tor.Usable() && Invariant(s, tor) && k < |s.peers|
    ensures LocalOk(LocalOf(s, k), tor)
  {
    forall w | w in s.work ensures w < tor.Pieces() {
      var j :| 0 <= j < |s.work| && s.work[j] == w;
      QueuedMember(s.work, j);
      assert Places(s, w) > 0;
    }
    assert PeerOk(s.peers[k], tor);
  }

  /** From any state, a handler neither loses nor duplicates a piece. */
  lemma HandlerConserves(s: System, tor: Torrent, e: Event, i: nat)
    requires !e.MonitorPops?
    ensures Places(Step(s, tor, e), i) == Places(s, i)
  {
    hide Handle, NextPhase, Places, Copies;
    if Enabled(s, e) {
      var l := LocalOf(s, e.k);
      HandleConserves(l, e.k, tor, e, i);
      PutConserves(s, e.k, Handle(l, e.k, tor, e), NextPhase(s.peers[e.k].phase, e), i);
    }
  }

  lemma HandlerKeepsAccount(s: System, tor: Torrent, e: Event)
    requires Accounted(s) && !e.MonitorPops?
    ensures Accounted(Step(s, tor, e))
  {
    hide Handle, Places;
    forall i: nat
      ensures Places(Step(s, tor, e), i) == if i in s.monitor.missing then 1 else 0
    {
      HandlerConserves(s, tor, e, i);
    }
  }

  lemma HandlerKeepsInvariant(s: System, tor: Torrent, e: Event)
    requires tor.Usable() && Invariant(s, tor)
    requires Enabled(s, e) && !e.MonitorPops?
    ensures Invariant(Step(s, tor, e), tor)
  {
    GivenInOrder(s, tor, e.k);
    HandlerKeepsAccount(s, tor, e);
    HandleOk(LocalOf(s, e.k), e.k, tor, e);
    HandleKeepsPeer(s, e.k, tor, e);
  }

  // ----- The monitor keeps the invariant

  lemma RegionsApart(tor: Torrent, i: nat, j: nat)
    requires tor.Usable() && i < j
    ensures RegionStart(tor, i) + tor.pieceLength <= RegionStart(tor, j)
  {
    assert i * tor.pieceLength + tor.pieceLength == (i + 1) * tor.pieceLength <= j * tor.pieceLength;
  }

  /** A reported piece is written to its own region, without 32-bit wrap, and to no other byte. */
  lemma WriteHitsOwnRegion(s: System, tor: Torrent, c: CompletePiece)
    requires tor.Usable() && |s.monitor.file| == tor.fileLength
    requires c.index < tor.Pieces() && c.size == tor.pieceLength == |c.data|
    ensures RegionStart(tor, c.index) + tor.pieceLength <= tor.fileLength
    ensures var file := RecordPiece(s.monitor, c).file;
            && |file| == tor.fileLength
            && Region(tor, file, c.index) == c.data
            && (forall x :: 0 <= x < |file| && !(RegionStart(tor, c.index) <= x < RegionStart(tor, c.index) + tor.pieceLength)
                  ==> file[x] == s.monitor.file[x])
            && (forall i: nat | i < tor.Pieces() && i != c.index ::
                  RegionStart(tor, i) + tor.pieceLength <= tor.fileLength
                  && Region(tor, file, i) == Region(tor, s.monitor.file, i))
  {
    hide Hashing.Of;
    RegionsFit(tor, c.index);
    var file := RecordPiece(s.monitor, c).file;
    assert FileOffset(c) == RegionStart(tor, c.index);
    forall i: nat | i < tor.Pieces() && i != c.index
      ensures RegionStart(tor, i) + tor.pieceLength <= tor.fileLength
      ensures Region(tor, file, i) == Region(tor, s.monitor.file, i)
    {
      RegionsFit(tor, i);
      if i < c.index {
        RegionsApart(tor, i, c.index);
      } else {
        RegionsApart(tor, c.index, i);
      }
    }
  }

  /** A reported piece is still missing when the monitor writes it, so no piece is written twice. */
  lemma ReportedPieceIsMissing(s: System, tor: Torrent)
    requires tor.Usable() && Invariant(s, tor)
    requires s.results != [] && s.results[0].PieceComplete?
    ensures s.results[0].piece.index in s.monitor.missing
  {
    PendingFront(s.results, s.results[0].piece.index);
    assert Places(s, s.results[0].piece.index) > 0;
  }

  lemma MonitorKeepsAccount(s: System, tor: Torrent)
    requires tor.Usable() && Invariant(s, tor) && s.results != []
    ensures Accounted(MonitorStep(s))
  {
    var t := MonitorStep(s);
    forall i: nat
      ensures Places(t, i) == if i in t.monitor.missing then 1 else 0
    {
      PendingFront(s.results, i);
      assert Places(s, i) == if i in s.monitor.missing then 1 else 0;
      if s.results[0].PieceComplete? {
        ReportedPieceIsMissing(s, tor);
      }
    }
  }

  lemma WriteKeepsFile(s: System, tor: Torrent, c: CompletePiece)
    requires tor.Usable() && FileOk(s.monitor, tor)
    requires ResultOk(PieceComplete(c), tor)
    ensures FileOk(RecordPiece(s.monitor, c), tor)
  {
    hide Hashing.Of, WriteAt;
    WriteHitsOwnRegion(s, tor, c);
    RegionsFit(tor, c.index);
  }

  lemma WriteKeepsBytes(m: Monitor, tor: Torrent, c: CompletePiece)
    requires tor.Usable() && BytesOk(m, tor)
    requires c.size == tor.pieceLength && c.index in m.missing
    ensures BytesOk(RecordPiece(m, c), tor)
  {
    var n := |m.missing|;
    assert |RecordPiece(m, c).missing| == n - 1;
    assert tor.pieceLength * n == tor.pieceLength * (n - 1) + tor.pieceLength;
  }

  lemma MonitorKeepsInvariant(s: System, tor: Torrent)
    requires tor.Usable() && Invariant(s, tor)
    requires s.results != []
    ensures Invariant(MonitorStep(s), tor)
  {
    MonitorKeepsAccount(s, tor);
    if s.results[0].PieceComplete? {
      ReportedPieceIsMissing(s, tor);
      WriteKeepsFile(s, tor, s.results[0].piece);
      WriteKeepsBytes(s.monitor, tor, s.results[0].piece);
    }
  }

  // ----- Whole runs

  /** The invariant holds in every state of every run, whatever the peers, the network and the timers do. */
  lemma {:induction false} InvariantHolds(tor: Torrent, peers: nat, events: seq<Event>)
    requires tor.Usable()
    ensures Invariant(Run(Initial(tor, peers), tor, events), tor)
  {
    hide Hashing.Of;
    if events == [] {
      InitialInvariant(tor, peers);
    } else {
      var before := events[..|events| - 1];
      InvariantHolds(tor, peers, before);
      var s, e := Run(Initial(tor, peers), tor, before), events[|events| - 1];
      if Enabled(s, e) {
        if e.MonitorPops? {
          MonitorKeepsInvariant(s, tor);
        } else {
          HandlerKeepsInvariant(s, tor, e);
        }
      }
    }
  }

  /**
    In every reachable state each piece of the torrent is in exactly one
    place: the work queue, one peer, a pending result, or the file; and no
    other index is anywhere.
   */
  lemma EachPieceInOnePlace(tor: Torrent, peers: nat, events: seq<Event>, i: nat)
    requires tor.Usable()
    ensures var s := Run(Initial(tor, peers), tor, events);
            var written := if i < tor.Pieces() && i !in s.monitor.missing then 1 else 0;
            Queued(s.work, i) + Held(s.peers, i) + Pending(s.results, i) + written
            == if i < tor.Pieces() then 1 else 0
  {
    InvariantHolds(tor, peers, events);
    var s := Run(Initial(tor, peers), tor, events);
    assert Places(s, i) == if i in s.monitor.missing then 1 else 0;
  }

  /** No piece is in the work queue, with a peer, or in a pending result. */
  predicate NothingLeft(s: System) {
    && s.work == []
    && (forall k :: 0 <= k < |s.peers| ==> s.peers[k].peer.piece.None?)
    && (forall k :: 0 <= k < |s.results| ==> !s.results[k].PieceComplete?)
  }

  lemma CompleteLeavesNothing(s: System)
    requires Accounted(s) && s.monitor.missing == {}
    ensures NothingLeft(s)
  {
    if s.work != [] {
      assert Places(s, s.work[0]) == 0;
      QueuedMember(s.work, 0);
    }
    forall k | 0 <= k < |s.peers|
      ensures s.peers[k].peer.piece.None?
    {
      if s.peers[k].peer.piece.Some? {
        assert Places(s, s.peers[k].peer.piece.value.index) == 0;
        HeldMember(s.peers, k);
      }
    }
    forall k | 0 <= k < |s.results|
      ensures !s.results[k].PieceComplete?
    {
      if s.results[k].PieceComplete? {
        assert Places(s, s.results[k].piece.index) == 0;
        PendingMember(s.results, k);
      }
    }
  }

  /** Every piece that lies within the file has the hash the torrent names. */
  ghost predicate FileCorrect(file: seq<byte>, tor: Torrent) {
    && |file| == tor.fileLength
    && forall i: nat | IsWhole(tor, i) ::
         && i < |tor.pieceHashes|
         && RegionStart(tor, i) + tor.pieceLength <= |file| && Hashing.Of(Region(tor, file, i)) == tor.pieceHashes[i]
  }

  /**
    When the monitor finds the download complete, the file is correct, all its
    bytes but a remainder shorter than a piece have been counted, and no piece
    is left in the work queue, with a peer or in a pending result.
   */
  lemma CompleteDownloadIsCorrect(tor: Torrent, peers: nat, events: seq<Event>)
    requires tor.Usable()
    ensures var s := Run(Initial(tor, peers), tor, events);
            s.monitor.missing == {} ==>
              && FileCorrect(s.monitor.file, tor)
              && s.monitor.downloaded == tor.fileLength - tor.fileLength % tor.pieceLength
              && NothingLeft(s)
  {
    hide Run, Initial, FileCorrect, NothingLeft, Torrent.Pieces, Accounted, PeersOk, ResultsOk, FileOk, BytesOk;
    InvariantHolds(tor, peers, events);
    PieceCount(tor);
    var s := Run(Initial(tor, peers), tor, events);
    if s.monitor.missing == {} {
      CompleteStateIsCorrect(s, tor);
    }
  }

  lemma WrittenIsCorrect(m: Monitor, tor: Torrent, i: nat)
    requires tor.Usable() && FileOk(m, tor) && i < tor.Pieces() && i !in m.missing
    ensures i < |tor.pieceHashes| && |m.file| == tor.fileLength && RegionStart(tor, i) + tor.pieceLength <= |m.file|
    ensures Hashing.Of(Region(tor, m.file, i)) == tor.pieceHashes[i]
  {
    hide Hashing.Of, Region, RegionStart;
  }

  lemma BytesOfComplete(m: Monitor, tor: Torrent)
    requires tor.Usable() && BytesOk(m, tor) && FileOk(m, tor) && m.missing == {}
    ensures m.downloaded == tor.pieceLength * tor.Pieces() && |m.file| == tor.fileLength
  {
    hide Hashing.Of, Region, RegionStart, Torrent.Pieces;
  }

  lemma IsFileCorrect(file: seq<byte>, tor: Torrent)
    requires |file| == tor.fileLength
    requires forall i: nat | IsWhole(tor, i) ::
               && i < |tor.pieceHashes|
               && RegionStart(tor, i) + tor.pieceLength <= |file| && Hashing.Of(Region(tor, file, i)) == tor.pieceHashes[i]
    ensures FileCorrect(file, tor)
  {
    hide Hashing.Of, Region, RegionStart, IsWhole;
  }

  lemma CompleteStateIsCorrect(s: System, tor: Torrent)
    requires tor.Usable() && s.monitor.missing == {}
    requires Accounted(s) && FileOk(s.monitor, tor) && BytesOk(s.monitor, tor)
    ensures FileCorrect(s.monitor.file, tor)
    ensures s.monitor.downloaded == tor.pieceLength * tor.Pieces()
    ensures NothingLeft(s)
  {
    CompleteLeavesNothing(s);
    hide *;
    forall i: nat | IsWhole(tor, i)
      ensures i < |tor.pieceHashes| && RegionStart(tor, i) + tor.pieceLength <= |s.monitor.file|
      ensures Hashing.Of(Region(tor, s.monitor.file, i)) == tor.pieceHashes[i]
    {
      WholePieces(tor, i);
      WrittenIsCorrect(s.monitor, tor, i);
    }
    BytesOfComplete(s.monitor, tor);
    IsFileCorrect(s.monitor.file, tor);
  }

  /** Whether a step writes piece `i` to the file. */
  function WritesNow(s: System, e: Event, i: nat): nat {
    if Enabled(s, e) && e.MonitorPops? then Reports(s.results[0], i) else 0
  }

  /** How often a run writes piece `i` to the file. */
  function Writes(s: System, tor: Torrent, events: seq<Event>, i: nat): nat {
    if events == [] then 0
    else
      var before := events[..|events| - 1];
      Writes(s, tor, before, i) + WritesNow(Run(s, tor, before), events[|events| - 1], i)
  }

  lemma WriteEndsMissing(s: System, tor: Torrent, e: Event, i: nat)
    requires tor.Usable() && Invariant(s, tor)
    ensures WritesNow(s, e, i) == (if i in s.monitor.missing then 1 else 0)
                                - (if i in Step(s, tor, e).monitor.missing then 1 else 0)
  {
    hide FileOk, PeersOk, BytesOk, Handle, Held;
    if Enabled(s, e) && e.MonitorPops? && s.results[0].PieceComplete? {
      ReportedPieceIsMissing(s, tor);
    }
  }

  /** A run writes a piece once if it is no longer missing, and not at all while it is. */
  lemma {:induction false} WrittenOnce(tor: Torrent, peers: nat, events: seq<Event>, i: nat)
    requires tor.Usable()
    ensures Writes(Initial(tor, peers), tor, events, i)
            == if i < tor.Pieces() && i !in Run(Initial(tor, peers), tor, events).monitor.missing then 1 else 0
  {
    if events == [] {
    } else {
      var before := events[..|events| - 1];
      WrittenOnce(tor, peers, before, i);
      InvariantHolds(tor, peers, before);
      InvariantHolds(tor, peers, events);
      WriteEndsMissing(Run(Initial(tor, peers), tor, before), tor, events[|events| - 1], i);
      hide Step, WritesNow, Initial, Accounted, PeersOk, FileOk, ResultsOk, BytesOk;
    }
  }

  /** The remainder of the file, which is shorter than a piece, is never written. */
  lemma TailStaysEmpty(tor: Torrent, peers: nat, events: seq<Event>, x: nat)
    requires tor.Usable() && tor.fileLength - tor.fileLength % tor.pieceLength <= x < tor.fileLength
    ensures var file := Run(Initial(tor, peers), tor, events).monitor.file; x < |file| && file[x] == 0
  {
    hide Run, Initial, Torrent.Pieces, Accounted, PeersOk, ResultsOk, FileOk, BytesOk;
    PieceCount(tor);
    InvariantHolds(tor, peers, events);
    TailIsEmpty(Run(Initial(tor, peers), tor, events), tor, x);
  }

  lemma TailIsEmpty(s: System, tor: Torrent, x: nat)
    requires tor.Usable() && FileOk(s.monitor, tor) && tor.pieceLength * tor.Pieces() <= x < tor.fileLength
    ensures x < |s.monitor.file| && s.monitor.file[x] == 0
  {
    hide Hashing.Of, Region, Torrent.Pieces;
  }

  predicate InRegion(tor: Torrent, i: nat, x: nat) {
    RegionStart(tor, i) <= x < RegionStart(tor, i) + tor.pieceLength
  }

  /** Byte `x` of the file belongs to some piece. */
  ghost predicate Covered(tor: Torrent, x: nat)
    requires tor.Usable()
  {
    exists i: nat :: i < tor.Pieces() && InRegion(tor, i, x)
  }

  lemma QuotientBelow(x: nat, length: nat, n: nat)
    requires 0 < length && x < n * length
    ensures var i := x / length; i < n && i * length <= x < i * length + length
  {
    var i := x / length;
    assert x == i * length + x % length;
    if n <= i {
      ProductGrows(n, i, length);
    }
  }

  lemma CoveredBelow(tor: Torrent, n: nat, x: nat)
    requires tor.Usable() && n == tor.Pieces() && x < n * tor.pieceLength
    ensures Covered(tor, x)
  {
    QuotientBelow(x, tor.pieceLength, n);
    assert InRegion(tor, x / tor.pieceLength, x);
  }

  lemma UncoveredAbove(tor: Torrent, x: nat)
    requires tor.Usable() && RegionStart(tor, tor.Pieces()) <= x
    ensures !Covered(tor, x)
  {
    forall i: nat | i < tor.Pieces()
      ensures !InRegion(tor, i, x)
    {
      RegionsFit(tor, i);
    }
  }

  /**
    The pieces cover the whole file exactly when the piece length divides the
    file length: the number of pieces is rounded down, so a shorter last
    piece is never asked for.
   */
  lemma PiecesCoverFile(tor: Torrent)
    requires tor.Usable()
    ensures (forall x: nat :: x < tor.fileLength ==> Covered(tor, x)) <==> tor.fileLength % tor.pieceLength == 0
  {
    var n := tor.Pieces();
    assert tor.fileLength == n * tor.pieceLength + tor.fileLength % tor.pieceLength;
    forall x: nat | x < n * tor.pieceLength
      ensures Covered(tor, x)
    {
      CoveredBelow(tor, n, x);
    }
    UncoveredAbove(tor, n * tor.pieceLength);
  }

  /**
    In every run, when a message has been handled and its peer is open,
    unchoked, has a bitfield and holds a piece, the pipeline of that peer is
    full: PIPELINE_LIMIT blocks are outstanding, or all that are not filled.
   */
  lemma PipelineIsFull(tor: Torrent, peers: nat, events: seq<Event>, e: Event)
    requires tor.Usable() && e.Received? && e.msg.ty.Some?
    ensures var s := Run(Initial(tor, peers), tor, events);
            Enabled(s, e) ==>
              var p := Step(s, tor, e).peers[e.k].peer;
              !p.closed && !p.choked && p.available != [] && p.piece.Some? ==>
                var todo := Unfilled(p.piece.value);
                && Pipelined(p)
                && p.outstanding.Keys <= todo
                && |p.outstanding| == if |todo| < PIPELINE_LIMIT then |todo| else PIPELINE_LIMIT
  {
    InvariantHolds(tor, peers, events);
    var s := Run(Initial(tor, peers), tor, events);
    if Enabled(s, e) {
      PipelineFills(s, tor, e);
    }
    hide Run, Initial, Invariant, Pipelined;
  }

  lemma PipelineFills(s: System, tor: Torrent, e: Event)
    requires tor.Usable() && PeersOk(s, tor)
    requires Enabled(s, e) && e.Received? && e.msg.ty.Some?
    ensures var p := Step(s, tor, e).peers[e.k].peer;
            !p.closed && !p.choked && p.available != [] && p.piece.Some? ==>
              var todo := Unfilled(p.piece.value);
              && Pipelined(p)
              && p.outstanding.Keys <= todo
              && |p.outstanding| == if |todo| < PIPELINE_LIMIT then |todo| else PIPELINE_LIMIT
  {
    var l := LocalOf(s, e.k);
    var d := Dispatch(l, e.k, tor, e.msg, e.junk, e.heap);
    StaysClosed(l, e.k, tor, e.msg, e.junk, e.heap);
    if !l.peer.closed {
      DispatchKeepsPipeline(l, e.k, tor, e.msg, e.junk, e.heap);
      DownloadFillsPipeline(d, tor);
      DownloadKeepsAvailability(d, tor);
      hide Dispatch, Download;
      if Download(d, tor).peer.piece.Some? {
        OutstandingIsUnfilled(Download(d, tor).peer);
      }
    }
  }

  lemma {:induction false} DownloadKeepsAvailability(l: Local, tor: Torrent)
    ensures Download(l, tor).peer.choked == l.peer.choked
    ensures Download(l, tor).peer.available == l.peer.available
    decreases l.peer.piece.None?, Idle(l)
  {
    if |l.peer.outstanding| < PIPELINE_LIMIT && Requests(l, tor) {
      TurnTakesABlock(l, tor);
      DownloadKeepsAvailability(Turn(l, tor), tor);
    }
  }

  /**
    A peer without a piece takes the front one of the work queue if and only
    if the pipeline has room, the peer is not choked, has a bitfield and has
    that piece. Whether it is closed does not matter.
   */
  lemma IdlePeerTakesPiece(l: Local, tor: Torrent)
    requires l.peer.piece.None?
    ensures Download(l, tor).peer.piece.Some?
            <==> |l.peer.outstanding| < PIPELINE_LIMIT && !l.peer.choked && l.peer.available != []
                 && l.work != [] && HasPiece(l.peer.available, l.work[0])
  {
    if |l.peer.outstanding| < PIPELINE_LIMIT && Requests(l, tor) {
      TurnTakesABlock(l, tor);
      DownloadKeepsPiece(Turn(l, tor), tor);
    }
  }

  lemma {:induction false} DownloadKeepsPiece(l: Local, tor: Torrent)
    requires l.peer.piece.Some?
    ensures Download(l, tor).peer.piece.Some? && Download(l, tor).work == l.work
    decreases l.peer.piece.None?, Idle(l)
  {
    if |l.peer.outstanding| < PIPELINE_LIMIT && Requests(l, tor) {
      TurnTakesABlock(l, tor);
      DownloadKeepsPiece(Turn(l, tor), tor);
    }
  }
}
