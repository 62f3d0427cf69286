/** What peers are asked for, and what becomes of a piece when its peer fails, over whole runs. */
module PeerConduct {
  import opened Bytes
  import opened Pieces
  import opened Messages
  import opened PeerProtocol
  import opened Swarm
  import Hashing

  // ----- Bitfields

  function PowerOfTwo(k: nat): (p: nat)
    ensures p > 0
  {
    if k == 0 then 1 else 2 * PowerOfTwo(k - 1)
  }

  lemma Powers()
    ensures PowerOfTwo(1) == 2 && PowerOfTwo(2) == 4 && PowerOfTwo(3) == 8 && PowerOfTwo(4) == 16
    ensures PowerOfTwo(0) == 1 && PowerOfTwo(5) == 32 && PowerOfTwo(6) == 64 && PowerOfTwo(7) == 128
  {
    assert PowerOfTwo(3) == 2 * PowerOfTwo(2);
    assert PowerOfTwo(4) == 2 * PowerOfTwo(3);
    assert PowerOfTwo(5) == 2 * PowerOfTwo(4);
    assert PowerOfTwo(6) == 2 * PowerOfTwo(5);
    assert PowerOfTwo(7) == 2 * PowerOfTwo(6);
  }

  lemma {:induction false} BitsLength(payload: seq<byte>)
    ensures |Bits(payload)| == 8 * |payload|
  {
    if payload == [] {
    } else {
      BitsLength(payload[..|payload| - 1]);
    }
  }

  /** Bit `k` of a byte, counted from the high end. */
  predicate BitSet(c: byte, k: nat)
    requires k < 8
  {
    c / PowerOfTwo(7 - k) % 2 == 1
  }

  lemma BitOfByte(c: byte, k: nat)
    requires k < 8
    ensures ByteBits(c)[k] <==> BitSet(c, k)
  {
    Powers();
    hide PowerOfTwo;
  }

  /**
    A bitfield says that its peer has piece `8 * b + k` if and only if bit `k`
    of its byte `b` is set, the high bit of the first byte standing for piece 0.
   */
  lemma {:induction false} BitfieldNamesPieces(payload: seq<byte>, b: nat, k: nat)
    requires k < 8
    ensures HasPiece(Bits(payload), 8 * b + k) <==> b < |payload| && BitSet(payload[b], k)
  {
    hide BitSet, ByteBits;
    BitsLength(payload);
    if b < |payload| {
      var n := |payload| - 1;
      BitsLength(payload[..n]);
      if b < n {
        BitfieldNamesPieces(payload[..n], b, k);
      } else {
        BitOfByte(payload[n], k);
      }
      hide Bits;
    }
  }

  // ----- Requests

  lemma HandlePieceSends(l: Local, me: nat, tor: Torrent, payload: seq<byte>, junk: nat, heap: seq<byte>)
    ensures var p := HandlePiece(l, me, tor, payload, junk, heap).peer;
            p.sent == l.peer.sent && p.choked == l.peer.choked && p.available == l.peer.available
  {
    hide Pieces.Accept, AcceptStatus, Finalize, NamedBlock, IsComplete, Release, Hashing.Of;
  }

  /** Handling a message other than Unchoke while choked, or a Choke, sends no request. */
  lemma ChokedPeerRequestsNothing(l: Local, me: nat, tor: Torrent, msg: Message, junk: nat, heap: seq<byte>)
    requires msg.ty == Some(Choke) || (l.peer.choked && msg.ty != Some(Unchoke))
    ensures HandleMessage(l, me, tor, msg, junk, heap).peer.choked
    ensures HandleMessage(l, me, tor, msg, junk, heap).peer.sent == l.peer.sent
  {
    hide Bits, HandlePiece;
    HandlePieceSends(l, me, tor, msg.payload, junk, heap);
    var d := Dispatch(l, me, tor, msg, junk, heap);
    assert d.peer.sent == l.peer.sent && (msg.ty.Some? ==> d.peer.choked);
  }

  /** Only Choke, Unchoke and Bitfield change whether the peer is choked and what it has; the download loop does not. */
  lemma FlagsFollowMessages(l: Local, me: nat, tor: Torrent, msg: Message, junk: nat, heap: seq<byte>)
    ensures var p := HandleMessage(l, me, tor, msg, junk, heap).peer;
            && p.choked == (if msg.ty == Some(Choke) then true else if msg.ty == Some(Unchoke) then false else l.peer.choked)
            && p.available == (if msg.ty == Some(Bitfield) then Bits(msg.payload) else l.peer.available)
  {
    hide Bits, Download, HandlePiece;
    HandlePieceSends(l, me, tor, msg.payload, junk, heap);
    if msg.ty.Some? {
      DownloadKeepsAvailability(Dispatch(l, me, tor, msg, junk, heap), tor);
    }
  }

  /** A request for bytes of a piece of the torrent, and for no more than a block. */
  predicate InRange(r: BlockRequest, tor: Torrent)
    requires tor.Usable()
  {
    r.piece < tor.Pieces() && 0 <= r.offset && 0 < r.length <= BLOCK_SIZE && r.offset + r.length <= tor.pieceLength
  }

  ghost predicate SentOk(p: PeerState, tor: Torrent)
    requires tor.Usable()
  {
    && (p.piece.Some? ==> |p.piece.value.blocks| <= BlockCount(p.piece.value.size))
    && forall r :: r in p.sent ==> InRange(r, tor)
  }

  lemma TurnSendsInRange(l: Local, tor: Torrent)
    requires tor.Usable() && LocalOk(l, tor) && SentOk(l.peer, tor)
    ensures SentOk(Turn(l, tor).peer, tor)
  {
    if Requests(l, tor) {
      var q := TakePiece(l, tor).peer.piece.value;
      if l.peer.piece.None? {
        assert l.work[0] in l.work;
      }
      BlocksTilePiece(q.size, NextBlock(q).value);
    }
  }

  lemma {:induction false} DownloadSendsInRange(l: Local, tor: Torrent)
    requires tor.Usable() && LocalOk(l, tor) && SentOk(l.peer, tor)
    ensures SentOk(Download(l, tor).peer, tor)
    decreases l.peer.piece.None?, Idle(l)
  {
    TurnSendsInRange(l, tor);
    TurnOk(l, tor);
    if |l.peer.outstanding| < PIPELINE_LIMIT && Requests(l, tor) {
      TurnTakesABlock(l, tor);
      DownloadSendsInRange(Turn(l, tor), tor);
    }
  }

  lemma HandlePieceSendsNothing(l: Local, me: nat, tor: Torrent, payload: seq<byte>, junk: nat, heap: seq<byte>)
    requires tor.Usable() && SentOk(l.peer, tor)
    ensures SentOk(HandlePiece(l, me, tor, payload, junk, heap).peer, tor)
  {
    hide Hashing.Of, FromBigEndian, DataLength, Joined, BlockCount, InRange;
  }

  lemma HandleSendsInRange(l: Local, k: nat, tor: Torrent, e: Event)
    requires tor.Usable() && LocalOk(l, tor) && SentOk(l.peer, tor)
    ensures SentOk(Handle(l, k, tor, e).peer, tor)
  {
    hide Hashing.Of, BlockCount, InRange;
    match e
    case Received(_, msg, junk, heap) =>
      if msg.ty.Some? {
        if msg.ty == Some(Piece) {
          HandlePieceSendsNothing(l, k, tor, msg.payload, junk, heap);
          HandlePieceOk(l, k, tor, msg.payload, junk, heap);
        }
        DownloadSendsInRange(Dispatch(l, k, tor, msg, junk, heap), tor);
      }
    case _ =>
  }

  /** In every run, every request ever sent asks for a non-empty range of at most a block within a piece of the torrent. */
  lemma {:induction false} RequestsStayInPieces(tor: Torrent, peers: nat, events: seq<Event>, k: nat)
    requires tor.Usable() && k < peers
    ensures var s := Swarm.Run(Initial(tor, peers), tor, events);
            |s.peers| == peers && SentOk(s.peers[k].peer, tor)
  {
    if events == [] {
    } else {
      var before, e := events[..|events| - 1], events[|events| - 1];
      RequestsStayInPieces(tor, peers, before, k);
      InvariantHolds(tor, peers, before);
      var s := Swarm.Run(Initial(tor, peers), tor, before);
      if Enabled(s, e) && !e.MonitorPops? && e.k == k {
        GivenInOrder(s, tor, k);
        HandleSendsInRange(LocalOf(s, k), k, tor, e);
      }
      hide Handle, Invariant, SentOk, LocalOk;
    }
  }

  // ----- Failures

  /** The events after which a peer is given up, a message of unknown type aside. */
  predicate Fails(e: Event) {
    e.ConnectFailed? || e.LengthReadFailed? || e.BodyReadFailed? || e.TimedOut?
  }

  /** A peer can fail to connect while it connects, a read can fail while one is outstanding, and a block can time out at any time. */
  predicate CanFail(s: System, e: Event) {
    match e
    case ConnectFailed(k) => k < |s.peers| && s.peers[k].phase.Connecting?
    case LengthReadFailed(k) => k < |s.peers| && s.peers[k].phase.Reading?
    case BodyReadFailed(k) => k < |s.peers| && s.peers[k].phase.Reading?
    case TimedOut(k) => k < |s.peers|
    case _ => false
  }

  /**
    A peer that fails gives its piece back at once: it goes to the end of the
    work queue, for others to take. Unless it is a body that was cut short,
    the peer is closed and reported as dropped. Nothing else about it changes.
   */
  lemma FailureReturnsPiece(s: System, tor: Torrent, e: Event)
    requires CanFail(s, e)
    ensures var p, t := s.peers[e.k].peer, Step(s, tor, e);
            var q := t.peers[e.k].peer;
            && |t.peers| == |s.peers|
            && q.piece.None?
            && t.work == s.work + (if p.piece.Some? then [p.piece.value.index] else [])
            && t.results == s.results + (if e.BodyReadFailed? then [] else [PeerDropped(e.k)])
            && q.closed == (p.closed || !e.BodyReadFailed?)
            && q.outstanding.Keys == p.outstanding.Keys
            && q.choked == p.choked && q.available == p.available && q.sent == p.sent
            && t.peers[e.k].phase == (if e.TimedOut? then s.peers[e.k].phase else Stopped)
  {
    Nothing(s.results);
  }

  /** Reading starts when the peer has connected, goes on after every message of known type, and ends for good otherwise. */
  lemma PhasesFollowEvents(s: System, tor: Torrent, e: Event, k: nat)
    requires k < |s.peers|
    ensures var phase, next := s.peers[k].phase, Step(s, tor, e).peers[k].phase;
            && |Step(s, tor, e).peers| == |s.peers|
            && (phase.Connecting? ==> next == if e == Connected(k) then Reading else if e == ConnectFailed(k) then Stopped else phase)
            && (phase.Reading? ==>
                  next == if e == LengthReadFailed(k) || e == BodyReadFailed(k) || IsUnknownTo(e, k) then Stopped else phase)
            && (phase.Stopped? ==> next == phase)
  {
    StepOfPeer(s, tor, e, k);
    hide Step, Handle;
  }

  /** A request that could not be written makes its block available again, if the block is of the piece in hand and still unfilled. */
  lemma WriteFailureFreesBlock(s: System, tor: Torrent, k: nat, b: nat)
    requires k < |s.peers| && s.peers[k].peer.piece.Some? && b in s.peers[k].peer.outstanding
    ensures var p, r := s.peers[k].peer, Step(s, tor, WriteFailed(k, b)).peers[k].peer;
            && |Step(s, tor, WriteFailed(k, b)).peers| == |s.peers|
            && r.outstanding == p.outstanding - {b} && r.piece.Some?
            && var q := p.piece.value;
               if p.outstanding[b] && b < |q.blocks| && !q.blocks[b].filled then
                 Available(r.piece.value) == Available(q) + {b}
               else
                 Available(r.piece.value) == Available(q)
  {
    hide BlockCount;
  }

  /** Whatever is wrong with a reply, its block can be asked for again, if it is still unfilled. */
  lemma RefusedReplyFreesBlock(l: Local, payload: seq<byte>, junk: nat)
    requires l.peer.piece.Some? && AcceptStatus(l.peer.piece.value, payload) != Ok
    requires NamedBlock(payload, junk) in l.peer.outstanding && l.peer.outstanding[NamedBlock(payload, junk)]
    ensures var q, b, r := l.peer.piece.value, NamedBlock(payload, junk), AfterAccept(l, payload, junk).peer;
            && b !in r.outstanding
            && (b < |q.blocks| && !q.blocks[b].filled ==> Available(r.piece.value) == Available(q) + {b})
  {
    hide BlockCount, AcceptStatus, NamedBlock;
  }

  // ----- Requests that are sent

  /**
    A turn of the download loop that requests a block sends one request: for
    16 KiB from the start of a block that was available, or up to the end of
    the piece; the block is outstanding then, and not available any more.
   */
  lemma TurnSendsOneRequest(l: Local, tor: Torrent)
    requires Requests(l, tor)
    ensures var q, t := TakePiece(l, tor).peer.piece.value, Turn(l, tor).peer;
            exists i: nat ::
              && i in Available(q) && i in t.outstanding
              && t.piece.Some? && i !in Available(t.piece.value)
              && t.sent == l.peer.sent + [BlockRequest(q.index, 16384 * i, if q.size - 16384 * i < 16384 then q.size - 16384 * i else 16384)]
  {
    var q := TakePiece(l, tor).peer.piece.value;
    ReserveTakesOne(q);
    var i := NextBlock(q).value;
    assert i in Available(q) && i in Turn(l, tor).peer.outstanding;
  }

  /** A piece that the peer does not have goes from the front of the work queue to its end. */
  lemma UnavailablePieceIsPutBack(l: Local, tor: Torrent)
    requires l.peer.piece.None? && |l.peer.outstanding| < PIPELINE_LIMIT && !l.peer.choked && l.peer.available != []
    requires l.work != [] && !HasPiece(l.peer.available, l.work[0])
    ensures var t := Download(l, tor);
            && t.peer.piece.None? && t.work == l.work[1..] + [l.work[0]] && t.results == l.results && t.peer.sent == l.peer.sent
  {
  }

  /** Peer `k` has sent a message of type `ty`. */
  ghost predicate Told(events: seq<Event>, k: nat, ty: MessageType) {
    exists i :: 0 <= i < |events| && events[i].Received? && events[i].k == k && events[i].msg.ty == Some(ty)
  }

  ghost predicate AskedFor(p: PeerState, events: seq<Event>, k: nat) {
    && (!p.choked ==> Told(events, k, Unchoke))
    && (p.available != [] ==> Told(events, k, Bitfield))
    && (p.sent != [] ==> Told(events, k, Unchoke) && Told(events, k, Bitfield))
  }

  lemma ToldLater(events: seq<Event>, e: Event, k: nat, ty: MessageType)
    ensures Told(events, k, ty) ==> Told(events + [e], k, ty)
    ensures e.Received? && e.k == k && e.msg.ty == Some(ty) ==> Told(events + [e], k, ty)
  {
    var later := events + [e];
    assert later[|events|] == e;
    assert forall i :: 0 <= i < |events| ==> later[i] == events[i];
  }

  lemma NothingAvailable(l: Local, tor: Torrent)
    requires l.peer.choked || l.peer.available == []
    ensures Download(l, tor) == l
  {
  }

  /** What the handler of an event can change about what was sent. */
  lemma HandleSends(l: Local, k: nat, tor: Torrent, e: Event)
    ensures var p := Handle(l, k, tor, e).peer;
            && (!p.choked ==> !l.peer.choked || (e.Received? && e.msg.ty == Some(Unchoke)))
            && (p.available != [] ==> l.peer.available != [] || (e.Received? && e.msg.ty == Some(Bitfield)))
            && (p.sent == l.peer.sent || (!p.choked && p.available != []))
  {
    hide Hashing.Of, Download, HandlePiece, Bits;
    if e.Received? && e.msg.ty.Some? {
      var d := Dispatch(l, k, tor, e.msg, e.junk, e.heap);
      FlagsFollowMessages(l, k, tor, e.msg, e.junk, e.heap);
      HandlePieceSends(l, k, tor, e.msg.payload, e.junk, e.heap);
      if d.peer.choked || d.peer.available == [] {
        NothingAvailable(d, tor);
      }
      DownloadKeepsAvailability(d, tor);
    }
  }

  /** In every run no request is sent to a peer that has not unchoked and said what it has. */
  lemma {:induction false} OnlyAskedPeersAreSent(tor: Torrent, peers: nat, events: seq<Event>, k: nat)
    requires tor.Usable() && k < peers
    ensures var s := Swarm.Run(Initial(tor, peers), tor, events);
            |s.peers| == peers && AskedFor(s.peers[k].peer, events, k)
  {
    if events == [] {
    } else {
      var n := |events| - 1;
      var before, e := events[..n], events[n];
      OnlyAskedPeersAreSent(tor, peers, before, k);
      var s := Swarm.Run(Initial(tor, peers), tor, before);
      assert events == before + [e];
      ToldLater(before, e, k, Unchoke);
      ToldLater(before, e, k, Bitfield);
      StepOfPeer(s, tor, e, k);
      HandleSends(LocalOf(s, k), k, tor, e);
      hide Step, Handle, Told, Initial;
    }
  }

  /** Messages that say nothing about the download leave a peer as it is when it has nothing to request. */
  lemma OtherMessagesChangeNothing(l: Local, me: nat, tor: Torrent, msg: Message, junk: nat, heap: seq<byte>)
    requires msg.ty.None? || msg.ty.value in {Interested, NotInterested, Have, Request, Cancel, Extension}
    requires msg.ty.None? || |l.peer.outstanding| >= PIPELINE_LIMIT || l.peer.choked || l.peer.available == []
    ensures HandleMessage(l, me, tor, msg, junk, heap) == l
  {
    hide HandlePiece, Bits;
  }

  // ----- Steps

  /** What a step does to peer `k`: nothing, unless it is the handler of an event of that peer. */
  lemma StepOfPeer(s: System, tor: Torrent, e: Event, k: nat)
    requires k < |s.peers|
    ensures |Step(s, tor, e).peers| == |s.peers|
    ensures Step(s, tor, e).peers[k]
            == if Enabled(s, e) && !e.MonitorPops? && e.k == k then
                 Node(Handle(LocalOf(s, k), k, tor, e).peer, NextPhase(s.peers[k].phase, e))
               else s.peers[k]
  {
    hide Handle;
  }

  /**
    A peer whose read chain has ended stays so. It takes no piece any more,
    and the only thing that takes a piece from it is a block that times out.
   */
  lemma StoppedPeerStep(s: System, tor: Torrent, e: Event, k: nat)
    requires k < |s.peers| && s.peers[k].phase.Stopped?
    ensures |Step(s, tor, e).peers| == |s.peers| && Step(s, tor, e).peers[k].phase.Stopped?
    ensures Step(s, tor, e).peers[k].peer.piece.Some? <==> s.peers[k].peer.piece.Some? && e != TimedOut(k)
  {
    StepOfPeer(s, tor, e, k);
    hide Step, HandleMessage;
  }

  /** The event of peer `k` after which its read chain ends, and whether it holds a piece then. */
  lemma RunningPeerStep(s: System, tor: Torrent, e: Event, k: nat)
    requires k < |s.peers| && !s.peers[k].phase.Stopped?
    ensures |Step(s, tor, e).peers| == |s.peers|
    ensures Step(s, tor, e).peers[k].phase.Stopped? && Step(s, tor, e).peers[k].peer.piece.Some?
            <==> Enabled(s, e) && IsUnknownTo(e, k) && s.peers[k].peer.piece.Some?
  {
    StepOfPeer(s, tor, e, k);
    hide Step, HandleMessage;
  }

  /** A message of unknown type for peer `k`. */
  predicate IsUnknownTo(e: Event, k: nat) {
    e.Received? && e.k == k && e.msg.ty.None?
  }

  /** Event `i` is a message of unknown type that found peer `k` holding a piece, and no block of the peer timed out since. */
  ghost predicate StrandedAt(tor: Torrent, peers: nat, events: seq<Event>, k: nat, i: nat)
    requires tor.Usable()
  {
    && i < |events| && IsUnknownTo(events[i], k)
    && (var s := Swarm.Run(Initial(tor, peers), tor, events[..i]);
        k < |s.peers| && Enabled(s, events[i]) && s.peers[k].peer.piece.Some?)
    && forall j :: i < j < |events| ==> events[j] != TimedOut(k)
  }

  lemma StrandedLater(tor: Torrent, peers: nat, before: seq<Event>, e: Event, k: nat, i: nat)
    requires tor.Usable() && i < |before|
    ensures StrandedAt(tor, peers, before + [e], k, i) <==> StrandedAt(tor, peers, before, k, i) && e != TimedOut(k)
  {
    hide Swarm.Run, Initial, Enabled, IsUnknownTo;
    var events := before + [e];
    assert events[..i] == before[..i] && events[i] == before[i] && events[|before|] == e;
    assert forall j :: 0 <= j < |before| ==> events[j] == before[j];
  }

  /** Peer `k` has ended its read chain and still holds a piece. */
  predicate Strands(s: System, k: nat) {
    k < |s.peers| && s.peers[k].phase.Stopped? && s.peers[k].peer.piece.Some?
  }

  /**
    In every run, a peer whose read chain has ended holds a piece if and only
    if it held one when it got a message of unknown type and none of its
    blocks has timed out since.
   */
  lemma {:induction false} StoppedPeerHoldsPiece(tor: Torrent, peers: nat, events: seq<Event>, k: nat)
    requires tor.Usable() && k < peers
    ensures |Swarm.Run(Initial(tor, peers), tor, events).peers| == peers
    ensures Strands(Swarm.Run(Initial(tor, peers), tor, events), k)
            <==> exists i: nat :: StrandedAt(tor, peers, events, k, i)
  {
    if events == [] {
    } else {
      var n := |events| - 1;
      var before, e := events[..n], events[n];
      assert events == before + [e];
      StoppedPeerHoldsPiece(tor, peers, before, k);
      StrandsStep(tor, peers, before, e, k);
      hide Strands, StrandedAt, Swarm.Run, Initial;
    }
  }

  lemma StrandsStep(tor: Torrent, peers: nat, before: seq<Event>, e: Event, k: nat)
    requires tor.Usable() && k < peers
    requires |Swarm.Run(Initial(tor, peers), tor, before).peers| == peers
    requires Strands(Swarm.Run(Initial(tor, peers), tor, before), k)
             <==> exists i: nat :: StrandedAt(tor, peers, before, k, i)
    ensures |Swarm.Run(Initial(tor, peers), tor, before + [e]).peers| == peers
    ensures Strands(Swarm.Run(Initial(tor, peers), tor, before + [e]), k)
            <==> exists i: nat :: StrandedAt(tor, peers, before + [e], k, i)
  {
    var s := Swarm.Run(Initial(tor, peers), tor, before);
    RunStep(Initial(tor, peers), tor, before, e);
    var n := |before|;
    NewlyStranded(tor, peers, before, e, k);
    forall i: nat
      ensures StrandedAt(tor, peers, before + [e], k, i)
              <==> (i < n && StrandedAt(tor, peers, before, k, i) && e != TimedOut(k))
                   || (i == n && Enabled(s, e) && IsUnknownTo(e, k) && s.peers[k].peer.piece.Some?)
    {
      if i < n {
        StrandedLater(tor, peers, before, e, k, i);
      }
    }
    if s.peers[k].phase.Stopped? {
      StoppedPeerStep(s, tor, e, k);
    } else {
      RunningPeerStep(s, tor, e, k);
    }
    hide Swarm.Run, Initial, Step, StrandedAt;
    if Enabled(s, e) && IsUnknownTo(e, k) && s.peers[k].peer.piece.Some? {
      assert StrandedAt(tor, peers, before + [e], k, n);
    }
    if exists i: nat :: StrandedAt(tor, peers, before, k, i) {
      var i: nat :| StrandedAt(tor, peers, before, k, i);
      assert StrandedAt(tor, peers, before + [e], k, i) <==> e != TimedOut(k);
    }
  }

  lemma RunStep(s: System, tor: Torrent, before: seq<Event>, e: Event)
    ensures Swarm.Run(s, tor, before + [e]) == Step(Swarm.Run(s, tor, before), tor, e)
  {
    assert (before + [e])[..|before|] == before;
  }

  lemma NewlyStranded(tor: Torrent, peers: nat, before: seq<Event>, e: Event, k: nat)
    requires tor.Usable()
    ensures var s := Swarm.Run(Initial(tor, peers), tor, before);
            StrandedAt(tor, peers, before + [e], k, |before|)
            <==> k < |s.peers| && Enabled(s, e) && IsUnknownTo(e, k) && s.peers[k].peer.piece.Some?
  {
    hide Swarm.Run, Initial, Enabled, IsUnknownTo;
    assert (before + [e])[..|before|] == before;
  }
}
