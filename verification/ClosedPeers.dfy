/** Closed peers: when they take a piece all the same, and when they hold one. */
module ClosedPeers {
  import opened Bytes
  import opened Pieces
  import opened Messages
  import opened PeerProtocol
  import opened Swarm
  import PeerConduct
  import Hashing

  /** The piece of `l` after a payload was accepted and the block it names released. */
  function PieceAfter(l: Local, payload: seq<byte>, junk: nat): PieceState
    requires l.peer.piece.Some?
  {
    AfterAccept(l, payload, junk).peer.piece.value
  }

  /** The payload completes the piece, and what was downloaded has the wrong hash. */
  predicate FailsCheck(l: Local, tor: Torrent, payload: seq<byte>, junk: nat, heap: seq<byte>) {
    && l.peer.piece.Some?
    && AcceptStatus(l.peer.piece.value, payload) == Ok
    && IsComplete(PieceAfter(l, payload, junk))
    && Hashing.Of(Finalize(PieceAfter(l, payload, junk), heap).finalized.value) != tor.PieceHash(l.peer.piece.value.index)
  }

  lemma FailedCheckCloses(l: Local, me: nat, tor: Torrent, payload: seq<byte>, junk: nat, heap: seq<byte>)
    requires FailsCheck(l, tor, payload, junk, heap)
    ensures var r := HandlePiece(l, me, tor, payload, junk, heap);
            && r.peer.closed && r.peer.piece.None? && r.peer.outstanding == map[]
            && r.work == l.work + [l.peer.piece.value.index]
            && r.peer.choked == l.peer.choked && r.peer.available == l.peer.available
  {
    hide Hashing.Of, Pieces.Accept, AcceptStatus, IsComplete, NamedBlock, Release, Pieces.Joined, Overwrite;
    assert Stale(map[]) == map[];
  }

  /**
    After a failed hash check the peer is closed, and yet the same handler
    takes the next piece of the work queue, if the peer is not choked and has it.
   */
  lemma FailedCheckTakesPiece(l: Local, me: nat, tor: Torrent, msg: Message, junk: nat, heap: seq<byte>)
    requires msg.ty == Some(Piece) && FailsCheck(l, tor, msg.payload, junk, heap)
    ensures var p := HandleMessage(l, me, tor, msg, junk, heap).peer;
            && p.closed
            && (p.piece.Some? <==> !l.peer.choked && l.peer.available != []
                                   && HasPiece(l.peer.available, (l.work + [l.peer.piece.value.index])[0]))
  {
    hide HandlePiece, Hashing.Of, HasPiece, Download, PieceAfter, AcceptStatus, IsComplete;
    FailedCheckCloses(l, me, tor, msg.payload, junk, heap);
    var r := HandlePiece(l, me, tor, msg.payload, junk, heap);
    IdlePeerTakesPiece(r, tor);
    DownloadKeepsClosed(r, tor);
  }

  // ----- Over whole runs

  /** Whether the download loop of a peer without a piece takes one. */
  predicate Takes(l: Local) {
    && |l.peer.outstanding| < PIPELINE_LIMIT && !l.peer.choked && l.peer.available != []
    && l.work != [] && HasPiece(l.peer.available, l.work[0])
  }

  /** Event `e` is a message of known type that is handled by peer `k`. */
  predicate Handles(s: System, e: Event, k: nat) {
    Enabled(s, e) && e.Received? && e.k == k && e.msg.ty.Some?
  }

  /** Peer `k` and the queues when the message has taken effect and the download loop starts. */
  function BeforeLoop(s: System, tor: Torrent, e: Event, k: nat): Local
    requires k < |s.peers| && Handles(s, e, k)
  {
    Dispatch(LocalOf(s, k), k, tor, e.msg, e.junk, e.heap)
  }

  /** Peer `k` is closed and without a piece when its download loop starts, and the loop takes one. */
  predicate TakesClosed(s: System, tor: Torrent, e: Event, k: nat) {
    && k < |s.peers| && Handles(s, e, k)
    && var l := BeforeLoop(s, tor, e, k);
       l.peer.closed && l.peer.piece.None? && Takes(l)
  }

  /** Peer `k` fails, or a message makes it part with its piece. */
  predicate Loses(s: System, tor: Torrent, e: Event, k: nat) {
    && k < |s.peers| && Enabled(s, e)
    && ((PeerConduct.Fails(e) && e.k == k) || (Handles(s, e, k) && BeforeLoop(s, tor, e, k).peer.piece.None?))
  }

  predicate HoldsClosed(s: System, k: nat) {
    k < |s.peers| && s.peers[k].peer.closed && s.peers[k].peer.piece.Some?
  }

  /** A message that leaves a peer closed and holding a piece found it so. */
  lemma DispatchCloses(l: Local, me: nat, tor: Torrent, msg: Message, junk: nat, heap: seq<byte>)
    ensures var d := Dispatch(l, me, tor, msg, junk, heap);
            && (l.peer.closed ==> d.peer.closed)
            && (d.peer.closed && d.peer.piece.Some? ==> l.peer.closed && l.peer.piece.Some?)
  {
    hide Bits, Hashing.Of, Pieces.Accept, AcceptStatus, IsComplete, NamedBlock, Release, Finalize;
  }

  lemma LoopOfClosed(d: Local, tor: Torrent)
    ensures Download(d, tor).peer.closed == d.peer.closed
    ensures Download(d, tor).peer.piece.Some? <==> d.peer.piece.Some? || Takes(d)
  {
    hide Download, HasPiece;
    DownloadKeepsClosed(d, tor);
    if d.peer.piece.Some? {
      DownloadKeepsPiece(d, tor);
    } else {
      IdlePeerTakesPiece(d, tor);
    }
  }

  lemma HandlingClosed(s: System, tor: Torrent, e: Event, k: nat)
    requires k < |s.peers| && Handles(s, e, k)
    ensures HoldsClosed(Step(s, tor, e), k) <==> TakesClosed(s, tor, e, k) || (HoldsClosed(s, k) && !Loses(s, tor, e, k))
  {
    hide Dispatch, Download, Takes;
    PeerConduct.StepOfPeer(s, tor, e, k);
    DispatchCloses(LocalOf(s, k), k, tor, e.msg, e.junk, e.heap);
    LoopOfClosed(BeforeLoop(s, tor, e, k), tor);
    hide Step;
  }

  lemma OtherStepOfClosed(s: System, tor: Torrent, e: Event, k: nat)
    requires k < |s.peers| && !Handles(s, e, k)
    ensures HoldsClosed(Step(s, tor, e), k) <==> HoldsClosed(s, k) && !Loses(s, tor, e, k)
  {
    PeerConduct.StepOfPeer(s, tor, e, k);
    hide Step, Download, Dispatch;
  }

  /** After one step a peer is closed and holds a piece exactly if it took one in that state or held one and did not lose it. */
  lemma ClosedPeerStep(s: System, tor: Torrent, e: Event, k: nat)
    requires k < |s.peers|
    ensures HoldsClosed(Step(s, tor, e), k) <==> TakesClosed(s, tor, e, k) || (HoldsClosed(s, k) && !Loses(s, tor, e, k))
  {
    hide *;
    if Handles(s, e, k) {
      HandlingClosed(s, tor, e, k);
    } else {
      OtherStepOfClosed(s, tor, e, k);
      NotHandled(s, tor, e, k);
    }
  }

  lemma NotHandled(s: System, tor: Torrent, e: Event, k: nat)
    requires !Handles(s, e, k)
    ensures !TakesClosed(s, tor, e, k)
  {
  }

  /** The state before event `i`. */
  function Before(tor: Torrent, peers: nat, events: seq<Event>, i: nat): System
    requires tor.Usable() && i <= |events|
  {
    Swarm.Run(Initial(tor, peers), tor, events[..i])
  }

  /** At event `i` peer `k` took a piece while it was closed, and it has not lost it since. */
  ghost predicate TakenAt(tor: Torrent, peers: nat, events: seq<Event>, k: nat, i: nat)
    requires tor.Usable()
  {
    && i < |events| && TakesClosed(Before(tor, peers, events, i), tor, events[i], k)
    && forall j :: i < j < |events| ==> !Loses(Before(tor, peers, events, j), tor, events[j], k)
  }

  lemma TakenLater(tor: Torrent, peers: nat, before: seq<Event>, e: Event, k: nat, i: nat)
    requires tor.Usable() && i < |before|
    ensures TakenAt(tor, peers, before + [e], k, i)
            <==> TakenAt(tor, peers, before, k, i) && !Loses(Swarm.Run(Initial(tor, peers), tor, before), tor, e, k)
  {
    hide Swarm.Run, Initial, TakesClosed, Loses;
    var events := before + [e];
    assert events[|before|] == e && events[..|before|] == before;
    assert forall j :: 0 <= j < |before| ==> events[..j] == before[..j] && events[j] == before[j];
    assert forall j :: 0 <= j < |before| ==> Before(tor, peers, events, j) == Before(tor, peers, before, j);
    assert Before(tor, peers, events, |before|) == Swarm.Run(Initial(tor, peers), tor, before);
  }

  lemma TakenNow(tor: Torrent, peers: nat, before: seq<Event>, e: Event, k: nat)
    requires tor.Usable()
    ensures TakenAt(tor, peers, before + [e], k, |before|)
            <==> TakesClosed(Swarm.Run(Initial(tor, peers), tor, before), tor, e, k)
  {
    hide Swarm.Run, Initial, TakesClosed, Loses;
    assert (before + [e])[..|before|] == before;
  }

  lemma HoldsClosedStep(tor: Torrent, peers: nat, before: seq<Event>, e: Event, k: nat)
    requires tor.Usable() && k < |Swarm.Run(Initial(tor, peers), tor, before).peers|
    requires HoldsClosed(Swarm.Run(Initial(tor, peers), tor, before), k) <==> exists i: nat :: TakenAt(tor, peers, before, k, i)
    ensures HoldsClosed(Swarm.Run(Initial(tor, peers), tor, before + [e]), k)
            <==> exists i: nat :: TakenAt(tor, peers, before + [e], k, i)
  {
    hide *;
    var s := Swarm.Run(Initial(tor, peers), tor, before);
    PeerConduct.RunStep(Initial(tor, peers), tor, before, e);
    ClosedPeerStep(s, tor, e, k);
    TakenNow(tor, peers, before, e, k);
    forall i: nat | i < |before|
      ensures TakenAt(tor, peers, before + [e], k, i) <==> TakenAt(tor, peers, before, k, i) && !Loses(s, tor, e, k)
    {
      TakenLater(tor, peers, before, e, k, i);
    }
    forall i: nat
      ensures TakenAt(tor, peers, before, k, i) ==> i < |before|
      ensures TakenAt(tor, peers, before + [e], k, i) ==> i <= |before|
    {
      TakenInRun(tor, peers, before, k, i);
      TakenInRun(tor, peers, before + [e], k, i);
    }
    if TakesClosed(s, tor, e, k) {
      assert TakenAt(tor, peers, before + [e], k, |before|);
    }
    if HoldsClosed(s, k) && !Loses(s, tor, e, k) {
      var i: nat :| TakenAt(tor, peers, before, k, i);
      assert TakenAt(tor, peers, before + [e], k, i);
    }
  }

  lemma TakenInRun(tor: Torrent, peers: nat, events: seq<Event>, k: nat, i: nat)
    requires tor.Usable()
    ensures TakenAt(tor, peers, events, k, i) ==> i < |events|
  {
  }

  lemma NothingYet(tor: Torrent, peers: nat, k: nat)
    requires tor.Usable()
    ensures !HoldsClosed(Swarm.Run(Initial(tor, peers), tor, []), k)
  {
  }

  /**
    In every run, a peer is closed and holds a piece if and only if its
    download loop took one while it was closed, and since then it has neither
    failed nor parted with it.
   */
  lemma {:induction false} ClosedPeerHolds(tor: Torrent, peers: nat, events: seq<Event>, k: nat)
    requires tor.Usable() && k < peers
    ensures HoldsClosed(Swarm.Run(Initial(tor, peers), tor, events), k)
            <==> exists i: nat :: TakenAt(tor, peers, events, k, i)
  {
    hide HoldsClosed, TakenAt, Swarm.Run, Initial;
    if events == [] {
      NothingYet(tor, peers, k);
      forall i: nat
        ensures !TakenAt(tor, peers, events, k, i)
      {
        TakenInRun(tor, peers, events, k, i);
      }
    } else {
      var n := |events| - 1;
      assert events == events[..n] + [events[n]];
      ClosedPeerHolds(tor, peers, events[..n], k);
      PeerConduct.StoppedPeerHoldsPiece(tor, peers, events[..n], k);
      HoldsClosedStep(tor, peers, events[..n], events[n], k);
    }
  }
}
