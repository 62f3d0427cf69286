/** Runs with one peer, and how such a run starts: the peer connects, unchokes and says what it has. */
module OnePeerRuns {
  import opened Bytes
  import opened Messages
  import opened Pieces
  import opened PeerProtocol
  import opened Swarm
  import PeerConduct

  /** One peer, which reads, and what it and the queues are. */
  predicate OnlyPeer(s: System, l: Local) {
    |s.peers| == 1 && s.peers[0].phase.Reading? && LocalOf(s, 0) == l
  }

  lemma OnlyPeerStep(s: System, l: Local, tor: Torrent, msg: Message, heap: seq<byte>)
    requires OnlyPeer(s, l) && msg.ty.Some?
    ensures OnlyPeer(Step(s, tor, Received(0, msg, 0, heap)), HandleMessage(l, 0, tor, msg, 0, heap))
  {
    hide HandleMessage;
  }

  lemma RunNothing(s: System, tor: Torrent)
    ensures Swarm.Run(s, tor, []) == s
  {
  }

  lemma RunOne(s: System, tor: Torrent, e: Event)
    ensures Swarm.Run(s, tor, [e]) == Step(s, tor, e)
  {
    hide Step;
    assert [e][..0] == [];
  }

  lemma {:induction false} RunFrom(s: System, tor: Torrent, a: seq<Event>, b: seq<Event>)
    ensures Swarm.Run(s, tor, a + b) == Swarm.Run(Swarm.Run(s, tor, a), tor, b)
  {
    hide Step;
    if b == [] {
      assert a + b == a;
    } else {
      var n := |b| - 1;
      RunFrom(s, tor, a, b[..n]);
      assert (a + b)[..|a| + n] == a + b[..n];
    }
  }

  // ----- The start of a run

  /** The peer has connected and holds no piece. */
  function Waiting(tor: Torrent, available: seq<bool>, choked: bool): Local
    requires tor.Usable()
  {
    Local(NewPeer().(choked := choked, available := available), Indices(tor.Pieces()), [PeerConnected(0)])
  }

  const UNCHOKE := Message(Some(Unchoke), [])

  /** The peer connects, unchokes, and says what it has. */
  function Opening(bitfield: seq<byte>): seq<Event> {
    [Connected(0)] + [Received(0, UNCHOKE, 0, [])] + [Received(0, Message(Some(Bitfield), bitfield), 0, [])]
  }

  lemma Connects(tor: Torrent)
    requires tor.Usable()
    ensures OnlyPeer(Step(Initial(tor, 1), tor, Connected(0)), Waiting(tor, [], true))
  {
    hide Indices;
    var s := Initial(tor, 1);
    assert s.results + [PeerConnected(0)] == [PeerConnected(0)];
  }

  lemma Unchokes(tor: Torrent)
    requires tor.Usable()
    ensures HandleMessage(Waiting(tor, [], true), 0, tor, UNCHOKE, 0, []) == Waiting(tor, [], false)
  {
    hide Indices;
    assert Turn(Waiting(tor, [], false), tor) == Waiting(tor, [], false);
  }

  lemma BitfieldArrives(tor: Torrent, bitfield: seq<byte>)
    requires tor.Usable()
    ensures HandleMessage(Waiting(tor, [], false), 0, tor, Message(Some(Bitfield), bitfield), 0, [])
            == Download(Waiting(tor, Bits(bitfield), false), tor)
  {
    hide Download, Indices, Bits;
  }

  /** After the opening, the download loop has run on what the peer offers. */
  lemma AfterOpening(tor: Torrent, bitfield: seq<byte>)
    requires tor.Usable()
    ensures OnlyPeer(Swarm.Run(Initial(tor, 1), tor, Opening(bitfield)), Download(Waiting(tor, Bits(bitfield), false), tor))
  {
    hide Initial, Step, Swarm.Run, HandleMessage, Waiting, OnlyPeer, Download, Bits;
    var s := Initial(tor, 1);
    var msg := Message(Some(Bitfield), bitfield);
    var a, b, c := Connected(0), Received(0, UNCHOKE, 0, []), Received(0, msg, 0, []);
    RunOne(s, tor, a);
    PeerConduct.RunStep(s, tor, [a], b);
    PeerConduct.RunStep(s, tor, [a] + [b], c);
    Connects(tor);
    OnlyPeerStep(Step(s, tor, a), Waiting(tor, [], true), tor, UNCHOKE, []);
    Unchokes(tor);
    OnlyPeerStep(Step(Step(s, tor, a), tor, b), Waiting(tor, [], false), tor, msg, []);
    BitfieldArrives(tor, bitfield);
  }

  lemma BitsOfOneByte(c: byte)
    ensures Bits([c]) == ByteBits(c)
  {
    hide ByteBits;
    assert Bits([]) == [];
    assert [c][..0] == [];
    Nothing(ByteBits(c));
  }

  // ----- The first requests

  function FirstBlocks(n: nat): map<nat, bool> {
    map i | i in Below(n) :: true
  }

  /** The peer holds piece 0 and has asked for its first `n` blocks. */
  function Asked(tor: Torrent, available: seq<bool>, n: nat): Local
    requires tor.Usable() && tor.Pieces() > 0
  {
    Local(
      NewPeer().(choked := false, available := available,
                 piece := Some(PieceState(0, tor.pieceLength, seq(n, _ => BlockState(false, true, [])), None)),
                 outstanding := FirstBlocks(n),
                 sent := seq(n, i requires 0 <= i < n => BlockRequest(0, 16384 * i, 16384))),
      Indices(tor.Pieces())[1..], [PeerConnected(0)])
  }

  lemma OneMoreAsked(tor: Torrent, available: seq<bool>, n: nat)
    requires tor.Usable() && tor.Pieces() > 0 && available != [] && 16384 * (n + 1) <= tor.pieceLength
    ensures var l := Asked(tor, available, n);
            Requests(l, tor) && Turn(l, tor) == Asked(tor, available, n + 1)
  {
    hide Indices, Torrent.Pieces;
    assert BlockCount(tor.pieceLength) > n;
    var l := Asked(tor, available, n);
    var q := l.peer.piece.value;
    assert NextBlock(q) == Some(n);
    assert Reserve(q).blocks == seq(n + 1, _ => BlockState(false, true, []));
    assert Turn(l, tor).peer.outstanding == FirstBlocks(n + 1);
    assert Turn(l, tor).peer.sent == seq(n + 1, i requires 0 <= i < n + 1 => BlockRequest(0, 16384 * i, 16384));
  }

  lemma FirstTurn(tor: Torrent, available: seq<bool>)
    requires tor.Usable() && tor.Pieces() > 0 && HasPiece(available, 0) && 16384 <= tor.pieceLength
    ensures var l := Waiting(tor, available, false); Requests(l, tor) && Turn(l, tor) == Asked(tor, available, 1)
  {
    hide Indices, Torrent.Pieces, Reserve, NextBlock, IsComplete;
    var l, t := Waiting(tor, available, false), TakePiece(Waiting(tor, available, false), tor);
    OneMoreAsked(tor, available, 0);
    assert t.peer.piece.value.blocks == seq(0, _ => BlockState(false, true, []));
    assert t.peer.outstanding == FirstBlocks(0);
    assert t.peer.sent == seq(0, i requires 0 <= i < 0 => BlockRequest(0, 16384 * i, 16384));
    assert t == Asked(tor, available, 0);
  }

  lemma OutstandingCount(tor: Torrent, available: seq<bool>, n: nat)
    requires tor.Usable() && tor.Pieces() > 0
    ensures |Asked(tor, available, n).peer.outstanding| == n
  {
    hide Indices, Torrent.Pieces;
    assert Asked(tor, available, n).peer.outstanding.Keys == Below(n);
  }

  lemma {:induction false} MoreAreAsked(tor: Torrent, available: seq<bool>, n: nat)
    requires tor.Usable() && tor.Pieces() > 0 && available != [] && 5 * 16384 <= tor.pieceLength && n <= 5
    ensures Download(Asked(tor, available, n), tor) == Asked(tor, available, 5)
    decreases 5 - n
  {
    hide Asked, Turn, Requests, Torrent.Pieces;
    OutstandingCount(tor, available, n);
    if n < 5 {
      OneMoreAsked(tor, available, n);
      MoreAreAsked(tor, available, n + 1);
    }
  }

  /**
    When a peer has unchoked and has the first piece, and the piece is not
    shorter than five blocks, the first five requests of the run are for its
    first five blocks of 16 KiB, in order.
   */
  lemma FirstRequests(tor: Torrent, bitfield: seq<byte>)
    requires tor.Usable() && tor.Pieces() > 0 && 5 * 16384 <= tor.pieceLength && HasPiece(Bits(bitfield), 0)
    ensures var s := Swarm.Run(Initial(tor, 1), tor, Opening(bitfield));
            && |s.peers| == 1
            && s.peers[0].peer.sent == [BlockRequest(0, 0, 16384), BlockRequest(0, 16384, 16384), BlockRequest(0, 32768, 16384),
                                        BlockRequest(0, 49152, 16384), BlockRequest(0, 65536, 16384)]
  {
    var bits := Bits(bitfield);
    hide Swarm.Run, Initial, Opening, Bits, Requests, Turn, Torrent.Pieces, Asked, Waiting, Indices;
    AfterOpening(tor, bitfield);
    FirstTurn(tor, bits);
    MoreAreAsked(tor, bits, 1);
    FiveAsked(tor, bits);
    NothingOutstanding(tor, bits);
  }

  lemma NothingOutstanding(tor: Torrent, available: seq<bool>)
    requires tor.Usable()
    ensures |Waiting(tor, available, false).peer.outstanding| == 0
  {
  }

  lemma FiveAsked(tor: Torrent, available: seq<bool>)
    requires tor.Usable() && tor.Pieces() > 0
    ensures Asked(tor, available, 5).peer.sent
            == [BlockRequest(0, 0, 16384), BlockRequest(0, 16384, 16384), BlockRequest(0, 32768, 16384),
                BlockRequest(0, 49152, 16384), BlockRequest(0, 65536, 16384)]
  {
    hide Indices, Torrent.Pieces;
  }
}
