/** The monitor's visitor of src/peer.cpp, and how src/main.cpp fills the work queue. */
module MonitorObjects {
  import opened Bytes
  import PP = PeerProtocol
  import S = Swarm
  import opened PeerObjects

  method Zeros(n: nat) returns (file: seq<byte>)
    ensures file == seq(n, _ => 0)
  {
    file := [];
    var i := 0;
    while i < n
      invariant 0 <= i <= n && file == seq(i, _ => 0)
    {
      file := file + [0];
      i := i + 1;
    }
  }

  method IndexSet(n: nat) returns (missing: set<nat>)
    ensures missing == S.Below(n)
  {
    missing := {};
    var i := 0;
    while i < n
      invariant 0 <= i <= n && missing == S.Below(i)
    {
      missing := missing + {i};
      i := i + 1;
    }
  }

  class MonitorVisitor {
    var missing: set<nat>
    var file: seq<byte>
    var downloaded: nat

    function State(): S.Monitor
      reads this
    {
      S.Monitor(missing, file, downloaded)
    }

    constructor (tor: PP.Torrent)
      requires tor.Usable()
      ensures State() == S.Initial(tor, 0).monitor
    {
      var zeros := Zeros(tor.fileLength);
      var indices := IndexSet(tor.Pieces());
      missing, file, downloaded := indices, zeros, 0;
    }

    method Visit(result: PP.Result)
      modifies this
      ensures State() == if result.PieceComplete? then S.RecordPiece(old(State()), result.piece) else old(State())
    {
      if result.PieceComplete? {
        file := S.WriteAt(file, S.FileOffset(result.piece), result.piece.data);
        missing := missing - {result.piece.index};
        downloaded := downloaded + result.piece.size;
      }
    }
  }

  method FillWorkQueue(work: Queue<uint32>, tor: PP.Torrent)
    requires tor.Usable() && work.items == []
    modifies work
    ensures work.items == S.Initial(tor, 0).work
  {
    var i := 0;
    while i < tor.Pieces()
      invariant 0 <= i <= tor.Pieces() && work.items == S.Indices(i)
    {
      work.Push(i);
      i := i + 1;
    }
  }
}
