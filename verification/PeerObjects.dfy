/** The class `Peer` of include/peer.hpp and src/peer.cpp, and the two queues that all peers share. */
module PeerObjects {
  import opened Bytes
  import opened Messages
  import opened PieceObjects
  import P = Pieces
  import PP = PeerProtocol
  import Hashing

  /** The masks of `Bitfield::copy_from`, and the zero that ends its loop. */
  const MASKS := [128, 64, 32, 16, 8, 4, 2, 1, 0]

  /** A first-in, first-out queue; the retry loops around `push` end when it succeeds. */
  class Queue<T> {
    var items: seq<T>

    constructor ()
      ensures items == []
    {
      items := [];
    }

    method Push(item: T)
      modifies this
      ensures items == old(items) + [item]
    {
      items := items + [item];
    }

    method Pop() returns (item: Option<T>)
      modifies this
      ensures old(items) == [] ==> item == None && items == []
      ensures old(items) != [] ==> item == Some(old(items)[0]) && items == old(items)[1..]
    {
      if items == [] {
        return None;
      }
      item, items := Some(items[0]), items[1..];
    }
  }

  class Peer {
    const me: nat
    const tor: PP.Torrent
    const work: Queue<uint32>
    const results: Queue<PP.Result>

    var choked: bool
    var available: seq<bool>
    var piece: Piece?
    var blocks: map<nat, Block>
    var sent: seq<PP.BlockRequest>
    var closed: bool

    /** The objects that belong to this peer alone. */
    ghost var Repr: set<object>

    ghost predicate Valid()
      reads this, Repr
    {
      && this in Repr && work !in Repr && results !in Repr
      && (forall k :: k in blocks ==> blocks[k] in Repr && blocks[k].Index() == k)
      && (piece != null ==>
            && piece in Repr
            && (forall b :: b in piece.blocks ==> b in Repr)
            && piece.Valid())
    }

    /** Whether the block object under index `k` belongs to the held piece. */
    ghost predicate IsCurrent(k: nat)
      reads this, piece
      requires k in blocks
    {
      piece != null && k < |piece.blocks| && piece.blocks[k] == blocks[k]
    }

    ghost function Outstanding(): map<nat, bool>
      reads this, piece
    {
      map k | k in blocks :: IsCurrent(k)
    }

    ghost function State(): PP.PeerState
      reads this, Repr
      requires Valid()
    {
      PP.PeerState(choked, available, if piece == null then None else Some(piece.State()), Outstanding(), sent, closed)
    }

    ghost function Local(): PP.Local
      reads this, Repr, work, results
      requires Valid()
    {
      PP.Local(State(), work.items, results.items)
    }

    constructor (me: nat, tor: PP.Torrent, work: Queue<uint32>, results: Queue<PP.Result>)
      ensures Valid() && fresh(Repr)
      ensures State() == PP.NewPeer()
      ensures this.me == me && this.tor == tor && this.work == work && this.results == results
    {
      this.me, this.tor, this.work, this.results := me, tor, work, results;
      choked, available, piece, blocks, sent, closed := true, [], null, map[], [], false;
      Repr := {this};
    }

    /** Releasing the block under `index` changes the held piece only if the block belongs to it. */
    twostate lemma PieceAfterRelease(index: nat)
      requires old(Valid()) && index in old(blocks)
      requires piece == old(piece) && piece != null && unchanged(piece)
      requires forall b :: b in piece.blocks && b != old(blocks[index]) ==> unchanged(b)
      requires old(blocks[index]).State() == old(blocks[index].State()).(reserved := false)
      ensures piece.State() == if old(IsCurrent(index)) then P.Release(old(piece.State()), index) else old(piece.State())
    {
      hide States, Block.Index, P.BlockOffset, P.BlockCount;
      var expected := if old(IsCurrent(index)) then P.Release(old(piece.State()), index) else old(piece.State());
      forall j | 0 <= j < |piece.blocks|
        ensures piece.blocks[j].State() == expected.blocks[j]
      {
        assert piece.blocks[j] in piece.blocks;
        assert old(piece.State()).blocks[j] == old(piece.blocks[j].State());
      }
      assert piece.State().blocks == expected.blocks;
    }

    method ReleaseBlock(index: nat)
      requires Valid()
      modifies Repr
      ensures Valid() && Repr == old(Repr)
      ensures State() == PP.ReleaseBlock(old(State()), index)
      ensures piece == old(piece) && (piece != null ==> unchanged(piece))
    {
      hide States, Block.Index, P.BlockOffset, P.BlockCount, P.Release, Piece.State;
      if index in blocks {
        blocks[index].Release();
        if piece != null {
          PieceAfterRelease(index);
        }
        assert forall k :: k in blocks ==> IsCurrent(k) == old(IsCurrent(k));
        blocks := blocks - {index};
        assert Outstanding() == old(Outstanding()) - {index};
      }
    }

    method ReleasePiece()
      requires Valid()
      modifies this, work
      ensures Valid() && Repr == old(Repr)
      ensures Local() == PP.ReleasePiece(old(Local()))
    {
      if piece != null {
        work.Push(piece.index);
        piece := null;
        assert Outstanding() == PP.Stale(old(Outstanding()));
      }
    }

    method Close()
      requires Valid()
      modifies this, work, results
      ensures Valid() && Repr == old(Repr)
      ensures Local() == PP.Close(old(Local()), me)
    {
      closed := true;
      ReleasePiece();
      results.Push(PP.PeerDropped(me));
    }

    /** The payload goes to the piece; only the piece changes. */
    method AcceptPayload(payload: seq<byte>) returns (status: P.BlockStatus, index: nat)
      requires Valid() && piece != null
      modifies piece.blocks
      ensures Valid()
      ensures status == P.AcceptStatus(old(piece.State()), payload)
      ensures index == P.NamedBlock(payload, index)
      ensures State() == old(State()).(piece := Some(P.Accept(old(piece.State()), payload)))
    {
      hide States, Block.Index, P.BlockOffset, P.Accept, P.AcceptStatus, P.BlockCount;
      status, index := piece.Accept(payload);
      assert Outstanding() == old(Outstanding());
    }

    /** `junk` and `heap` are what the run found in uninitialised memory. */
    method HandlePiece(payload: seq<byte>) returns (ghost junk: nat, ghost heap: seq<byte>)
      requires Valid()
      modifies Repr, work, results
      ensures Valid() && Repr == old(Repr)
      ensures Local() == PP.HandlePiece(old(Local()), me, tor, payload, junk, heap)
    {
      hide States, Block.Index, P.BlockOffset, P.Accept, P.AcceptStatus, P.BlockCount, P.Finalize, P.IsComplete, P.NamedBlock, PP.ReleaseBlock;
      junk, heap := 0, [];
      if piece == null {
        return;
      }
      var status, index := AcceptPayload(payload);
      junk := index;
      ReleaseBlock(index);
      assert Local() == PP.AfterAccept(old(Local()), payload, junk);
      if status != P.Ok {
        return;
      }
      var complete := piece.IsComplete();
      if complete {
        heap := FinishPiece();
      }
    }

    method FinishPiece() returns (ghost heap: seq<byte>)
      requires Valid() && piece != null
      modifies Repr, work, results
      ensures Valid() && Repr == old(Repr)
      ensures Local() == PP.FinishPiece(old(Local()), me, tor, heap)
    {
      hide Hashing.Of;
      hide States, Block.Index, P.BlockOffset, P.BlockCount, P.Finalize;
      var data;
      data, heap := piece.Finalize();
      blocks := map[];
      assert Outstanding() == map[];
      var hash := Hashing.Of(data);
      if hash == tor.PieceHash(piece.index) {
        results.Push(PP.PieceComplete(PP.CompletePiece(data, piece.index, piece.size)));
      } else {
        Close();
        return;
      }
      piece := null;
    }

    /** The piece hands out a block; what is outstanding does not change yet. */
    method ReserveBlock() returns (block: Block?)
      requires Valid() && piece != null
      modifies this`Repr, piece, piece.blocks
      ensures Valid() && fresh(Repr - old(Repr))
      ensures piece == old(piece)
      ensures block == null <==> P.NextBlock(old(piece.State())).None?
      ensures block != null ==>
                var i := P.NextBlock(old(piece.State())).value;
                i < |piece.blocks| && piece.blocks[i] == block && block.Index() == i
      ensures State() == old(State()).(piece := Some(P.Reserve(old(piece.State()))))
    {
      hide States, Piece.State, Block.Index, P.BlockOffset, P.BlockCount, P.NextBlock, P.Reserve;
      block := piece.NextBlock();
      if block != null {
        Repr := Repr + {block};
      }
      assert Outstanding() == old(Outstanding());
    }

    /** A reserved block becomes outstanding, unless its index is taken, and is asked for. */
    method Ask(block: Block, index: nat)
      requires Valid() && piece != null
      requires index < |piece.blocks| && piece.blocks[index] == block
      modifies this`blocks, this`sent
      ensures Valid()
      ensures State() == PP.Ask(old(State()), index)
    {
      assert piece.State().index == piece.index && piece.State().size == piece.size;
      hide States, P.BlockCount, Piece.State, Block.Index, P.BlockOffset;
      sent := sent + [PP.BlockRequest(piece.index, block.offset, P.LengthFrom(piece.size, block.offset))];
      if index !in blocks {
        assert block in piece.blocks;
        blocks := blocks[index := block];
        assert Outstanding() == old(Outstanding())[index := true];
      } else {
        assert Outstanding() == old(Outstanding());
      }
    }

    method RequestNextBlock() returns (asked: bool)
      requires Valid() && piece != null
      modifies Repr
      ensures Valid() && fresh(Repr - old(Repr))
      ensures asked <==> P.NextBlock(old(piece.State())).Some?
      ensures State() == if asked then PP.RequestBlock(old(State())) else old(State())
    {
      hide States, Block.Index, P.BlockOffset, P.BlockCount, P.NextBlock, P.Reserve, PP.Ask;
      var block := ReserveBlock();
      if block == null {
        P.NothingToReserve(old(piece.State()));
        return false;
      }
      Ask(block, block.Index());
      return true;
    }

    /** A peer without a piece takes the next one from the queue. */
    method TakePiece()
      requires Valid()
      modifies Repr, work
      ensures Valid() && fresh(Repr - old(Repr))
      ensures Local() == PP.TakePiece(old(Local()), tor)
    {
      if piece == null {
        var index := work.Pop();
        if index.Some? {
          piece := new Piece(index.value, tor.pieceLength);
          Repr := Repr + {piece};
          assert Outstanding() == old(Outstanding());
        }
      }
    }

    method HasPiece(index: nat) returns (has: bool)
      ensures has == PP.HasPiece(available, index)
    {
      if index >= |available| {
        return false;
      }
      return available[index];
    }

    /** One turn of the download loop; `more` says whether the loop goes on. */
    method DownloadTurn() returns (more: bool)
      requires Valid()
      modifies Repr, work
      ensures Valid() && fresh(Repr - old(Repr))
      ensures more <==> PP.Requests(old(Local()), tor)
      ensures Local() == PP.Turn(old(Local()), tor)
    {
      hide States, Piece.State, P.BlockCount, P.NextBlock, P.IsComplete, PP.RequestBlock, PP.ReleasePiece, PP.HasPiece;
      if choked || |available| == 0 {
        return false;
      }
      if piece == null {
        TakePiece();
        if piece == null {
          return false;
        }
        assert State().piece.value.index == piece.index by { PieceIndex(); }
        var has := HasPiece(piece.index);
        if !has {
          ReleasePiece();
          return false;
        }
      }
      assert Local() == PP.TakePiece(old(Local()), tor);
      var complete := piece.IsComplete();
      if complete {
        return false;
      }
      more := RequestNextBlock();
    }

    lemma PieceIndex()
      requires Valid() && piece != null
      ensures State().piece.value.index == piece.index
    {
    }

    method AsyncDownload()
      requires Valid()
      modifies Repr, work
      ensures Valid() && fresh(Repr - old(Repr))
      ensures Local() == PP.Download(old(Local()), tor)
    {
      hide States, Piece.State, PP.Turn, PP.Requests;
      assert |Outstanding()| == |blocks| by { OutstandingSize(); }
      while |blocks| < PP.PIPELINE_LIMIT
        invariant Valid() && fresh(Repr - old(Repr))
        invariant |Outstanding()| == |blocks|
        invariant PP.Download(Local(), tor) == PP.Download(old(Local()), tor)
        decreases Local().peer.piece.None?, PP.Idle(Local())
      {
        ghost var before := Local();
        var more := DownloadTurn();
        if !more {
          return;
        }
        PP.TurnTakesABlock(before, tor);
        OutstandingSize();
      }
    }

    lemma OutstandingSize()
      ensures |Outstanding()| == |blocks|
    {
      assert Outstanding().Keys == blocks.Keys;
    }

    /** `Bitfield::copy_from`: one availability bit for each bit of the payload. */
    method CopyBits(payload: seq<byte>) returns (data: seq<bool>)
      ensures data == PP.Bits(payload)
    {
      hide PP.ByteBits;
      data := [];
      var k := 0;
      while k < |payload|
        invariant 0 <= k <= |payload|
        invariant data == PP.Bits(payload[..k])
      {
        var bits := PushBits(payload[k]);
        data := data + bits;
        assert payload[..k + 1][..k] == payload[..k];
        k := k + 1;
      }
      assert payload[..k] == payload;
    }

    method PushBits(c: byte) returns (bits: seq<bool>)
      ensures bits == PP.ByteBits(c)
    {
      hide PP.ByteBits;
      bits := [];
      var i := 128;
      while i > 0
        invariant |bits| <= 8 && i == MASKS[|bits|]
        invariant bits == PP.ByteBits(c)[..|bits|]
        decreases i
      {
        NextBit(c, |bits|);
        bits := bits + [c / i % 2 == 1];
        i := i / 2;
      }
      LastMask(|bits|);
      assert PP.ByteBits(c)[..8] == PP.ByteBits(c);
    }

    lemma NextBit(c: byte, n: nat)
      requires n <= 8 && MASKS[n] > 0
      ensures n < 8 && PP.ByteBits(c)[n] == (c / MASKS[n] % 2 == 1) && MASKS[n + 1] == MASKS[n] / 2
    {
    }

    lemma LastMask(n: nat)
      requires n <= 8 && MASKS[n] <= 0
      ensures n == 8
    {
    }

    /** Setting the two flags changes nothing else. */
    twostate lemma OnlyFlags()
      requires old(Valid()) && unchanged(this`piece, this`blocks, this`sent, this`closed, this`Repr)
      requires unchanged(Repr - {this}) && unchanged(work, results)
      ensures Valid()
      ensures Local() == old(Local()).(peer := old(State()).(choked := choked, available := available))
    {
      hide States, Piece.State, Block.Index, Piece.Valid, P.BlockCount, P.BlockOffset;
      assert Outstanding() == old(Outstanding());
    }

    /** The effect of one message before the download loop runs. */
    method Dispatch(msg: Message) returns (ghost junk: nat, ghost heap: seq<byte>)
      requires Valid()
      modifies Repr, work, results
      ensures Valid() && fresh(Repr - old(Repr))
      ensures Local() == PP.Dispatch(old(Local()), me, tor, msg, junk, heap)
    {
      assert this in Repr && work !in Repr && results !in Repr;
      hide Valid, Outstanding, PP.HandlePiece, PP.Bits;
      junk, heap := 0, [];
      match msg.ty {
        case Some(Choke) => choked := true;
        case Some(Unchoke) => choked := false;
        case Some(Bitfield) => available := CopyBits(msg.payload);
        case Some(Piece) => junk, heap := HandlePiece(msg.payload);
        case _ =>
      }
      if msg.ty != Some(Piece) {
        OnlyFlags();
      }
    }

    /** `again` says whether the handler starts another read. */
    method AsyncHandleMessage(msg: Message) returns (again: bool, ghost junk: nat, ghost heap: seq<byte>)
      requires Valid()
      modifies Repr, work, results
      ensures Valid() && fresh(Repr - old(Repr))
      ensures again <==> msg.ty.Some?
      ensures Local() == PP.HandleMessage(old(Local()), me, tor, msg, junk, heap)
    {
      hide States, Piece.State, PP.Dispatch, PP.Download;
      junk, heap := 0, [];
      if msg.ty.None? {
        return false, junk, heap;
      }
      junk, heap := Dispatch(msg);
      AsyncDownload();
      again := true;
    }
  }
}
