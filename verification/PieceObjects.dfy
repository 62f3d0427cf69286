/** The classes `Block` and `Piece` of include/torrent.hpp. Blocks are shared: a peer refers to them too. */
module PieceObjects {
  import opened Bytes
  import P = Pieces

  class Block {
    const offset: uint32
    var filled: bool
    var reserved: bool
    var data: seq<byte>

    constructor (offset: uint32)
      ensures this.offset == offset
      ensures State() == P.BlockState(false, false, [])
    {
      this.offset := offset;
      filled, reserved, data := false, false, [];
    }

    ghost function State(): P.BlockState
      reads this
    {
      P.BlockState(filled, reserved, data)
    }

    function Index(): nat {
      offset / P.BLOCK_SIZE
    }

    method Release()
      modifies this`reserved
      ensures State() == old(State()).(reserved := false)
    {
      reserved := false;
    }

    method Fill(bytes: seq<byte>) returns (status: P.BlockStatus)
      modifies this`data, this`filled
      ensures status == if old(filled) then P.AlreadyFilled else P.Ok
      ensures State() == if old(filled) then old(State()) else old(State()).(filled := true, data := bytes)
    {
      if filled {
        return P.AlreadyFilled;
      }
      data := bytes;
      filled := true;
      return P.Ok;
    }
  }

  /** The states of a sequence of blocks. */
  ghost function States(blocks: seq<Block>): (r: seq<P.BlockState>)
    reads blocks
    ensures |r| == |blocks|
    ensures forall i :: 0 <= i < |blocks| ==> r[i] == blocks[i].State()
  {
    if blocks == [] then [] else States(blocks[..|blocks| - 1]) + [blocks[|blocks| - 1].State()]
  }

  class Piece {
    const index: uint32
    const size: uint32
    var blocks: seq<Block>
    var finalized: Option<seq<byte>>

    /** Every block knows its place, so no block object occurs twice. */
    ghost predicate Valid()
      reads this, blocks
    {
      && |blocks| <= P.BlockCount(size)
      && forall i :: 0 <= i < |blocks| ==> blocks[i].offset == P.BlockOffset(i) && blocks[i].Index() == i
    }

    ghost function State(): P.PieceState
      reads this, blocks
    {
      P.PieceState(index, size, States(blocks), finalized)
    }

    constructor (index: uint32, size: uint32)
      ensures Valid() && State() == P.Fresh(index, size) && blocks == []
      ensures this.index == index && this.size == size
    {
      this.index, this.size := index, size;
      blocks, finalized := [], None;
    }

    /** The index is whatever uninitialised memory holds when the payload is too short to name one. */
    method Accept(payload: seq<byte>) returns (status: P.BlockStatus, block: nat)
      requires Valid()
      modifies blocks
      ensures Valid()
      ensures status == P.AcceptStatus(old(State()), payload)
      ensures block == P.NamedBlock(payload, block)
      ensures State() == P.Accept(old(State()), payload)
    {
      var dataLength := P.DataLength(payload);
      if |payload| < 8 {
        block := *;
      } else {
        block := FromBigEndian(payload[4..8]) / P.BLOCK_SIZE;
      }
      if dataLength > P.BLOCK_SIZE {
        return P.TooMuchData, block;
      }
      if FromBigEndian(payload[..4]) != index {
        return P.WrongPiece, block;
      }
      if block >= |blocks| {
        return P.WrongOffset, block;
      }
      status := blocks[block].Fill(payload[8..8 + dataLength]);
      assert State().blocks == P.Accept(old(State()), payload).blocks;
    }

    method NextBlock() returns (block: Block?)
      requires Valid()
      modifies this`blocks, blocks
      ensures Valid()
      ensures State() == P.Reserve(old(State()))
      ensures block == null <==> P.NextBlock(old(State())).None?
      ensures block != null ==>
                var i := P.NextBlock(old(State())).value;
                i < |blocks| && blocks[i] == block && block.Index() == i
      ensures blocks == old(blocks) || (block != null && fresh(block) && blocks == old(blocks) + [block])
    {
      hide States;
      if |blocks| < P.BlockCount(size) {
        P.BlocksTilePiece(size, |blocks|);
        hide P.BlockCount, P.FirstFree;
        block := new Block(P.BlockOffset(|blocks|));
        block.reserved := true;
        blocks := blocks + [block];
        assert State().blocks == P.Reserve(old(State())).blocks;
        return;
      }
      var free := FindFree();
      hide P.BlockCount, P.FirstFree;
      match free
      case None => return null;
      case Some(i) =>
        assert blocks[i].offset / P.BLOCK_SIZE == i;
        blocks[i].reserved := true;
        assert State().blocks == P.Reserve(old(State())).blocks;
        return blocks[i];
    }

    /** The search for a block that is neither filled nor reserved. */
    method FindFree() returns (free: Option<nat>)
      ensures free == P.FirstFree(State().blocks, 0)
    {
      hide States;
      var i := 0;
      while i < |blocks|
        invariant 0 <= i <= |blocks|
        invariant P.FirstFree(States(blocks), 0) == P.FirstFree(States(blocks), i)
      {
        if !blocks[i].filled && !blocks[i].reserved {
          return Some(i);
        }
        i := i + 1;
      }
      return None;
    }

    method IsComplete() returns (complete: bool)
      requires Valid()
      ensures complete == P.IsComplete(State())
    {
      var allFilled, i := true, 0;
      while i < |blocks|
        invariant 0 <= i <= |blocks|
        invariant allFilled == forall k :: 0 <= k < i ==> blocks[k].filled
      {
        allFilled := allFilled && blocks[i].filled;
        i := i + 1;
      }
      complete := |blocks| == P.BlockCount(size) && allFilled;
      assert forall k :: 0 <= k < |blocks| ==> States(blocks)[k].filled == blocks[k].filled;
    }

    /**
      The bytes of all blocks, copied one after the other into a new buffer.
      `heap` is what the buffer held before.
     */
    method Finalize() returns (data: seq<byte>, ghost heap: seq<byte>)
      requires Valid()
      modifies this`finalized
      ensures Valid()
      ensures State() == P.Finalize(old(State()), heap)
      ensures State().finalized == Some(data)
    {
      hide States, P.BlockCount, P.Joined, P.Overwrite;
      heap := [];
      if finalized.None? {
        var buffer := new byte[size];
        heap := buffer[..];
        var at, i := 0, 0;
        StartJoining(States(blocks), heap);
        while i < |blocks|
          invariant 0 <= i <= |blocks| && at == |P.Joined(States(blocks)[..i])|
          invariant buffer[..] == P.Overwrite(heap, P.Joined(States(blocks)[..i]), size)
        {
          JoinOneMore(States(blocks), i);
          Copy(blocks[i].data, buffer, at, heap, P.Joined(States(blocks)[..i]));
          at := at + |blocks[i].data|;
          i := i + 1;
        }
        assert States(blocks)[..i] == States(blocks);
        finalized := Some(buffer[..]);
      }
      data := finalized.value;
    }
  }

  lemma StartJoining(blocks: seq<P.BlockState>, heap: seq<byte>)
    ensures P.Joined(blocks[..0]) == []
    ensures P.Overwrite(heap, [], |heap|) == heap
  {
  }

  lemma JoinOneMore(blocks: seq<P.BlockState>, i: nat)
    requires i < |blocks|
    ensures P.Joined(blocks[..i + 1]) == P.Joined(blocks[..i]) + blocks[i].data
  {
    assert blocks[..i + 1][..i] == blocks[..i];
  }

  /**
    `std::copy` into a buffer behind what was copied `before`. The source
    would write past the end of a buffer that is too small; here those bytes
    are dropped.
   */
  method Copy(bytes: seq<byte>, buffer: array<byte>, at: nat, ghost heap: seq<byte>, ghost before: seq<byte>)
    requires at == |before|
    requires buffer[..] == P.Overwrite(heap, before, buffer.Length)
    modifies buffer
    ensures buffer[..] == P.Overwrite(heap, before + bytes, buffer.Length)
  {
    var copied := 0;
    while copied < |bytes|
      invariant 0 <= copied <= |bytes|
      invariant buffer[..] == P.Overwrite(heap, before + bytes[..copied], buffer.Length)
    {
      ghost var sofar := before + bytes[..copied];
      assert before + bytes[..copied + 1] == sofar + [bytes[copied]];
      if at + copied < buffer.Length {
        buffer[at + copied] := bytes[copied];
      }
      copied := copied + 1;
    }
    assert bytes[..copied] == bytes;
  }
}
