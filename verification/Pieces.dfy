/**
  The value of a `Piece` and of its `Block`s, and what each operation of
  include/torrent.hpp does to that value. The objects themselves are in
  PieceObjects; every method there is tied to a function of this module.
 */
module Pieces {
  import opened Bytes

  const BLOCK_SIZE := 0x4000

  datatype BlockStatus = Ok | AlreadyFilled | WrongPiece | WrongOffset | TooMuchData

  /** `data` stands for the bytes data_[..len_] of the source. */
  datatype BlockState = BlockState(filled: bool, reserved: bool, data: seq<byte>)

  datatype PieceState = PieceState(
    index: uint32,
    size: uint32,
    blocks: seq<BlockState>,
    finalized: Option<seq<byte>>)

  function Fresh(index: uint32, size: uint32): PieceState {
    PieceState(index, size, [], None)
  }

  function BlockCount(size: uint32): nat {
    if size % BLOCK_SIZE == 0 then size / BLOCK_SIZE else size / BLOCK_SIZE + 1
  }

  /** Where block `i` of a piece starts. */
  function BlockOffset(i: nat): nat {
    i * BLOCK_SIZE
  }

  /** The length that a request for the block at `offset` asks for. */
  function LengthFrom(size: uint32, offset: int): int {
    if size - offset < BLOCK_SIZE then size - offset else BLOCK_SIZE
  }

  /** The length of block `i`. */
  function BlockLength(size: uint32, i: nat): int {
    LengthFrom(size, BlockOffset(i))
  }

  // ----- Operations

  /** The number of data bytes of a payload: an unsigned 32-bit difference, so a short payload wraps. */
  function DataLength(payload: seq<byte>): uint32 {
    (|payload| - 8) % 0x1_0000_0000
  }

  /**
    The block index a payload names. The source reads it from uninitialised
    memory when the payload is shorter than its 8-byte header; `junk` stands
    for whatever is found there.
   */
  function NamedBlock(payload: seq<byte>, junk: nat): nat {
    if |payload| < 8 then junk else FromBigEndian(payload[4..8]) / BLOCK_SIZE
  }

  /** What `accept` answers, and why. */
  function AcceptStatus(p: PieceState, payload: seq<byte>): BlockStatus {
    if DataLength(payload) > BLOCK_SIZE || |payload| < 8 then TooMuchData
    else if FromBigEndian(payload[..4]) != p.index then WrongPiece
    else if NamedBlock(payload, 0) >= |p.blocks| then WrongOffset
    else if p.blocks[NamedBlock(payload, 0)].filled then AlreadyFilled
    else Ok
  }

  /** The piece after `accept`. */
  function Accept(p: PieceState, payload: seq<byte>): PieceState {
    if AcceptStatus(p, payload) == Ok then
      var i := NamedBlock(payload, 0);
      p.(blocks := p.blocks[i := p.blocks[i].(filled := true, data := payload[8..8 + DataLength(payload)])])
    else p
  }

  /** The first block at or after `from` that is neither filled nor reserved. */
  function FirstFree(blocks: seq<BlockState>, from: nat): (r: Option<nat>)
    requires from <= |blocks|
    ensures r.Some? ==> from <= r.value < |blocks| && !blocks[r.value].filled && !blocks[r.value].reserved
    ensures forall k :: from <= k < (if r.Some? then r.value else |blocks|) ==> blocks[k].filled || blocks[k].reserved
    decreases |blocks| - from
  {
    if from == |blocks| then None
    else if !blocks[from].filled && !blocks[from].reserved then Some(from)
    else FirstFree(blocks, from + 1)
  }

  /** The block that `next_block` hands out, if any. */
  function NextBlock(p: PieceState): Option<nat> {
    if |p.blocks| < BlockCount(p.size) then Some(|p.blocks|) else FirstFree(p.blocks, 0)
  }

  /** The piece after `next_block`. */
  function Reserve(p: PieceState): PieceState {
    if |p.blocks| < BlockCount(p.size) then
      p.(blocks := p.blocks + [BlockState(false, true, [])])
    else
      match FirstFree(p.blocks, 0)
      case None => p
      case Some(i) => p.(blocks := p.blocks[i := p.blocks[i].(reserved := true)])
  }

  function Release(p: PieceState, i: nat): PieceState {
    if i < |p.blocks| then p.(blocks := p.blocks[i := p.blocks[i].(reserved := false)]) else p
  }

  predicate IsComplete(p: PieceState) {
    |p.blocks| == BlockCount(p.size) && forall i :: 0 <= i < |p.blocks| ==> p.blocks[i].filled
  }

  /** The bytes of all blocks, in order. */
  function Joined(blocks: seq<BlockState>): seq<byte> {
    if blocks == [] then [] else Joined(blocks[..|blocks| - 1]) + blocks[|blocks| - 1].data
  }

  /** A buffer of `size` bytes that held `heap` and had `copied` written over its start. */
  function Overwrite(heap: seq<byte>, copied: seq<byte>, size: nat): (r: seq<byte>)
    ensures |r| == size
  {
    seq(size, i requires 0 <= i < size =>
      if i < |copied| then copied[i] else if i < |heap| then heap[i] else 0)
  }

  /** `finalize`: the cached result, or a new buffer whose earlier content was `heap`. */
  function Finalize(p: PieceState, heap: seq<byte>): PieceState {
    if p.finalized.Some? then p else p.(finalized := Some(Overwrite(heap, Joined(p.blocks), p.size)))
  }

  // ----- Tiling

  /**
    The (offset, length) pairs of the blocks tile [0, size): none is empty or
    longer than BLOCK_SIZE, each starts where the one before ends, the last
    ends at `size`, and no offset or difference leaves 32 bits.
   */
  lemma BlocksTilePiece(size: uint32, i: nat)
    requires i < BlockCount(size)
    ensures 0 < BlockLength(size, i) <= BLOCK_SIZE
    ensures BlockOffset(i) < 0x1_0000_0000 && 0 <= size - BlockOffset(i)
    ensures BlockOffset(i) + BlockLength(size, i) == if i + 1 < BlockCount(size) then BlockOffset(i + 1) else size
    ensures BlockOffset(i) / BLOCK_SIZE == i
  {
    var q, r := size / BLOCK_SIZE, size % BLOCK_SIZE;
    assert size == q * BLOCK_SIZE + r;
  }

  /** Every byte of the piece lies in exactly one block. */
  lemma EveryByteHasOneBlock(size: uint32, x: nat)
    requires x < size
    ensures x / BLOCK_SIZE < BlockCount(size)
    ensures forall i: nat | i < BlockCount(size) ::
              BlockOffset(i) <= x < BlockOffset(i) + BlockLength(size, i) <==> i == x / BLOCK_SIZE
  {
    var q, r := size / BLOCK_SIZE, size % BLOCK_SIZE;
    var b, k := x / BLOCK_SIZE, x % BLOCK_SIZE;
    assert size == q * BLOCK_SIZE + r && x == b * BLOCK_SIZE + k;
    forall i: nat | i < BlockCount(size)
      ensures BlockOffset(i) <= x < BlockOffset(i) + BlockLength(size, i) <==> i == b
    {
      BlocksTilePiece(size, i);
    }
  }

  /** The payload of a reply: the echoed piece index and offset, then the data. */
  function Reply(index: uint32, offset: uint32, data: seq<byte>): seq<byte> {
    BigEndian(index) + BigEndian(offset) + data
  }

  /**
    A reply that echoes the request for a started block and carries as much
    data as was asked for is accepted exactly when the block is still
    unfilled, at that block's index.
   */
  lemma EchoedRequestIsAccepted(p: PieceState, i: nat, data: seq<byte>, junk: nat)
    requires |p.blocks| <= BlockCount(p.size)
    requires i < |p.blocks|
    requires |data| == BlockLength(p.size, i)
    ensures BlockOffset(i) < 0x1_0000_0000
    ensures var payload := Reply(p.index, BlockOffset(i), data);
            && NamedBlock(payload, junk) == i
            && AcceptStatus(p, payload) == (if p.blocks[i].filled then AlreadyFilled else Ok)
            && (!p.blocks[i].filled ==> Accept(p, payload).blocks[i].data == data)
  {
    BlocksTilePiece(p.size, i);
    var payload := Reply(p.index, BlockOffset(i), data);
    assert payload[..4] == BigEndian(p.index);
    assert payload[4..8] == BigEndian(BlockOffset(i));
    BigEndianRoundTrip(p.index);
    BigEndianRoundTrip(BlockOffset(i));
    assert payload[8..8 + DataLength(payload)] == data;
  }

  /**
    What is wrong with a reply, in this order: too much data by a length in 32
    bits, another piece, a block that is not started, a block that is filled.
   */
  lemma RepliesAreAnswered(p: PieceState, index: uint32, offset: uint32, data: seq<byte>)
    ensures AcceptStatus(p, Reply(index, offset, data))
            == if |data| % 0x1_0000_0000 > 16384 then TooMuchData
               else if index != p.index then WrongPiece
               else if offset / 16384 >= |p.blocks| then WrongOffset
               else if p.blocks[offset / 16384].filled then AlreadyFilled
               else Ok
  {
    var payload := Reply(index, offset, data);
    assert payload[..4] == BigEndian(index) && payload[4..8] == BigEndian(offset);
    BigEndianRoundTrip(index);
    BigEndianRoundTrip(offset);
    hide BigEndian, FromBigEndian;
  }

  /** A payload that is too short for its header is answered as if it were too long. */
  lemma ShortPayloadIsRefused(p: PieceState, payload: seq<byte>)
    requires |payload| < 8
    ensures AcceptStatus(p, payload) == TooMuchData && Accept(p, payload) == p
  {
  }

  // ----- Histories

  datatype Op = Next | Free(block: nat) | Deliver(payload: seq<byte>) | Finish(heap: seq<byte>)

  /** One operation on a piece. The source finalizes only a complete piece (src/peer.cpp:110-111). */
  function Apply(p: PieceState, op: Op): PieceState {
    match op
    case Next => Reserve(p)
    case Free(i) => Release(p, i)
    case Deliver(payload) => Accept(p, payload)
    case Finish(heap) => if IsComplete(p) then Finalize(p, heap) else p
  }

  function Run(p: PieceState, ops: seq<Op>): PieceState {
    if ops == [] then p else Apply(Run(p, ops[..|ops| - 1]), ops[|ops| - 1])
  }

  /** How many blocks a history has started, read off the history alone. */
  function Started(size: uint32, ops: seq<Op>): (n: nat)
    ensures n <= BlockCount(size)
  {
    if ops == [] then 0
    else
      var n := Started(size, ops[..|ops| - 1]);
      if ops[|ops| - 1].Next? && n < BlockCount(size) then n + 1 else n
  }

  /** A payload for block `b` of piece `index`, of acceptable length. */
  predicate IsFor(payload: seq<byte>, index: uint32, b: nat) {
    && 8 <= |payload|
    && DataLength(payload) <= BLOCK_SIZE
    && FromBigEndian(payload[..4]) == index
    && FromBigEndian(payload[4..8]) / BLOCK_SIZE == b
  }

  /** The first payload in a history that is for block `b` and arrives after the block was started. */
  function FirstFill(index: uint32, size: uint32, ops: seq<Op>, b: nat): (r: Option<seq<byte>>)
    ensures r.Some? ==> IsFor(r.value, index, b)
  {
    if ops == [] then None
    else
      var earlier, last := ops[..|ops| - 1], ops[|ops| - 1];
      var before := FirstFill(index, size, earlier, b);
      if before.Some? then before
      else if last.Deliver? && IsFor(last.payload, index, b) && b < Started(size, earlier) then Some(last.payload)
      else None
  }

  /** Block `b` of `p` is what the history `ops` says it is. */
  ghost predicate BlockMatches(p: PieceState, ops: seq<Op>, b: nat) {
    var fill := FirstFill(p.index, p.size, ops, b);
    && (fill.Some? <==> b < |p.blocks| && p.blocks[b].filled)
    && (fill.Some? ==> p.blocks[b].data == fill.value[8..8 + DataLength(fill.value)])
  }

  lemma AcceptedIsFor(p: PieceState, payload: seq<byte>, b: nat)
    ensures AcceptStatus(p, payload) == Ok && NamedBlock(payload, 0) == b <==>
            IsFor(payload, p.index, b) && b < |p.blocks| && !p.blocks[b].filled
  {
  }

  /** One operation keeps the number of started blocks in step with the history. */
  lemma OperationKeepsStarted(p: PieceState, ops: seq<Op>, op: Op)
    requires |p.blocks| == Started(p.size, ops)
    ensures Apply(p, op).index == p.index && Apply(p, op).size == p.size
    ensures |Apply(p, op).blocks| == Started(p.size, ops + [op])
  {
    hide FromBigEndian, DataLength, BlockCount, Joined;
    assert (ops + [op])[..|ops|] == ops;
  }

  lemma FirstFillStep(index: uint32, size: uint32, ops: seq<Op>, op: Op, b: nat)
    ensures FirstFill(index, size, ops + [op], b)
            == if FirstFill(index, size, ops, b).Some? then FirstFill(index, size, ops, b)
               else if op.Deliver? && IsFor(op.payload, index, b) && b < Started(size, ops) then Some(op.payload)
               else None
  {
    hide IsFor, Started;
    assert (ops + [op])[..|ops|] == ops;
  }

  lemma OtherOperationKeepsFilled(p: PieceState, op: Op, b: nat)
    requires !op.Deliver?
    ensures b < |Apply(p, op).blocks| && Apply(p, op).blocks[b].filled <==> b < |p.blocks| && p.blocks[b].filled
    ensures b < |p.blocks| ==> b < |Apply(p, op).blocks| && Apply(p, op).blocks[b].data == p.blocks[b].data
    ensures Apply(p, op).index == p.index && Apply(p, op).size == p.size
  {
    hide BlockCount, Joined, IsComplete, Overwrite;
  }

  /** One operation keeps block `b` in step with the history. */
  lemma OperationKeepsMatch(p: PieceState, ops: seq<Op>, op: Op, b: nat)
    requires |p.blocks| == Started(p.size, ops)
    requires BlockMatches(p, ops, b)
    ensures BlockMatches(Apply(p, op), ops + [op], b)
  {
    hide FromBigEndian, DataLength, BlockCount, Joined, FirstFill, Started;
    FirstFillStep(p.index, p.size, ops, op, b);
    if op.Deliver? {
      AcceptedIsFor(p, op.payload, b);
      hide AcceptStatus, IsFor;
    } else {
      OtherOperationKeepsFilled(p, op, b);
      hide Apply;
    }
  }

  /**
    Over any history, with duplicates, late and foreign payloads in any
    order, a block is filled exactly when the history holds a payload for it
    that came after it was started, and it keeps the bytes of the first one.
   */
  lemma {:induction false} BlocksKeepFirstFill(index: uint32, size: uint32, ops: seq<Op>)
    ensures var p := Run(Fresh(index, size), ops);
            && p.index == index && p.size == size
            && |p.blocks| == Started(size, ops)
            && forall b: nat :: BlockMatches(p, ops, b)
  {
    if ops == [] {
    } else {
      var earlier, last := ops[..|ops| - 1], ops[|ops| - 1];
      BlocksKeepFirstFill(index, size, earlier);
      var p := Run(Fresh(index, size), earlier);
      assert earlier + [last] == ops;
      OperationKeepsStarted(p, earlier, last);
      hide Apply, BlockMatches, FirstFill, Started, Fresh;
      forall b: nat
        ensures BlockMatches(Apply(p, last), ops, b)
      {
        OperationKeepsMatch(p, earlier, last, b);
      }
    }
  }

  /** Every payload that fills a block has the offset and the length that were requested. */
  ghost predicate Conforming(index: uint32, size: uint32, ops: seq<Op>) {
    forall b: nat ::
      var fill := FirstFill(index, size, ops, b);
      fill.Some? ==>
        && FromBigEndian(fill.value[4..8]) == BlockOffset(b)
        && DataLength(fill.value) == BlockLength(size, b)
  }

  /** With blocks of the requested lengths, the bytes of the first n blocks line up with the piece. */
  lemma {:induction false} JoinedLinesUp(size: uint32, blocks: seq<BlockState>)
    requires |blocks| <= BlockCount(size)
    requires forall i :: 0 <= i < |blocks| ==> |blocks[i].data| == BlockLength(size, i)
    ensures |Joined(blocks)| == if |blocks| == BlockCount(size) then size else BlockOffset(|blocks|)
    ensures forall x: nat | x < |Joined(blocks)| ::
              && x / BLOCK_SIZE < |blocks|
              && x % BLOCK_SIZE < |blocks[x / BLOCK_SIZE].data|
              && Joined(blocks)[x] == blocks[x / BLOCK_SIZE].data[x % BLOCK_SIZE]
  {
    if blocks == [] {
      assert BlockCount(size) == 0 ==> size == 0;
    } else {
      var n := |blocks| - 1;
      JoinedLinesUp(size, blocks[..n]);
      BlocksTilePiece(size, n);
      assert |Joined(blocks[..n])| == BlockOffset(n);
      forall x: nat | x < |Joined(blocks)|
        ensures x / BLOCK_SIZE < |blocks|
        ensures x % BLOCK_SIZE < |blocks[x / BLOCK_SIZE].data|
        ensures Joined(blocks)[x] == blocks[x / BLOCK_SIZE].data[x % BLOCK_SIZE]
      {
        if BlockOffset(n) <= x {
          assert x / BLOCK_SIZE == n;
        }
      }
    }
  }

  /** The byte that the first payload to fill block `b` carried for position `k` of the block. */
  ghost predicate FirstByteFor(index: uint32, size: uint32, ops: seq<Op>, b: nat, k: nat, value: byte) {
    var fill := FirstFill(index, size, ops, b);
    && fill.Some?
    && var at := 8 + (BlockOffset(b) + k) - FromBigEndian(fill.value[4..8]);
       8 <= at < |fill.value| && value == fill.value[at]
  }

  /** What a conforming history leaves in the block of position `x`, once that block is filled. */
  lemma FilledByte(p: PieceState, ops: seq<Op>, b: nat, k: nat)
    requires Conforming(p.index, p.size, ops) && BlockMatches(p, ops, b)
    requires b < |p.blocks| && p.blocks[b].filled
    ensures |p.blocks[b].data| == BlockLength(p.size, b)
    ensures k < |p.blocks[b].data| ==> FirstByteFor(p.index, p.size, ops, b, k, p.blocks[b].data[k])
  {
  }

  /** Exactly `size` bytes, each the one that the first filling payload of its block carried for that position. */
  ghost predicate IsContent(data: seq<byte>, index: uint32, size: uint32, ops: seq<Op>) {
    && |data| == size
    && forall x: nat | x < size :: FirstByteFor(index, size, ops, x / BLOCK_SIZE, x % BLOCK_SIZE, data[x])
  }

  lemma FirstFinalize(index: uint32, size: uint32, ops: seq<Op>, heap: seq<byte>)
    requires Conforming(index, size, ops)
    requires IsComplete(Run(Fresh(index, size), ops))
    requires Run(Fresh(index, size), ops).finalized.None?
    ensures IsContent(Finalize(Run(Fresh(index, size), ops), heap).finalized.value, index, size, ops)
  {
    BlocksKeepFirstFill(index, size, ops);
    var p := Run(Fresh(index, size), ops);
    hide Run, FirstFill, Started, FirstByteFor, BlockMatches;
    forall i: nat | i < |p.blocks|
      ensures |p.blocks[i].data| == BlockLength(size, i)
    {
      FilledByte(p, ops, i, 0);
    }
    JoinedLinesUp(size, p.blocks);
    forall x: nat | x < size
      ensures FirstByteFor(index, size, ops, x / BLOCK_SIZE, x % BLOCK_SIZE, Joined(p.blocks)[x])
    {
      FilledByte(p, ops, x / BLOCK_SIZE, x % BLOCK_SIZE);
    }
  }

  /** The first payload for a block stays the first, so what conforms and what is first does not change later. */
  lemma FirstFillStays(index: uint32, size: uint32, ops: seq<Op>, op: Op)
    ensures forall b: nat :: FirstFill(index, size, ops, b).Some? ==>
              FirstFill(index, size, ops + [op], b) == FirstFill(index, size, ops, b)
    ensures Conforming(index, size, ops + [op]) ==> Conforming(index, size, ops)
    ensures forall data :: IsContent(data, index, size, ops) ==> IsContent(data, index, size, ops + [op])
  {
    forall b: nat
      ensures FirstFill(index, size, ops, b).Some? ==>
                FirstFill(index, size, ops + [op], b) == FirstFill(index, size, ops, b)
    {
      assert (ops + [op])[..|ops|] == ops;
    }
    hide FirstFill;
  }

  /** What a piece has been finalized to is the content its history determines. */
  lemma {:induction false} FinalizedIsContent(index: uint32, size: uint32, ops: seq<Op>)
    requires Conforming(index, size, ops)
    ensures var p := Run(Fresh(index, size), ops);
            p.finalized.Some? ==> IsComplete(p) && IsContent(p.finalized.value, index, size, ops)
  {
    if ops == [] {
    } else {
      var n := |ops| - 1;
      var before, op := ops[..n], ops[n];
      var p := Run(Fresh(index, size), before);
      assert before + [op] == ops;
      FirstFillStays(index, size, before, op);
      FinalizedIsContent(index, size, before);
      BlocksKeepFirstFill(index, size, before);
      if p.finalized.Some? {
        CompleteStays(p, op);
      } else if op.Finish? && IsComplete(p) {
        FirstFinalize(index, size, before, op.heap);
      }
      hide Conforming, IsContent, IsComplete, BlockMatches, FirstFill, Started;
    }
  }

  lemma CompleteStays(p: PieceState, op: Op)
    requires IsComplete(p) && p.finalized.Some?
    ensures IsComplete(Apply(p, op)) && Apply(p, op).finalized == p.finalized
  {
    hide FromBigEndian, DataLength, Joined, BlockCount;
  }

  /**
    When every filling payload conforms, a complete piece finalizes to exactly
    `size` bytes, and each is the byte that the first filling payload of its
    block carried for that position, whatever the new buffer held before and
    whenever it is finalized for the first time, or again.
   */
  lemma FinalizedContent(index: uint32, size: uint32, ops: seq<Op>, heap: seq<byte>)
    requires Conforming(index, size, ops)
    requires IsComplete(Run(Fresh(index, size), ops))
    ensures IsContent(Finalize(Run(Fresh(index, size), ops), heap).finalized.value, index, size, ops)
  {
    hide Run, Conforming, IsContent, IsComplete;
    FinalizedIsContent(index, size, ops);
    if Run(Fresh(index, size), ops).finalized.None? {
      FirstFinalize(index, size, ops, heap);
    }
  }

  /**
    `accept` rounds the offset of a payload down to its block: the data goes
    to the start of the block, which is where the payload says if and only if
    the offset is a multiple of the block size.
   */
  lemma OffsetIsRoundedDown(p: PieceState, payload: seq<byte>)
    requires AcceptStatus(p, payload) == Ok
    ensures var i := NamedBlock(payload, 0);
            && Accept(p, payload).blocks[i].data == payload[8..8 + DataLength(payload)]
            && (BlockOffset(i) == FromBigEndian(payload[4..8]) <==> FromBigEndian(payload[4..8]) % BLOCK_SIZE == 0)
  {
    hide FromBigEndian, DataLength;
  }

  /** A byte sent for position 1 of a two-byte piece is accepted for position 0. */
  lemma MisalignedReplyIsAccepted(index: uint32, b: byte)
    ensures var p := Accept(Reserve(Fresh(index, 2)), Reply(index, 1, [b]));
            IsComplete(p) && Joined(p.blocks) == [b]
  {
    var payload, p := Reply(index, 1, [b]), Reserve(Fresh(index, 2));
    assert payload[..4] == BigEndian(index) && payload[4..8] == BigEndian(1);
    BigEndianRoundTrip(index);
    BigEndianRoundTrip(1);
    assert BlockCount(2) == 1;
    assert p.blocks == [BlockState(false, true, [])];
    assert NamedBlock(payload, 0) == 0 && AcceptStatus(p, payload) == Ok;
    assert payload[8..8 + DataLength(payload)] == [b];
    var blocks := Accept(p, payload).blocks;
    assert blocks == [BlockState(true, true, [b])];
    assert Joined(blocks) == Joined(blocks[..0]) + [b];
  }

  /**
    `accept` does not check that a block has the length that was asked for, so
    a complete piece need not have been downloaded: here a one-byte piece is
    completed by a payload without data and finalizes to the byte that the
    new buffer happened to hold.
   */
  lemma EmptyPayloadCompletesPiece(index: uint32, b: byte)
    ensures var p := Accept(Reserve(Fresh(index, 1)), Reply(index, 0, []));
            IsComplete(p) && Joined(p.blocks) == [] && Finalize(p, [b]).finalized == Some([b])
  {
    var payload := Reply(index, 0, []);
    var p := Reserve(Fresh(index, 1));
    assert payload[..4] == BigEndian(index) && payload[4..8] == BigEndian(0);
    BigEndianRoundTrip(index);
    BigEndianRoundTrip(0);
    assert BlockCount(1) == 1;
    assert p.blocks == [BlockState(false, true, [])];
    assert NamedBlock(payload, 0) == 0 && AcceptStatus(p, payload) == Ok;
    assert payload[8..8 + DataLength(payload)] == [];
    var blocks := Accept(p, payload).blocks;
    assert blocks == [BlockState(true, true, [])];
    assert Joined(blocks) == Joined(blocks[..0]) + [];
    assert Overwrite([b], [], 1) == [b];
  }

  /**
    Finalizing yields the downloaded bytes, all of them and nothing else,
    exactly when the lengths of the blocks add up to the size of the piece.
   */
  lemma FinalizeIsExact(p: PieceState)
    requires p.finalized.None?
    ensures (forall heap :: Finalize(p, heap).finalized == Some(Joined(p.blocks))) <==> |Joined(p.blocks)| == p.size
  {
    if |Joined(p.blocks)| == p.size {
      forall heap ensures Finalize(p, heap).finalized == Some(Joined(p.blocks)) {
        assert Overwrite(heap, Joined(p.blocks), p.size) == Joined(p.blocks);
      }
    } else {
      assert |Finalize(p, []).finalized.value| == p.size;
    }
  }

  /** A complete piece stays complete and keeps its blocks and its finalized bytes for ever after. */
  lemma {:induction false} FinalizedForEver(p: PieceState, ops: seq<Op>)
    requires IsComplete(p)
    ensures var q := Run(p, ops);
            && IsComplete(q)
            && q.index == p.index && q.size == p.size
            && (forall i :: 0 <= i < |p.blocks| ==> q.blocks[i].data == p.blocks[i].data)
            && (p.finalized.Some? ==> q.finalized == p.finalized)
  {
    if ops == [] {
    } else {
      FinalizedForEver(p, ops[..|ops| - 1]);
    }
  }

  // ----- Which blocks are still to come

  /** The blocks of the piece that hold no data yet, started or not. */
  function Unfilled(p: PieceState): set<nat> {
    set i: nat | i < BlockCount(p.size) && !(i < |p.blocks| && p.blocks[i].filled)
  }

  /** The blocks that `next_block` may still hand out. */
  function Available(p: PieceState): set<nat> {
    var n := if |p.blocks| < BlockCount(p.size) then BlockCount(p.size) else |p.blocks|;
    set i: nat | i < n && !(i < |p.blocks| && (p.blocks[i].filled || p.blocks[i].reserved))
  }

  /** `next_block` hands out an available block and makes it unavailable; it fails only when there is none. */
  lemma ReserveTakesOne(p: PieceState)
    ensures NextBlock(p).None? <==> Available(p) == {}
    ensures NextBlock(p).Some? ==>
              && NextBlock(p).value in Available(p)
              && Available(Reserve(p)) == Available(p) - {NextBlock(p).value}
  {
    var next := NextBlock(p);
    if next.Some? {
      assert next.value in Available(p);
    } else {
      assert Available(p) == {};
    }
  }

  lemma NothingToReserve(p: PieceState)
    requires NextBlock(p).None?
    ensures Reserve(p) == p
  {
  }
}
