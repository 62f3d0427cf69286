# picotor, modelled and verified

picotor is a small BitTorrent client: it reads a metainfo file, asks the
tracker for peers over HTTP, downloads the pieces of a single file from all
peers at once and checks each piece against its SHA-1 hash. This project
models its five hard components in Dafny and proves what they promise.

`dafny verify dfyconfig.toml` checks everything.

## How the model is laid out

Code that changes things in place is modelled by classes, arrays and loops.
Each method is proved equal to a function on values, and the properties are
lemmas about these functions, so that they hold of the methods. What a parser
accepts is stated apart from it: as the texts of syntax trees, written fields,
messages or chunks, for every input and in both directions
(`BencodeSyntax.ParseIsExact`, `FieldSyntax.FieldsAreExact`,
`Responses.StatusIsExact`, `WireSyntax.ReadIsExact`,
`Handshakes.HandshakeIsExact`, `Chunked.DecoderIsExact`). Codes, digits, names
and constants stand against literal bytes in these and in `KnownAnswers`.

| modules | component |
|---|---|
| `Pieces`, `PieceObjects` | blocks and pieces (include/torrent.hpp) |
| `PeerProtocol`, `Pipeline`, `PeerObjects` | one peer and its handlers (src/peer.cpp, include/peer.hpp) |
| `Swarm`, `PeerConduct`, `Reports`, `ClosedPeers`, `MonitorObjects` | all peers, the queues and the monitor, over whole runs |
| `Filling`, `OnePeerRuns`, `Completion`, `Overruns`, `OneByteRuns` | runs with one peer: one that completes the download, those that write past the buffer of a piece, and short ones in which things go wrong |
| `Bencode`, `BencodeLaws`, `BencodeSyntax`, `BencodePointers`, `BencodeDecoder` | the bencode language, its laws, its syntax, and the decoder as it runs |
| `Metainfo`, `MetainfoFiles` | the torrent constructor and the info hash |
| `Sha1Standard`, `Sha1Example`, `Sha1Transform`, `Hasher`, `Hashing`, `Hex` | SHA-1 against FIPS 180-4, and hashes as text |
| `Chunked`, `ResponseBody`, `Headers`, `FieldSyntax`, `Responses`, `Base64` | HTTP responses and header fields |
| `Messages`, `Wire`, `WireSyntax`, `Handshakes` | peer messages on the wire |
| `KnownAnswers` | bytes and texts as the standards give them |
| `Bytes` | bytes, network order, sequence algebra |

**The download** is a state machine over events: connecting, a message, a
failed read, a timer, a failed write, a monitor pop. Handlers are atomic,
because all of them run on the one thread of `io.run()`; they interleave with
the monitor in any order. Payloads, errors, timers, and what uninitialised
memory holds (`junk`, `heap`) are arbitrary. `PeerState.outstanding` maps the
indices in `blocks_` to whether the block belongs to the piece the peer now
holds: blocks of a piece that was given up stay behind in the source.

**Bencode.** `Bencode.Parse` is a recursive-descent reading of the language
the decoder accepts, which is wider than BEP 3, section "bencoding": leading
zeros, missing digits, `-0` and unsorted keys are read, and trailing bytes are
ignored. `BencodeDecoder.BasicDecode` is the loop of the source, with its
stack of interior pointers (a pointer is the path from the root to the node)
and its single key register. A dereference at the end of the input reads a
byte that matches nothing.

**SHA-1.** `Sha1Standard` transcribes sections 4.1.1, 4.2.1, 5.1.1, 5.2.1,
5.3.1 and 6.1.2 of FIPS 180-4 with an 80-word schedule; everything in
`Sha1Transform` and `Hasher` is proved against it. The standard stops below
2^64 bits; beyond it the length is taken modulo 2^64, as the source does.

**HTTP.** What `recv` returns is a list of byte strings, cut anywhere. The
bit masks of the Base64 encoder are written as quotients and remainders.

## What turned out not to hold

- The info hash is not always taken from the original bytes: it is exactly when
  the info dictionary is canonical (`Metainfo.InfoHashIsOfOriginalBytes`), and
  a file with unsorted entries is loaded with another
  (`MetainfoFiles.UnsortedInfoIsReencoded`).
- A metainfo file without an announce address is refused, although the comment
  in src/torrent.cpp:13 grants that there are such files
  (`Metainfo.LoadsExactly`, `MetainfoFiles.FileWithoutAnnounceIsRefused`).
- The announce address is not always one of HTTP afterwards, although
  src/torrent.cpp:16 says so, and a "udp" in a host name is replaced too
  (`Metainfo.AnnounceIsHttp`, `Metainfo.AnnounceIsKept`, with the addresses of
  `Metainfo.FtpIsNotReplaced` and `Metainfo.HostNameIsReplaced`).
- `accept` checks neither the length nor the alignment of a block, so a complete
  piece need not have been downloaded (`Pieces.EmptyPayloadCompletesPiece`,
  `Pieces.FinalizeIsExact`), and data can go to another place than it names
  (`Pieces.OffsetIsRoundedDown`, `Pieces.MisalignedReplyIsAccepted`). Only the
  hash check stands against this.
- `finalize` copies without comparing lengths, so it can write past the buffer
  it allocates, before any hash is checked. The buffer suffices for every
  history if and only if the piece length is a multiple of 16 KiB
  (`Overruns.BufferSuffices`), and some run writes past it if and only if it is
  not and there is a piece to download (`Overruns.OverrunsExactly`). Two bytes
  in place of one are enough, and the piece is then reported as correct
  (`OneByteRuns.LongReplyIsReported`). In the source such a run is undefined
  from there on; what is stated over runs below is about the others.
- A piece count that is rounded down leaves the end of the file unwritten
  (`Swarm.PiecesCoverFile`, `Swarm.TailStaysEmpty`).
- A closed peer can hold a piece (`Swarm.IdlePeerTakesPiece`,
  `ClosedPeers.FailedCheckTakesPiece`, `OneByteRuns.ClosedPeerHoldsPiece`), and
  does exactly in the runs that `ClosedPeers.ClosedPeerHolds` describes.
- After a message of unknown type nothing more is read from its peer, which
  keeps its piece until a block times out (`Wire.UnknownTypeEndsChain`,
  `PeerConduct.StoppedPeerHoldsPiece`, `OneByteRuns.StoppedPeerHoldsPiece`).
- A message of 2^32 - 1 payload bytes or more is not read back
  (`Wire.MessageArrives`).
- A handshake whose protocol string has the code of a white-space character for
  its length may be misread (`Handshakes.HandshakeRoundTrip`,
  `Handshakes.WhiteSpaceLengthMayBeMisread`).
- A response whose header section is not in the first `recv` is returned empty
  (`Responses.HeaderMustArriveWhole`), although the comment beside it cites
  section 3 of RFC 7230, which sets no such bound.
- A chunk size that is a multiple of 2^64 ends the body (`Chunked.SizeIsExact`).
- With a Content-Length, what arrives beyond it is kept or dropped depending on
  how the data arrives (`ResponseBody.LengthIsExact`).
- Header values lose the white space around them (`Headers.HeaderRoundTrip`).
- Of a folded header value white space beyond the first character of each fold
  stays, tabs included, although the comment cites section 3.2.4 of RFC 7230,
  which allows nothing but spaces (`Headers.FoldsAreSingleSpaces`,
  `Headers.GapIsSpaces`, `Headers.TabOfFoldStays`).

## Model

| member | source | states |
|---|---|---|
| Pieces.BlocksTilePiece | include/torrent.hpp:211-217 | the offset and length pairs of the blocks tile the piece: no gap, overlap, empty block, over-long block or 32-bit wrap |
| Pieces.EveryByteHasOneBlock | include/torrent.hpp:100 | each byte of a piece lies in exactly one block, the one its offset names |
| Pieces.FirstFree | include/torrent.hpp:172-177 | the block found is free and none before it is; nothing is found only if none is free |
| Pieces.ReserveTakesOne | include/torrent.hpp:162-180 | `next_block` hands out an available block and makes exactly that one unavailable; it fails if and only if there is none |
| Pieces.EchoedRequestIsAccepted | include/torrent.hpp:143-160 | a reply that echoes a request and carries the data asked for is accepted if and only if the block is unfilled, at that block's index, and its data is stored |
| Pieces.RepliesAreAnswered | include/torrent.hpp:143-160 | the answer to a reply, by its index, its offset and the length of its data in 32 bits, in the order in which they are checked |
| Pieces.ShortPayloadIsRefused | include/torrent.hpp:144-151 | a payload too short for its header is refused as if it were too long, and changes nothing |
| Pieces.BlocksKeepFirstFill | include/torrent.hpp:143-180 | over any history, with duplicate, late and foreign payloads, a block is filled if and only if a payload for it came after it was started, and it keeps the first one |
| Pieces.FinalizedContent | include/torrent.hpp:188-201 | after any history whose filling payloads conform, a complete piece finalizes, for the first time or again, to exactly `size` bytes, each the one first accepted for its position |
| Pieces.FinalizeIsExact | include/torrent.hpp:188-201 | finalizing yields the downloaded bytes whatever the buffer held if and only if the block lengths add up to the piece size |
| Pieces.EmptyPayloadCompletesPiece | include/torrent.hpp:143-160 | a payload without data completes a one-byte piece, which finalizes to a byte nobody sent |
| Pieces.OffsetIsRoundedDown | include/torrent.hpp:153-160 | accepted data goes to the start of its block, which is where the payload says if and only if its offset is a multiple of the block size |
| Pieces.MisalignedReplyIsAccepted | include/torrent.hpp:153-160 | a byte sent for position 1 of a two-byte piece completes the piece and stands at position 0 |
| Pieces.FinalizedForEver | include/torrent.hpp:188-201 | once complete, a piece stays complete and finalizes to the same bytes ever after |
| PieceObjects.Block.constructor | include/torrent.hpp:93 | a new block is neither filled nor reserved |
| PieceObjects.Block.Release | include/torrent.hpp:97 | the block can be handed out again, its data stays |
| PieceObjects.Block.Fill | include/torrent.hpp:106-112 | a filled block refuses data and does not change |
| PieceObjects.Piece.constructor | include/torrent.hpp:138 | a new piece has no blocks |
| PieceObjects.Piece.Accept | include/torrent.hpp:143-160 | answer, named block and new state are those of the value model, whatever the payload |
| PieceObjects.Piece.NextBlock | include/torrent.hpp:162-180 | hands out the block the value model names, new or existing, and leaves the other block objects as they are |
| PieceObjects.Piece.FindFree | include/torrent.hpp:172-177 | the loop finds the first block that is neither filled nor reserved |
| PieceObjects.Piece.IsComplete | include/torrent.hpp:182-186 | true if and only if every block of the piece is started and filled |
| PieceObjects.Piece.Finalize | include/torrent.hpp:188-201 | the copy loop yields the bytes of all blocks in order over whatever the new buffer held; the result is cached |
| PeerProtocol.TurnTakesABlock | src/peer.cpp:173-175 | a turn of the download loop that requests a block uses up an available one, so the loop ends |
| PeerProtocol.HandleMessageConserves | src/peer.cpp:125-149 | no message in any state of the peer loses or duplicates a piece |
| Pipeline.EmplaceInserts | src/peer.cpp:173-175 | every `emplace` of the download loop inserts, so that the number of outstanding blocks grows by one |
| Pipeline.DownloadFillsPipeline | src/peer.cpp:151-202 | the loop keeps the pipeline invariant and ends with min(5, unfilled blocks) outstanding |
| Pipeline.HandleMessageKeepsPipeline | src/peer.cpp:125-149 | the pipeline invariant holds again after any message |
| PeerObjects.Queue.Push | include/peer.hpp:63 | an element goes to the end of the shared queue |
| PeerObjects.Queue.Pop | src/peer.cpp:159 | an element comes from the front, or the queue was empty |
| PeerObjects.Peer.constructor | include/peer.hpp:91-97 | a new peer is choked, open, and holds nothing |
| PeerObjects.Peer.ReleaseBlock | include/peer.hpp:53-59 | releases the block object under the index, which may belong to an abandoned piece, and forgets it |
| PeerObjects.Peer.ReleasePiece | include/peer.hpp:61-66 | the index returns to the work queue; what is outstanding stays |
| PeerObjects.Peer.Close | include/peer.hpp:68-73 | the peer is closed, gives its piece back and reports that it dropped |
| PeerObjects.Peer.AcceptPayload | src/peer.cpp:102 | the payload goes to the held piece, and the answer and the block it names come back |
| PeerObjects.Peer.HandlePiece | src/peer.cpp:99-123 | the handler does to peer and queues what the value model says, over shared block objects |
| PeerObjects.Peer.FinishPiece | src/peer.cpp:111-122 | reports a piece with the right hash, closes the peer otherwise |
| PeerObjects.Peer.ReserveBlock | src/peer.cpp:173-174 | the piece hands out the next block, if there is one |
| PeerObjects.Peer.Ask | src/peer.cpp:175-200 | the block becomes outstanding under its index and its request is sent |
| PeerObjects.Peer.TakePiece | src/peer.cpp:156-161 | a peer without a piece takes the one at the front of the work queue |
| PeerObjects.Peer.HasPiece | include/common.hpp:98-101 | an index beyond the bitfield is not available |
| PeerObjects.Peer.DownloadTurn | src/peer.cpp:152-201 | one turn of the loop, with its five ways to return |
| PeerObjects.Peer.AsyncDownload | src/peer.cpp:151-202 | the loop ends, and in the state of the value model |
| PeerObjects.Peer.CopyBits | include/common.hpp:88-96 | each byte gives eight bits, most significant first |
| PeerObjects.Peer.Dispatch | src/peer.cpp:131-146 | the switch on the type of a message does what the value model says |
| PeerObjects.Peer.AsyncHandleMessage | src/peer.cpp:125-149 | the handler does what the value model says, and reads on unless the type is unknown |
| Swarm.WriteAt | src/peer.cpp:223-224 | a write changes the bytes of its range and no others, and extends the file if need be |
| Swarm.HandlerConserves | src/peer.cpp:67-202 | from any state, no handler changes how often a piece index occurs in queues, peers and results together |
| Swarm.PieceCount | include/torrent.hpp:42 | as many pieces as fit into the file: the remainder is shorter than a piece |
| Swarm.WholePieces | include/torrent.hpp:42 | the pieces that are downloaded are those that lie within the file |
| Swarm.WriteHitsOwnRegion | src/peer.cpp:221-229 | a verified piece is written to its own region without 32-bit wrap, and no other byte changes |
| Swarm.InvariantHolds | src/peer.cpp:67-229 | in every state of every run in which no `finalize` writes past its buffer: one place per piece, sound peers, sound results, sound file, bytes counted |
| Swarm.EachPieceInOnePlace | src/main.cpp:46-49 | in every reachable state each piece is in exactly one of work queue, peers, pending results and file, and no other index is anywhere |
| Swarm.CompleteDownloadIsCorrect | src/peer.cpp:219-229 | in every run in which no `finalize` writes past its buffer: when nothing is missing, every piece that lies within the file has the hash the torrent names, all bytes but a remainder shorter than a piece have been counted, and no piece is left in the work queue, with a peer or in a pending result |
| Swarm.WrittenOnce | src/peer.cpp:221-229 | a run writes a piece once if it is no longer missing and never while it is |
| Swarm.TailStaysEmpty | src/peer.cpp:208-212 | only the remainder of the file, shorter than a piece, is never written, and it keeps the zeros it was created with |
| Swarm.PiecesCoverFile | include/torrent.hpp:42 | the pieces cover the file if and only if the piece length divides its length |
| Swarm.PipelineIsFull | src/peer.cpp:147-202 | in every run, after a message an open, unchoked peer with bitfield and piece has min(5, unfilled) blocks outstanding |
| Swarm.IdlePeerTakesPiece | src/peer.cpp:151-167 | a peer without a piece takes the front one of the queue if and only if its pipeline has room, it is not choked, has a bitfield and has that piece |
| Reports.CompletedPieceIsReported | src/peer.cpp:110-122 | a payload that completes a piece: with the right hash exactly these bytes are reported under the index of the piece, and the peer stays as open as it was; with another hash the peer is closed and dropped and the piece requeued |
| Reports.OtherPayloadsReportNothing | src/peer.cpp:99-110 | any other payload reports nothing, returns nothing, and frees the block it names |
| Reports.StepReports | src/peer.cpp:99-147 | the same for a step of the whole download: a block reports its piece, drops its peer, or reports nothing |
| Completion.HonestPeerCompletes | src/peer.cpp:67-229 | for every torrent and every file it describes there is a run, with one peer that answers every request with the bytes asked for, that ends with nothing missing and this file, up to the remainder |
| OnePeerRuns.FirstRequests | src/peer.cpp:151-200 | the first requests of a run are for the first five blocks of 16 KiB, in order |
| ClosedPeers.FailedCheckTakesPiece | src/peer.cpp:113-147 | after a failed hash check the peer is closed, and its handler still takes the next piece if and only if it is not choked and the peer has it |
| ClosedPeers.ClosedPeerHolds | src/peer.cpp:74-167 | in every run a peer is closed and holds a piece if and only if its download loop took one while it was closed and it has neither failed nor parted with it since |
| OneByteRuns.ClosedPeerHoldsPiece | src/peer.cpp:113-161 | a run in which a closed peer holds a piece: connected, unchoked, bitfield, and a byte that does not have the hash of the piece, whatever that hash is |
| OneByteRuns.StoppedPeerHoldsPiece | src/peer.cpp:125-129 | a run that strands a piece: connected, unchoked, bitfield, and a message of unknown type |
| OneByteRuns.LongReplyIsReported | src/peer.cpp:109-116 | two bytes for a piece of one are accepted, exceed its buffer, and are reported as the correct piece |
| Overruns.BufferSuffices | include/torrent.hpp:188-201 | the blocks of a piece fit its buffer after every history if and only if its size is a multiple of the block size |
| Overruns.OverrunsExactly | src/peer.cpp:99-111 | some run writes past the buffer of a piece if and only if there is a piece to download and the piece length is no multiple of the block size |
| PeerConduct.BitfieldNamesPieces | include/common.hpp:88-101 | a bitfield names piece 8b + k if and only if bit k, from the high end, of its byte b is set |
| PeerConduct.FlagsFollowMessages | src/peer.cpp:131-147 | only Choke, Unchoke and Bitfield change whether a peer is choked and what it has |
| PeerConduct.ChokedPeerRequestsNothing | src/peer.cpp:151-154 | while choked, and on being choked, no message makes the client send a request |
| PeerConduct.RequestsStayInPieces | include/message.hpp:57-64 | in every run every request ever sent asks for a non-empty range of at most 16 KiB within a piece of the torrent |
| PeerConduct.FailureReturnsPiece | src/peer.cpp:74-95 | whenever a connect, a read or a block fails, the peer gives its piece back, to the end of the work queue; it is closed and reported as dropped unless a body was cut short; its outstanding blocks and flags stay |
| PeerConduct.PhasesFollowEvents | src/peer.cpp:67-149 | reading starts when the peer has connected, goes on after every message of known type, and ends for good otherwise |
| PeerConduct.WriteFailureFreesBlock | src/peer.cpp:186-200 | a request that could not be written makes its block available again, unless the block is filled or of an abandoned piece |
| PeerConduct.RefusedReplyFreesBlock | src/peer.cpp:102-109 | a reply that is refused, for whatever reason, makes its block available again |
| PeerConduct.TurnSendsOneRequest | src/peer.cpp:173-200 | a requesting turn sends one request, for at most 16 KiB from the start of a block that was available, and the block is outstanding then |
| PeerConduct.UnavailablePieceIsPutBack | src/peer.cpp:156-167 | a piece the peer does not have goes from the front of the work queue to its end |
| PeerConduct.OnlyAskedPeersAreSent | src/peer.cpp:151-154 | in every run no request is sent to a peer that has not unchoked and sent a bitfield |
| PeerConduct.OtherMessagesChangeNothing | src/peer.cpp:131-148 | the other messages, and those of unknown type, leave a peer with nothing to request as it is |
| PeerConduct.StoppedPeerStep | src/peer.cpp:74-129 | a peer whose read chain has ended takes no piece any more, and loses the one it holds if and only if a block times out |
| PeerConduct.StoppedPeerHoldsPiece | src/peer.cpp:126-190 | in every run, a peer whose read chain has ended holds a piece if and only if it held one when it got a message of unknown type and none of its blocks has timed out since |
| MonitorObjects.MonitorVisitor.constructor | src/peer.cpp:208-217 | the file starts as zeros and every piece is missing |
| MonitorObjects.MonitorVisitor.Visit | src/peer.cpp:221-273 | a complete piece is recorded, other results change nothing |
| MonitorObjects.FillWorkQueue | src/main.cpp:46-49 | the work queue starts with every piece once |
| BencodeDecoder.OverflowTestsAreExact | include/bencode.hpp:292-317 | the tests on value and digit, under truncated division, decide exactly whether the next value leaves the type, in either sign |
| BencodeDecoder.DecodeSigned | include/bencode.hpp:319-367 | no intermediate leaves 64 bits; the exact signed value of a run of at most 19 digits, or a failure exactly if it does not fit |
| BencodeDecoder.DecodeUnsigned | include/bencode.hpp:319-367 | the same for unsigned lengths of at most 20 digits |
| BencodeDecoder.DecodeInt | include/bencode.hpp:369-389 | an integer token is read, or refused, exactly as the grammar says |
| BencodeDecoder.DecodeStr | include/bencode.hpp:442-453 | a string token is read, or refused, exactly as the grammar says |
| BencodeDecoder.Store | include/bencode.hpp:478-496 | storing through the top pointer puts the element into the root value, and the pointer returned leads to it |
| BencodeDecoder.ReadKey | include/bencode.hpp:511-517 | a key is read into the register before each element of a dictionary |
| BencodeDecoder.Open | include/bencode.hpp:521-526 | an opened container is stored empty, and the rest of the reading continues inside it |
| BencodeDecoder.BasicDecode | include/bencode.hpp:457-539 | for every input the loop yields the value of the recursive descent and stops at the same offset, and fails exactly when that fails, duplicate keys included |
| BencodeLaws.IntegerBufferSuffices | include/bencode.hpp:664-680 | digits10 + 2 characters hold every value of either integer type |
| BencodeLaws.RoundTrip | include/bencode.hpp:682-761 | decoding an encoding gives the value back and stops at its end, whatever follows, and every encoding is canonical |
| BencodeLaws.ReencodingReproducesCanonicalText | include/bencode.hpp:682-754 | re-encoding reproduces the text byte for byte if and only if the text is canonical |
| BencodeLaws.ReencodingIsIdempotent | include/bencode.hpp:756-761 | encoding and decoding an accepted text again changes nothing |
| BencodeLaws.EncodingsArePrefixFree | include/bencode.hpp:756-761 | no encoding is a proper prefix of another |
| BencodeLaws.LessIsByFirstDifference | include/bencode.hpp:682-754 | keys are ordered by the first byte that differs, a proper prefix first |
| BencodeSyntax.ParseIsExact | include/bencode.hpp:457-539 | for every text and offset: this value is accepted up to this end if and only if a tree that means it stands there, with leading zeros, missing digits, a negative zero and unsorted keys, but no key twice and no number outside 64 bits or over-long |
| BencodeSyntax.DictionaryIsOrderedMap | include/bencode.hpp:478-496 | the entries of a dictionary are in ascending order, as many as pairs, each key with the value of its pair |
| Metainfo.HashesAreThePieces | src/torrent.cpp:28-33 | the hashes, joined, start with the `pieces` string, and equal it if and only if its length is twenty times their number |
| Metainfo.Slice | src/torrent.cpp:31-33 | the loop cuts the string as specified, and reads past its end only for an incomplete last hash |
| Metainfo.Load | src/torrent.cpp:11-39 | the constructor yields the torrent, or the exception, that the entries of the file determine |
| Metainfo.LoadsExactly | src/torrent.cpp:11-39 | a file is loaded if and only if it decodes to a dictionary with every entry that is read, each of its type, and a piece length that is not 0; without an announce address it fails |
| Metainfo.FailuresAreTold | src/torrent.cpp:11-39 | which exception says what: not decoded, an entry missing, a value of another type, a piece length of 0 in 32 bits |
| Metainfo.AnnounceIsHttp | src/torrent.cpp:16-20 | the replacement gives an address that starts with "http" if and only if it started with "udp" or "http" |
| Metainfo.AnnounceIsKept | src/torrent.cpp:17-20 | the address is kept if and only if "udp" is nowhere in it |
| Metainfo.FtpIsNotReplaced | src/torrent.cpp:16-20 | an address of FTP is not one of HTTP afterwards |
| Metainfo.HostNameIsReplaced | src/torrent.cpp:16-20 | an address of HTTP is changed because its host name says "udp" |
| MetainfoFiles.WrittenFileIsLoaded | src/torrent.cpp:11-39 | a file written as BEP 3 has it, whatever follows, is loaded with the values it was written with, 64-bit numbers reduced to 32 bits |
| MetainfoFiles.ContentsText | src/torrent.cpp:11-33 | the text of such a file, with the names of its entries as literal bytes |
| MetainfoFiles.FileWithoutAnnounceIsRefused | src/torrent.cpp:13-14 | such a file without its announce address is refused, whatever else it holds |
| MetainfoFiles.UnsortedInfoIsReencoded | src/torrent.cpp:35-38 | a file with two info entries in the wrong order is loaded, and what is hashed differs from the info bytes in the file |
| Metainfo.InfoHashIsOfOriginalBytes | src/torrent.cpp:35-38 | the info hash is the hash of the info bytes as they stand in the file whenever these are canonical, and re-encoding gives these bytes if and only if they are |
| Sha1Transform.BlkIsNextWord | include/sha1.hpp:76-79 | the word computed from the circular array is the next of the 80-word schedule |
| Sha1Transform.ChooseIsCh | include/sha1.hpp:88 | the rewritten Ch is the one of section 4.1.1 |
| Sha1Transform.MajorityIsMaj | include/sha1.hpp:112 | the rewritten Maj is the one of section 4.1.1 |
| Sha1Transform.UpdateWord | include/sha1.hpp:95 | replacing the oldest word keeps the sixteen latest words of the schedule in the array |
| Sha1Transform.R0 | include/sha1.hpp:86-90 | one round of section 6.1.2 with the first sixteen words |
| Sha1Transform.R1 | include/sha1.hpp:93-98 | one round with Ch and a new word |
| Sha1Transform.R2 | include/sha1.hpp:101-106 | one round with Parity and a new word |
| Sha1Transform.R3 | include/sha1.hpp:109-114 | one round with Maj and a new word |
| Sha1Transform.R4 | include/sha1.hpp:117-122 | one round with Parity and the last constant |
| Sha1Transform.Rounds0To19 | include/sha1.hpp:139-158 | twenty calls with rotated arguments are rounds 0 to 19 |
| Sha1Transform.Rounds20To39 | include/sha1.hpp:159-178 | twenty calls with rotated arguments are rounds 20 to 39 |
| Sha1Transform.Rounds40To59 | include/sha1.hpp:179-198 | twenty calls with rotated arguments are rounds 40 to 59 |
| Sha1Transform.Rounds60To79 | include/sha1.hpp:199-218 | twenty calls with rotated arguments are rounds 60 to 79 |
| Sha1Transform.Transform | include/sha1.hpp:129-229 | for every digest and block the new digest is the one of section 6.1.2 of FIPS 180-4 |
| Hasher.BufferToBlock | include/sha1.hpp:232-242 | 64 bytes become the sixteen words of section 5.2.1 |
| Hasher.HexOfDigest | include/sha1.hpp:311-317 | the text is the hexadecimal form of the twenty digest bytes |
| Hasher.SHA1.constructor | include/sha1.hpp:245-248 | a new object has absorbed nothing |
| Hasher.SHA1.Reset | include/sha1.hpp:55-67 | the object is as a new one |
| Hasher.SHA1.Update | include/sha1.hpp:251-274 | the object has absorbed what it had and then all of the argument, however the whole is split into calls |
| Sha1Standard.PadIsWhole | include/sha1.hpp:285-309 | padding yields the least number of whole blocks that hold the message, the bit 1 and the length |
| KnownAnswers.DigestOfAbc | include/sha1.hpp:325-329 | the digest text of "abc" is the one that FIPS 180 gives, all eighty rounds evaluated |
| Hasher.SHA1.LastBlock | include/sha1.hpp:283-308 | after padding in place one more compression gives the digest of the whole message, in both padding cases |
| Hasher.SHA1.Final | include/sha1.hpp:281-323 | the result is the hexadecimal digest of FIPS 180-4 of everything absorbed, and the object is as a new one |
| Hasher.FromString | include/sha1.hpp:325-329 | the hexadecimal digest of the string |
| Hashing.HashIsDigest | src/common.cpp:83-94 | a hash has twenty bytes, is the digest of FIPS 180-4, and prints as `SHA1::from_string` does |
| Hashing.HashOf | src/common.cpp:83-85 | hashing to text and reading the text back gives the hash |
| Hashing.AsHex | src/common.cpp:87-94 | the loop prints two lower-case digits for each byte |
| Hex.HexToBytes | src/common.cpp:70-81 | the loop reads a byte for every two characters, and one for a last odd one |
| Hex.DecodeEncode | src/common.cpp:70-94 | `hex_to_bytes` undoes `as_hex` |
| Hex.EncodeDecode | src/common.cpp:70-94 | `as_hex` undoes `hex_to_bytes` if and only if the text has even length and consists of lower-case digits |
| KnownAnswers.TwoDigits | src/common.cpp:70-81 | two digits of either case are the byte they spell |
| KnownAnswers.DigitAlone | src/common.cpp:70-81 | what `strtol` makes of one digit behind white space, a sign or anything else, and before anything else |
| KnownAnswers.OddDigitIsAByte | src/common.cpp:70-81 | an odd character at the end of a text is a byte of its own: its value as a digit, or zero |
| Chunked.FeedAfterDrain | include/httprequest.hpp:1144-1182 | feeding A and then B leads to the same state, body or error as feeding A + B |
| Chunked.CutsDoNotMatter | include/httprequest.hpp:1074-1183 | however the data is cut across `recv` calls, the decoder ends in the same state |
| Chunked.DecoderIsExact | include/httprequest.hpp:1141-1183 | the decoder finishes with a body if and only if what arrived starts with an encoding of that body |
| Chunked.SizeIsExact | include/httprequest.hpp:871-879 | a line that spells a number in hexadecimal digits of either case is read as that number if and only if it fits 64 bits, and a multiple of 2^64 ends the body |
| Chunked.ChunkedBodyIsDecoded | include/httprequest.hpp:1143-1182 | every chunked body of section 4.1 of RFC 7230, sizes below 2^64 in digits of either case, gives the concatenation of its chunks, however it is cut |
| Chunked.InterruptedBodyIsPrefix | include/httprequest.hpp:1078-1079 | what is returned when the connection ends early is a prefix of the whole body |
| Chunked.InterruptedBodyIsExact | include/httprequest.hpp:1078-1079 | when the connection ends in a size, in a chunk or behind one, the body is all data that has arrived |
| Chunked.BadSizeIsInvalid | include/httprequest.hpp:871-879 | a line that spells no number where a size should stand is an error |
| Chunked.BadEndIsInvalid | include/httprequest.hpp:1160-1166 | two bytes behind a chunk that are no CRLF are an error |
| ResponseBody.HexStringToUint | include/httprequest.hpp:871-879 | the loop reads the size line as specified, or fails on a character that is no digit |
| ResponseBody.DrainBuffer | include/httprequest.hpp:1144-1182 | the inner loop ends, because each turn consumes bytes, in the state of the specification |
| ResponseBody.ReceiveChunked | include/httprequest.hpp:1074-1183 | the loops return the body or error of the specification |
| ResponseBody.ReceivePlain | include/httprequest.hpp:1184-1192 | without a coding the loop returns the data up to the `recv` that reaches the length |
| ResponseBody.LengthIsExact | include/httprequest.hpp:1189-1191 | with a length the body is independent of the cuts if and only if no more than the length arrives |
| ResponseBody.CollectTakesWholeParts | include/httprequest.hpp:1184-1192 | without a coding the body is all that the parts hold which are taken |
| ResponseBody.PartsReachLength | include/httprequest.hpp:1184-1192 | parts are taken until the length is reached, and none after that |
| Headers.RunEnd | include/httprequest.hpp:557-565 | the loop takes the longest run |
| Headers.TrimEnd | include/httprequest.hpp:761-764 | the loop drops the white space at the end |
| Headers.ReadContent | include/httprequest.hpp:771-800 | the loop reads a value over all the lines it is folded over |
| Headers.ReadField | include/httprequest.hpp:804-826 | a field, or the error |
| Headers.ReadFields | include/httprequest.hpp:1099-1132 | the fields up to the end of the section, or the error |
| Headers.WriteFields | include/httprequest.hpp:888-908 | the text of the fields, or the error if a name or value holds a character that is not allowed |
| Headers.ParsePrinted | include/httprequest.hpp:804-826 | parsing what was printed gives the names and the stripped values, consumes everything, and never takes a field for a fold |
| Headers.HeaderRoundTrip | include/httprequest.hpp:888-908 | a list of fields is parsed back as printed if and only if no value starts or ends with white space |
| Headers.FoldsAreRead | include/httprequest.hpp:783-797 | of each obsolete fold the first white-space character becomes a space, and the others stay if text follows |
| Headers.FoldsAreSingleSpaces | include/httprequest.hpp:783-797 | every fold is read as one space if and only if each has a single white-space character, lines without text aside |
| Headers.GapIsSpaces | include/httprequest.hpp:783-797 | a fold is read as nothing but spaces, as section 3.2.4 of RFC 7230 demands, if and only if no tab follows its first white-space character, or no text does |
| Headers.TabOfFoldStays | include/httprequest.hpp:783-797 | a tab of a fold stays in the value |
| FieldSyntax.FieldsAreExact | include/httprequest.hpp:741-826 | for every text: it is read as these fields if and only if it is one or more written fields, folds included, with these meanings, and nothing else |
| KnownAnswers.TokenCharacters | include/httprequest.hpp:519-540 | the characters of a token are those of section 3.2.6 of RFC 7230 |
| KnownAnswers.ValueCharacters | include/httprequest.hpp:496-554 | white space and the characters of a value |
| Responses.ReadFraming | include/httprequest.hpp:1112-1126 | the loop finds how the body is framed, or the error |
| Responses.FramingIsAsNamed | include/httprequest.hpp:1112-1126 | the fields are accepted if and only if every coding is "chunked" and every length a number; the body is chunked if and only if a coding is named, and the length is that of the last field that announces one |
| Responses.DigitsAreRead | include/httprequest.hpp:861-868 | a text of digits is read as the number it spells, modulo 2^64 |
| Responses.OnlyDigitsAreRead | include/httprequest.hpp:861-868 | a text is read as a number if and only if all its characters are digits |
| KnownAnswers.CapitalLetters | include/httprequest.hpp:1105-1108 | in the name of a field capital letters become small ones |
| KnownAnswers.OthersStay | include/httprequest.hpp:1105-1108 | a name stays as it is if and only if it has no capital letter |
| Responses.ReadStatus | include/httprequest.hpp:674-733 | the status line is read part by part as specified, or fails |
| Responses.Send | include/httprequest.hpp:1073-1197 | the whole receive loop returns the response of the specification, or fails exactly where it does |
| Responses.StatusRoundTrip | include/httprequest.hpp:830-858 | every valid status line is read back |
| Responses.StatusIsExact | include/httprequest.hpp:674-858 | for every text: it is read as this status with this rest if and only if it is its status line followed by that rest |
| Responses.HeaderMustArriveWhole | include/httprequest.hpp:1083-1136 | a valid header section is read if and only if the first `recv` holds all of it; otherwise the response is empty whatever follows |
| Responses.ChunkedResponseIsDecoded | include/httprequest.hpp:1073-1197 | a chunked response gives its status, fields and body, its body cut anywhere, if and only if its header section arrives whole |
| Responses.PlainResponseIsReceived | include/httprequest.hpp:1184-1192 | a response without a coding gives its status, fields and all bytes behind the header section, no more than announced, if and only if that section arrives whole |
| Responses.FailsExactly | include/httprequest.hpp:1073-1197 | a response fails if and only if what stands before the end of a header section in the first part is none, or a chunk is malformed; without such an end it is empty |
| KnownAnswers.PlainExample | include/httprequest.hpp:1073-1197 | a response with a Content-Length, byte by byte |
| KnownAnswers.ChunkedExample | include/httprequest.hpp:1073-1197 | a chunked response with a size in capital letters, byte by byte |
| Base64.EncodeBase64 | include/httprequest.hpp:911-955 | the register loop writes the encoding of section 4 of RFC 4648 |
| Base64.EncodedLength | include/httprequest.hpp:911-955 | four characters for every three bytes begun |
| Base64.DecodeEncode | include/httprequest.hpp:911-955 | a decoder after RFC 4648 recovers every input |
| Base64.EncodeDecode | include/httprequest.hpp:911-955 | that decoder accepts nothing but encodings |
| KnownAnswers.Base64Vectors | include/httprequest.hpp:911-955 | test vectors of section 10 of RFC 4648, with and without padding |
| KnownAnswers.Base64Capitals | include/httprequest.hpp:911-955 | the capital letters of the alphabet of table 1 |
| KnownAnswers.Base64Letters | include/httprequest.hpp:911-955 | its small letters |
| KnownAnswers.Base64Others | include/httprequest.hpp:911-955 | its digits and its two marks |
| Wire.PushedInNetworkOrder | include/common.hpp:28-33 | `htonl` followed by `push_bytes` writes the most significant byte first |
| Wire.ReadInNetworkOrder | src/peer.cpp:81 | `ntohl` of four bytes in memory is the number they denote in network order |
| Wire.TryFrom | src/message.cpp:109-116 | a code gives the type with that code, and no type if there is none |
| Wire.Serialize | src/message.cpp:96-107 | the length in 32 bits, the code and the payload |
| Wire.ReadMessages | src/peer.cpp:67-97 | the read chain hands over the messages of the specification and stops for the same reason |
| Wire.ReadTransmitted | src/peer.cpp:67-149 | any sequence of messages and keepalives is read back as exactly these messages in order, whatever follows |
| Wire.UnknownTypeEndsChain | src/peer.cpp:125-129 | a message of unknown type is handed over and nothing after it is read |
| Wire.MessageArrives | src/message.cpp:96-107 | a message arrives if and only if its length, type included, fits 32 bits |
| Wire.MakeRequest | include/message.hpp:57-64 | index, offset and length in network order |
| Wire.RequestAndReplyAgree | include/message.hpp:57-64 | a request asks for the range of its block, and a reply to it is accepted for exactly that block |
| WireSyntax.ReadIsExact | src/peer.cpp:67-149 | for every connection: these messages are handed over and reading stops for this reason if and only if the bytes are these messages with keepalives among them, followed by a length or a body that is cut short or a message of unknown type |
| WireSyntax.CodesOfBep3 | include/message.hpp:36-47 | the code of each message type |
| WireSyntax.KnownCodes | src/message.cpp:109-116 | every other code is unknown |
| WireSyntax.BytesOfMessages | src/message.cpp:96-116 | the bytes of each message without payload, as they are written and as they are read |
| KnownAnswers.ChokeBytes | src/peer.cpp:132-135 | the bytes of a Choke and of an Unchoke, and what they do to the peer |
| KnownAnswers.BitfieldBytes | src/peer.cpp:136-141 | the bytes of a Bitfield, and which pieces the peer has then |
| KnownAnswers.PieceBytes | src/peer.cpp:142-145 | the bytes of a Piece, and the block that holds their data then |
| KnownAnswers.RequestFrame | include/message.hpp:57-64 | the bytes of a request |
| Handshakes.HandshakeRoundTrip | src/message.cpp:15-58 | a handshake is read back if and only if its first byte that is no white space, at index i, holds the length of the protocol string less i |
| Handshakes.BitTorrentHandshakeRoundTrip | include/message.hpp:23 | with the protocol string of BitTorrent a handshake is always read back |
| Handshakes.WhiteSpaceLengthMayBeMisread | src/message.cpp:18-20 | of two protocol strings of nine bytes one is read back and the other is not |
| Handshakes.HandshakeIsExact | src/message.cpp:15-43 | for every data: it is read as this handshake if and only if it is some white space, a protocol string behind its length in a byte that is none, and the parts of the handshake |
| Handshakes.BytesOfHandshake | src/message.cpp:45-58 | the handshake of BitTorrent is 19, the name of the protocol, the extensions, the info hash and the peer id |

## Left out

- Liveness: that a download ends depends on peers and timers outside the code; that it can is `Completion.HonestPeerCompletes`.
- Sockets, asio, DNS, connecting, and timeouts as clocks: they are events or lists of byte strings.
- The lock-free queues: they are atomic first-in-first-out queues whose `push` succeeds.
- Logging, progress reports, `to_string`, `type_to_string` and floating-point rates: display only; the byte count is a natural number.
- `TrackerResponse`, addresses, `urlencode`, URIs and the request line: they would add only easy members.
- Templates and variants of include/bencode.hpp, and decoding from input iterators: one value type with an ordered map stands for all.
- Memory ownership of `CompletePiece::data_`: its bytes are an immutable sequence once finalized.
- Collision resistance of SHA-1: only equality of digests is claimed.
- PieceObjects.Piece.Finalize: blocks longer than the buffer write beyond it in the source, which is undefined; the model drops these bytes. `Overruns.BufferSuffices` says for which piece sizes this cannot happen.
- PieceObjects.Piece.Accept: the block index of a payload shorter than eight bytes is whatever uninitialised memory holds, so the contract leaves it open.
- PeerObjects.Peer.Ask: the request is recorded as piece, offset and length; `Wire.MakeRequest` gives its bytes. The timer of a block is an event of `Swarm` that may fire at any time.
- PeerObjects.Peer.Close: the socket is not modelled, so a closed peer may still receive what was on its way.
- MonitorObjects.MonitorVisitor.Visit: the sets of connected peers serve display only and are left out.
- BencodeDecoder.BasicDecode: which exception is thrown and the offset it reports are in the code of the model but not in its contract.
- BencodeDecoder.DecodeStr: a declared length of 2^63 or more is refused; the source casts it to a pointer difference, which then depends on the platform.
- Metainfo.Load: a piece length of zero is reported as a failure; the source divides by it. What follows the string of hashes in memory is a parameter.
- Swarm.InvariantHolds: assumes a torrent with a positive piece length and at least as many hashes as pieces, because the source indexes the hashes unchecked. Like everything else stated over runs it says nothing of what the source does once a `finalize` has written past its buffer, which is undefined; the model drops the bytes beyond and goes on. `Overruns.OverrunsExactly` says for which torrents there are such runs.
- Swarm.CompleteDownloadIsCorrect: likewise says nothing of runs in which a `finalize` has written past its buffer.
- Hex.HexToBytes: the index of the source has 32 bits; the model does not wrap it for longer texts.
- Handshakes.HandshakeRoundTrip: a handshake that is too short has no value; the source then holds an undefined hash.
- Responses.Send: a failed allocation for an announced length is not modelled.
- Hasher.SHA1.Update: the counter of compressed blocks is unbounded; in the source it wraps at 2^64, which leaves the length modulo 2^64 the same.
