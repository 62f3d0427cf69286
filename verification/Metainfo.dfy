/** Reading a metainfo file: the constructor of `SingleFileTorrent` in src/torrent.cpp. */
module Metainfo {
  import opened Bytes
  import opened Bencode
  import opened BencodeLaws
  import BencodeDecoder
  import Hashing
  import PeerProtocol

  /** The exceptions the constructor can leave with, and the division whose result it could not use. */
  datatype Failure = DecodeError | BadVariantAccess | OutOfRange | DivisionByZero

  datatype Result<+T> = Success(value: T) | Failure(error: Failure) {
    predicate IsFailure() { Failure? }

    function PropagateFailure<U>(): Result<U>
      requires Failure?
    {
      Failure(error)
    }

    function Extract(): T
      requires Success?
    {
      value
    }
  }

  datatype SingleFileTorrent = SingleFileTorrent(
    announce: seq<byte>, filename: seq<byte>, torrent: PeerProtocol.Torrent, infoHash: seq<byte>)

  const ANNOUNCE := Ascii("announce")
  const INFO := Ascii("info")
  const PIECE_LENGTH := Ascii("piece length")
  const LENGTH := Ascii("length")
  const NAME := Ascii("name")
  const PIECES := Ascii("pieces")

  const UDP := Ascii("udp")
  const HTTP := Ascii("http")

  /** `std::string::find`: the first place where `s` says "udp". */
  function FindUdp(s: seq<byte>): (r: Option<nat>)
    ensures r.Some? ==> r.value + 3 <= |s| && s[r.value..r.value + 3] == UDP
    ensures forall i :: 0 <= i < (if r.Some? then r.value else |s|) ==> !(UDP <= s[i..])
  {
    if |s| < 3 then None
    else if UDP <= s then
      assert s[0..3] == UDP;
      Some(0)
    else
      match FindUdp(s[1..])
      case None =>
        assert forall i :: 0 < i < |s| ==> s[i..] == s[1..][i - 1..];
        None
      case Some(k) =>
        assert forall i :: 0 < i < |s| ==> s[i..] == s[1..][i - 1..];
        assert s[1..][k..k + 3] == s[k + 1..k + 4];
        Some(k + 1)
  }

  /** The announce address, with the first "udp" in it, wherever it is, replaced. */
  function Announce(s: seq<byte>): seq<byte> {
    match FindUdp(s)
    case None => s
    case Some(i) => s[..i] + HTTP + s[i + 3..]
  }

  /** The replacement is to ensure an address of HTTP; it does so exactly if the scheme was one of the two before. */
  lemma AnnounceIsHttp(s: seq<byte>)
    ensures HTTP <= Announce(s) <==> UDP <= s || HTTP <= s
  {
    assert UDP[0] == 117 && UDP[1] == 100 && UDP[2] == 112;
    assert HTTP[0] == 104 && HTTP[1] == 116 && HTTP[2] == 116 && HTTP[3] == 112;
    hide Ascii;
    var at := FindUdp(s);
    assert s[0..] == s;
    if at.Some? {
      var i := at.value;
      assert s[i] == s[i..i + 3][0];
    }
  }

  /** An address without "udp" is kept, and no other. */
  lemma AnnounceIsKept(s: seq<byte>)
    ensures Announce(s) == s <==> FindUdp(s).None?
  {
    if FindUdp(s).Some? {
      assert |Announce(s)| == |s| + 1;
    }
  }

  /** Where there is no `u`, no "udp" starts. */
  lemma UdpStartsWithU(s: seq<byte>, n: nat)
    requires n <= |s| && forall j :: 0 <= j < n ==> s[j] != 117
    ensures FindUdp(s).Some? ==> n <= FindUdp(s).value
  {
    hide FindUdp;
    assert UDP[0] == 117;
    var at := FindUdp(s);
    if at.Some? {
      assert s[at.value] == s[at.value..at.value + 3][0];
    }
  }

  /** An address of another scheme is left as it is. */
  lemma FtpIsNotReplaced()
    ensures var s := Ascii("ftp://a"); Announce(s) == s && !(HTTP <= s)
  {
    hide FindUdp;
    var s := Ascii("ftp://a");
    UdpStartsWithU(s, |s|);
    assert s[0] == 102 && HTTP[0] == 104;
  }

  /** An address of HTTP is changed if its host name says "udp". */
  lemma HostNameIsReplaced()
    ensures Announce(Ascii("http://udp.a")) == Ascii("http://http.a")
  {
    hide FindUdp;
    var s := Ascii("http://udp.a");
    UdpStartsWithU(s, 7);
    assert s[7..][..3] == UDP;
    assert UDP <= s[7..];
    assert FindUdp(s) == Some(7);
    assert s[..7] + HTTP + s[10..] == Ascii("http://http.a");
  }

  /** `std::map::at` */
  function At(entries: seq<Entry>, key: seq<byte>): Result<Data> {
    match Lookup(entries, key)
    case None => Failure(OutOfRange)
    case Some(d) => Success(d)
  }

  function GetInteger(d: Data): Result<int> {
    if d.Integer? then Success(d.value) else Failure(BadVariantAccess)
  }

  function GetStr(d: Data): Result<seq<byte>> {
    if d.Str? then Success(d.bytes) else Failure(BadVariantAccess)
  }

  function GetDict(d: Data): Result<seq<Entry>> {
    if d.Dict? then Success(d.entries) else Failure(BadVariantAccess)
  }

  /** A 64-bit number stored in 32 bits. */
  function Truncate(n: int): uint32 {
    n % 0x1_0000_0000
  }

  /** Twenty bytes each. The last hash also takes what follows the string in memory if the length is no multiple. */
  function SplitHashes(pieces: seq<byte>, after: seq<byte>): (hashes: seq<seq<byte>>)
    requires |after| >= Hashing.HASH_SIZE
    ensures forall i :: 0 <= i < |hashes| ==> |hashes[i]| == Hashing.HASH_SIZE
  {
    if pieces == [] then []
    else if |pieces| < Hashing.HASH_SIZE then [pieces + after[..Hashing.HASH_SIZE - |pieces|]]
    else [pieces[..Hashing.HASH_SIZE]] + SplitHashes(pieces[Hashing.HASH_SIZE..], after)
  }

  /** The hashes are the string, cut up; nothing is lost, and nothing is added exactly when the length is a multiple of 20. */
  lemma {:induction false} HashesAreThePieces(pieces: seq<byte>, after: seq<byte>)
    requires |after| >= Hashing.HASH_SIZE
    ensures pieces <= Concat(SplitHashes(pieces, after))
    ensures Concat(SplitHashes(pieces, after)) == pieces <==> |pieces| == Hashing.HASH_SIZE * |SplitHashes(pieces, after)|
  {
    if |pieces| >= Hashing.HASH_SIZE {
      HashesAreThePieces(pieces[Hashing.HASH_SIZE..], after);
      assert pieces == pieces[..Hashing.HASH_SIZE] + pieces[Hashing.HASH_SIZE..];
    }
  }

  function FromInfo(announce: seq<byte>, info: seq<Entry>, after: seq<byte>): Result<SingleFileTorrent>
    requires |after| >= Hashing.HASH_SIZE
  {
    var pieceLengthData :- At(info, PIECE_LENGTH);
    var pieceLength :- GetInteger(pieceLengthData);
    var lengthData :- At(info, LENGTH);
    var length :- GetInteger(lengthData);
    var nameData :- At(info, NAME);
    var name :- GetStr(nameData);
    if Truncate(pieceLength) == 0 then Failure(DivisionByZero)
    else
      var piecesData :- At(info, PIECES);
      var pieces :- GetStr(piecesData);
      Success(SingleFileTorrent(
        Announce(announce), name,
        PeerProtocol.Torrent(Truncate(pieceLength), Truncate(length), SplitHashes(pieces, after)),
        Hashing.Of(Encode(Dict(info)))))
  }

  function FromData(d: Data, after: seq<byte>): Result<SingleFileTorrent>
    requires |after| >= Hashing.HASH_SIZE
  {
    var dict :- GetDict(d);
    var announceData :- At(dict, ANNOUNCE);
    var announce :- GetStr(announceData);
    var infoData :- At(dict, INFO);
    var info :- GetDict(infoData);
    FromInfo(announce, info, after)
  }

  /** The torrent of a metainfo file. */
  function FromText(data: seq<byte>, after: seq<byte>): Result<SingleFileTorrent>
    requires |after| >= Hashing.HASH_SIZE
  {
    match Parse(data, 0)
    case Rejected => Failure(DecodeError)
    case Accepted(d, _) => FromData(d, after)
  }

  predicate HasInteger(entries: seq<Entry>, key: seq<byte>) {
    Lookup(entries, key).Some? && Lookup(entries, key).value.Integer?
  }

  predicate HasStr(entries: seq<Entry>, key: seq<byte>) {
    Lookup(entries, key).Some? && Lookup(entries, key).value.Str?
  }

  predicate HasDict(entries: seq<Entry>, key: seq<byte>) {
    Lookup(entries, key).Some? && Lookup(entries, key).value.Dict?
  }

  /** The entries an info dictionary must have; the piece length must not be 0 in 32 bits. */
  predicate IsInfo(info: seq<Entry>) {
    && HasInteger(info, PIECE_LENGTH) && Truncate(Lookup(info, PIECE_LENGTH).value.value) != 0
    && HasInteger(info, LENGTH)
    && HasStr(info, NAME)
    && HasStr(info, PIECES)
  }

  predicate IsMetainfo(dict: seq<Entry>) {
    HasStr(dict, ANNOUNCE) && HasDict(dict, INFO) && IsInfo(Lookup(dict, INFO).value.entries)
  }

  /**
    A file is loaded if and only if it decodes to a dictionary with all the
    entries the constructor reads, each of its type, and a piece length that
    is not 0. One without an announce address is refused.
   */
  lemma LoadsExactly(data: seq<byte>, after: seq<byte>)
    requires |after| >= Hashing.HASH_SIZE
    ensures FromText(data, after).Success?
            <==> Parse(data, 0).Accepted? && Parse(data, 0).value.Dict? && IsMetainfo(Parse(data, 0).value.entries)
    ensures Parse(data, 0).Accepted? && Parse(data, 0).value.Dict?
            && Lookup(Parse(data, 0).value.entries, ANNOUNCE).None? ==>
              FromText(data, after) == Failure(OutOfRange)
  {
    hide Parse, Lookup, SplitHashes, Encode, Hashing.Of, Truncate, Announce;
  }

  /** The entry is there, and of another type. */
  predicate HasOther(entries: seq<Entry>, key: seq<byte>, integer: bool) {
    Lookup(entries, key).Some? && if integer then !Lookup(entries, key).value.Integer? else !Lookup(entries, key).value.Str?
  }

  predicate LacksEntry(info: seq<Entry>) {
    Lookup(info, PIECE_LENGTH).None? || Lookup(info, LENGTH).None? || Lookup(info, NAME).None? || Lookup(info, PIECES).None?
  }

  predicate HasOtherEntry(info: seq<Entry>) {
    HasOther(info, PIECE_LENGTH, true) || HasOther(info, LENGTH, true) || HasOther(info, NAME, false) || HasOther(info, PIECES, false)
  }

  /**
    What each exception says about the file: it cannot be decoded, an entry
    is missing, a value is of another type, or the piece length is 0 in 32 bits.
   */
  lemma FailuresAreTold(data: seq<byte>, after: seq<byte>)
    requires |after| >= Hashing.HASH_SIZE && FromText(data, after).Failure?
    ensures var error := FromText(data, after).error;
            && (error == DecodeError <==> Parse(data, 0).Rejected?)
            && (error == OutOfRange ==>
                  && Parse(data, 0).value.Dict?
                  && var dict := Parse(data, 0).value.entries;
                     || Lookup(dict, ANNOUNCE).None? || Lookup(dict, INFO).None?
                     || (HasDict(dict, INFO) && LacksEntry(Lookup(dict, INFO).value.entries)))
            && (error == BadVariantAccess ==>
                  || !Parse(data, 0).value.Dict?
                  || var dict := Parse(data, 0).value.entries;
                     || HasOther(dict, ANNOUNCE, false)
                     || (Lookup(dict, INFO).Some? && !Lookup(dict, INFO).value.Dict?)
                     || (HasDict(dict, INFO) && HasOtherEntry(Lookup(dict, INFO).value.entries)))
            && (error == DivisionByZero ==>
                  && Parse(data, 0).value.Dict?
                  && var dict := Parse(data, 0).value.entries;
                     && HasDict(dict, INFO)
                     && var info := Lookup(dict, INFO).value.entries;
                        HasInteger(info, PIECE_LENGTH) && Lookup(info, PIECE_LENGTH).value.value % 0x1_0000_0000 == 0)
  {
    hide Parse, Lookup, SplitHashes, Encode, Hashing.Of, Announce;
  }

  method Slice(pieces: seq<byte>, after: seq<byte>) returns (hashes: seq<seq<byte>>)
    requires |after| >= Hashing.HASH_SIZE
    ensures hashes == SplitHashes(pieces, after)
  {
    hashes := [];
    var memory := pieces + after;
    var it := 0;
    while it < |pieces|
      invariant 0 <= it < |pieces| + Hashing.HASH_SIZE
      invariant hashes + SplitHashes(if it <= |pieces| then pieces[it..] else [], after) == SplitHashes(pieces, after)
    {
      ghost var rest := pieces[it..];
      if |rest| < Hashing.HASH_SIZE {
        assert memory[it..it + Hashing.HASH_SIZE] == rest + after[..Hashing.HASH_SIZE - |rest|];
      } else {
        assert memory[it..it + Hashing.HASH_SIZE] == rest[..Hashing.HASH_SIZE];
        assert rest[Hashing.HASH_SIZE..] == pieces[it + Hashing.HASH_SIZE..];
      }
      hashes := hashes + [memory[it..it + Hashing.HASH_SIZE]];
      it := it + Hashing.HASH_SIZE;
    }
  }

  /** The constructor. `after` is what follows the string of hashes in memory. */
  method Load(data: seq<byte>, after: seq<byte>) returns (r: Result<SingleFileTorrent>)
    requires |after| >= Hashing.HASH_SIZE
    ensures r == FromText(data, after)
  {
    hide Parse, SplitHashes, Lookup, Encode, Hashing.Of, Truncate;
    var decoded := BencodeDecoder.BasicDecode(data, 0);
    if decoded.Failed? {
      return Failure(DecodeError);
    }
    var dict :- GetDict(decoded.value);
    var announceData :- At(dict, ANNOUNCE);
    var announce :- GetStr(announceData);
    var infoData :- At(dict, INFO);
    var info :- GetDict(infoData);
    var pieceLengthData :- At(info, PIECE_LENGTH);
    var pieceLength :- GetInteger(pieceLengthData);
    var lengthData :- At(info, LENGTH);
    var length :- GetInteger(lengthData);
    var nameData :- At(info, NAME);
    var name :- GetStr(nameData);
    if Truncate(pieceLength) == 0 {
      return Failure(DivisionByZero);
    }
    var piecesData :- At(info, PIECES);
    var pieces :- GetStr(piecesData);
    var hashes := Slice(pieces, after);
    var infoHash := Hashing.HashOf(Encode(Dict(info)));
    r := Success(SingleFileTorrent(
      Announce(announce), name, PeerProtocol.Torrent(Truncate(pieceLength), Truncate(length), hashes), infoHash));
  }

  // ----- Where the info dictionary stands in the file

  datatype Span = Span(start: nat, end: nat)

  /** The text of the value under `key`, in the entries of a dictionary from `p` on. */
  function ValueSpan(s: seq<byte>, p: nat, key: seq<byte>): (r: Option<Span>)
    requires p <= |s|
    ensures r.Some? ==> r.value.start < r.value.end <= |s|
    decreases |s| - p
  {
    if Peek(s, p) == END then None
    else
      match ParseStr(s, p)
      case Rejected => None
      case Accepted(name, q) =>
        match Parse(s, q)
        case Rejected => None
        case Accepted(_, n) => if name == key then Some(Span(q, n)) else ValueSpan(s, n, key)
  }

  lemma {:induction false} LookupInserted(entries: seq<Entry>, name: seq<byte>, d: Data, key: seq<byte>)
    requires !HasKey(entries, name)
    ensures Lookup(Insert(entries, name, d), key) == if key == name then Some(d) else Lookup(entries, key)
  {
    if entries != [] && !Less(name, entries[0].key) {
      forall i | 0 <= i < |entries[1..]|
        ensures entries[1..][i].key != name
      {
        assert entries[1..][i] == entries[i + 1];
      }
      LookupInserted(entries[1..], name, d, key);
      assert entries[0].key != name;
    } else {
      AbsentKey(entries, name);
      assert ([Entry(name, d)] + entries)[1..] == entries;
    }
  }

  lemma {:induction false} AbsentKey(entries: seq<Entry>, key: seq<byte>)
    requires !HasKey(entries, key)
    ensures Lookup(entries, key) == None
  {
    if entries == [] {
    } else {
      assert entries[0].key != key;
      forall i | 0 <= i < |entries[1..]|
        ensures entries[1..][i].key != key
      {
        assert entries[1..][i] == entries[i + 1];
      }
      AbsentKey(entries[1..], key);
    }
  }

  /** What a decoded dictionary holds under a key is what its text says there. */
  lemma {:induction false} SpanOfLookup(s: seq<byte>, p: nat, before: seq<Entry>, key: seq<byte>)
    requires p <= |s|
    requires ParseEntries(s, p, before).Accepted?
    requires Lookup(before, key).None?
    ensures var d := ParseEntries(s, p, before).value;
            && d.Dict?
            && match Lookup(d.entries, key)
               case None => ValueSpan(s, p, key).None?
               case Some(v) =>
                 && ValueSpan(s, p, key).Some?
                 && Parse(s, ValueSpan(s, p, key).value.start) == Accepted(v, ValueSpan(s, p, key).value.end)
    decreases |s| - p
  {
    hide Parse, ParseStr, Insert, HasKey, Lookup;
    if Peek(s, p) == END {
    } else {
      var name, d := ParseStr(s, p), Parse(s, ParseStr(s, p).next);
      LookupInserted(before, name.value, d.value, key);
      var entries := Insert(before, name.value, d.value);
      if name.value == key {
        LaterEntriesKeep(s, d.next, entries, key);
      } else {
        SpanOfLookup(s, d.next, entries, key);
      }
    }
  }

  lemma {:induction false} LaterEntriesKeep(s: seq<byte>, p: nat, before: seq<Entry>, key: seq<byte>)
    requires p <= |s|
    requires ParseEntries(s, p, before).Accepted?
    requires Lookup(before, key).Some?
    ensures var d := ParseEntries(s, p, before).value; d.Dict? && Lookup(d.entries, key) == Lookup(before, key)
    decreases |s| - p
  {
    hide Parse, ParseStr, Insert, Lookup;
    if Peek(s, p) == END {
    } else {
      var name, d := ParseStr(s, p), Parse(s, ParseStr(s, p).next);
      if name.value == key {
        AbsentKey(before, key);
      }
      LookupInserted(before, name.value, d.value, key);
      LaterEntriesKeep(s, d.next, Insert(before, name.value, d.value), key);
    }
  }

  /**
    The info hash is the SHA-1 hash of the bytes of the info dictionary as
    they stand in the file, whenever these follow BEP 3; re-encoding gives
    these bytes in no other case.
   */
  lemma InfoHashIsOfOriginalBytes(data: seq<byte>, after: seq<byte>)
    requires |after| >= Hashing.HASH_SIZE && |data| <= INT64_MAX
    ensures FromText(data, after).Success? ==>
              && data != [] && ValueSpan(data, 1, INFO).Some?
              && var span := ValueSpan(data, 1, INFO).value;
                 var info := Parse(data, span.start);
                 && info.Accepted? && info.next == span.end && info.value.Dict?
                 && FromText(data, after).value.infoHash == Hashing.Of(Encode(info.value))
                 && (Encode(info.value) == data[span.start..span.end] <==> Canonical(data, span.start))
                 && (Canonical(data, span.start) ==>
                       FromText(data, after).value.infoHash == Hashing.Of(data[span.start..span.end]))
  {
    hide Parse, ParseEntries, Lookup, Encode, Hashing.Of, SplitHashes, Canonical, ValueSpan;
    if FromText(data, after).Success? {
      DictText(data, 0);
      EmptyLookup(INFO);
      SpanOfLookup(data, 1, [], INFO);
      ReencodingReproducesCanonicalText(data, ValueSpan(data, 1, INFO).value.start);
    }
  }

  lemma {:induction false} ItemsGiveList(s: seq<byte>, p: nat, items: seq<Data>)
    requires p <= |s| && ParseItems(s, p, items).Accepted?
    ensures ParseItems(s, p, items).value.List?
    decreases |s| - p
  {
    hide Parse;
    if Peek(s, p) == END {
    } else {
      ItemsGiveList(s, Parse(s, p).next, items + [Parse(s, p).value]);
    }
  }

  lemma DictText(s: seq<byte>, p: nat)
    requires p <= |s| && Parse(s, p).Accepted? && Parse(s, p).value.Dict?
    ensures p < |s| && Parse(s, p) == ParseEntries(s, p + 1, [])
  {
    hide ParseItems, ParseEntries, ParseStr;
    if Peek(s, p) == LIST {
      ItemsGiveList(s, p + 1, []);
    }
  }

  lemma EmptyLookup(key: seq<byte>)
    ensures Lookup([], key) == None
  {
  }
}
