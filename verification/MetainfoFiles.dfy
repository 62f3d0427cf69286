/** Metainfo files as they are written, and how they are loaded. */
module MetainfoFiles {
  import opened Bytes
  import opened Bencode
  import opened BencodeLaws
  import opened Metainfo
  import Hashing
  import PeerProtocol

  /** The contents of a metainfo file of a single file. */
  function Contents(announce: seq<byte>, name: seq<byte>, pieceLength: int64, length: int64, pieces: seq<byte>): Data {
    Dict([Entry(ANNOUNCE, Str(announce)), Entry(INFO, Info(name, pieceLength, length, pieces))])
  }

  function Info(name: seq<byte>, pieceLength: int64, length: int64, pieces: seq<byte>): Data {
    Dict([Entry(LENGTH, Integer(length)), Entry(NAME, Str(name)),
          Entry(PIECE_LENGTH, Integer(pieceLength)), Entry(PIECES, Str(pieces))])
  }

  lemma FirstByteOrders(a: seq<byte>, b: seq<byte>)
    requires a != [] && b != [] && a[0] < b[0]
    ensures Less(a, b)
  {
  }

  lemma {:induction false} CommonStartOrders(common: seq<byte>, a: seq<byte>, b: seq<byte>)
    requires Less(a, b)
    ensures Less(common + a, common + b)
  {
    if common == [] {
      Nothing(a);
      Nothing(b);
    } else {
      CommonStartOrders(common[1..], a, b);
      assert (common + a)[1..] == common[1..] + a && (common + b)[1..] == common[1..] + b;
    }
  }

  lemma KeysAreOrdered()
    ensures Less(ANNOUNCE, INFO)
    ensures Less(LENGTH, NAME) && Less(LENGTH, PIECE_LENGTH) && Less(LENGTH, PIECES)
    ensures Less(NAME, PIECE_LENGTH) && Less(NAME, PIECES)
    ensures Less(PIECE_LENGTH, PIECES)
  {
    FirstByteOrders(ANNOUNCE, INFO);
    FirstByteOrders(LENGTH, NAME);
    FirstByteOrders(LENGTH, PIECE_LENGTH);
    FirstByteOrders(LENGTH, PIECES);
    FirstByteOrders(NAME, PIECE_LENGTH);
    FirstByteOrders(NAME, PIECES);
    var common := Ascii("piece");
    FirstByteOrders(Ascii(" length"), Ascii("s"));
    CommonStartOrders(common, Ascii(" length"), Ascii("s"));
    assert common + Ascii(" length") == PIECE_LENGTH && common + Ascii("s") == PIECES;
  }

  lemma InfoIsRepresentable(name: seq<byte>, pieceLength: int64, length: int64, pieces: seq<byte>)
    requires |name| <= INT64_MAX && |pieces| <= INT64_MAX
    ensures Representable(Info(name, pieceLength, length, pieces))
  {
    KeysAreOrdered();
    hide Less, Ascii;
    var entries := Info(name, pieceLength, length, pieces).entries;
    assert |LENGTH| == 6 && |NAME| == 4 && |PIECE_LENGTH| == 12 && |PIECES| == 6;
    assert Sorted(entries);
  }

  lemma ContentsAreRepresentable(announce: seq<byte>, name: seq<byte>, pieceLength: int64, length: int64, pieces: seq<byte>)
    requires |announce| <= INT64_MAX && |name| <= INT64_MAX && |pieces| <= INT64_MAX
    ensures Representable(Contents(announce, name, pieceLength, length, pieces))
  {
    KeysAreOrdered();
    InfoIsRepresentable(name, pieceLength, length, pieces);
    hide Less, Ascii, Info;
    assert |ANNOUNCE| == 8 && |INFO| == 4;
    assert Sorted(Contents(announce, name, pieceLength, length, pieces).entries);
  }

  /**
    A file written as BEP 3 has it, whatever follows it, is loaded with the
    values it was written with, the numbers in 32 bits, and its info hash is
    that of the written info dictionary.
   */
  lemma WrittenFileIsLoaded(announce: seq<byte>, name: seq<byte>, pieceLength: int64, length: int64, pieces: seq<byte>,
                            trailing: seq<byte>, after: seq<byte>)
    requires |announce| <= INT64_MAX && |name| <= INT64_MAX && |pieces| <= INT64_MAX && |after| >= Hashing.HASH_SIZE
    ensures var text := Encode(Contents(announce, name, pieceLength, length, pieces));
            FromText(text + trailing, after)
            == if pieceLength % 0x1_0000_0000 == 0 then Failure(DivisionByZero)
               else
                 Success(SingleFileTorrent(
                   Announce(announce), name, PeerProtocol.Torrent(pieceLength % 0x1_0000_0000, length % 0x1_0000_0000, SplitHashes(pieces, after)),
                   Hashing.Of(Encode(Info(name, pieceLength, length, pieces)))))
  {
    var d := Contents(announce, name, pieceLength, length, pieces);
    ContentsAreRepresentable(announce, name, pieceLength, length, pieces);
    CutConcat(Encode(d), trailing);
    assert Holds(Encode(d) + trailing, 0, Encode(d));
    RoundTrip(Encode(d) + trailing, 0, d);
    ContentsAreRead(announce, name, pieceLength, length, pieces, after);
    hide Parse, Encode, Contents, FromData, SplitHashes, Hashing.Of;
  }

  lemma ContentsAreRead(announce: seq<byte>, name: seq<byte>, pieceLength: int64, length: int64, pieces: seq<byte>,
                        after: seq<byte>)
    requires |after| >= Hashing.HASH_SIZE
    ensures FromData(Contents(announce, name, pieceLength, length, pieces), after)
            == if pieceLength % 0x1_0000_0000 == 0 then Failure(DivisionByZero)
               else
                 Success(SingleFileTorrent(
                   Announce(announce), name, PeerProtocol.Torrent(pieceLength % 0x1_0000_0000, length % 0x1_0000_0000, SplitHashes(pieces, after)),
                   Hashing.Of(Encode(Info(name, pieceLength, length, pieces)))))
  {
    hide SplitHashes, Hashing.Of, Encode, Ascii;
    KeysDiffer();
    var entries := Contents(announce, name, pieceLength, length, pieces).entries;
    var info := Info(name, pieceLength, length, pieces).entries;
    LookupAt(entries, 0);
    LookupAt(entries, 1);
    LookupAt(info, 0);
    LookupAt(info, 1);
    LookupAt(info, 2);
    LookupAt(info, 3);
    hide Lookup, Truncate;
  }

  lemma KeysDiffer()
    ensures ANNOUNCE != INFO
    ensures LENGTH != NAME && LENGTH != PIECE_LENGTH && LENGTH != PIECES
    ensures NAME != PIECE_LENGTH && NAME != PIECES && PIECE_LENGTH != PIECES
  {
    KeysAreOrdered();
    LessIsTotal(ANNOUNCE, INFO);
    LessIsTotal(LENGTH, NAME);
    LessIsTotal(LENGTH, PIECE_LENGTH);
    LessIsTotal(LENGTH, PIECES);
    LessIsTotal(NAME, PIECE_LENGTH);
    LessIsTotal(NAME, PIECES);
    LessIsTotal(PIECE_LENGTH, PIECES);
  }

  lemma {:induction false} LookupAt(entries: seq<Entry>, i: nat)
    requires i < |entries| && forall j :: 0 <= j < i ==> entries[j].key != entries[i].key
    ensures Lookup(entries, entries[i].key) == Some(entries[i].value)
  {
    if i == 0 {
    } else {
      LookupAt(entries[1..], i - 1);
    }
  }

  /** A file that lacks its announce address but is complete otherwise is refused. */
  lemma FileWithoutAnnounceIsRefused(name: seq<byte>, pieceLength: int64, length: int64, pieces: seq<byte>,
                                     trailing: seq<byte>, after: seq<byte>)
    requires |name| <= INT64_MAX && |pieces| <= INT64_MAX && |after| >= Hashing.HASH_SIZE
    ensures FromText(Encode(Dict([Entry(INFO, Info(name, pieceLength, length, pieces))])) + trailing, after)
            == Failure(OutOfRange)
  {
    var entries := [Entry(INFO, Info(name, pieceLength, length, pieces))];
    var d := Dict(entries);
    InfoIsRepresentable(name, pieceLength, length, pieces);
    KeysDiffer();
    assert |INFO| == 4;
    hide Info, Ascii, Encode, Parse;
    assert Representable(d);
    assert entries[1..] == [];
    assert Lookup(entries, ANNOUNCE) == None;
    CutConcat(Encode(d), trailing);
    assert Holds(Encode(d) + trailing, 0, Encode(d));
    RoundTrip(Encode(d) + trailing, 0, d);
    LoadsExactly(Encode(d) + trailing, after);
  }

  // ----- The text of a file

  lemma KeyTexts()
    ensures EncodeStr(ANNOUNCE) == Ascii("8:announce") && EncodeStr(INFO) == Ascii("4:info")
    ensures EncodeStr(LENGTH) == Ascii("6:length") && EncodeStr(NAME) == Ascii("4:name")
  {
  }

  lemma PieceKeyTexts()
    ensures EncodeStr(PIECE_LENGTH) == Ascii("12:piece length") && EncodeStr(PIECES) == Ascii("6:pieces")
  {
    assert Digits(12) == [49, 50];
  }

  lemma TwoEntries(a: Entry, b: Entry)
    ensures EncodeEntries([a, b]) == EncodeStr(a.key) + Encode(a.value) + EncodeStr(b.key) + Encode(b.value)
  {
    hide EncodeStr, Encode;
    assert [a, b][1..] == [b] && [b][1..] == [];
    assert EncodeEntries([b]) == EncodeStr(b.key) + Encode(b.value) + EncodeEntries([]);
    assert EncodeEntries([]) == [];
  }

  lemma FourEntries(a: Entry, b: Entry, c: Entry, d: Entry)
    ensures EncodeEntries([a, b, c, d])
            == EncodeStr(a.key) + Encode(a.value) + EncodeStr(b.key) + Encode(b.value)
               + EncodeStr(c.key) + Encode(c.value) + EncodeStr(d.key) + Encode(d.value)
  {
    hide EncodeStr, Encode;
    assert [a, b, c, d][1..] == [b, c, d] && [b, c, d][1..] == [c, d];
    TwoEntries(c, d);
  }

  lemma InfoText(name: seq<byte>, pieceLength: int64, length: int64, pieces: seq<byte>)
    ensures Encode(Info(name, pieceLength, length, pieces))
            == [100] + (Ascii("6:length") + Encode(Integer(length)) + Ascii("4:name") + EncodeStr(name)
                        + Ascii("12:piece length") + Encode(Integer(pieceLength)) + Ascii("6:pieces") + EncodeStr(pieces)) + [101]
  {
    KeyTexts();
    PieceKeyTexts();
    hide Ascii, EncodeStr, Decimal, EncodeEntries;
    FourEntries(Entry(LENGTH, Integer(length)), Entry(NAME, Str(name)), Entry(PIECE_LENGTH, Integer(pieceLength)), Entry(PIECES, Str(pieces)));
  }

  /** The text of such a file, with the names of its entries as BEP 3 gives them. */
  lemma ContentsText(announce: seq<byte>, name: seq<byte>, pieceLength: int64, length: int64, pieces: seq<byte>)
    ensures Encode(Contents(announce, name, pieceLength, length, pieces))
            == [100] + (Ascii("8:announce") + EncodeStr(announce) + Ascii("4:info")
                        + ([100] + (Ascii("6:length") + Encode(Integer(length)) + Ascii("4:name") + EncodeStr(name)
                                    + Ascii("12:piece length") + Encode(Integer(pieceLength))
                                    + Ascii("6:pieces") + EncodeStr(pieces)) + [101])) + [101]
  {
    KeyTexts();
    InfoText(name, pieceLength, length, pieces);
    hide Ascii, EncodeStr, Decimal, EncodeEntries, Info;
    TwoEntries(Entry(ANNOUNCE, Str(announce)), Entry(INFO, Info(name, pieceLength, length, pieces)));
  }

  // ----- A file whose info dictionary is re-encoded differently

  /** The info dictionary with its first two entries in the wrong order. */
  function UnsortedInfo(name: seq<byte>, pieceLength: int64, length: int64, pieces: seq<byte>): seq<byte> {
    [DICT] + EncodeEntries([Entry(NAME, Str(name)), Entry(LENGTH, Integer(length)),
                            Entry(PIECE_LENGTH, Integer(pieceLength)), Entry(PIECES, Str(pieces))]) + [END]
  }

  function EncodeEntry(e: Entry): seq<byte> {
    EncodeStr(e.key) + Encode(e.value)
  }

  /** From `p` to `q` the text of a dictionary has the entry `e`. */
  predicate EntryAt(s: seq<byte>, p: nat, e: Entry, q: nat) {
    && p <= |s| && IsDigit(Peek(s, p))
    && ParseStr(s, p).Accepted? && ParseStr(s, p).value == e.key
    && Parse(s, ParseStr(s, p).next) == Accepted(e.value, q)
  }

  lemma WrittenEntryIsRead(s: seq<byte>, p: nat, e: Entry)
    requires |e.key| <= INT64_MAX && Representable(e.value) && Holds(s, p, EncodeEntry(e))
    ensures EntryAt(s, p, e, p + |EncodeEntry(e)|)
  {
    HoldsConcat(s, p, EncodeStr(e.key), Encode(e.value));
    hide Holds, Parse, Encode, EncodeStr, Representable, ParseStr;
    ParseWrittenStr(s, p, e.key);
    RoundTrip(s, p + |EncodeStr(e.key)|, e.value);
  }

  /** An entry that is read goes where its key belongs. */
  lemma AddEntry(s: seq<byte>, p: nat, before: seq<Entry>, e: Entry, q: nat)
    requires EntryAt(s, p, e, q) && !HasKey(before, e.key)
    ensures p < q <= |s| && ParseEntries(s, p, before) == ParseEntries(s, q, Insert(before, e.key, e.value))
  {
    hide Parse, ParseStr, Insert, HasKey;
  }

  lemma InsertInto(e0: Entry, e1: Entry)
    requires Less(e1.key, e0.key)
    ensures Insert([], e0.key, e0.value) == [e0] && Insert([], e1.key, e1.value) == [e1]
    ensures Insert([e0], e1.key, e1.value) == [e1, e0] && Insert([e1], e0.key, e0.value) == [e1, e0]
    ensures !HasKey([], e0.key) && !HasKey([], e1.key) && !HasKey([e0], e1.key) && !HasKey([e1], e0.key)
  {
    LessIsTotal(e1.key, e0.key);
    hide Less;
    assert [e1][1..] == [];
    assert Insert([], e0.key, e0.value) == [e0];
    assert [e1] + [e0] == [e1, e0];
  }

  lemma EncodeFirst(entries: seq<Entry>)
    requires entries != []
    ensures EncodeEntries(entries) == EncodeEntry(entries[0]) + EncodeEntries(entries[1..])
  {
    hide EncodeStr, Encode;
  }

  lemma UnsortedInfoText(name: seq<byte>, pieceLength: int64, length: int64, pieces: seq<byte>)
    ensures UnsortedInfo(name, pieceLength, length, pieces)
            == [DICT] + (EncodeEntry(Entry(NAME, Str(name))) + (EncodeEntry(Entry(LENGTH, Integer(length)))
                         + EncodeEntries([Entry(PIECE_LENGTH, Integer(pieceLength)), Entry(PIECES, Str(pieces))]))) + [END]
  {
    hide EncodeEntry, EncodeEntries, Ascii;
    var last := [Entry(PIECE_LENGTH, Integer(pieceLength)), Entry(PIECES, Str(pieces))];
    var tail := [Entry(LENGTH, Integer(length))] + last;
    var all := [Entry(NAME, Str(name)), Entry(LENGTH, Integer(length)),
                Entry(PIECE_LENGTH, Integer(pieceLength)), Entry(PIECES, Str(pieces))];
    assert all[1..] == tail && tail[1..] == last;
    EncodeFirst(all);
    EncodeFirst(tail);
  }

  lemma PartsAreRepresentable(e0: Entry, e1: Entry, last: seq<Entry>)
    requires Representable(Dict([e1, e0] + last))
    ensures |e0.key| <= INT64_MAX && |e1.key| <= INT64_MAX && Representable(e0.value) && Representable(e1.value)
    ensures forall i :: 0 <= i < |last| ==> |last[i].key| <= INT64_MAX && Representable(last[i].value)
    ensures Sorted([e1, e0] + last) && Less(e1.key, e0.key)
  {
    var all := [e1, e0] + last;
    assert all[0] == e1 && all[1] == e0;
    assert forall i :: 0 <= i < |last| ==> last[i] == all[i + 2];
  }

  /** Two entries in the wrong order before others in order: they are sorted on the way in, and the text is not canonical. */
  lemma SwappedEntriesAreRead(s: seq<byte>, p: nat, e0: Entry, e1: Entry, last: seq<Entry>)
    requires Representable(Dict([e1, e0] + last))
    requires Holds(s, p, EncodeEntry(e0) + (EncodeEntry(e1) + EncodeEntries(last)))
    requires Peek(s, p + |EncodeEntry(e0)| + |EncodeEntry(e1)| + |EncodeEntries(last)|) == END
    ensures ParseEntries(s, p, [])
            == Accepted(Dict([e1, e0] + last), p + |EncodeEntry(e0)| + |EncodeEntry(e1)| + |EncodeEntries(last)| + 1)
    ensures !CanonicalEntries(s, p, None)
  {
    hide *;
    var q := p + |EncodeEntry(e0)|;
    PartsAreRepresentable(e0, e1, last);
    InsertInto(e0, e1);
    LessIsTotal(e1.key, e0.key);
    HoldsConcat(s, p, EncodeEntry(e0), EncodeEntry(e1) + EncodeEntries(last));
    HoldsConcat(s, q, EncodeEntry(e1), EncodeEntries(last));
    WrittenEntryIsRead(s, p, e0);
    WrittenEntryIsRead(s, q, e1);
    AddEntry(s, p, [], e0, q);
    AddEntry(s, q, [e0], e1, q + |EncodeEntry(e1)|);
    RoundTripEntries(s, q + |EncodeEntry(e1)|, [e1, e0], last);
    NotAscending(s, p, e0, q, e1, q + |EncodeEntry(e1)|);
  }

  lemma UnsortedInfoIsRead(s: seq<byte>, p: nat, name: seq<byte>, pieceLength: int64, length: int64, pieces: seq<byte>)
    requires |name| <= INT64_MAX && |pieces| <= INT64_MAX
    requires Holds(s, p, UnsortedInfo(name, pieceLength, length, pieces))
    ensures Parse(s, p)
            == Accepted(Info(name, pieceLength, length, pieces), p + |UnsortedInfo(name, pieceLength, length, pieces)|)
    ensures !Canonical(s, p)
  {
    var e0, e1 := Entry(NAME, Str(name)), Entry(LENGTH, Integer(length));
    var last := [Entry(PIECE_LENGTH, Integer(pieceLength)), Entry(PIECES, Str(pieces))];
    UnsortedInfoText(name, pieceLength, length, pieces);
    InfoIsRepresentable(name, pieceLength, length, pieces);
    KeysAreOrdered();
    assert [e1, e0] + last == Info(name, pieceLength, length, pieces).entries;
    assert |NAME| == 4 && |LENGTH| == 6;
    hide Ascii, Info, UnsortedInfo, Less, EncodeEntry, EncodeEntries, Representable, Parse, Canonical, ParseEntries, CanonicalEntries;
    var inner := EncodeEntry(e0) + (EncodeEntry(e1) + EncodeEntries(last));
    HoldsThree(s, p, [DICT], inner, [END]);
    HoldsByte(s, p, DICT);
    HoldsByte(s, p + 1 + |inner|, END);
    hide Holds;
    SwappedEntriesAreRead(s, p + 1, e0, e1, last);
    OpensDict(s, p);
  }

  lemma OpensDict(s: seq<byte>, p: nat)
    requires Peek(s, p) == DICT
    ensures p < |s| && Parse(s, p) == ParseEntries(s, p + 1, []) && Canonical(s, p) == CanonicalEntries(s, p + 1, None)
  {
    hide ParseEntries, CanonicalEntries;
  }

  /** Two keys that do not ascend make the text of a dictionary not canonical. */
  lemma NotAscending(s: seq<byte>, p: nat, e0: Entry, q: nat, e1: Entry, r: nat)
    requires EntryAt(s, p, e0, q) && EntryAt(s, q, e1, r) && !Less(e0.key, e1.key)
    ensures p <= |s| && !CanonicalEntries(s, p, None)
  {
    hide Parse, ParseStr, Canonical, Minimal, Less;
    assert !CanonicalEntries(s, q, Some(e0.key));
  }

  /** A metainfo file with such an info dictionary. */
  function UnsortedFile(announce: seq<byte>, name: seq<byte>, pieceLength: int64, length: int64, pieces: seq<byte>)
    : seq<byte>
  {
    [DICT] + (EncodeEntry(Entry(ANNOUNCE, Str(announce)))
              + (EncodeStr(INFO) + UnsortedInfo(name, pieceLength, length, pieces))) + [END]
  }

  lemma EntriesEnd(s: seq<byte>, p: nat, entries: seq<Entry>)
    requires Peek(s, p) == END
    ensures p < |s| && ParseEntries(s, p, entries) == Accepted(Dict(entries), p + 1)
  {
  }

  lemma SpanOfSecond(s: seq<byte>, p: nat, e0: Entry, q: nat, e1: Entry, r: nat)
    requires EntryAt(s, p, e0, q) && EntryAt(s, q, e1, r) && e0.key != e1.key
    ensures p <= |s| && q <= |s| && ValueSpan(s, p, e1.key) == Some(Span(ParseStr(s, q).next, r))
  {
    hide Parse, ParseStr;
    assert ValueSpan(s, q, e1.key) == Some(Span(ParseStr(s, q).next, r));
  }

  /** A dictionary of two entries. */
  lemma TwoEntriesAreRead(s: seq<byte>, p: nat, e0: Entry, q: nat, e1: Entry, r: nat)
    requires EntryAt(s, p, e0, q) && EntryAt(s, q, e1, r) && Peek(s, r) == END && Less(e0.key, e1.key)
    ensures p <= |s| && q <= |s| && ParseEntries(s, p, []) == Accepted(Dict([e0, e1]), r + 1)
    ensures ValueSpan(s, p, e1.key) == Some(Span(ParseStr(s, q).next, r))
  {
    hide *;
    InsertInto(e1, e0);
    LessIsTotal(e0.key, e1.key);
    AddEntry(s, p, [], e0, q);
    AddEntry(s, q, [e0], e1, r);
    EntriesEnd(s, r, [e0, e1]);
    SpanOfSecond(s, p, e0, q, e1, r);
  }

  lemma HoldsAll(s: seq<byte>)
    ensures Holds(s, 0, s)
  {
    assert s[0..0 + |s|] == s;
  }

  lemma UnsortedFileParts(announce: seq<byte>, name: seq<byte>, pieceLength: int64, length: int64, pieces: seq<byte>)
    ensures var s := UnsortedFile(announce, name, pieceLength, length, pieces);
            var e, info := Entry(ANNOUNCE, Str(announce)), UnsortedInfo(name, pieceLength, length, pieces);
            var q := 1 + |EncodeEntry(e)|;
            var at := q + |EncodeStr(INFO)|;
            && Peek(s, 0) == DICT && Holds(s, 1, EncodeEntry(e)) && Holds(s, q, EncodeStr(INFO)) && Holds(s, at, info)
            && Peek(s, at + |info|) == END && |s| == at + |info| + 1
  {
    var s := UnsortedFile(announce, name, pieceLength, length, pieces);
    var e, info := Entry(ANNOUNCE, Str(announce)), UnsortedInfo(name, pieceLength, length, pieces);
    var inner := EncodeEntry(e) + (EncodeStr(INFO) + info);
    hide Ascii, UnsortedInfo, EncodeEntry, EncodeStr;
    assert s == [DICT] + inner + [END];
    hide *;
    HoldsAll(s);
    HoldsThree(s, 0, [DICT], inner, [END]);
    HoldsByte(s, 0, DICT);
    HoldsByte(s, 1 + |inner|, END);
    HoldsConcat(s, 1, EncodeEntry(e), EncodeStr(INFO) + info);
    HoldsConcat(s, 1 + |EncodeEntry(e)|, EncodeStr(INFO), info);
  }

  lemma ContentsParts(announce: seq<byte>, name: seq<byte>, pieceLength: int64, length: int64, pieces: seq<byte>)
    requires |announce| <= INT64_MAX
    ensures Contents(announce, name, pieceLength, length, pieces)
            == Dict([Entry(ANNOUNCE, Str(announce)), Entry(INFO, Info(name, pieceLength, length, pieces))])
    ensures Representable(Str(announce)) && |ANNOUNCE| <= INT64_MAX && |INFO| <= INT64_MAX
  {
    hide Info;
  }

  lemma UnsortedFileIsRead(announce: seq<byte>, name: seq<byte>, pieceLength: int64, length: int64, pieces: seq<byte>)
    requires |announce| <= INT64_MAX && |name| <= INT64_MAX && |pieces| <= INT64_MAX
    ensures var s := UnsortedFile(announce, name, pieceLength, length, pieces);
            && s != []
            && Parse(s, 0) == Accepted(Contents(announce, name, pieceLength, length, pieces), |s|)
            && ValueSpan(s, 1, INFO).Some?
            && !Canonical(s, ValueSpan(s, 1, INFO).value.start)
  {
    var s := UnsortedFile(announce, name, pieceLength, length, pieces);
    var e, d := Entry(ANNOUNCE, Str(announce)), Info(name, pieceLength, length, pieces);
    var q := 1 + |EncodeEntry(e)|;
    var at := q + |EncodeStr(INFO)|;
    hide *;
    UnsortedFileParts(announce, name, pieceLength, length, pieces);
    ContentsParts(announce, name, pieceLength, length, pieces);
    KeysAreOrdered();
    WrittenEntryIsRead(s, 1, e);
    ParseWrittenStr(s, q, INFO);
    UnsortedInfoIsRead(s, at, name, pieceLength, length, pieces);
    var end := at + |UnsortedInfo(name, pieceLength, length, pieces)|;
    InfoEntry(s, q, d, at, end);
    TwoEntriesAreRead(s, 1, e, q, Entry(INFO, d), end);
    OpensDict(s, 0);
  }

  lemma InfoEntry(s: seq<byte>, q: nat, d: Data, at: nat, end: nat)
    requires q <= |s| && ParseStr(s, q) == Accepted(INFO, at) && IsDigit(Peek(s, q)) && Parse(s, at) == Accepted(d, end)
    ensures EntryAt(s, q, Entry(INFO, d), end)
  {
    hide Parse, ParseStr, Ascii;
  }

  /**
    For such a file the info hash is not taken from the bytes of the file: it
    is loaded, and what is hashed differs from the info dictionary it holds.
   */
  lemma UnsortedInfoIsReencoded(announce: seq<byte>, name: seq<byte>, pieceLength: int64, length: int64,
                                pieces: seq<byte>, after: seq<byte>)
    requires |after| >= Hashing.HASH_SIZE && pieceLength % 0x1_0000_0000 != 0
    requires |UnsortedFile(announce, name, pieceLength, length, pieces)| <= INT64_MAX
    requires |announce| <= INT64_MAX && |name| <= INT64_MAX && |pieces| <= INT64_MAX
    ensures var s := UnsortedFile(announce, name, pieceLength, length, pieces);
            && FromText(s, after).Success?
            && ValueSpan(s, 1, INFO).Some?
            && var span := ValueSpan(s, 1, INFO).value;
               && Parse(s, span.start).Accepted?
               && FromText(s, after).value.infoHash == Hashing.Of(Encode(Parse(s, span.start).value))
               && Encode(Parse(s, span.start).value) != s[span.start..span.end]
  {
    var s := UnsortedFile(announce, name, pieceLength, length, pieces);
    UnsortedFileIsRead(announce, name, pieceLength, length, pieces);
    ContentsAreRead(announce, name, pieceLength, length, pieces, after);
    hide Parse, Canonical, Encode, FromData, UnsortedFile, ValueSpan, Hashing.Of, Contents, SplitHashes;
    InfoHashIsOfOriginalBytes(s, after);
  }
}
