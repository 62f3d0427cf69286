/**
  The chunked transfer coding as `Request::send` of include/httprequest.hpp
  decodes it while data arrives. Section 4.1 of RFC 7230 defines the coding.
 */
module Chunked {
  import opened Bytes
  import Hex

  const TWO_64 := 0x1_0000_0000_0000_0000

  predicate CrlfAt(s: seq<byte>, i: nat) {
    i + 2 <= |s| && s[i] == CR && s[i + 1] == LF
  }

  /** `std::search` for the first CRLF. */
  function FindCrlf(s: seq<byte>): (r: Option<nat>)
    ensures r.Some? ==> CrlfAt(s, r.value) && forall j :: 0 <= j < r.value ==> !CrlfAt(s, j)
    ensures r.None? ==> forall j :: 0 <= j < |s| ==> !CrlfAt(s, j)
  {
    if |s| < 2 then None
    else if CrlfAt(s, 0) then Some(0)
    else
      match FindCrlf(s[1..])
      case None =>
        assert forall j :: 0 < j < |s| ==> CrlfAt(s, j) == CrlfAt(s[1..], j - 1);
        None
      case Some(i) =>
        assert forall j :: 0 < j < |s| ==> CrlfAt(s, j) == CrlfAt(s[1..], j - 1);
        Some(i + 1)
  }

  /** `hexStringToUint<std::size_t>`: each step wraps in 64 bits; no digits give 0. */
  function HexUint(line: seq<byte>): Option<nat> {
    if line == [] then Some(0)
    else
      var n := |line| - 1;
      match (HexUint(line[..n]), Hex.DigitValue(line[n]))
      case (Some(v), Some(d)) => Some((16 * v + d) % TWO_64)
      case _ => None
  }

  // ----- The decoder

  /** `Reading` holds responseData, the body so far, expectedChunkSize and removeCrlfAfterChunk. */
  datatype State =
    | Reading(buffer: seq<byte>, body: seq<byte>, expected: nat, removeCrlf: bool)
    | Finished(body: seq<byte>)
    | Invalid

  const START := Reading([], [], 0, false)

  function Least(a: nat, b: nat): nat {
    if a < b then a else b
  }

  /** As much of the expected chunk as is there moves to the body. */
  function TakeData(st: State): (r: State)
    requires st.Reading?
    ensures r.Reading? && |r.buffer| <= |st.buffer| && (0 < st.expected && st.buffer != [] ==> |r.buffer| < |st.buffer|)
  {
    var n := Least(st.expected, |st.buffer|);
    Reading(st.buffer[n..], st.body + st.buffer[..n], st.expected - n, st.removeCrlf || st.expected == n)
  }

  /** The inner loop, up to where more data is needed. Each turn that is followed by another consumes bytes. */
  function Drain(st: State): State
    decreases if st.Reading? then |st.buffer| else 0, 1
  {
    match st
    case Reading(buffer, body, expected, removeCrlf) =>
      if expected > 0 then
        var next := TakeData(st);
        if next.buffer == [] then next else Drain(next)
      else if removeCrlf then
        if |buffer| < 2 then st else if !CrlfAt(buffer, 0) then Invalid else ReadSize(buffer[2..], body)
      else ReadSize(buffer, body)
    case _ => st
  }

  function ReadSize(buffer: seq<byte>, body: seq<byte>): State
    decreases |buffer|, 0
  {
    match FindCrlf(buffer)
    case None => Reading(buffer, body, 0, false)
    case Some(i) =>
      match HexUint(buffer[..i])
      case None => Invalid
      case Some(size) => if size == 0 then Finished(body) else Drain(Reading(buffer[i + 2..], body, size, false))
  }

  function Append(st: State, data: seq<byte>): State {
    if st.Reading? then st.(buffer := st.buffer + data) else st
  }

  function Feed(st: State, data: seq<byte>): State {
    Drain(Append(st, data))
  }

  /** One `recv` after the other. */
  function Receive(st: State, recvs: seq<seq<byte>>): State
    decreases |recvs|
  {
    if recvs == [] then st else Receive(Feed(st, recvs[0]), recvs[1..])
  }

  // ----- Where the data is cut does not matter

  lemma FindInLonger(s: seq<byte>, more: seq<byte>)
    requires FindCrlf(s).Some?
    ensures FindCrlf(s + more) == FindCrlf(s)
  {
    var i := FindCrlf(s).value;
    assert CrlfAt(s + more, i);
    assert forall j :: 0 <= j < i ==> CrlfAt(s + more, j) == CrlfAt(s, j);
    var k := FindCrlf(s + more).value;
  }

  lemma CutLater(body: seq<byte>, a: seq<byte>, c: seq<byte>, k: nat)
    requires k <= |c|
    ensures (a + c)[|a| + k..] == c[k..] && (body + a) + c[..k] == body + (a + c)[..|a| + k]
  {
    assert (a + c)[..|a| + k] == a + c[..k];
  }

  lemma TakeDataTwice(st: State, more: seq<byte>)
    requires st.Reading? && |st.buffer| < st.expected
    ensures TakeData(Append(TakeData(st), more)) == TakeData(Append(st, more))
  {
    TakeAll(st);
    Nothing(more);
    var n := |st.buffer|;
    var k := Least(st.expected - n, |more|);
    CutLater(st.body, st.buffer, more, k);
    var (b, all) := (st.body + st.buffer, st.buffer + more);
    assert Append(TakeData(st), more) == Reading(more, b, st.expected - n, st.removeCrlf);
    TakeBytes(Reading(more, b, st.expected - n, st.removeCrlf), k);
    TakeBytes(Reading(all, st.body, st.expected, st.removeCrlf), n + k);
    hide TakeData;
  }

  lemma TakeBytes(st: State, n: nat)
    requires st.Reading? && n == Least(st.expected, |st.buffer|)
    ensures TakeData(st)
            == Reading(st.buffer[n..], st.body + st.buffer[..n], st.expected - n, st.removeCrlf || st.expected == n)
  {
  }

  lemma TakeAll(st: State)
    requires st.Reading? && |st.buffer| < st.expected
    ensures TakeData(st) == Reading([], st.body + st.buffer, st.expected - |st.buffer|, st.removeCrlf)
  {
  }

  lemma TakeExactly(st: State, more: seq<byte>)
    requires st.Reading? && |st.buffer| == st.expected
    ensures TakeData(Append(st, more)) == Append(TakeData(st), more)
  {
    var all := st.buffer + more;
    assert all[|st.buffer|..] == more && all[..|st.buffer|] == st.buffer;
    assert [] + more == more;
  }

  lemma FeedWithinChunk(st: State, more: seq<byte>)
    requires st.Reading? && st.expected > 0 && |st.buffer| <= st.expected
    ensures Feed(Drain(st), more) == Feed(st, more)
  {
    assert Drain(st) == TakeData(st) && TakeData(st).expected == st.expected - |st.buffer|;
    if |st.buffer| < st.expected {
      TakeDataTwice(st, more);
      hide TakeData;
    } else {
      TakeExactly(st, more);
    }
  }

  lemma CutBefore(s: seq<byte>, n: nat, more: seq<byte>)
    requires n <= |s|
    ensures (s + more)[..n] == s[..n] && (s + more)[n..] == s[n..] + more
  {
  }

  /** A chunk that has arrived whole is taken as it is, whatever follows. */
  lemma TakeBeforeMore(st: State, more: seq<byte>)
    requires st.Reading? && st.expected <= |st.buffer|
    ensures TakeData(Append(st, more)) == Append(TakeData(st), more)
  {
    CutBefore(st.buffer, st.expected, more);
  }

  lemma {:induction false} FeedAfterDrain(st: State, more: seq<byte>)
    ensures Feed(Drain(st), more) == Feed(st, more)
    decreases if st.Reading? then |st.buffer| else 0, 1
  {
    hide ReadSize, TakeData;
    if st.Reading? {
      var b := st.buffer;
      if st.expected > 0 {
        if |b| <= st.expected {
          FeedWithinChunk(st, more);
        } else {
          RestIsLeft(st);
          FeedAfterDrain(TakeData(st), more);
          TakeBeforeMore(st, more);
        }
      } else if st.removeCrlf {
        if |b| >= 2 {
          CutBefore(b, 2, more);
          FeedAfterSize(b[2..], st.body, more);
        }
      } else {
        FeedAfterSize(b, st.body, more);
      }
    }
  }

  lemma RestIsLeft(st: State)
    requires st.Reading? && 0 < st.expected < |st.buffer|
    ensures TakeData(st).buffer != [] && |TakeData(st).buffer| < |st.buffer|
  {
  }

  lemma {:induction false} FeedAfterSize(buffer: seq<byte>, body: seq<byte>, more: seq<byte>)
    ensures Feed(ReadSize(buffer, body), more) == ReadSize(buffer + more, body)
    decreases |buffer|, 0
  {
    hide HexUint, TakeData;
    if FindCrlf(buffer).Some? {
      var i := FindCrlf(buffer).value;
      FindInLonger(buffer, more);
      CutBefore(buffer, i, more);
      CutBefore(buffer, i + 2, more);
      var size := HexUint(buffer[..i]);
      if size.Some? && size.value > 0 {
        FeedAfterDrain(Reading(buffer[i + 2..], body, size.value, false), more);
      }
    }
  }

  /** However the data is cut into pieces, the decoder ends in the same state. */
  lemma {:induction false} CutsDoNotMatter(st: State, recvs: seq<seq<byte>>)
    requires recvs != []
    ensures Receive(st, recvs) == Feed(st, Concat(recvs))
    decreases |recvs|
  {
    hide Drain;
    var tail := Concat(recvs[1..]);
    if |recvs| == 1 {
      assert recvs[0] + tail == recvs[0];
    } else {
      CutsDoNotMatter(Feed(st, recvs[0]), recvs[1..]);
      FeedAfterDrain(Append(st, recvs[0]), tail);
      AppendTwice(st, recvs[0], tail);
    }
  }

  lemma AppendTwice(st: State, a: seq<byte>, b: seq<byte>)
    ensures Append(Append(st, a), b) == Append(st, a + b)
  {
    if st.Reading? {
      assert st.buffer + a + b == st.buffer + (a + b);
    }
  }

  // ----- What is accepted

  /** A size as it is written, and the data that follows it. */
  datatype Chunk = Chunk(line: seq<byte>, data: seq<byte>)

  function Encode(chunks: seq<Chunk>): seq<byte> {
    if chunks == [] then []
    else chunks[0].line + CRLF + chunks[0].data + CRLF + Encode(chunks[1..])
  }

  function Data(chunks: seq<Chunk>): seq<byte> {
    if chunks == [] then [] else chunks[0].data + Data(chunks[1..])
  }

  /** Each size line denotes the length of its data, which is not empty. */
  predicate WellFormed(chunks: seq<Chunk>) {
    forall i :: 0 <= i < |chunks| ==> chunks[i].data != [] && HexUint(chunks[i].line) == Some(|chunks[i].data|)
  }

  lemma {:induction false} DigitsHaveNoCr(line: seq<byte>, j: nat)
    requires HexUint(line).Some? && j < |line|
    ensures line[j] != CR
  {
    var n := |line| - 1;
    if j < n {
      DigitsHaveNoCr(line[..n], j);
    }
  }

  lemma FindAfterSize(line: seq<byte>, rest: seq<byte>)
    requires HexUint(line).Some?
    ensures FindCrlf(line + CRLF + rest) == Some(|line|)
    ensures (line + CRLF + rest)[..|line|] == line && (line + CRLF + rest)[|line| + 2..] == rest
  {
    var s := line + CRLF + rest;
    assert CrlfAt(s, |line|);
    forall j: nat | j < |line|
      ensures !CrlfAt(s, j)
    {
      DigitsHaveNoCr(line, j);
      assert s[j] == line[j];
    }
    var k := FindCrlf(s).value;
  }

  /** One whole chunk moves to the body. */
  lemma ReadChunk(c: Chunk, rest: seq<byte>, body: seq<byte>)
    requires c.data != [] && HexUint(c.line) == Some(|c.data|)
    ensures ReadSize(c.line + CRLF + (c.data + CRLF + rest), body) == ReadSize(rest, body + c.data)
  {
    hide HexUint;
    var more := c.data + CRLF + rest;
    FindAfterSize(c.line, more);
    var st := Reading(more, body, |c.data|, false);
    assert more[|c.data|..] == CRLF + rest && more[..|c.data|] == c.data;
    var next := Reading(CRLF + rest, body + c.data, 0, true);
    assert TakeData(st) == next;
    assert CrlfAt(CRLF + rest, 0) && (CRLF + rest)[2..] == rest;
    assert Drain(next) == ReadSize(rest, body + c.data);
    assert Drain(st) == Drain(next);
  }

  lemma FirstChunk(chunks: seq<Chunk>, end: seq<byte>, body: seq<byte>)
    requires chunks != []
    ensures var c := chunks[0];
            && Encode(chunks) + end == c.line + CRLF + (c.data + CRLF + (Encode(chunks[1..]) + end))
            && body + Data(chunks) == body + c.data + Data(chunks[1..])
  {
  }

  /** Whole chunks move to the body, and the reading goes on behind them. */
  lemma {:induction false} ReadChunks(chunks: seq<Chunk>, tail: seq<byte>, body: seq<byte>)
    requires WellFormed(chunks)
    ensures ReadSize(Encode(chunks) + tail, body) == ReadSize(tail, body + Data(chunks))
  {
    hide HexUint, ReadSize;
    if chunks == [] {
      assert Encode(chunks) + tail == tail && body + Data(chunks) == body;
    } else {
      var c := chunks[0];
      ReadChunks(chunks[1..], tail, body + c.data);
      ReadChunk(c, Encode(chunks[1..]) + tail, body);
      FirstChunk(chunks, tail, body);
      hide Encode, Data;
    }
  }

  lemma ZeroEnds(line: seq<byte>, rest: seq<byte>, body: seq<byte>)
    requires HexUint(line) == Some(0)
    ensures ReadSize(line + CRLF + rest, body) == Finished(body)
  {
    FindAfterSize(line, rest);
  }

  /** `s` starts with the chunks, each written as size, CRLF, data, CRLF, and with a size of zero; `body` is their data. */
  predicate Encodes(chunks: seq<Chunk>, last: seq<byte>, rest: seq<byte>, s: seq<byte>, body: seq<byte>) {
    && WellFormed(chunks)
    && HexUint(last) == Some(0)
    && s == Encode(chunks) + (last + CRLF + rest)
    && body == Data(chunks)
  }

  /** A decoder that finishes has read the whole chunk it expected. */
  lemma FinishedReadsChunk(b: seq<byte>, body: seq<byte>, size: nat, final: seq<byte>)
    requires size > 0 && Drain(Reading(b, body, size, false)) == Finished(final)
    ensures size + 2 <= |b| && b == b[..size] + (CRLF + b[size + 2..])
    ensures ReadSize(b[size + 2..], body + b[..size]) == Finished(final)
  {
    hide ReadSize;
    var next := TakeData(Reading(b, body, size, false));
    assert next.buffer != [];
    assert next == Reading(b[size..], body + b[..size], 0, true);
    assert Drain(next) == Finished(final);
    assert CrlfAt(b[size..], 0) && b[size..][2..] == b[size + 2..];
  }

  lemma SplitAtCrlf(s: seq<byte>, i: nat)
    requires CrlfAt(s, i)
    ensures s == s[..i] + CRLF + s[i + 2..]
  {
  }

  lemma {:induction false} FinishedReadsChunks(buffer: seq<byte>, body: seq<byte>, final: seq<byte>)
    returns (chunks: seq<Chunk>, last: seq<byte>, rest: seq<byte>)
    requires ReadSize(buffer, body) == Finished(final)
    ensures Encodes(chunks, last, rest, buffer, Data(chunks)) && final == body + Data(chunks)
    decreases |buffer|
  {
    hide HexUint;
    var i := FindCrlf(buffer).value;
    var line, b := buffer[..i], buffer[i + 2..];
    SplitAtCrlf(buffer, i);
    var size := HexUint(line).value;
    if size == 0 {
      chunks, last, rest := [], line, b;
      Nothing(last + CRLF + rest);
      Nothing(body);
    } else {
      FinishedReadsChunk(b, body, size, final);
      var data, tail := b[..size], b[size + 2..];
      var later;
      later, last, rest := FinishedReadsChunks(tail, body + data, final);
      chunks := [Chunk(line, data)] + later;
      PrependChunk(Chunk(line, data), later, last + CRLF + rest, buffer, tail, body);
    }
  }

  lemma PrependChunk(c: Chunk, later: seq<Chunk>, end: seq<byte>, buffer: seq<byte>, tail: seq<byte>, body: seq<byte>)
    requires c.data != [] && HexUint(c.line) == Some(|c.data|) && WellFormed(later)
    requires buffer == c.line + CRLF + (c.data + (CRLF + tail)) && tail == Encode(later) + end
    ensures WellFormed([c] + later)
    ensures buffer == Encode([c] + later) + end
    ensures body + c.data + Data(later) == body + Data([c] + later)
  {
    assert ([c] + later)[1..] == later;
  }

  lemma EncodingIsRead(chunks: seq<Chunk>, last: seq<byte>, rest: seq<byte>, s: seq<byte>, body: seq<byte>)
    requires Encodes(chunks, last, rest, s, body)
    ensures ReadSize(s, []) == Finished(body)
  {
    ReadChunks(chunks, last + CRLF + rest, []);
    ZeroEnds(last, rest, [] + Data(chunks));
    Nothing(Data(chunks));
    hide WellFormed, HexUint, Encode, Data, ReadSize;
  }

  lemma ReadIsEncoding(s: seq<byte>, body: seq<byte>)
    requires ReadSize(s, []) == Finished(body)
    ensures exists chunks, last, rest :: Encodes(chunks, last, rest, s, body)
  {
    hide *;
    var chunks, last, rest := FinishedReadsChunks(s, [], body);
    Nothing(Data(chunks));
    assert Encodes(chunks, last, rest, s, body);
  }

  lemma FedFromStart(s: seq<byte>)
    ensures Feed(START, s) == ReadSize(s, [])
  {
    hide ReadSize;
    Nothing(s);
  }

  /** The decoder finishes with a body exactly on the encodings of that body, however these arrive. */
  lemma DecoderIsExact(recvs: seq<seq<byte>>, body: seq<byte>)
    requires recvs != []
    ensures Receive(START, recvs) == Finished(body)
            <==> exists chunks, last, rest :: Encodes(chunks, last, rest, Concat(recvs), body)
  {
    hide *;
    var s := Concat(recvs);
    CutsDoNotMatter(START, recvs);
    FedFromStart(s);
    if ReadSize(s, []) == Finished(body) {
      ReadIsEncoding(s, body);
    }
    forall chunks, last, rest | Encodes(chunks, last, rest, s, body)
      ensures ReadSize(s, []) == Finished(body)
    {
      EncodingIsRead(chunks, last, rest, s, body);
    }
  }

  // ----- Sizes

  /** The number a line of digits denotes, without wrapping. */
  function SizeOf(line: seq<byte>): Option<nat> {
    if line == [] then Some(0)
    else
      var n := |line| - 1;
      match (SizeOf(line[..n]), Hex.DigitValue(line[n]))
      case (Some(v), Some(d)) => Some(16 * v + d)
      case _ => None
  }

  lemma Digits16(n: nat, v: nat, d: nat)
    requires d < 16
    ensures n == 16 * v + d <==> n / 16 == v && n % 16 == d
  {
  }

  /** The digits of a size are those of base 16, in either case. */
  lemma {:induction false} SizeIsSpelled(line: seq<byte>, n: nat)
    ensures SizeOf(line) == Some(n) <==> Hex.Spells(line, n)
  {
    if line == [] {
    } else {
      var k := |line| - 1;
      hide Hex.DigitValue, Hex.Digit;
      SizeIsSpelled(line[..k], n / 16);
      Hex.DigitIsInTable(line[k], n % 16);
      Hex.ValueIsDigit(line[k]);
      if SizeOf(line[..k]).Some? && Hex.DigitValue(line[k]).Some? {
        Digits16(n, SizeOf(line[..k]).value, Hex.DigitValue(line[k]).value);
      }
    }
  }

  lemma RemainderStep(v: nat, d: nat)
    ensures (16 * (v % TWO_64) + d) % TWO_64 == (16 * v + d) % TWO_64
  {
    var q, r := v / TWO_64, v % TWO_64;
    assert 16 * v + d == (16 * r + d) + 16 * q * TWO_64;
    AddMultiple(16 * r + d, 16 * q);
  }

  lemma {:induction false} AddMultiple(x: nat, k: nat)
    ensures (x + k * TWO_64) % TWO_64 == x % TWO_64
  {
    if k == 0 {
    } else {
      AddMultiple(x, k - 1);
      assert x + k * TWO_64 == (x + (k - 1) * TWO_64) + TWO_64;
    }
  }

  lemma {:induction false} SizeWraps(line: seq<byte>)
    ensures HexUint(line) == if SizeOf(line).Some? then Some(SizeOf(line).value % TWO_64) else None
  {
    if line == [] {
    } else {
      var n := |line| - 1;
      SizeWraps(line[..n]);
      if SizeOf(line).Some? {
        RemainderStep(SizeOf(line[..n]).value, Hex.DigitValue(line[n]).value);
      }
    }
  }

  /** A size is read as the number it spells exactly if that fits 64 bits; a multiple of 2^64 is taken for the end. */
  lemma SizeIsExact(line: seq<byte>, n: nat)
    requires Hex.Spells(line, n)
    ensures HexUint(line) == Some(n) <==> n < TWO_64
    ensures n % TWO_64 == 0 ==> forall rest, body :: ReadSize(line + CRLF + rest, body) == Finished(body)
  {
    SizeIsSpelled(line, n);
    SizeWraps(line);
    hide SizeOf, HexUint, ReadSize, Hex.Spells;
    if n % TWO_64 == 0 {
      forall rest, body
        ensures ReadSize(line + CRLF + rest, body) == Finished(body)
      {
        ZeroEnds(line, rest, body);
      }
    }
  }

  /** A line that spells no number is refused. */
  lemma NoSizeIsInvalid(line: seq<byte>, rest: seq<byte>, body: seq<byte>)
    requires forall n: nat :: !Hex.Spells(line, n)
    requires FindCrlf(line + CRLF + rest) == Some(|line|)
    ensures ReadSize(line + CRLF + rest, body) == Invalid
  {
    SizeWraps(line);
    if SizeOf(line).Some? {
      SizeIsSpelled(line, SizeOf(line).value);
    }
    CutConcat(line, CRLF + rest);
    assert line + CRLF + rest == line + (CRLF + rest);
    hide SizeOf, HexUint, FindCrlf;
  }

  /**
    Chunks as section 4.1 of RFC 7230 writes them, without extensions and
    trailers, of sizes below 2^64 in hexadecimal digits of either case.
   */
  predicate IsChunkedBody(chunks: seq<Chunk>, last: seq<byte>) {
    && (forall i :: 0 <= i < |chunks| ==>
          chunks[i].data != [] && |chunks[i].data| < TWO_64 && Hex.Spells(chunks[i].line, |chunks[i].data|))
    && last != [] && Hex.Spells(last, 0)
  }

  lemma SpelledIsWellFormed(chunks: seq<Chunk>, last: seq<byte>)
    requires IsChunkedBody(chunks, last)
    ensures WellFormed(chunks) && HexUint(last) == Some(0)
  {
    hide HexUint, Hex.Spells, ReadSize;
    forall i | 0 <= i < |chunks|
      ensures HexUint(chunks[i].line) == Some(|chunks[i].data|)
    {
      SizeIsExact(chunks[i].line, |chunks[i].data|);
    }
    SizeIsExact(last, 0);
  }

  /** Every chunked body is decoded to the concatenation of its chunks, however it is cut. */
  lemma ChunkedBodyIsDecoded(chunks: seq<Chunk>, last: seq<byte>, rest: seq<byte>, recvs: seq<seq<byte>>)
    requires IsChunkedBody(chunks, last)
    requires recvs != [] && Concat(recvs) == Encode(chunks) + (last + CRLF + rest)
    ensures Receive(START, recvs) == Finished(Data(chunks))
  {
    hide *;
    SpelledIsWellFormed(chunks, last);
    DecoderIsExact(recvs, Data(chunks));
    EncodesItsData(chunks, last, rest);
  }

  lemma EncodesItsData(chunks: seq<Chunk>, last: seq<byte>, rest: seq<byte>)
    requires WellFormed(chunks) && HexUint(last) == Some(0)
    ensures Encodes(chunks, last, rest, Encode(chunks) + (last + CRLF + rest), Data(chunks))
  {
    hide WellFormed, HexUint, Encode, Data;
  }

  // ----- Interrupted responses

  function BodyOf(st: State): seq<byte> {
    if st.Invalid? then [] else st.body
  }

  lemma {:induction false} BodyGrows(st: State)
    requires !Drain(st).Invalid?
    ensures !st.Invalid? && BodyOf(st) <= BodyOf(Drain(st))
    decreases if st.Reading? then |st.buffer| else 0, 1
  {
    hide HexUint;
    if st.Reading? {
      if st.expected > 0 {
        if TakeData(st).buffer != [] {
          BodyGrows(TakeData(st));
        }
      } else if st.removeCrlf {
        if |st.buffer| >= 2 {
          BodyGrowsAfterSize(st.buffer[2..], st.body);
        }
      } else {
        BodyGrowsAfterSize(st.buffer, st.body);
      }
    }
  }

  lemma {:induction false} BodyGrowsAfterSize(buffer: seq<byte>, body: seq<byte>)
    requires !ReadSize(buffer, body).Invalid?
    ensures body <= BodyOf(ReadSize(buffer, body))
    decreases |buffer|, 0
  {
    hide HexUint;
    if FindCrlf(buffer).Some? {
      var i := FindCrlf(buffer).value;
      var size := HexUint(buffer[..i]);
      if size.value > 0 {
        BodyGrows(Reading(buffer[i + 2..], body, size.value, false));
      }
    }
  }

  /** How a body can break off after whole chunks: in a size, in the data of a chunk, or behind it. */
  datatype Partial = InSize(text: seq<byte>) | InData(line: seq<byte>, size: nat, data: seq<byte>) | Behind(line: seq<byte>, data: seq<byte>, end: seq<byte>)

  predicate IsPartial(p: Partial) {
    match p
    case InSize(text) => forall i :: 0 <= i < |text| ==> !CrlfAt(text, i)
    case InData(line, size, data) => HexUint(line) == Some(size) && |data| < size
    case Behind(line, data, end) => data != [] && HexUint(line) == Some(|data|) && |end| < 2
  }

  function PartialText(p: Partial): seq<byte> {
    match p
    case InSize(text) => text
    case InData(line, _, data) => line + CRLF + data
    case Behind(line, data, end) => line + CRLF + (data + end)
  }

  function PartialData(p: Partial): seq<byte> {
    match p
    case InSize(_) => []
    case InData(_, _, data) => data
    case Behind(_, data, _) => data
  }

  lemma ReadPartial(p: Partial, body: seq<byte>)
    requires IsPartial(p)
    ensures var st := ReadSize(PartialText(p), body); st.Reading? && st.body == body + PartialData(p)
  {
    hide HexUint, TakeData;
    match p
    case InSize(text) => Nothing(body);
    case InData(line, size, data) =>
      FindAfterSize(line, data);
      TakeBytes(Reading(data, body, size, false), |data|);
    case Behind(line, data, end) =>
      FindAfterSize(line, data + end);
      BehindData(data, end, body);
      hide Drain;
  }

  lemma BehindData(data: seq<byte>, end: seq<byte>, body: seq<byte>)
    requires data != []
    ensures Drain(Reading(data + end, body, |data|, false)) == Drain(Reading(end, body + data, 0, true))
            || (end == [] && Drain(Reading(data + end, body, |data|, false)) == Reading(end, body + data, 0, true))
    ensures |end| < 2 ==> Drain(Reading(end, body + data, 0, true)) == Reading(end, body + data, 0, true)
  {
    hide ReadSize;
    CutConcat(data, end);
    TakeBytes(Reading(data + end, body, |data|, false), |data|);
  }

  /**
    When the connection ends early, the body is all data that has arrived:
    that of the whole chunks and of the one that broke off.
   */
  lemma InterruptedBodyIsExact(chunks: seq<Chunk>, p: Partial, recvs: seq<seq<byte>>)
    requires WellFormed(chunks) && IsPartial(p)
    requires recvs != [] && Concat(recvs) == Encode(chunks) + PartialText(p)
    ensures var st := Receive(START, recvs); st.Reading? && st.body == Data(chunks) + PartialData(p)
  {
    hide *;
    CutsDoNotMatter(START, recvs);
    FedFromStart(Concat(recvs));
    ReadChunks(chunks, PartialText(p), []);
    Nothing(Data(chunks));
    ReadPartial(p, Data(chunks));
  }

  /** A line that stands where a size should, and spells no number, is an error. */
  lemma BadSizeIsInvalid(chunks: seq<Chunk>, line: seq<byte>, rest: seq<byte>, recvs: seq<seq<byte>>)
    requires WellFormed(chunks) && recvs != []
    requires (forall n: nat :: !Hex.Spells(line, n)) && FindCrlf(line + CRLF + rest) == Some(|line|)
    requires Concat(recvs) == Encode(chunks) + (line + CRLF + rest)
    ensures Receive(START, recvs) == Invalid
  {
    hide *;
    CutsDoNotMatter(START, recvs);
    FedFromStart(Concat(recvs));
    ReadChunks(chunks, line + CRLF + rest, []);
    NoSizeIsInvalid(line, rest, [] + Data(chunks));
  }

  lemma NoEndIsInvalid(line: seq<byte>, data: seq<byte>, rest: seq<byte>, body: seq<byte>)
    requires data != [] && HexUint(line) == Some(|data|) && |rest| >= 2 && !CrlfAt(rest, 0)
    ensures ReadSize(line + CRLF + (data + rest), body) == Invalid
  {
    hide HexUint, TakeData;
    FindAfterSize(line, data + rest);
    BehindData(data, rest, body);
  }

  /** Two bytes behind the data of a chunk that are no CRLF are an error. */
  lemma BadEndIsInvalid(chunks: seq<Chunk>, c: Chunk, rest: seq<byte>, recvs: seq<seq<byte>>)
    requires WellFormed(chunks) && WellFormed([c]) && recvs != []
    requires |rest| >= 2 && !CrlfAt(rest, 0)
    requires Concat(recvs) == Encode(chunks) + (c.line + CRLF + (c.data + rest))
    ensures Receive(START, recvs) == Invalid
  {
    assert [c][0] == c && c.data != [] && HexUint(c.line) == Some(|c.data|);
    hide *;
    CutsDoNotMatter(START, recvs);
    FedFromStart(Concat(recvs));
    ReadChunks(chunks, c.line + CRLF + (c.data + rest), []);
    NoEndIsInvalid(c.line, c.data, rest, [] + Data(chunks));
  }

  /** What is returned when the connection ends early is a prefix of the whole body. */
  lemma InterruptedBodyIsPrefix(before: seq<seq<byte>>, after: seq<byte>, body: seq<byte>)
    requires before != []
    requires Feed(START, Concat(before) + after) == Finished(body)
    ensures !Receive(START, before).Invalid? && BodyOf(Receive(START, before)) <= body
  {
    hide Drain, Receive, Concat;
    var st := Append(START, Concat(before));
    CutsDoNotMatter(START, before);
    FeedAfterDrain(st, after);
    AppendTwice(START, Concat(before), after);
    BodyGrows(Append(Drain(st), after));
  }
}
