/** A whole response, as `Request::send` of include/httprequest.hpp receives it. */
module Responses {
  import opened Bytes
  import opened Headers
  import Chunked
  import ResponseBody

  datatype Status = Status(major: nat, minor: nat, code: nat, reason: seq<byte>)

  /** The response that is returned starts without a status. */
  datatype Response = Response(status: Option<Status>, fields: seq<Field>, body: seq<byte>)

  datatype Outcome = Received(response: Response) | Failed

  const EMPTY := Response(None, [], [])

  // ----- The status line

  /** "HTTP/" */
  const HTTP: seq<byte> := [72, 84, 84, 80, 47]
  const DOT := 46

  function DigitOf(c: byte): nat
    requires IsDigit(c)
  {
    c - 0x30
  }

  /** The version, a code of three digits, and the reason phrase. */
  function ParseStatus(s: seq<byte>): Parsed<Status> {
    if |s| < 13 || s[..5] != HTTP || !IsDigit(s[5]) || s[6] != DOT || !IsDigit(s[7]) || s[8] != SPACE
       || !IsDigit(s[9]) || !IsDigit(s[10]) || !IsDigit(s[11]) || s[12] != SPACE then ResponseError
    else
      var n := Run(Value, s[13..]);
      var end := s[13..][n..];
      if |end| < 2 || end[0] != CR || end[1] != LF then ResponseError
      else
        Parsed(Status(DigitOf(s[5]), DigitOf(s[7]), DigitOf(s[9]) * 100 + DigitOf(s[10]) * 10 + DigitOf(s[11]),
                      s[13..][..n]),
               end[2..])
  }

  /** Digits as a number; each step wraps in 16 bits. */
  function CodeOf(digits: seq<byte>): nat
    requires forall j :: 0 <= j < |digits| ==> IsDigit(digits[j])
  {
    if digits == [] then 0
    else
      var n := |digits| - 1;
      (CodeOf(digits[..n]) * 10 + DigitOf(digits[n])) % 0x1_0000
  }

  /** The digits `s` starts with. */
  method ReadStatusCode(s: seq<byte>) returns (count: nat, code: nat)
    ensures count <= |s| && (forall j :: 0 <= j < count ==> IsDigit(s[j])) && (count < |s| ==> !IsDigit(s[count]))
    ensures code == CodeOf(s[..count])
  {
    hide IsDigit, DigitOf;
    count, code := 0, 0;
    while count < |s| && IsDigit(s[count])
      invariant count <= |s| && forall j :: 0 <= j < count ==> IsDigit(s[j])
      invariant code == CodeOf(s[..count])
    {
      assert s[..count + 1][..count] == s[..count];
      code := (code * 10 + DigitOf(s[count])) % 0x1_0000;
      count := count + 1;
    }
  }

  lemma CodeOfThree(a: byte, b: byte, c: byte)
    requires IsDigit(a) && IsDigit(b) && IsDigit(c)
    ensures CodeOf([a, b, c]) == DigitOf(a) * 100 + DigitOf(b) * 10 + DigitOf(c)
  {
    assert [a][..0] == [] && [a, b][..1] == [a] && [a, b, c][..2] == [a, b];
    assert CodeOf([a]) == DigitOf(a);
    assert CodeOf([a, b]) == DigitOf(a) * 10 + DigitOf(b);
  }

  /** Every part of the line is demanded in turn. */
  method ReadStatus(s: seq<byte>) returns (r: Parsed<Status>)
    ensures r == ParseStatus(s)
  {
    hide Run, IsDigit, DigitOf, CodeOf;
    if |s| < 5 || s[..5] != HTTP || |s| == 5 || !IsDigit(s[5]) || |s| == 6 || s[6] != DOT || |s| == 7 || !IsDigit(s[7]) {
      return ResponseError;
    }
    if |s| == 8 || s[8] != SPACE {
      return ResponseError;
    }
    var count, code := ReadStatusCode(s[9..]);
    SpaceIsNoDigit();
    if count != 3 || |s| == 12 || s[12] != SPACE {
      return ResponseError;
    }
    assert s[9..][..3] == [s[9], s[10], s[11]];
    CodeOfThree(s[9], s[10], s[11]);
    var reason := RunEnd(Value, s[13..]);
    var end := s[13..][reason..];
    if |end| < 2 || end[0] != CR || end[1] != LF {
      return ResponseError;
    }
    return Parsed(Status(DigitOf(s[5]), DigitOf(s[7]), code, s[13..][..reason]), end[2..]);
  }

  lemma SpaceIsNoDigit()
    ensures !IsDigit(SPACE)
  {
  }

  // ----- What the fields say about the body

  function Lower(c: byte): byte {
    if 65 <= c <= 90 then c + 32 else c
  }

  function LowerText(s: seq<byte>): seq<byte> {
    if s == [] then [] else [Lower(s[0])] + LowerText(s[1..])
  }

  function LowerNames(fields: seq<Field>): seq<Field> {
    if fields == [] then [] else [Field(LowerText(fields[0].name), fields[0].value)] + LowerNames(fields[1..])
  }

  /** "transfer-encoding" */
  const TRANSFER_ENCODING: seq<byte> :=
    [116, 114, 97, 110, 115, 102, 101, 114, 45, 101, 110, 99, 111, 100, 105, 110, 103]

  /** "content-length" */
  const CONTENT_LENGTH: seq<byte> := [99, 111, 110, 116, 101, 110, 116, 45, 108, 101, 110, 103, 116, 104]

  /** "chunked" */
  const CHUNKED: seq<byte> := [99, 104, 117, 110, 107, 101, 100]

  /** `stringToUint<std::size_t>`: each step wraps in 64 bits. */
  function StringToUint(text: seq<byte>): Option<nat> {
    if text == [] then Some(0)
    else
      var n := |text| - 1;
      match StringToUint(text[..n])
      case None => None
      case Some(v) => if IsDigit(text[n]) then Some((10 * v + DigitOf(text[n])) % Chunked.TWO_64) else None
  }

  lemma WrapStep(v: nat, d: nat)
    ensures (10 * (v % Chunked.TWO_64) + d) % Chunked.TWO_64 == (10 * v + d) % Chunked.TWO_64
  {
    var q, r := v / Chunked.TWO_64, v % Chunked.TWO_64;
    assert 10 * v + d == (10 * r + d) + 10 * q * Chunked.TWO_64;
    Chunked.AddMultiple(10 * r + d, 10 * q);
  }

  /** A text of digits is read as the number it spells, modulo 2^64. */
  lemma {:induction false} DigitsAreRead(text: seq<byte>, n: nat)
    requires SpellsDecimal(text, n)
    ensures StringToUint(text) == Some(n % Chunked.TWO_64)
  {
    if text == [] {
    } else {
      var k := |text| - 1;
      DigitsAreRead(text[..k], n / 10);
      WrapStep(n / 10, n % 10);
      assert n == 10 * (n / 10) + n % 10;
    }
  }

  /** A text is read as a number if and only if all its characters are digits. */
  lemma {:induction false} OnlyDigitsAreRead(text: seq<byte>)
    ensures StringToUint(text).Some? <==> forall i :: 0 <= i < |text| ==> 48 <= text[i] <= 57
  {
    if text == [] {
    } else {
      OnlyDigitsAreRead(text[..|text| - 1]);
    }
  }

  datatype Framing = Framing(chunked: bool, length: Option<nat>)

  /** A later field overrides an earlier one. No coding but "chunked" is supported. */
  function FramingOf(fields: seq<Field>): Option<Framing> {
    if fields == [] then Some(Framing(false, None))
    else
      var n := |fields| - 1;
      match FramingOf(fields[..n])
      case None => None
      case Some(framing) =>
        if fields[n].name == TRANSFER_ENCODING then
          if fields[n].value == CHUNKED then Some(framing.(chunked := true)) else None
        else if fields[n].name == CONTENT_LENGTH then
          match StringToUint(fields[n].value)
          case None => None
          case length => Some(framing.(length := length))
        else Some(framing)
  }

  /** What the last field that announces a length says. */
  function LastLength(fields: seq<Field>): Option<nat> {
    if fields == [] then None
    else
      var f := fields[|fields| - 1];
      if f.name == CONTENT_LENGTH then StringToUint(f.value) else LastLength(fields[..|fields| - 1])
  }

  /**
    The fields are accepted if and only if every coding is "chunked" and every
    length is a number; the body is chunked if and only if a coding is named,
    and the length is that of the last field that announces one.
   */
  lemma {:induction false} FramingIsAsNamed(fields: seq<Field>)
    ensures FramingOf(fields).Some? <==>
              forall i :: 0 <= i < |fields| ==>
                && (fields[i].name == TRANSFER_ENCODING ==> fields[i].value == CHUNKED)
                && (fields[i].name == CONTENT_LENGTH ==> StringToUint(fields[i].value).Some?)
    ensures FramingOf(fields).Some? ==>
              (FramingOf(fields).value.chunked <==> exists i :: 0 <= i < |fields| && fields[i].name == TRANSFER_ENCODING)
    ensures FramingOf(fields).Some? ==> FramingOf(fields).value.length == LastLength(fields)
  {
    hide StringToUint;
    assert TRANSFER_ENCODING[0] != CONTENT_LENGTH[0];
    if fields == [] {
    } else {
      FramingIsAsNamed(fields[..|fields| - 1]);
    }
  }

  // ----- The header section

  predicate EndAt(s: seq<byte>, i: nat) {
    i + 4 <= |s| && s[i] == CR && s[i + 1] == LF && s[i + 2] == CR && s[i + 3] == LF
  }

  /** `std::search` for the first two consecutive CRLFs. */
  function FindEnd(s: seq<byte>): (r: Option<nat>)
    ensures r.Some? ==> EndAt(s, r.value)
    ensures forall j :: 0 <= j < (if r.Some? then r.value else |s|) ==> !EndAt(s, j)
  {
    if |s| < 4 then None
    else if EndAt(s, 0) then Some(0)
    else
      assert forall j :: 0 < j < |s| ==> EndAt(s, j) == EndAt(s[1..], j - 1);
      match FindEnd(s[1..])
      case None => None
      case Some(i) => Some(i + 1)
  }

  function ReceiveBody(framing: Framing, recvs: seq<seq<byte>>): ResponseBody.Outcome {
    if framing.chunked then ResponseBody.Result(Chunked.Receive(Chunked.START, recvs))
    else ResponseBody.Body(ResponseBody.Collect([], recvs, framing.length))
  }

  /** The response made of a header section and what follows it. */
  function AfterHeader(header: seq<byte>, recvs: seq<seq<byte>>): Outcome {
    match ParseStatus(header)
    case ResponseError => Failed
    case Parsed(status, rest) =>
      match ParseFields(rest)
      case None => Failed
      case Some(parsed) =>
        var fields := LowerNames(parsed);
        match FramingOf(fields)
        case None => Failed
        case Some(framing) =>
          match ReceiveBody(framing, recvs)
          case ResponseError => Failed
          case Body(bytes) => Received(Response(Some(status), fields, bytes))
  }

  /**
    What `send` returns, if `recvs` is what the calls of `recv` return until
    the connection ends. It gives up if the first of them does not hold the
    whole header section.
   */
  function Receive(recvs: seq<seq<byte>>): Outcome {
    if recvs == [] then Received(EMPTY)
    else
      match FindEnd(recvs[0])
      case None => Received(EMPTY)
      case Some(i) => AfterHeader(recvs[0][..i + 2], [recvs[0][i + 4..]] + recvs[1..])
  }

  method ReadFraming(fields: seq<Field>) returns (r: Option<Framing>)
    ensures r == FramingOf(fields)
  {
    var chunkedResponse, contentLength := false, None;
    var k := 0;
    while k < |fields|
      invariant 0 <= k <= |fields|
      invariant FramingOf(fields[..k]) == Some(Framing(chunkedResponse, contentLength))
    {
      var f := fields[k];
      assert fields[..k + 1][..k] == fields[..k];
      if f.name == TRANSFER_ENCODING {
        if f.value == CHUNKED {
          chunkedResponse := true;
        } else {
          FramingFails(fields, k + 1);
          return None;
        }
      } else if f.name == CONTENT_LENGTH {
        var length := ReadUint(f.value);
        if length.None? {
          FramingFails(fields, k + 1);
          return None;
        }
        contentLength := length;
      }
      k := k + 1;
    }
    assert fields[..k] == fields;
    return Some(Framing(chunkedResponse, contentLength));
  }

  lemma {:induction false} FramingFails(fields: seq<Field>, k: nat)
    requires k <= |fields| && FramingOf(fields[..k]) == None
    ensures FramingOf(fields) == None
    decreases |fields| - k
  {
    if k < |fields| {
      assert fields[..k + 1][..k] == fields[..k];
      FramingFails(fields, k + 1);
    } else {
      assert fields[..k] == fields;
    }
  }

  method ReadUint(text: seq<byte>) returns (r: Option<nat>)
    ensures r == StringToUint(text)
  {
    var result := 0;
    var i := 0;
    while i < |text|
      invariant 0 <= i <= |text| && StringToUint(text[..i]) == Some(result)
    {
      assert text[..i + 1][..i] == text[..i];
      if !IsDigit(text[i]) {
        UintFails(text, i + 1);
        return None;
      }
      result := (10 * result + DigitOf(text[i])) % Chunked.TWO_64;
      i := i + 1;
    }
    assert text[..i] == text;
    return Some(result);
  }

  lemma {:induction false} UintFails(text: seq<byte>, k: nat)
    requires k <= |text| && StringToUint(text[..k]) == None
    ensures StringToUint(text) == None
    decreases |text| - k
  {
    if k < |text| {
      assert text[..k + 1][..k] == text[..k];
      UintFails(text, k + 1);
    } else {
      assert text[..k] == text;
    }
  }

  method Send(recvs: seq<seq<byte>>) returns (r: Outcome)
    ensures r == Receive(recvs)
  {
    hide FindEnd, ParseStatus, ParseFields, FramingOf, LowerNames, ResponseBody.Collect, Chunked.Receive, ResponseBody.Result;
    if recvs == [] {
      return Received(EMPTY);
    }
    var end := FindEnd(recvs[0]);
    if end.None? {
      return Received(EMPTY);
    }
    var header, rest := recvs[0][..end.value + 2], [recvs[0][end.value + 4..]] + recvs[1..];
    var status := ReadStatus(header);
    if status.ResponseError? {
      return Failed;
    }
    var parsed := ReadFields(status.rest);
    if parsed.None? {
      return Failed;
    }
    var fields := LowerNames(parsed.value);
    var framing := ReadFraming(fields);
    if framing.None? {
      return Failed;
    }
    if framing.value.chunked {
      var body := ResponseBody.ReceiveChunked(rest);
      if body.ResponseError? {
        return Failed;
      }
      return Received(Response(Some(status.value), fields, body.bytes));
    } else {
      var body := ResponseBody.ReceivePlain(rest, framing.value.length);
      return Received(Response(Some(status.value), fields, body));
    }
  }

  // ----- Finding the end of the header section

  predicate NoCr(s: seq<byte>) {
    forall i :: 0 <= i < |s| ==> s[i] != CR
  }

  /** Within a line there is no end; at its end there is one exactly if an empty line follows. */
  lemma {:induction false} FindPastLine(line: seq<byte>, rest: seq<byte>)
    requires NoCr(line) && (|rest| >= 2 && rest[0] == CR ==> rest[1] == LF)
    requires rest != [] ==> rest[0] != LF
    ensures |rest| >= 2 && rest[0] == CR ==> FindEnd(line + CRLF + rest) == Some(|line|)
    ensures rest != [] && rest[0] != CR ==>
              FindEnd(line + CRLF + rest) == match FindEnd(rest)
                                             case None => None
                                             case Some(i) => Some(|line| + 2 + i)
    ensures |rest| < 2 ==> FindEnd(line + CRLF + rest) == None
    decreases |line|
  {
    var s := line + CRLF + rest;
    if line == [] {
      assert s == CRLF + rest && s[1..] == [LF] + rest && s[1..][1..] == rest;
    } else {
      FindPastLine(line[1..], rest);
      assert s[1..] == line[1..] + CRLF + rest;
    }
  }

  lemma ContentHasNoCr(f: Field)
    requires Valid(f)
    ensures NoCr(f.name + [COLON, SPACE] + f.value) && f.name[0] != CR && f.name[0] != LF
  {
    var s := f.name + [COLON, SPACE] + f.value;
    assert Is(Token, f.name[0]);
    forall i | 0 <= i < |s|
      ensures s[i] != CR
    {
      if i < |f.name| {
        assert s[i] == f.name[i] && Is(Token, f.name[i]);
      } else if i >= |f.name| + 2 {
        assert s[i] == f.value[i - |f.name| - 2] && Is(Value, f.value[i - |f.name| - 2]);
      }
    }
  }

  /** The header section ends where its last line does, and not before. */
  lemma {:induction false} FindPastLines(line: seq<byte>, fields: seq<Field>, more: seq<byte>)
    requires NoCr(line) && AllValid(fields)
    ensures FindEnd(line + CRLF + (Lines(fields) + (CRLF + more))) == Some(|line| + |Lines(fields)|)
    decreases |fields|, 0
  {
    hide FindEnd, NoCr, Valid;
    var rest := Lines(fields) + (CRLF + more);
    if fields == [] {
      Nothing(CRLF + more);
      FindPastLine(line, CRLF + more);
    } else {
      var f := fields[0];
      assert Valid(f);
      var content, later := f.name + [COLON, SPACE] + f.value, Lines(fields[1..]) + (CRLF + more);
      FindPastContent(f, fields[1..], more);
      Associate(Line(f), Lines(fields[1..]), CRLF + more);
      ContentHasNoCr(f);
      NameIsFirst(f, later);
      FindPastLine(line, rest);
    }
  }

  lemma NameIsFirst(f: Field, later: seq<byte>)
    requires Valid(f)
    ensures f.name != [] && (Line(f) + later)[0] == f.name[0]
  {
  }

  lemma FindPastContent(f: Field, fields: seq<Field>, more: seq<byte>)
    requires Valid(f) && AllValid(fields)
    ensures FindEnd(Line(f) + (Lines(fields) + (CRLF + more))) == Some(|Line(f)| - 2 + |Lines(fields)|)
    decreases |fields|, 1
  {
    hide FindEnd, NoCr, Valid;
    ContentHasNoCr(f);
    FindPastLines(f.name + [COLON, SPACE] + f.value, fields, more);
  }

  lemma {:induction false} EndInPart(s: seq<byte>, n: nat)
    requires n <= |s| && FindEnd(s).Some?
    ensures FindEnd(s[..n]) == if FindEnd(s).value + 4 <= n then FindEnd(s) else None
  {
    if n >= 4 && !EndAt(s, 0) {
      assert s[1..][..n - 1] == s[..n][1..];
      EndInPart(s[1..], n - 1);
    }
  }

  // ----- Responses as servers send them

  predicate ValidStatus(st: Status) {
    st.major < 10 && st.minor < 10 && st.code < 1000 && All(Value, st.reason)
  }

  function DigitChar(n: nat): byte
    requires n < 10
  {
    0x30 + n
  }

  /** A status line without its CRLF. */
  function StatusText(st: Status): seq<byte>
    requires ValidStatus(st)
  {
    HTTP + StatusDigits(st) + st.reason
  }

  lemma StatusHasNoCr(st: Status)
    requires ValidStatus(st)
    ensures NoCr(StatusText(st))
  {
    var s := StatusText(st);
    forall i | 0 <= i < |s|
      ensures s[i] != CR
    {
      if i >= 13 {
        assert s[i] == st.reason[i - 13] && Is(Value, st.reason[i - 13]);
      }
    }
  }

  lemma ReadDigit(n: nat)
    requires n < 10
    ensures IsDigit(DigitChar(n)) && DigitOf(DigitChar(n)) == n
  {
  }

  lemma CodeDigits(code: nat)
    requires code < 1000
    ensures code / 100 < 10 && code / 100 * 100 + code / 10 % 10 * 10 + code % 10 == code
  {
  }

  lemma StatusBytes(digits: seq<byte>, tail: seq<byte>)
    requires |digits| == 8
    ensures var s := HTTP + digits + tail;
            && |s| == 13 + |tail| && s[..5] == HTTP && s[13..] == tail
            && forall j :: 0 <= j < 8 ==> s[5 + j] == digits[j]
  {
    assert HTTP + digits + tail == HTTP + (digits + tail);
    CutConcat(HTTP, digits + tail);
    CutConcat(HTTP + digits, tail);
    assert forall j :: 0 <= j < 8 ==> (HTTP + digits + tail)[5 + j] == (digits + tail)[j];
  }

  lemma ReasonIsRead(reason: seq<byte>, rest: seq<byte>)
    requires All(Value, reason)
    ensures var tail := reason + (CRLF + rest);
            Run(Value, tail) == |reason| && tail[..|reason|] == reason && tail[|reason|..] == CRLF + rest
    ensures |CRLF + rest| >= 2 && (CRLF + rest)[0] == CR && (CRLF + rest)[1] == LF && (CRLF + rest)[2..] == rest
  {
    CharacterFacts(0);
    hide Run, All, IsValue;
    RunOf(Value, reason, CRLF + rest);
    CutConcat(reason, CRLF + rest);
    CutConcat(CRLF, rest);
  }

  function StatusDigits(st: Status): (s: seq<byte>)
    requires ValidStatus(st)
    ensures |s| == 8
  {
    [DigitChar(st.major), DOT, DigitChar(st.minor), SPACE,
     DigitChar(st.code / 100), DigitChar(st.code / 10 % 10), DigitChar(st.code % 10), SPACE]
  }

  lemma StatusDigitsAreRead(st: Status)
    requires ValidStatus(st)
    ensures var d := StatusDigits(st);
            && IsDigit(d[0]) && DigitOf(d[0]) == st.major && d[1] == DOT && IsDigit(d[2]) && DigitOf(d[2]) == st.minor
            && d[3] == SPACE && IsDigit(d[4]) && IsDigit(d[5]) && IsDigit(d[6]) && d[7] == SPACE
            && DigitOf(d[4]) * 100 + DigitOf(d[5]) * 10 + DigitOf(d[6]) == st.code
  {
    ReadDigit(st.major);
    ReadDigit(st.minor);
    ReadDigit(st.code / 100);
    ReadDigit(st.code / 10 % 10);
    ReadDigit(st.code % 10);
    CodeDigits(st.code);
    hide IsDigit, DigitOf, DigitChar;
  }

  lemma StatusRoundTrip(st: Status, rest: seq<byte>)
    requires ValidStatus(st)
    ensures ParseStatus(StatusText(st) + CRLF + rest) == Parsed(st, rest)
  {
    hide Run, All, IsDigit, DigitOf, StatusDigits;
    var tail := st.reason + (CRLF + rest);
    var s := HTTP + StatusDigits(st) + tail;
    StatusBytes(StatusDigits(st), tail);
    StatusDigitsAreRead(st);
    ReasonIsRead(st.reason, rest);
    var d := StatusDigits(st);
    assert s[5 + 0] == d[0] && s[5 + 1] == d[1] && s[5 + 2] == d[2] && s[5 + 3] == d[3];
    assert s[5 + 4] == d[4] && s[5 + 5] == d[5] && s[5 + 6] == d[6] && s[5 + 7] == d[7];
    assert StatusText(st) + CRLF + rest == s;
  }

  lemma DigitIs(c: byte)
    requires IsDigit(c)
    ensures DigitOf(c) < 10 && DigitChar(DigitOf(c)) == c
  {
  }

  lemma CodeOfDigits(a: nat, b: nat, c: nat)
    requires a < 10 && b < 10 && c < 10
    ensures var code := a * 100 + b * 10 + c; code < 1000 && code / 100 == a && code / 10 % 10 == b && code % 10 == c
  {
  }

  /** What is read as a status line is one. */
  lemma ReadStatusIsText(s: seq<byte>, st: Status, rest: seq<byte>)
    requires ParseStatus(s) == Parsed(st, rest)
    ensures ValidStatus(st) && s == StatusText(st) + CRLF + rest
  {
    hide Run, IsDigit, DigitOf, DigitChar, All;
    var n := Run(Value, s[13..]);
    var end := s[13..][n..];
    DigitIs(s[5]);
    DigitIs(s[7]);
    DigitIs(s[9]);
    DigitIs(s[10]);
    DigitIs(s[11]);
    CodeOfDigits(DigitOf(s[9]), DigitOf(s[10]), DigitOf(s[11]));
    assert s[5..13] == StatusDigits(st);
    assert s[..13] == s[..5] + s[5..13];
    assert s == s[..13] + (s[13..][..n] + (end[..2] + end[2..]));
    assert end[..2] == CRLF;
    ThreeParts(s[..13], st.reason, CRLF, rest);
  }

  lemma ThreeParts(a: seq<byte>, b: seq<byte>, c: seq<byte>, d: seq<byte>)
    ensures a + (b + (c + d)) == a + b + c + d
  {
  }

  /** A text is read as a status if and only if it starts with the status line of that status. */
  lemma StatusIsExact(s: seq<byte>, st: Status, rest: seq<byte>)
    ensures ParseStatus(s) == Parsed(st, rest) <==> ValidStatus(st) && s == StatusText(st) + CRLF + rest
  {
    hide ParseStatus, StatusText, ValidStatus;
    if ParseStatus(s) == Parsed(st, rest) {
      ReadStatusIsText(s, st, rest);
    }
    if ValidStatus(st) && s == StatusText(st) + CRLF + rest {
      StatusRoundTrip(st, rest);
    }
  }

  /** The header section without the empty line that ends it. */
  function HeaderText(st: Status, fields: seq<Field>): seq<byte>
    requires ValidStatus(st)
  {
    StatusText(st) + CRLF + Lines(fields)
  }

  predicate ValidHeader(st: Status, fields: seq<Field>) {
    && ValidStatus(st)
    && fields != [] && AllValid(fields)
    && (forall i :: 0 <= i < |fields| ==> Stripped(fields[i].value))
    && FramingOf(LowerNames(fields)).Some?
  }

  lemma HeaderEnds(st: Status, fields: seq<Field>, more: seq<byte>)
    requires ValidHeader(st, fields)
    ensures FindEnd(HeaderText(st, fields) + (CRLF + more)) == Some(|HeaderText(st, fields)| - 2)
  {
    hide FindEnd, StatusText, NoCr, AllValid, Lines, FramingOf, LowerNames;
    StatusHasNoCr(st);
    FindPastLines(StatusText(st), fields, more);
    Associate(StatusText(st) + CRLF, Lines(fields), CRLF + more);
  }

  lemma HeaderIsParsed(st: Status, fields: seq<Field>, recvs: seq<seq<byte>>)
    requires ValidHeader(st, fields)
    ensures var names := LowerNames(fields);
            AfterHeader(HeaderText(st, fields), recvs)
            == match ReceiveBody(FramingOf(names).value, recvs)
               case ResponseError => Failed
               case Body(bytes) => Received(Response(Some(st), names, bytes))
  {
    hide ParseStatus, ParseFields, StatusText, Lines, FramingOf, LowerNames, ReceiveBody;
    StatusRoundTrip(st, Lines(fields));
    HeaderRoundTrip(fields);
  }

  lemma FirstPart(recvs: seq<seq<byte>>)
    requires recvs != []
    ensures |recvs[0]| <= |Concat(recvs)| && recvs[0] == Concat(recvs)[..|recvs[0]|]
  {
  }

  lemma WithoutHeader(recvs: seq<seq<byte>>, n: nat)
    requires recvs != [] && n <= |recvs[0]|
    ensures |recvs[0]| <= |Concat(recvs)|
    ensures Concat([recvs[0][n..]] + recvs[1..]) == Concat(recvs)[n..]
  {
    var rest := [recvs[0][n..]] + recvs[1..];
    assert rest[1..] == recvs[1..];
  }

  /**
    A response that arrives in parts is received if and only if the first
    part holds the whole header section with its empty line; otherwise it is
    given up, and returned empty, whatever follows.
   */
  lemma HeaderMustArriveWhole(st: Status, fields: seq<Field>, more: seq<byte>, recvs: seq<seq<byte>>)
    requires ValidHeader(st, fields)
    requires recvs != [] && Concat(recvs) == HeaderText(st, fields) + (CRLF + more)
    ensures var n := |HeaderText(st, fields)| + 2;
            if n <= |recvs[0]| then
              var rest := [recvs[0][n..]] + recvs[1..];
              Concat(rest) == more && Receive(recvs) == AfterHeader(HeaderText(st, fields), rest)
            else
              Receive(recvs) == Received(EMPTY)
  {
    hide AfterHeader, FindEnd, HeaderText, Concat, AllValid, Stripped, FramingOf, LowerNames;
    var header := HeaderText(st, fields);
    HeaderEnds(st, fields, more);
    FirstPart(recvs);
    EndInPart(header + (CRLF + more), |recvs[0]|);
    if |header| + 2 <= |recvs[0]| {
      WithoutHeader(recvs, |header| + 2);
      Associate(header, CRLF, more);
      CutConcat(header + CRLF, more);
      CutConcat(header, CRLF + more);
      assert recvs[0][..|header|] == header;
    }
  }

  /**
    A chunked response gives its status, its fields and the concatenation of
    its chunks if and only if its header section arrives whole in the first
    part; the body may be cut anywhere, and a Content-Length does not matter.
   */
  lemma ChunkedResponseIsDecoded(st: Status, fields: seq<Field>, chunks: seq<Chunked.Chunk>, last: seq<byte>, rest: seq<byte>,
                                 recvs: seq<seq<byte>>)
    requires ValidHeader(st, fields) && FramingOf(LowerNames(fields)).value.chunked
    requires Chunked.IsChunkedBody(chunks, last)
    requires recvs != []
    requires Concat(recvs) == HeaderText(st, fields) + (CRLF + (Chunked.Encode(chunks) + (last + CRLF + rest)))
    ensures Receive(recvs) == Received(Response(Some(st), LowerNames(fields), Chunked.Data(chunks)))
            <==> |HeaderText(st, fields)| + 2 <= |recvs[0]|
  {
    hide AfterHeader, HeaderText, Concat, AllValid, Stripped, Receive, FramingOf, LowerNames, Chunked.Encode, Chunked.Receive;
    var n := |HeaderText(st, fields)| + 2;
    HeaderMustArriveWhole(st, fields, Chunked.Encode(chunks) + (last + CRLF + rest), recvs);
    if n <= |recvs[0]| {
      var body := [recvs[0][n..]] + recvs[1..];
      HeaderIsParsed(st, fields, body);
      Chunked.ChunkedBodyIsDecoded(chunks, last, rest, body);
    }
  }

  /** The header section, which ends at `i`, holds a status line and fields that say how the body is framed. */
  ghost predicate IsReadable(recvs: seq<seq<byte>>, i: nat)
    requires recvs != [] && i + 4 <= |recvs[0]|
  {
    exists st, rest, fields ::
      && ParseStatus(recvs[0][..i + 2]) == Parsed(st, rest)
      && ParseFields(rest) == Some(fields)
      && FramingOf(LowerNames(fields)).Some?
      && (FramingOf(LowerNames(fields)).value.chunked ==>
            !Chunked.Receive(Chunked.START, [recvs[0][i + 4..]] + recvs[1..]).Invalid?)
  }

  /**
    A response fails if and only if its first part holds the end of a header
    section that is not one, or the chunks of its body are not well formed; it
    is empty if there is no such end in the first part.
   */
  lemma FailsExactly(recvs: seq<seq<byte>>)
    ensures Receive(recvs) == Failed <==> recvs != [] && FindEnd(recvs[0]).Some? && !IsReadable(recvs, FindEnd(recvs[0]).value)
    ensures recvs == [] || FindEnd(recvs[0]).None? ==> Receive(recvs) == Received(EMPTY)
  {
    hide ParseStatus, ParseFields, FramingOf, LowerNames, Chunked.Receive, ResponseBody.Collect, FindEnd;
  }

  /** A body that is not longer than announced is collected whole, wherever it is cut. */
  lemma PlainBodyIsCollected(framing: Framing, recvs: seq<seq<byte>>)
    requires !framing.chunked && (framing.length.Some? ==> |Concat(recvs)| <= framing.length.value)
    ensures ReceiveBody(framing, recvs) == ResponseBody.Body(Concat(recvs))
  {
    hide Concat, ResponseBody.Collect;
    ResponseBody.CollectIsPrefix([], recvs, framing.length);
    Nothing(Concat(recvs));
  }

  /**
    A response without a transfer coding gives its status, its fields and all
    bytes behind the header section, if they are no more than announced and
    if and only if the header section arrives whole in the first part; without
    a Content-Length there may be any number of them.
   */
  lemma PlainResponseIsReceived(st: Status, fields: seq<Field>, body: seq<byte>, recvs: seq<seq<byte>>)
    requires ValidHeader(st, fields)
    requires var framing := FramingOf(LowerNames(fields)).value;
             !framing.chunked && (framing.length.Some? ==> |body| <= framing.length.value)
    requires recvs != [] && Concat(recvs) == HeaderText(st, fields) + (CRLF + body)
    ensures Receive(recvs) == Received(Response(Some(st), LowerNames(fields), body))
            <==> |HeaderText(st, fields)| + 2 <= |recvs[0]|
  {
    hide AfterHeader, HeaderText, Concat, AllValid, Stripped, Receive, FramingOf, LowerNames, ReceiveBody;
    var n := |HeaderText(st, fields)| + 2;
    HeaderMustArriveWhole(st, fields, body, recvs);
    if n <= |recvs[0]| {
      var rest := [recvs[0][n..]] + recvs[1..];
      HeaderIsParsed(st, fields, rest);
      PlainBodyIsCollected(FramingOf(LowerNames(fields)).value, rest);
    }
  }
}
