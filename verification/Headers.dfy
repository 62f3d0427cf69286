/** Header fields, printed and parsed as in include/httprequest.hpp. Sections 3.2 and 3.2.4 of RFC 7230 define them. */
module Headers {
  import opened Bytes

  const SPACE := 32
  const TAB := 9
  const COLON := 58

  predicate IsDigit(c: int) {
    0x30 <= c <= 0x39
  }

  predicate IsAlpha(c: int) {
    0x61 <= c <= 0x7a || 0x41 <= c <= 0x5a
  }

  predicate IsWhite(c: int) {
    c == SPACE || c == TAB
  }

  predicate IsToken(c: int) {
    || c == 0x21 || 0x23 <= c <= 0x27 || c == 0x2a || c == 0x2b || c == 0x2d || c == 0x2e
    || c == 0x5e || c == 0x5f || c == 0x60 || c == 0x7c || c == 0x7e
    || IsDigit(c) || IsAlpha(c)
  }

  /** White space, a visible character or obsolete text. */
  predicate IsValue(c: int) {
    IsWhite(c) || 0x21 <= c <= 0x7e || 0x80 <= c <= 0xff
  }

  datatype Kind = Token | White | Value

  predicate Is(kind: Kind, c: int) {
    match kind
    case Token => IsToken(c)
    case White => IsWhite(c)
    case Value => IsValue(c)
  }

  predicate All(kind: Kind, s: seq<byte>) {
    forall i :: 0 <= i < |s| ==> Is(kind, s[i])
  }

  /** How many characters of the kind `s` starts with. */
  function Run(kind: Kind, s: seq<byte>): (n: nat)
    ensures n <= |s| && All(kind, s[..n]) && (n < |s| ==> !Is(kind, s[n]))
  {
    if s == [] || !Is(kind, s[0]) then 0
    else
      var n := Run(kind, s[1..]) + 1;
      assert s[..n] == [s[0]] + s[1..][..n - 1];
      n
  }

  /** Without the white space at the end. */
  function Trim(s: seq<byte>): (r: seq<byte>)
    ensures r <= s && (r != [] ==> !IsWhite(r[|r| - 1])) && All(White, s[|r|..])
  {
    if s == [] || !IsWhite(s[|s| - 1]) then s
    else
      var r := Trim(s[..|s| - 1]);
      assert s[|r|..] == s[..|s| - 1][|r|..] + [s[|s| - 1]];
      r
  }

  datatype Field = Field(name: seq<byte>, value: seq<byte>)

  datatype Parsed<+T> = Parsed(value: T, rest: seq<byte>) | ResponseError

  predicate IsFold(s: seq<byte>) {
    |s| >= 3 && s[0] == CR && s[1] == LF && IsWhite(s[2])
  }

  /** A value with the lines it is folded over; each fold becomes one space. */
  function ParseContent(s: seq<byte>): (r: (seq<byte>, seq<byte>))
    ensures |r.1| <= |s|
  {
    var n := Run(Value, s);
    if IsFold(s[n..]) then
      var (more, rest) := ParseContent(s[n + 3..]);
      (Trim(s[..n]) + [SPACE] + more, rest)
    else (Trim(s[..n]), s[n..])
  }

  function ParseField(s: seq<byte>): (r: Parsed<Field>)
    ensures r.Parsed? ==> |r.rest| < |s|
  {
    var n := Run(Token, s);
    if n == 0 || n == |s| || s[n] != COLON then ResponseError
    else
      var afterColon := s[n + 1..];
      var (value, end) := ParseContent(afterColon[Run(White, afterColon)..]);
      if |end| < 2 || end[0] != CR || end[1] != LF then ResponseError else Parsed(Field(s[..n], value), end[2..])
  }

  /** The fields of a header section, of which there must be one at least. */
  function ParseFields(s: seq<byte>): Option<seq<Field>>
    decreases |s|
  {
    match ParseField(s)
    case ResponseError => None
    case Parsed(f, rest) =>
      if rest == [] then Some([f])
      else
        match ParseFields(rest)
        case None => None
        case Some(fields) => Some([f] + fields)
  }

  predicate Valid(f: Field) {
    f.name != [] && All(Token, f.name) && All(Value, f.value)
  }

  predicate AllValid(fields: seq<Field>) {
    forall i :: 0 <= i < |fields| ==> Valid(fields[i])
  }

  function Line(f: Field): seq<byte> {
    f.name + [COLON, SPACE] + f.value + CRLF
  }

  function Lines(fields: seq<Field>): seq<byte> {
    if fields == [] then [] else Line(fields[0]) + Lines(fields[1..])
  }

  /** The text of a list of fields, or None for the exception. */
  function Encode(fields: seq<Field>): Option<seq<byte>> {
    if AllValid(fields) then Some(Lines(fields)) else None
  }

  // ----- The loops

  method RunEnd(kind: Kind, s: seq<byte>) returns (i: nat)
    ensures i == Run(kind, s)
  {
    i := 0;
    while i < |s| && Is(kind, s[i])
      invariant 0 <= i <= |s| && All(kind, s[..i])
    {
      assert s[..i + 1] == s[..i] + [s[i]];
      i := i + 1;
    }
    RunIsUnique(kind, s, i);
  }

  lemma {:induction false} RunIsUnique(kind: Kind, s: seq<byte>, n: nat)
    requires n <= |s| && All(kind, s[..n]) && (n < |s| ==> !Is(kind, s[n]))
    ensures Run(kind, s) == n
  {
    hide Is;
    if n == 0 {
    } else {
      assert Is(kind, s[..n][0]);
      assert s[1..][..n - 1] == s[..n][1..];
      RunIsUnique(kind, s[1..], n - 1);
    }
  }

  method TrimEnd(s: seq<byte>) returns (r: seq<byte>)
    ensures r == Trim(s)
  {
    var n := |s|;
    assert s[..n] == s;
    while n > 0 && IsWhite(s[n - 1])
      invariant 0 <= n <= |s| && Trim(s) == Trim(s[..n])
    {
      assert s[..n][..n - 1] == s[..n - 1];
      n := n - 1;
    }
    r := s[..n];
  }

  method ReadContent(s: seq<byte>) returns (result: seq<byte>, rest: seq<byte>)
    ensures ParseContent(s) == (result, rest)
  {
    hide Run, Trim, IsFold, ParseContent;
    result, rest := [], s;
    Nothing(ParseContent(s).0);
    while true
      invariant ParseContent(s) == (result + ParseContent(rest).0, ParseContent(rest).1)
      decreases |rest|
    {
      var n := RunEnd(Value, rest);
      var value := TrimEnd(rest[..n]);
      ContentStep(rest);
      if !IsFold(rest[n..]) {
        return result + value, rest[n..];
      }
      FoldIsThree(rest[n..]);
      Regroup(result, value, ParseContent(rest[n + 3..]).0);
      result := result + value + [SPACE];
      rest := rest[n + 3..];
    }
  }

  lemma ContentStep(s: seq<byte>)
    ensures var n := Run(Value, s);
            ParseContent(s)
            == if IsFold(s[n..]) then
                 (Trim(s[..n]) + [SPACE] + ParseContent(s[n + 3..]).0, ParseContent(s[n + 3..]).1)
               else (Trim(s[..n]), s[n..])
  {
    hide Run, Trim;
  }

  lemma Regroup(a: seq<byte>, b: seq<byte>, c: seq<byte>)
    ensures a + (b + [SPACE] + c) == (a + b + [SPACE]) + c
  {
  }

  lemma FoldIsThree(s: seq<byte>)
    ensures IsFold(s) ==> |s| >= 3
  {
  }

  method ReadField(s: seq<byte>) returns (r: Parsed<Field>)
    ensures r == ParseField(s)
  {
    hide Run, ParseContent;
    var n := RunEnd(Token, s);
    if n == 0 || n == |s| || s[n] != COLON {
      return ResponseError;
    }
    var afterColon := s[n + 1..];
    var skipped := RunEnd(White, afterColon);
    var value, end := ReadContent(afterColon[skipped..]);
    if |end| < 2 || end[0] != CR || end[1] != LF {
      return ResponseError;
    }
    return Parsed(Field(s[..n], value), end[2..]);
  }

  method ReadFields(s: seq<byte>) returns (r: Option<seq<Field>>)
    ensures r == ParseFields(s)
  {
    hide ParseField;
    var fields: seq<Field>, rest := [], s;
    assert forall more: seq<Field> :: [] + more == more;
    while true
      invariant ParseFields(s) == match ParseFields(rest)
                                  case None => None
                                  case Some(more) => Some(fields + more)
      decreases |rest|
    {
      var f := ReadField(rest);
      if f.ResponseError? {
        return None;
      }
      ghost var tail := ParseFields(f.rest);
      assert tail.Some? ==> fields + ([f.value] + tail.value) == (fields + [f.value]) + tail.value;
      fields := fields + [f.value];
      if f.rest == [] {
        return Some(fields);
      }
      rest := f.rest;
    }
  }

  method WriteFields(fields: seq<Field>) returns (r: Option<seq<byte>>)
    ensures r == Encode(fields)
  {
    hide Valid, Line;
    var result: seq<byte> := [];
    var k := 0;
    while k < |fields|
      invariant 0 <= k <= |fields| && AllValid(fields[..k])
      invariant result + Lines(fields[k..]) == Lines(fields)
    {
      var ok := CheckField(fields[k]);
      if !ok {
        return None;
      }
      assert fields[..k + 1] == fields[..k] + [fields[k]];
      assert fields[k..][1..] == fields[k + 1..];
      Associate(result, Line(fields[k]), Lines(fields[k + 1..]));
      result := result + Line(fields[k]);
      k := k + 1;
    }
    assert fields[..k] == fields && fields[k..] == [];
    Nothing(result);
    return Some(result);
  }

  method CheckField(f: Field) returns (ok: bool)
    ensures ok == Valid(f)
  {
    hide All;
    if f.name == [] {
      return false;
    }
    ok := OnlyOf(Token, f.name);
    if ok {
      ok := OnlyOf(Value, f.value);
    }
  }

  method OnlyOf(kind: Kind, s: seq<byte>) returns (ok: bool)
    ensures ok == All(kind, s)
  {
    var i := 0;
    while i < |s|
      invariant 0 <= i <= |s| && forall j :: 0 <= j < i ==> Is(kind, s[j])
    {
      if !Is(kind, s[i]) {
        return false;
      }
      i := i + 1;
    }
    return true;
  }

  // ----- Printing and parsing

  /** Without the white space at either end. */
  function Strip(s: seq<byte>): seq<byte> {
    Trim(s[Run(White, s)..])
  }

  function StripAll(fields: seq<Field>): seq<Field> {
    if fields == [] then [] else [Field(fields[0].name, Strip(fields[0].value))] + StripAll(fields[1..])
  }

  predicate Stripped(s: seq<byte>) {
    s == [] || (!IsWhite(s[0]) && !IsWhite(s[|s| - 1]))
  }

  lemma TrimKeeps(s: seq<byte>)
    ensures Trim(s) == s <==> s == [] || !IsWhite(s[|s| - 1])
  {
    hide IsWhite;
  }

  lemma StripKeeps(s: seq<byte>)
    ensures Strip(s) == s <==> Stripped(s)
  {
    var n := Run(White, s);
    TrimKeeps(s);
    hide Trim, IsWhite;
    if n == 0 {
      assert s[n..] == s;
    } else {
      assert |Trim(s[n..])| <= |s| - n;
    }
  }

  lemma RunOf(kind: Kind, s: seq<byte>, rest: seq<byte>)
    requires All(kind, s) && (rest == [] || !Is(kind, rest[0]))
    ensures Run(kind, s + rest) == |s|
  {
    assert (s + rest)[..|s|] == s;
    RunIsUnique(kind, s + rest, |s|);
  }

  /** A value is read up to its line end, unless what follows looks like a fold. */
  lemma ParseWrittenValue(value: seq<byte>, rest: seq<byte>)
    requires All(Value, value) && (rest == [] || !IsWhite(rest[0]))
    ensures ParseContent(value + CRLF + rest) == (Trim(value), CRLF + rest)
  {
    hide Trim, Run;
    var s := value + (CRLF + rest);
    assert s == value + CRLF + rest;
    RunOf(Value, value, CRLF + rest);
    assert s[|value|..] == CRLF + rest && s[..|value|] == value;
    assert rest != [] ==> (CRLF + rest)[2] == rest[0];
  }

  lemma AllPrepend(kind: Kind, c: byte, s: seq<byte>)
    requires Is(kind, c) && All(kind, s)
    ensures All(kind, [c] + s)
  {
    hide Is;
  }

  lemma RegroupValue(value: seq<byte>, n: nat, rest: seq<byte>)
    requires n <= |value|
    ensures [SPACE] + value + rest == ([SPACE] + value[..n]) + (value[n..] + rest)
  {
    assert value == value[..n] + value[n..];
  }

  /** The space after the colon and the white space that starts the value are skipped together. */
  lemma SkipWrittenSpace(value: seq<byte>, rest: seq<byte>)
    requires rest != [] && !IsWhite(rest[0])
    ensures var s := [SPACE] + value + rest; s[Run(White, s)..] == value[Run(White, value)..] + rest
  {
    var n := Run(White, value);
    var white, tail := [SPACE] + value[..n], value[n..] + rest;
    assert Is(White, SPACE);
    AllPrepend(White, SPACE, value[..n]);
    hide Run, IsWhite, All;
    RegroupValue(value, n, rest);
    assert tail[0] == if n < |value| then value[n] else rest[0];
    RunOf(White, white, tail);
    CutConcat(white, tail);
  }

  lemma CharacterFacts(c: int)
    ensures !IsToken(COLON) && !IsWhite(CR) && !IsValue(CR)
    ensures IsToken(c) ==> !IsWhite(c)
  {
  }

  lemma RestIsValue(s: seq<byte>, n: nat)
    requires All(Value, s) && n <= |s|
    ensures All(Value, s[n..])
  {
    hide Is;
  }

  lemma ParseAfterName(name: seq<byte>, after: seq<byte>)
    requires name != [] && All(Token, name)
    ensures var (value, end) := ParseContent(after[Run(White, after)..]);
            ParseField(name + [COLON] + after)
            == if |end| < 2 || end[0] != CR || end[1] != LF then ResponseError else Parsed(Field(name, value), end[2..])
  {
    CharacterFacts(0);
    hide Run, ParseContent, IsToken, All;
    assert name + [COLON] + after == name + ([COLON] + after);
    RunOf(Token, name, [COLON] + after);
    CutConcat(name, [COLON] + after);
    CutConcat(name + [COLON], after);
  }

  lemma LineParts(f: Field, rest: seq<byte>)
    ensures Line(f) + rest == f.name + [COLON] + ([SPACE] + f.value + (CRLF + rest))
  {
    assert [COLON, SPACE] == [COLON] + [SPACE];
  }

  lemma ParseWrittenField(f: Field, rest: seq<byte>)
    requires Valid(f) && (rest == [] || IsToken(rest[0]))
    ensures ParseField(Line(f) + rest) == Parsed(Field(f.name, Strip(f.value)), rest)
  {
    CharacterFacts(if rest == [] then 0 else rest[0]);
    hide Run, ParseContent, ParseField, IsToken, IsWhite, IsValue, All, Line, Trim;
    var end := CRLF + rest;
    var after := [SPACE] + f.value + end;
    LineParts(f, rest);
    ParseAfterName(f.name, after);
    SkipWrittenSpace(f.value, end);
    var value := f.value[Run(White, f.value)..];
    RestIsValue(f.value, Run(White, f.value));
    Associate(value, CRLF, rest);
    ParseWrittenValue(value, rest);
    CutConcat(CRLF, rest);
  }

  lemma LinesStart(fields: seq<Field>)
    requires fields != [] && AllValid(fields)
    ensures Lines(fields) != [] && IsToken(Lines(fields)[0])
  {
    assert Is(Token, fields[0].name[0]);
  }

  /** Parsing what was printed gives the names, and the values without the white space around them. */
  lemma {:induction false} ParsePrinted(fields: seq<Field>)
    requires fields != [] && AllValid(fields)
    ensures ParseFields(Lines(fields)) == Some(StripAll(fields))
  {
    hide ParseField, Line, Strip, IsToken;
    var rest := Lines(fields[1..]);
    if |fields| > 1 {
      LinesStart(fields[1..]);
      ParsePrinted(fields[1..]);
    } else {
      assert fields[1..] == [];
    }
    ParseWrittenField(fields[0], rest);
    var f := Field(fields[0].name, Strip(fields[0].value));
    assert [f] + [] == [f];
  }

  lemma {:induction false} StripAllKeeps(fields: seq<Field>)
    ensures StripAll(fields) == fields <==> forall i :: 0 <= i < |fields| ==> Stripped(fields[i].value)
  {
    hide Strip, Stripped;
    if fields == [] {
    } else {
      StripAllKeeps(fields[1..]);
      StripKeeps(fields[0].value);
      assert fields == [fields[0]] + fields[1..];
      if StripAll(fields) == fields {
        assert StripAll(fields[1..]) == fields[1..];
        forall i | 0 <= i < |fields|
          ensures Stripped(fields[i].value)
        {
          if i > 0 {
            assert fields[i] == fields[1..][i - 1];
          } else {
            assert fields[0] == StripAll(fields)[0];
          }
        }
      }
    }
  }

  /** A list of fields is parsed back as it was printed exactly if no value starts or ends with white space. */
  lemma HeaderRoundTrip(fields: seq<Field>)
    requires fields != [] && Encode(fields).Some?
    ensures ParseFields(Encode(fields).value) == Some(fields)
            <==> forall i :: 0 <= i < |fields| ==> Stripped(fields[i].value)
  {
    hide ParseFields, Lines, Stripped, StripAll;
    ParsePrinted(fields);
    StripAllKeeps(fields);
  }

  // ----- Folded values

  /** A further line of a value: the white space it starts with, all of it, and its text. */
  datatype Continuation = Continuation(white: seq<byte>, text: seq<byte>)

  predicate ValidContinuation(c: Continuation) {
    c.white != [] && All(White, c.white) && All(Value, c.text) && (c.text != [] ==> !IsWhite(c.text[0]))
  }

  /** A value over several lines, as section 3.2.4 of RFC 7230 describes it. */
  function Folded(first: seq<byte>, lines: seq<Continuation>): seq<byte>
    decreases |lines|
  {
    if lines == [] then first else first + CRLF + lines[0].white + Folded(lines[0].text, lines[1..])
  }

  /** White space before text stays; before nothing it is trimmed. */
  function Kept(white: seq<byte>, text: seq<byte>): seq<byte> {
    if text == [] then [] else white
  }

  /** What a fold is read as: the first white-space character becomes a space, the others stay if text follows. */
  function Gap(c: Continuation): seq<byte> {
    [SPACE] + if c.white == [] then [] else Kept(c.white[1..], c.text)
  }

  function Unfolded(first: seq<byte>, lines: seq<Continuation>): seq<byte>
    decreases |lines|
  {
    if lines == [] then Trim(first) else Trim(first) + (Gap(lines[0]) + Unfolded(lines[0].text, lines[1..]))
  }

  /** The value in which each fold is one space. */
  function Joined(first: seq<byte>, lines: seq<Continuation>): seq<byte>
    decreases |lines|
  {
    if lines == [] then Trim(first) else Trim(first) + ([SPACE] + Joined(lines[0].text, lines[1..]))
  }

  lemma ParseFold(first: seq<byte>, white: byte, tail: seq<byte>)
    requires All(Value, first) && IsWhite(white)
    ensures ParseContent(first + CRLF + [white] + tail)
            == (Trim(first) + [SPACE] + ParseContent(tail).0, ParseContent(tail).1)
  {
    CharacterFacts(0);
    hide Trim, Run, IsWhite, IsValue, All;
    var fold := CRLF + [white];
    var s := first + (fold + tail);
    assert s == first + CRLF + [white] + tail == (first + fold) + tail;
    RunOf(Value, first, fold + tail);
    CutConcat(first, fold + tail);
    CutConcat(first + fold, tail);
    assert IsFold(fold + tail);
  }

  lemma {:induction false} TrimWhite(white: seq<byte>)
    requires All(White, white)
    ensures Trim(white) == []
  {
    if white == [] {
    } else {
      var n := |white| - 1;
      assert Is(White, white[n]);
      AllInPart(White, white, n);
      hide All, IsWhite;
      TrimWhite(white[..n]);
    }
  }

  lemma AllInPart(kind: Kind, s: seq<byte>, n: nat)
    requires All(kind, s) && n <= |s|
    ensures All(kind, s[..n])
  {
    hide Is;
  }

  lemma {:induction false} TrimAfterWhite(white: seq<byte>, text: seq<byte>)
    requires text != [] && !IsWhite(text[0])
    ensures Trim(white + text) == white + Trim(text)
    decreases |text|
  {
    hide *;
    var s, n := white + text, |text| - 1;
    assert s[|s| - 1] == text[n] && s[..|s| - 1] == white + text[..n];
    TrimLast(s);
    TrimLast(text);
    if IsWhite(text[n]) {
      TrimAfterWhite(white, text[..n]);
    }
  }

  lemma TrimLast(s: seq<byte>)
    requires s != []
    ensures Trim(s) == if IsWhite(s[|s| - 1]) then Trim(s[..|s| - 1]) else s
  {
  }

  lemma TrimLine(white: seq<byte>, text: seq<byte>)
    requires All(White, white) && (text != [] && white != [] ==> !IsWhite(text[0]))
    ensures Trim(white + text) == Kept(white, text) + Trim(text)
  {
    if text == [] {
      TrimWhite(white);
      Nothing(white);
    } else if white == [] {
      Nothing(text);
      Nothing(Trim(text));
    } else {
      TrimAfterWhite(white, text);
    }
  }

  lemma ValuesAreValues(white: seq<byte>, text: seq<byte>)
    requires All(White, white) && All(Value, text)
    ensures All(Value, white + text)
  {
    forall i | 0 <= i < |white + text|
      ensures Is(Value, (white + text)[i])
    {
      if i < |white| {
        assert Is(White, white[i]);
      } else {
        assert Is(Value, text[i - |white|]);
      }
    }
  }

  lemma FirstIsWhite(white: seq<byte>)
    requires white != [] && All(White, white)
    ensures IsWhite(white[0]) && All(White, white[1..])
  {
    assert Is(White, white[0]);
  }

  /** How a line and what follows it are read, `white` being what an earlier fold has left of its white space. */
  lemma {:induction false} FoldsAreReadFrom(white: seq<byte>, text: seq<byte>, lines: seq<Continuation>, rest: seq<byte>)
    requires All(White, white) && All(Value, text) && (text != [] && white != [] ==> !IsWhite(text[0]))
    requires forall i :: 0 <= i < |lines| ==> ValidContinuation(lines[i])
    requires rest == [] || !IsWhite(rest[0])
    ensures ParseContent(white + Folded(text, lines) + CRLF + rest)
            == (Kept(white, text) + Unfolded(text, lines), CRLF + rest)
    decreases |lines|
  {
    ValuesAreValues(white, text);
    TrimLine(white, text);
    if lines == [] {
      hide Trim, All, IsWhite, ParseContent, Kept;
      ParseWrittenValue(white + text, rest);
    } else {
      var c, later := lines[0], lines[1..];
      FirstIsWhite(c.white);
      FoldsAreReadFrom(c.white[1..], c.text, later, rest);
      hide Trim, All, IsWhite, ParseContent, Kept;
      var tail := c.white[1..] + Folded(c.text, later) + CRLF + rest;
      ParseFold(white + text, c.white[0], tail);
      RegroupFold(white, text, c, Folded(c.text, later), rest);
      RegroupGap(Kept(white, text), Trim(text), Kept(c.white[1..], c.text), Unfolded(c.text, later));
      hide Folded, Unfolded;
    }
  }

  lemma RegroupFold(white: seq<byte>, text: seq<byte>, c: Continuation, more: seq<byte>, rest: seq<byte>)
    requires c.white != []
    ensures white + (text + CRLF + c.white + more) + CRLF + rest
            == (white + text) + CRLF + [c.white[0]] + (c.white[1..] + more + CRLF + rest)
  {
    assert c.white == [c.white[0]] + c.white[1..];
  }

  lemma RegroupGap(kept: seq<byte>, text: seq<byte>, gap: seq<byte>, more: seq<byte>)
    ensures (kept + text) + [SPACE] + (gap + more) == kept + (text + (([SPACE] + gap) + more))
  {
  }

  /** A folded value is read line by line, the white space before each fold dropped and the fold itself as its gap. */
  lemma FoldsAreRead(first: seq<byte>, lines: seq<Continuation>, rest: seq<byte>)
    requires All(Value, first) && forall i :: 0 <= i < |lines| ==> ValidContinuation(lines[i])
    requires rest == [] || !IsWhite(rest[0])
    ensures ParseContent(Folded(first, lines) + CRLF + rest) == (Unfolded(first, lines), CRLF + rest)
  {
    hide ParseContent, Unfolded, Folded, Trim;
    FoldsAreReadFrom([], first, lines, rest);
    Nothing(Folded(first, lines));
    Nothing(Unfolded(first, lines));
  }

  /** A fold is read as one space. */
  predicate OneSpace(c: Continuation) {
    |c.white| == 1 || c.text == []
  }

  /**
    The value is the one in which each fold is a single space if and only if
    every fold has a single white-space character, lines without text aside.
   */
  lemma {:induction false} FoldsAreSingleSpaces(first: seq<byte>, lines: seq<Continuation>)
    requires forall i :: 0 <= i < |lines| ==> lines[i].white != []
    ensures |Joined(first, lines)| <= |Unfolded(first, lines)|
    ensures Unfolded(first, lines) == Joined(first, lines) <==> forall i :: 0 <= i < |lines| ==> OneSpace(lines[i])
    decreases |lines|
  {
    hide Trim;
    if lines == [] {
      assert Unfolded(first, lines) == Joined(first, lines);
    } else {
      var c, later := lines[0], lines[1..];
      FoldsAreSingleSpaces(c.text, later);
      assert forall i :: 0 < i < |lines| ==> lines[i] == later[i - 1];
      var a, b := Unfolded(c.text, later), Joined(c.text, later);
      CutConcat(Trim(first), Gap(c) + a);
      CutConcat(Trim(first), [SPACE] + b);
      if OneSpace(c) {
        assert Gap(c) == [SPACE];
        CutConcat([SPACE], a);
        CutConcat([SPACE], b);
      } else {
        assert |Gap(c)| > 1;
      }
      hide Gap, Unfolded, Joined;
    }
  }

  /**
    A fold is replaced by nothing but spaces, as section 3.2.4 of RFC 7230
    demands, if and only if no tab follows its first white-space character,
    or no text does.
   */
  lemma GapIsSpaces(c: Continuation)
    requires ValidContinuation(c)
    ensures (forall k :: 0 <= k < |Gap(c)| ==> Gap(c)[k] == SPACE)
            <==> c.text == [] || forall k :: 1 <= k < |c.white| ==> c.white[k] != TAB
  {
    var gap := Gap(c);
    forall k | 1 <= k < |c.white|
      ensures c.text != [] ==> gap[k] == c.white[k] && (c.white[k] == SPACE || c.white[k] == TAB)
    {
      assert Is(White, c.white[k]);
    }
  }

  lemma OneFold(first: seq<byte>, c: Continuation)
    ensures Folded(first, [c]) == first + CRLF + c.white + c.text
    ensures Unfolded(first, [c]) == Trim(first) + (Gap(c) + Trim(c.text))
  {
    hide Trim, Gap;
    assert [c][1..] == [];
  }

  /** A tab of a fold can stay in the value. */
  lemma TabOfFoldStays(a: byte, b: byte)
    requires IsToken(a) && IsToken(b)
    ensures ParseContent([a] + CRLF + [SPACE, TAB] + [b] + CRLF) == ([a, SPACE, TAB, b], CRLF)
  {
    var line := Continuation([SPACE, TAB], [b]);
    TokensAreValues(a);
    TokensAreValues(b);
    SpaceAndTabAreWhite();
    GapWithTab(a, b);
    OneFold([a], line);
    hide *;
    FoldsAreRead([a], [line], []);
    Nothing(CRLF);
    Nothing(Folded([a], [line]) + CRLF);
  }

  lemma GapWithTab(a: byte, b: byte)
    ensures [a] + (Gap(Continuation([SPACE, TAB], [b])) + [b]) == [a, SPACE, TAB, b]
  {
    assert [SPACE, TAB][1..] == [TAB];
  }

  lemma SpaceAndTabAreWhite()
    ensures All(White, [SPACE, TAB])
  {
  }

  lemma TokensAreValues(c: byte)
    requires IsToken(c)
    ensures All(Value, [c]) && !IsWhite(c) && Trim([c]) == [c]
  {
  }
}
