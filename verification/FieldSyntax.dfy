/** Exactly which texts are read as header fields, and as what. */
module FieldSyntax {
  import opened Bytes
  import opened Headers

  /** Where a value ends: at no further character of it and at no fold. */
  predicate EndsValue(end: seq<byte>) {
    !IsFold(end) && (end == [] || !IsValue(end[0]))
  }

  predicate AllContinuations(lines: seq<Continuation>) {
    forall i :: 0 <= i < |lines| ==> ValidContinuation(lines[i])
  }

  lemma WhiteRun(s: seq<byte>) returns (white: seq<byte>, text: seq<byte>)
    requires All(Value, s)
    ensures s == white + text && All(White, white) && All(Value, text) && (text != [] ==> !IsWhite(text[0]))
  {
    var n := Run(White, s);
    white, text := s[..n], s[n..];
    RestIsValue(s, n);
    if text != [] {
      assert text[0] == s[n] && !Is(White, s[n]);
    }
    hide Run, All, IsWhite;
  }

  lemma RunStops(s: seq<byte>)
    ensures var n := Run(Value, s); n <= |s| && All(Value, s[..n]) && (s[n..] != [] ==> !IsValue(s[n..][0]))
  {
    var n := Run(Value, s);
    assert n < |s| ==> !Is(Value, s[n]);
  }

  lemma FoldParts(rest: seq<byte>)
    requires IsFold(rest)
    ensures |rest| >= 3 && IsWhite(rest[2]) && rest == CRLF + [rest[2]] + rest[3..]
  {
  }

  lemma Regroup(white: seq<byte>, text: seq<byte>, w: byte, more: seq<byte>, folded: seq<byte>, end: seq<byte>)
    ensures (white + text) + (CRLF + [w] + (more + folded + end)) == white + (text + CRLF + ([w] + more) + folded) + end
  {
  }

  /** A line and the fold behind it, the rest of which has the form of a value already. */
  lemma FoldHasForm(white: seq<byte>, text: seq<byte>, w: byte, more: seq<byte>, next: seq<byte>, later: seq<Continuation>, end: seq<byte>)
    requires IsWhite(w) && All(White, more) && All(Value, next) && (next != [] ==> !IsWhite(next[0])) && AllContinuations(later)
    ensures var lines := [Continuation([w] + more, next)] + later;
            && AllContinuations(lines)
            && (white + text) + (CRLF + [w] + (more + Folded(next, later) + end)) == white + Folded(text, lines) + end
            && (Kept(white, text) + Trim(text)) + [SPACE] + (Kept(more, next) + Unfolded(next, later))
               == Kept(white, text) + Unfolded(text, lines)
  {
    var c := Continuation([w] + more, next);
    var lines := [c] + later;
    assert lines[0] == c && lines[1..] == later;
    AllPrepend(White, w, more);
    assert c.white[1..] == more;
    assert Folded(text, lines) == text + CRLF + c.white + Folded(next, later);
    assert Unfolded(text, lines) == Trim(text) + (([SPACE] + Kept(more, next)) + Unfolded(next, later));
    hide Folded, Unfolded, Trim, Kept, IsWhite, All;
    Regroup(white, text, w, more, Folded(next, later), end);
    RegroupGap(Kept(white, text), Trim(text), Kept(more, next), Unfolded(next, later));
  }

  lemma NoFoldHasForm(white: seq<byte>, text: seq<byte>, end: seq<byte>)
    ensures (white + text) + end == white + Folded(text, []) + end && AllContinuations([])
    ensures Unfolded(text, []) == Trim(text)
  {
  }

  /** What is read as a value has the form of one, with `white` the white space that its first line starts with. */
  lemma {:induction false} ContentHasForm(s: seq<byte>)
    returns (white: seq<byte>, text: seq<byte>, lines: seq<Continuation>, end: seq<byte>)
    ensures s == white + Folded(text, lines) + end && EndsValue(end)
    ensures All(White, white) && All(Value, text) && (text != [] ==> !IsWhite(text[0])) && AllContinuations(lines)
    ensures ParseContent(s) == (Kept(white, text) + Unfolded(text, lines), end)
    decreases |s|
  {
    var n := Run(Value, s);
    var first, rest := s[..n], s[n..];
    assert s == first + rest;
    RunStops(s);
    white, text := WhiteRun(first);
    TrimLine(white, text);
    ContentStep(s);
    hide Trim, Run, All, IsWhite, IsValue, IsFold, Kept, Folded, Unfolded, ParseContent, AllContinuations;
    if IsFold(rest) {
      FoldParts(rest);
      var more, next, later;
      assert s[n + 3..] == rest[3..];
      more, next, later, end := ContentHasForm(rest[3..]);
      FoldHasForm(white, text, rest[2], more, next, later, end);
      lines := [Continuation([rest[2]] + more, next)] + later;
    } else {
      lines, end := [], rest;
      NoFoldHasForm(white, text, end);
    }
  }

  // ----- Fields

  /** A field as it is written. */
  datatype Written = Written(name: seq<byte>, white: seq<byte>, text: seq<byte>, lines: seq<Continuation>)

  predicate IsWritten(w: Written) {
    && w.name != [] && All(Token, w.name) && All(White, w.white)
    && All(Value, w.text) && (w.text != [] ==> !IsWhite(w.text[0])) && AllContinuations(w.lines)
  }

  function Text(w: Written): seq<byte> {
    w.name + [COLON] + (w.white + Folded(w.text, w.lines)) + CRLF
  }

  function Meaning(w: Written): Field {
    Field(w.name, Unfolded(w.text, w.lines))
  }

  /** What follows a field must not continue it. */
  predicate StartsNew(rest: seq<byte>) {
    rest == [] || !IsWhite(rest[0])
  }

  lemma FoldedStarts(w: Written, rest: seq<byte>)
    requires IsWritten(w)
    ensures var s := Folded(w.text, w.lines) + CRLF + rest; s != [] && !IsWhite(s[0])
  {
    CharacterFacts(0);
    hide All;
    if w.text == [] && w.lines != [] {
      assert Folded(w.text, w.lines)[0] == CR;
    }
  }

  lemma AfterWhite(white: seq<byte>, tail: seq<byte>)
    requires All(White, white) && tail != [] && !IsWhite(tail[0])
    ensures (white + tail)[Run(White, white + tail)..] == tail
  {
    RunOf(White, white, tail);
    CutConcat(white, tail);
  }

  lemma TextParts(w: Written, rest: seq<byte>)
    ensures Text(w) + rest == w.name + [COLON] + (w.white + (Folded(w.text, w.lines) + CRLF + rest))
  {
  }

  /** A written field is read as what it means. */
  lemma WrittenIsRead(w: Written, rest: seq<byte>)
    requires IsWritten(w) && StartsNew(rest)
    ensures ParseField(Text(w) + rest) == Parsed(Meaning(w), rest)
  {
    var tail := Folded(w.text, w.lines) + CRLF + rest;
    FoldedStarts(w, rest);
    FoldsAreRead(w.text, w.lines, rest);
    AfterWhite(w.white, tail);
    ParseAfterName(w.name, w.white + tail);
    TextParts(w, rest);
    CutConcat(CRLF, rest);
    hide ParseContent, ParseField, Folded, Unfolded, Text, Run, All, IsWhite;
  }

  lemma EndIsLine(end: seq<byte>)
    requires EndsValue(end) && |end| >= 2 && end[0] == CR && end[1] == LF
    ensures end == CRLF + end[2..] && StartsNew(end[2..])
  {
  }

  lemma SplitAt(s: seq<byte>, n: nat)
    requires n < |s|
    ensures s == s[..n] + [s[n]] + s[n + 1..]
  {
  }

  lemma FieldParts(s: seq<byte>) returns (n: nat, after: seq<byte>)
    requires ParseField(s).Parsed?
    ensures 0 < n <= |s| && All(Token, s[..n]) && s == s[..n] + [COLON] + after
    ensures var end := ParseContent(after[Run(White, after)..]).1;
            && |end| >= 2 && end[0] == CR && end[1] == LF
            && ParseField(s) == Parsed(Field(s[..n], ParseContent(after[Run(White, after)..]).0), end[2..])
  {
    n := Run(Token, s);
    hide ParseContent, Run, All, IsToken, IsWhite;
    after := s[n + 1..];
    SplitAt(s, n);
  }

  lemma SkippedWhite(after: seq<byte>)
    ensures var k := Run(White, after);
            && after == after[..k] + after[k..] && All(White, after[..k])
            && (after[k..] != [] ==> !IsWhite(after[k..][0]))
  {
    var k := Run(White, after);
    assert k < |after| ==> !Is(White, after[k]);
  }

  lemma WhiteIsFirst(white: seq<byte>, more: seq<byte>)
    requires All(White, white)
    ensures white != [] ==> IsWhite((white + more)[0])
  {
    if white != [] {
      assert Is(White, white[0]);
    }
  }

  lemma NoWhiteLeft(white: seq<byte>, text: seq<byte>, lines: seq<Continuation>, end: seq<byte>)
    requires All(White, white) && var s := white + Folded(text, lines) + end; s != [] ==> !IsWhite(s[0])
    ensures white == [] && Kept(white, text) + Unfolded(text, lines) == Unfolded(text, lines)
  {
    hide Folded, Unfolded, IsWhite;
    WhiteIsFirst(white, Folded(text, lines) + end);
    Associate(white, Folded(text, lines), end);
    Nothing(Unfolded(text, lines));
  }

  /** What is read as a field is written as one. */
  lemma ReadIsWritten(s: seq<byte>) returns (w: Written, rest: seq<byte>)
    requires ParseField(s).Parsed?
    ensures IsWritten(w) && StartsNew(rest) && s == Text(w) + rest && ParseField(s) == Parsed(Meaning(w), rest)
  {
    var n, after := FieldParts(s);
    var k := Run(White, after);
    SkippedWhite(after);
    var white, text, lines, end := ContentHasForm(after[k..]);
    NoWhiteLeft(white, text, lines, end);
    hide Run, All, IsWhite, ParseContent, ParseField, Folded, Unfolded, Kept, AllContinuations, EndsValue;
    EndIsLine(end);
    w, rest := Written(s[..n], after[..k], text, lines), end[2..];
    TextParts(w, rest);
    Nothing(Folded(text, lines));
    Associate(Folded(text, lines), CRLF, rest);
  }

  // ----- Header sections

  predicate AllWritten(ws: seq<Written>) {
    forall i :: 0 <= i < |ws| ==> IsWritten(ws[i])
  }

  function Texts(ws: seq<Written>): seq<byte> {
    if ws == [] then [] else Text(ws[0]) + Texts(ws[1..])
  }

  function Meanings(ws: seq<Written>): seq<Field> {
    if ws == [] then [] else [Meaning(ws[0])] + Meanings(ws[1..])
  }

  predicate IsSection(ws: seq<Written>, s: seq<byte>, fields: seq<Field>) {
    ws != [] && AllWritten(ws) && s == Texts(ws) && fields == Meanings(ws)
  }

  lemma TextsStartNew(ws: seq<Written>)
    requires AllWritten(ws)
    ensures StartsNew(Texts(ws)) && (ws != [] ==> Texts(ws) != [])
  {
    if ws != [] {
      assert Is(Token, ws[0].name[0]);
      CharacterFacts(ws[0].name[0]);
      assert Texts(ws)[0] == ws[0].name[0];
    }
  }

  lemma FieldsStep(s: seq<byte>)
    ensures ParseFields(s) == if ParseField(s).ResponseError? then None
                              else if ParseField(s).rest == [] then Some([ParseField(s).value])
                              else if ParseFields(ParseField(s).rest).None? then None
                              else Some([ParseField(s).value] + ParseFields(ParseField(s).rest).value)
  {
    hide ParseField;
  }

  lemma SectionStep(w: Written, more: seq<Written>)
    ensures Texts([w] + more) == Text(w) + Texts(more) && Meanings([w] + more) == [Meaning(w)] + Meanings(more)
    ensures Texts([]) == [] && Meanings([]) == []
    ensures AllWritten([w] + more) <==> IsWritten(w) && AllWritten(more)
  {
    hide Text, Meaning, IsWritten;
    var ws := [w] + more;
    assert ws[0] == w && ws[1..] == more;
    assert forall i :: 0 < i < |ws| ==> ws[i] == more[i - 1];
    assert forall i :: 0 <= i < |more| ==> more[i] == ws[i + 1];
  }

  lemma {:induction false} SectionIsRead(ws: seq<Written>)
    requires ws != [] && AllWritten(ws)
    ensures ParseFields(Texts(ws)) == Some(Meanings(ws))
  {
    hide *;
    var w, more := ws[0], ws[1..];
    assert ws == [w] + more;
    SectionStep(w, more);
    TextsStartNew(more);
    WrittenIsRead(w, Texts(more));
    FieldsStep(Texts(ws));
    if more == [] {
      Nothing([Meaning(w)]);
    } else {
      SectionIsRead(more);
    }
  }

  lemma {:induction false} ReadIsSection(s: seq<byte>) returns (ws: seq<Written>)
    requires ParseFields(s).Some?
    ensures ws != [] && AllWritten(ws) && s == Texts(ws) && ParseFields(s) == Some(Meanings(ws))
    decreases |s|
  {
    FieldsStep(s);
    hide ParseFields, ParseField, IsWritten, Text, Meaning, AllWritten, Texts, Meanings;
    var w, rest := ReadIsWritten(s);
    var more := [];
    if rest == [] {
      Nothing(Text(w));
      Nothing([Meaning(w)]);
      NoneWritten();
    } else {
      more := ReadIsSection(rest);
    }
    SectionStep(w, more);
    ws := [w] + more;
  }

  lemma NoneWritten()
    ensures AllWritten([])
  {
  }

  /**
    A text is read as these fields if and only if it is one or more written
    fields with these meanings, one after the other, and nothing else.
   */
  lemma FieldsAreExact(s: seq<byte>, fields: seq<Field>)
    ensures ParseFields(s) == Some(fields) <==> exists ws :: IsSection(ws, s, fields)
  {
    hide ParseFields;
    if ParseFields(s) == Some(fields) {
      var ws := ReadIsSection(s);
      assert IsSection(ws, s, fields);
    }
    forall ws | IsSection(ws, s, fields)
      ensures ParseFields(s) == Some(fields)
    {
      SectionIsRead(ws);
    }
  }
}
