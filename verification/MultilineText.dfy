/**
 `normalizeNullableMultilineDisplayText` of `shared/time/registrationProfile.ts`:
 biographies keep their paragraph breaks while each line is tidied.
 */
module MultilineText {
  import opened DisplayText
  import opened JsText
  import opened Outcomes

  /** Reads CR and CRLF as LF. */
  function Lf(s: string): string {
    if s == [] then []
    else if s[0] != '\r' then [s[0]] + Lf(s[1..])
    else ['\n'] + Lf(if |s| > 1 && s[1] == '\n' then s[2..] else s[1..])
  }

  /** Tab, and the spaces of general category Zs. */
  predicate IsLineSpace(c: char) {
    || c == '\t' || c == ' ' || c == '\U{00A0}' || c == '\U{1680}' || '\U{2000}' <= c <= '\U{200A}'
    || c == '\U{202F}' || c == '\U{205F}' || c == '\U{3000}'
  }

  /** That is, white space that does not break lines, save the byte order mark; in code points. */
  lemma LineSpaceIs(c: char)
    ensures IsLineSpace(c) <==>
              IsWhiteSpace(c) && (c as int) !in {0x0A, 0x0B, 0x0C, 0x0D, 0x2028, 0x2029, 0xFEFF}
    ensures IsLineSpace(c) <==>
              || (c as int) in {0x09, 0x20, 0xA0, 0x1680, 0x202F, 0x205F, 0x3000}
              || 0x2000 <= c as int <= 0x200A
  {
  }

  predicate IsSpace(c: char) { c == ' ' }

  predicate IsNewline(c: char) { c == '\n' }

  function TidyLine(line: string): string { TidyUp(line, IsLineSpace, IsSpace) }

  function TidyLines(lines: seq<string>): (r: seq<string>)
    ensures |r| == |lines|
    ensures forall i :: 0 <= i < |lines| ==> r[i] == TidyLine(lines[i])
  {
    if lines == [] then [] else [TidyLine(lines[0])] + TidyLines(lines[1..])
  }

  function Join(lines: seq<string>): string {
    if |lines| == 0 then []
    else if |lines| == 1 then lines[0]
    else lines[0] + "\n" + Join(lines[1..])
  }

  function Lines(s: string): seq<string> { Split(Lf(s), '\n') }

  function NormalizeNullableMultiline(nfc: string -> string, value: Option<string>): Option<string> {
    match value
    case None => None
    case Some(v) =>
      var normalized := TrimBoth(Join(TidyLines(Lines(nfc(v)))), IsNewline);
      if normalized == [] then None else Some(normalized)
  }

  // ----- Lines -----

  ghost predicate OneLine(s: string) { '\n' !in s && '\r' !in s }

  ghost predicate OneLines(lines: seq<string>) { forall i :: 0 <= i < |lines| ==> OneLine(lines[i]) }

  /** The part of a text before its first CR or LF. */
  lemma {:induction false} FirstLine(s: string) returns (n: nat)
    ensures n <= |s| && OneLine(s[..n])
    ensures n < |s| ==> s[n] == '\n' || s[n] == '\r'
  {
    if s == [] || s[0] == '\n' || s[0] == '\r' {
      n := 0;
    } else {
      var m := FirstLine(s[1..]);
      n := m + 1;
      assert s[..n] == [s[0]] + s[1..][..m];
    }
  }

  lemma {:induction false} LfKeepsLine(line: string, rest: string)
    requires OneLine(line)
    ensures Lf(line + rest) == line + Lf(rest)
  {
    if line == [] {
      assert line + rest == rest;
    } else {
      var s := line + rest;
      assert s[0] == line[0] && line[0] in line;
      assert s[1..] == line[1..] + rest;
      LfKeepsLine(line[1..], rest);
      assert line == [line[0]] + line[1..];
    }
  }

  /** The first line break of a text and what follows it. */
  lemma LinesStep(s: string, n: nat) returns (rest: string)
    requires n < |s| && OneLine(s[..n]) && (s[n] == '\n' || s[n] == '\r')
    ensures |rest| < |s| && rest == s[|s| - |rest|..]
    ensures s[n] == '\n' ==> rest == s[n + 1..]
    ensures Lines(s) == [s[..n]] + Lines(rest)
  {
    hide Split;
    var tail := s[n..];
    rest := if s[n] == '\r' && |tail| > 1 && tail[1] == '\n' then tail[2..] else tail[1..];
    assert Lf(tail) == ['\n'] + Lf(rest);
    assert s == s[..n] + tail;
    LfKeepsLine(s[..n], tail);
    assert s[..n] + (['\n'] + Lf(rest)) == s[..n] + ['\n'] + Lf(rest);
    SplitFirst(s[..n], '\n', Lf(rest));
  }

  lemma LastLine(s: string)
    requires OneLine(s)
    ensures Lines(s) == [s]
  {
    LfKeepsLine(s, []);
    assert s + [] == s;
    SplitOne(s, '\n');
  }

  /** The lines of a text hold no line break, and are pieces of it. */
  lemma {:induction false} LinesAreLines(nfc: string -> string, s: string)
    requires IsNfc(nfc) && Normal(nfc, s)
    ensures OneLines(Lines(s))
    ensures forall i :: 0 <= i < |Lines(s)| ==> Normal(nfc, Lines(s)[i])
    decreases |s|
  {
    hide Lines, IsNfc, Normal, OneLine;
    var n := FirstLine(s);
    if n == |s| {
      assert s[..n] == s;
      LastLine(s);
    } else {
      var rest := LinesStep(s, n);
      PieceIsNormal(nfc, s, 0, n);
      PieceIsNormal(nfc, s, |s| - |rest|, |s|);
      assert s[|s| - |rest|..|s|] == rest && s[0..n] == s[..n];
      LinesAreLines(nfc, rest);
    }
  }

  /**
   Lines, without their normal form: text without CR and LF is one line, and a line ends at
   LF, at CRLF, or at a CR that no LF follows.
   */
  lemma LinesEndAtBreaks(line: string, rest: string)
    requires OneLine(line)
    ensures Lines(line) == [line]
    ensures Lines(line + "\n" + rest) == [line] + Lines(rest)
    ensures Lines(line + "\r\n" + rest) == [line] + Lines(rest)
    ensures (rest == [] || rest[0] != '\n') ==> Lines(line + "\r" + rest) == [line] + Lines(rest)
  {
    hide Lines;
    LastLine(line);
    LineEndsAt(line, "\n", rest);
    LineEndsAt(line, "\r\n", rest);
    LineEndsAt(line, "\r", rest);
  }

  lemma LineEndsAt(line: string, end: string, rest: string)
    requires OneLine(line)
    ensures IsBreak(end, rest) ==> Lines(line + end + rest) == [line] + Lines(rest)
  {
    if IsBreak(end, rest) {
      assert line + end + rest == line + (end + rest);
      LfKeepsLine(line, end + rest);
      LfOfBreak(end, rest);
      assert line + (['\n'] + Lf(rest)) == line + ['\n'] + Lf(rest);
      SplitFirst(line, '\n', Lf(rest));
    }
  }

  /** One line break, and not half of one. */
  predicate IsBreak(end: string, rest: string) {
    end == "\n" || end == "\r\n" || (end == "\r" && (rest == [] || rest[0] != '\n'))
  }

  lemma LfOfBreak(end: string, rest: string)
    requires IsBreak(end, rest)
    ensures Lf(end + rest) == ['\n'] + Lf(rest)
  {
    var s := end + rest;
    if end == "\r\n" {
      assert s[2..] == rest;
    } else {
      assert s[1..] == rest;
      assert rest != [] ==> s[1] == rest[0];
    }
  }

  /** How much of a text is read as one character. */
  function StepLength(s: string): (k: nat)
    requires s != []
    ensures 1 <= k <= |s|
  {
    if |s| > 1 && s[0] == '\r' && s[1] == '\n' then 2 else 1
  }

  lemma LfStep(s: string)
    requires s != []
    ensures Lf(s) == [if s[0] == '\r' then '\n' else s[0]] + Lf(s[StepLength(s)..])
  {
  }

  /** A text read up to its end, if its last character is not half of a CRLF. */
  predicate EndsBefore(s: string, rest: string) {
    s == [] || s[|s| - 1] != '\r' || rest == [] || rest[0] != '\n'
  }

  lemma StepInFront(s: string, rest: string)
    requires s != [] && EndsBefore(s, rest)
    ensures (s + rest)[0] == s[0] && StepLength(s + rest) == StepLength(s)
    ensures (s + rest)[StepLength(s)..] == s[StepLength(s)..] + rest
    ensures EndsBefore(s[StepLength(s)..], rest)
  {
    assert |s| == 1 && rest != [] ==> (s + rest)[1] == rest[0];
  }

  /** Line breaks read the same wherever they stand, unless a CR before them swallows an LF. */
  lemma {:induction false} LfFromTheFront(s: string, rest: string)
    requires EndsBefore(s, rest)
    ensures Lf(s + rest) == Lf(s) + Lf(rest)
    decreases |s|
  {
    if s == [] {
      assert s + rest == rest;
      assert Lf(s) + Lf(rest) == Lf(rest);
    } else {
      LfStep(s);
      LfStep(s + rest);
      hide Lf, StepLength, EndsBefore;
      StepInFront(s, rest);
      LfFromTheFront(s[StepLength(s)..], rest);
    }
  }

  lemma LinesIgnoreTheBreak(before: string, one: string, other: string, after: string)
    requires IsBreak(one, after) && IsBreak(other, after) && (before == [] || before[|before| - 1] != '\r')
    ensures Lines(before + one + after) == Lines(before + other + after)
  {
    hide Split, Lf;
    LfOfBreak(one, after);
    LfOfBreak(other, after);
    assert before + one + after == before + (one + after);
    assert before + other + after == before + (other + after);
    LfFromTheFront(before, one + after);
    LfFromTheFront(before, other + after);
  }

  /** Which of the three breaks a text uses makes no difference to what comes out. */
  lemma BreaksAreInterchangeable(nfc: string -> string, before: string, one: string, other: string, after: string)
    requires IsBreak(one, after) && IsBreak(other, after) && (before == [] || before[|before| - 1] != '\r')
    requires Normal(nfc, before + one + after) && Normal(nfc, before + other + after)
    ensures NormalizeNullableMultiline(nfc, Some(before + one + after)) ==
            NormalizeNullableMultiline(nfc, Some(before + other + after))
  {
    hide Lines, TrimBoth, Join, TidyLines, IsBreak;
    LinesIgnoreTheBreak(before, one, other, after);
  }

  // ----- Joining and splitting -----

  lemma {:induction false} SplitOfJoin(lines: seq<string>)
    requires |lines| >= 1 && OneLines(lines)
    ensures Lines(Join(lines)) == lines
  {
    hide Lines, OneLine;
    if |lines| == 1 {
      LastLine(lines[0]);
    } else {
      SplitOfJoin(lines[1..]);
      var s, n := Join(lines), |lines[0]|;
      assert s == lines[0] + "\n" + Join(lines[1..]);
      assert s[..n] == lines[0] && s[n] == '\n';
      var rest := LinesStep(s, n);
      assert rest == Join(lines[1..]);
    }
  }

  function CountNewlines(s: string): nat {
    if s == [] then 0 else (if s[0] == '\n' then 1 else 0) + CountNewlines(s[1..])
  }

  lemma {:induction false} NewlinesAddUp(s: string, t: string)
    ensures CountNewlines(s + t) == CountNewlines(s) + CountNewlines(t)
  {
    if s == [] {
      assert s + t == t;
    } else {
      assert (s + t)[1..] == s[1..] + t;
      NewlinesAddUp(s[1..], t);
    }
  }

  lemma {:induction false} NoNewlines(s: string)
    requires '\n' !in s
    ensures CountNewlines(s) == 0
  {
    if s != [] {
      assert s[0] in s;
      NoNewlines(s[1..]);
    }
  }

  lemma {:induction false} NewlinesOfJoin(lines: seq<string>)
    requires |lines| >= 1 && OneLines(lines)
    ensures CountNewlines(Join(lines)) == |lines| - 1
  {
    NoNewlines(lines[0]);
    if |lines| > 1 {
      NewlinesOfJoin(lines[1..]);
      NewlinesAddUp(lines[0] + "\n", Join(lines[1..]));
      NewlinesAddUp(lines[0], "\n");
    }
  }

  lemma {:induction false} JoinLast(lines: seq<string>)
    requires |lines| >= 2
    ensures Join(lines) == Join(lines[..|lines| - 1]) + "\n" + lines[|lines| - 1]
  {
    var n := |lines| - 1;
    if n > 1 {
      JoinLast(lines[1..]);
      assert lines[1..][..n - 1] == lines[..n][1..];
    }
  }

  // ----- Trimming blank lines -----

  lemma {:induction false} TrimLeadingLines(lines: seq<string>, f: nat)
    requires f < |lines| && OneLines(lines) && lines[f] != []
    requires forall i :: 0 <= i < f ==> lines[i] == []
    ensures TrimStart(Join(lines), IsNewline) == Join(lines[f..])
  {
    var s := Join(lines);
    if f == 0 {
      assert s[0] == lines[0][0] && lines[0][0] in lines[0];
      assert lines[0..] == lines;
    } else {
      assert s == "\n" + Join(lines[1..]);
      assert s[1..] == Join(lines[1..]);
      TrimLeadingLines(lines[1..], f - 1);
      assert lines[1..][f - 1..] == lines[f..];
    }
  }

  lemma {:induction false} TrimTrailingLines(lines: seq<string>, l: nat)
    requires l < |lines| && OneLines(lines) && lines[l] != []
    requires forall i :: l < i < |lines| ==> lines[i] == []
    ensures TrimEnd(Join(lines), IsNewline) == Join(lines[..l + 1])
    decreases |lines|
  {
    var n := |lines| - 1;
    var s := Join(lines);
    if n >= 1 { JoinLast(lines); }
    if l == n {
      var last := lines[n];
      assert s[|s| - 1] == last[|last| - 1] && last[|last| - 1] in last;
      assert lines[..l + 1] == lines;
    } else {
      assert s[..|s| - 1] == Join(lines[..n]);
      TrimTrailingLines(lines[..n], l);
      assert lines[..n][..l + 1] == lines[..l + 1];
    }
  }

  lemma {:induction false} TrimAllLines(lines: seq<string>)
    requires forall i :: 0 <= i < |lines| ==> lines[i] == []
    ensures TrimStart(Join(lines), IsNewline) == []
  {
    if |lines| > 1 {
      TrimAllLines(lines[1..]);
      assert Join(lines)[1..] == Join(lines[1..]);
    }
  }

  lemma TrimBlankLines(lines: seq<string>, f: nat, l: nat)
    requires f <= l < |lines| && OneLines(lines) && lines[f] != [] && lines[l] != []
    requires forall i :: 0 <= i < |lines| && (i < f || l < i) ==> lines[i] == []
    ensures TrimBoth(Join(lines), IsNewline) == Join(lines[f..l + 1])
  {
    hide TrimStart, TrimEnd, Join;
    TrimLeadingLines(lines, f);
    TrimTrailingLines(lines[f..], l - f);
    assert lines[f..][..l - f + 1] == lines[f..l + 1];
  }

  // ----- What the normalisation keeps -----

  /** Line `f` is the first and line `l` the last that is not blank. */
  ghost predicate Span(lines: seq<string>, f: nat, l: nat) {
    && f <= l < |lines|
    && !Blank(lines[f], IsLineSpace) && !Blank(lines[l], IsLineSpace)
    && (forall i :: 0 <= i < |lines| && (i < f || l < i) ==> Blank(lines[i], IsLineSpace))
  }

  ghost predicate AllBlank(lines: seq<string>) { forall i :: 0 <= i < |lines| ==> Blank(lines[i], IsLineSpace) }

  lemma {:induction false} SpanExists(lines: seq<string>) returns (f: nat, l: nat)
    requires !AllBlank(lines)
    ensures Span(lines, f, l)
  {
    f := 0;
    while Blank(lines[f], IsLineSpace)
      invariant f < |lines|
      invariant forall i :: 0 <= i < f ==> Blank(lines[i], IsLineSpace)
      decreases |lines| - f
    {
      f := f + 1;
    }
    l := |lines| - 1;
    while Blank(lines[l], IsLineSpace)
      invariant f <= l < |lines|
      invariant forall i :: l < i < |lines| ==> Blank(lines[i], IsLineSpace)
      decreases l
    {
      l := l - 1;
    }
  }

  lemma TidyLineIs(line: string)
    ensures TidyLine(line) == [] <==> Blank(line, IsLineSpace)
    ensures OneLine(line) ==> OneLine(TidyLine(line))
    ensures TidyLine(TidyLine(line)) == TidyLine(line)
  {
    TidyUpTidies(line, IsLineSpace, IsSpace);
    TidyStays(TidyLine(line), IsLineSpace, IsSpace);
  }

  /**
   The output is exactly the lines from the first to the last that are not blank, each
   tidied, so it has one newline for each step between them; with no such line it is null.
   */
  lemma ParagraphBreaksSurvive(nfc: string -> string, v: string, f: nat, l: nat)
    requires IsNfc(nfc)
    ensures AllBlank(Lines(nfc(v))) ==> NormalizeNullableMultiline(nfc, Some(v)) == None
    ensures Span(Lines(nfc(v)), f, l) ==>
              var r := NormalizeNullableMultiline(nfc, Some(v));
              && r == Some(Join(TidyLines(Lines(nfc(v))[f..l + 1])))
              && CountNewlines(r.value) == l - f
  {
    hide Lines, TidyLine, TidyLines, Blank, OneLine, IsNfc, TrimBoth, Join, CountNewlines;
    var lines := Lines(nfc(v));
    assert Normal(nfc, nfc(v)) by { NfcIsNormal(nfc, v); }
    LinesAreLines(nfc, nfc(v));
    var tidied := TidyLines(lines);
    forall i | 0 <= i < |lines|
      ensures tidied[i] == [] <==> Blank(lines[i], IsLineSpace)
      ensures OneLine(tidied[i])
    {
      TidyLineIs(lines[i]);
    }
    if Span(lines, f, l) {
      var kept := tidied[f..l + 1];
      TrimBlankLines(tidied, f, l);
      TidyLinesOfSlice(lines, f, l + 1);
      NewlinesOfJoin(kept);
      JoinIsNotEmpty(kept);
    } else if AllBlank(lines) {
      TrimmedAway(tidied);
    }
  }

  /** Line by line: each kept line comes out as its words, spaced. */
  lemma KeptLinesAreTheirWords(nfc: string -> string, v: string, f: nat, l: nat, i: nat)
    requires IsNfc(nfc) && Span(Lines(nfc(v)), f, l) && i <= l - f
    ensures
      var r := NormalizeNullableMultiline(nfc, Some(v));
      && r.Some? && |Lines(r.value)| == l - f + 1
      && Lines(r.value)[i] == Spaced(Words(Lines(nfc(v))[f + i], IsLineSpace))
  {
    hide Lines, TidyLine, TidyLines, Blank, OneLine, IsNfc, Join, CountNewlines, Words, Spaced, NormalizeNullableMultiline;
    ParagraphBreaksSurvive(nfc, v, f, l);
    KeptLinesStay(nfc, v, f, l);
    var slice := Lines(nfc(v))[f..l + 1];
    assert slice[i] == Lines(nfc(v))[f + i];
    TidyLineIsItsWords(slice[i]);
    assert TidyLines(slice)[i] == TidyLine(slice[i]);
  }

  lemma TidyLineIsItsWords(line: string)
    ensures TidyLine(line) == Spaced(Words(line, IsLineSpace))
  {
    hide Words, Spaced, Collapse, TrimBoth;
    TidyUpSpacesWords(line, IsLineSpace, IsSpace);
  }

  lemma NfcIsNormal(nfc: string -> string, v: string)
    requires IsNfc(nfc)
    ensures Normal(nfc, nfc(v))
  {
  }

  lemma TrimmedAway(lines: seq<string>)
    requires forall i :: 0 <= i < |lines| ==> lines[i] == []
    ensures TrimBoth(Join(lines), IsNewline) == []
  {
    TrimAllLines(lines);
  }

  lemma TidyLinesOfSlice(lines: seq<string>, lo: nat, hi: nat)
    requires lo <= hi <= |lines|
    ensures TidyLines(lines)[lo..hi] == TidyLines(lines[lo..hi])
  {
    hide TidyLine, TidyLines;
    var a, b := TidyLines(lines)[lo..hi], TidyLines(lines[lo..hi]);
    forall i | 0 <= i < hi - lo
      ensures a[i] == b[i]
    {
      assert lines[lo..hi][i] == lines[lo + i];
    }
  }

  lemma JoinIsNotEmpty(lines: seq<string>)
    requires lines != [] && lines[0] != []
    ensures Join(lines) != []
  {
  }

  // ----- Idempotence -----

  lemma {:induction false} JoinKeepsNormal(nfc: string -> string, lines: seq<string>)
    requires IsNfc(nfc) && lines != [] && forall i :: 0 <= i < |lines| ==> Normal(nfc, lines[i])
    ensures Normal(nfc, Join(lines))
  {
    if |lines| > 1 {
      JoinKeepsNormal(nfc, lines[1..]);
      assert Normal(nfc, lines[0]);
    }
  }

  /** Normalising normalised text changes nothing. */
  lemma MultilineIsIdempotent(nfc: string -> string, value: Option<string>)
    requires IsNfc(nfc)
    ensures NormalizeNullableMultiline(nfc, NormalizeNullableMultiline(nfc, value)) == NormalizeNullableMultiline(nfc, value)
  {
    hide Lines, TidyLine, Blank, OneLine, IsNfc, TrimBoth, NormalizeNullableMultiline, Join;
    MissingStaysMissing(nfc);
    if value.Some? {
      var v := value.value;
      var lines := Lines(nfc(v));
      if AllBlank(lines) {
        ParagraphBreaksSurvive(nfc, v, 0, 0);
      } else {
        var f, l := SpanExists(lines);
        ParagraphBreaksSurvive(nfc, v, f, l);
        KeptLinesStay(nfc, v, f, l);
        var kept := TidyLines(lines[f..l + 1]);
        ParagraphBreaksSurvive(nfc, Join(kept), 0, |kept| - 1);
        assert kept[0..|kept|] == kept;
      }
    }
  }

  lemma MissingStaysMissing(nfc: string -> string)
    ensures NormalizeNullableMultiline(nfc, None) == None
  {
  }

  /** The lines of the output are its own tidied lines, none of them blank at the ends. */
  lemma KeptLinesStay(nfc: string -> string, v: string, f: nat, l: nat)
    requires IsNfc(nfc) && Span(Lines(nfc(v)), f, l)
    ensures
      var kept := TidyLines(Lines(nfc(v))[f..l + 1]);
      && nfc(Join(kept)) == Join(kept)
      && Lines(nfc(Join(kept))) == kept
      && Span(kept, 0, |kept| - 1)
      && TidyLines(kept) == kept
  {
    hide Lines, TidyLine, Blank, OneLine, IsNfc, Join;
    var lines := Lines(nfc(v));
    NfcIsNormal(nfc, v);
    LinesAreLines(nfc, nfc(v));
    var slice := lines[f..l + 1];
    var kept := TidyLines(slice);
    forall i | 0 <= i < |kept|
      ensures OneLine(kept[i]) && Normal(nfc, kept[i]) && TidyLine(kept[i]) == kept[i]
      ensures Blank(kept[i], IsLineSpace) <==> Blank(slice[i], IsLineSpace)
    {
      assert slice[i] == lines[f + i];
      TidyLineIs(slice[i]);
      TidyLineIs(kept[i]);
      TidyLineKeepsNormal(nfc, slice[i]);
    }
    JoinKeepsNormal(nfc, kept);
    SplitOfJoin(kept);
    assert Span(kept, 0, |kept| - 1);
  }

  lemma TidyLineKeepsNormal(nfc: string -> string, line: string)
    requires IsNfc(nfc) && Normal(nfc, line)
    ensures Normal(nfc, TidyLine(line))
  {
    TidyUpKeepsNormal(nfc, line, IsLineSpace, IsSpace);
  }
}
