/**
 Display text normalisation of `shared/time/registrationProfile.ts`: one line with
 single spaces, and several lines with their paragraph breaks kept.
 */
module DisplayText {
  import opened JsText

  // ----- Unicode normalisation -----

  /**
   What is used of normalisation to form NFC (Unicode Standard Annex 15), which is itself
   not modelled: it is idempotent; pieces of normalised text are normalised; a space or a
   newline between normalised texts joins them to normalised text, as neither composes with
   a neighbour; and no control character comes in.
   */
  ghost predicate IsNfc(nfc: string -> string) {
    && (forall s :: nfc(nfc(s)) == nfc(s))
    && (forall s, t :: nfc(s + t) == s + t ==> nfc(s) == s && nfc(t) == t)
    && (forall s, t :: nfc(s) == s && nfc(t) == t ==> nfc(s + " " + t) == s + " " + t)
    && (forall s, t :: nfc(s) == s && nfc(t) == t ==> nfc(s + "\n" + t) == s + "\n" + t)
    && (forall s :: HasNoControl(s) ==> HasNoControl(nfc(s)))
  }

  ghost predicate Normal(nfc: string -> string, s: string) { nfc(s) == s }

  /** General category Cc. */
  predicate IsControl(c: char) { c <= '\U{001F}' || '\U{007F}' <= c <= '\U{009F}' }

  predicate HasNoControl(s: string) { forall i :: 0 <= i < |s| ==> !IsControl(s[i]) }

  lemma {:induction false} PieceIsNormal(nfc: string -> string, s: string, lo: nat, hi: nat)
    requires IsNfc(nfc) && Normal(nfc, s) && lo <= hi <= |s|
    ensures Normal(nfc, s[lo..hi])
  {
    assert s == s[..hi] + s[hi..];
    assert Normal(nfc, s[..hi]);
    assert s[..hi] == s[..lo] + s[lo..hi];
  }

  // ----- Runs of white space -----

  /** The length of the first word: characters up to the first white space. */
  function WordLength(s: string, ws: char -> bool): (n: nat)
    ensures n <= |s|
    ensures n < |s| ==> ws(s[n])
    ensures forall i :: 0 <= i < n ==> !ws(s[i])
  {
    if s == [] || ws(s[0]) then 0 else 1 + WordLength(s[1..], ws)
  }

  lemma {:induction false} TrimStartDrops(s: string, drop: char -> bool) returns (k: nat)
    ensures k <= |s| && TrimStart(s, drop) == s[k..]
    ensures forall i :: 0 <= i < k ==> drop(s[i])
    ensures k < |s| ==> !drop(s[k])
  {
    if s != [] && drop(s[0]) {
      var j := TrimStartDrops(s[1..], drop);
      k := j + 1;
      assert s[1..][j..] == s[k..];
      forall i | 0 <= i < k
        ensures drop(s[i])
      {
        if i > 0 { assert s[i] == s[1..][i - 1]; }
      }
    } else {
      k := 0;
    }
  }

  lemma {:induction false} TrimEndDrops(s: string, drop: char -> bool) returns (k: nat)
    ensures k <= |s| && TrimEnd(s, drop) == s[..k]
    ensures forall i :: k <= i < |s| ==> drop(s[i])
    ensures k > 0 ==> !drop(s[k - 1])
  {
    if s != [] && drop(s[|s| - 1]) {
      k := TrimEndDrops(s[..|s| - 1], drop);
      assert s[..|s| - 1][..k] == s[..k];
      assert forall i :: 0 <= i < |s| - 1 ==> s[i] == s[..|s| - 1][i];
    } else {
      k := |s|;
    }
  }

  lemma TrimStartShrinks(s: string, drop: char -> bool)
    ensures |TrimStart(s, drop)| <= |s|
    ensures s != [] && drop(s[0]) ==> |TrimStart(s, drop)| < |s|
  {
    var k := TrimStartDrops(s, drop);
  }

  /** Replaces each run of white space by one space. */
  function Collapse(s: string, ws: char -> bool): string
    decreases |s|
  {
    var n := WordLength(s, ws);
    if n == |s| then s
    else
      TrimStartShrinks(s[n..], ws);
      s[..n] + " " + Collapse(TrimStart(s[n..], ws), ws)
  }

  /** No white space but single spaces between words. */
  ghost predicate Collapsed(s: string, ws: char -> bool) {
    && (forall i :: 0 <= i < |s| && ws(s[i]) ==> s[i] == ' ')
    && (forall i :: 0 <= i < |s| - 1 && ws(s[i]) ==> !ws(s[i + 1]))
  }

  lemma WordThenCollapsed(word: string, c: string, ws: char -> bool)
    requires ws(' ') && (forall i :: 0 <= i < |word| ==> !ws(word[i]))
    requires Collapsed(c, ws) && (c != [] ==> !ws(c[0]))
    ensures Collapsed(word + " " + c, ws)
  {
    var r := word + " " + c;
    assert forall i :: 0 <= i < |word| ==> r[i] == word[i];
    assert forall i :: |word| < i < |r| ==> r[i] == c[i - |word| - 1];
  }

  lemma {:induction false} CollapseCollapses(s: string, ws: char -> bool)
    requires ws(' ')
    ensures Collapsed(Collapse(s, ws), ws)
    ensures s != [] && !ws(s[0]) ==> Collapse(s, ws) != [] && !ws(Collapse(s, ws)[0])
    ensures s == [] ==> Collapse(s, ws) == []
    decreases |s|
  {
    hide Collapsed;
    var n := WordLength(s, ws);
    if n < |s| {
      var rest := TrimStart(s[n..], ws);
      TrimStartShrinks(s[n..], ws);
      var k := TrimStartDrops(s[n..], ws);
      CollapseCollapses(rest, ws);
      WordThenCollapsed(s[..n], Collapse(rest, ws), ws);
    } else {
      WordIsCollapsed(s, ws);
    }
  }

  lemma WordIsCollapsed(s: string, ws: char -> bool)
    requires forall i :: 0 <= i < |s| ==> !ws(s[i])
    ensures Collapsed(s, ws)
  {
  }

  lemma PieceOfCollapsed(c: string, ws: char -> bool, lo: nat, hi: nat)
    requires Collapsed(c, ws) && lo <= hi <= |c|
    ensures Collapsed(c[lo..hi], ws)
  {
    assert forall i :: 0 <= i < hi - lo ==> c[lo..hi][i] == c[lo + i];
  }

  /** In collapsed text a run of white space is one space. */
  lemma OneSpace(s: string, n: nat, ws: char -> bool)
    requires Collapsed(s, ws) && n < |s| && ws(s[n])
    ensures TrimStart(s[n..], ws) == s[n + 1..] && s[n] == ' '
  {
    assert s[n..][1..] == s[n + 1..];
    assert n + 1 < |s| ==> !ws(s[n + 1]);
    assert TrimStart(s[n + 1..], ws) == s[n + 1..];
  }

  lemma {:induction false} CollapsedStays(s: string, ws: char -> bool)
    requires Collapsed(s, ws)
    ensures Collapse(s, ws) == s
    decreases |s|
  {
    hide Collapsed, TrimStart;
    var n := WordLength(s, ws);
    if n < |s| {
      OneSpace(s, n, ws);
      PieceOfCollapsed(s, ws, n + 1, |s|);
      assert s[n + 1..|s|] == s[n + 1..];
      CollapsedStays(s[n + 1..], ws);
      assert s == s[..n] + " " + s[n + 1..];
    }
  }

  lemma {:induction false} CollapseKeepsNormal(nfc: string -> string, s: string, ws: char -> bool)
    requires IsNfc(nfc) && Normal(nfc, s)
    ensures Normal(nfc, Collapse(s, ws))
    decreases |s|
  {
    var n := WordLength(s, ws);
    if n < |s| {
      var k := TrimStartDrops(s[n..], ws);
      TrimStartShrinks(s[n..], ws);
      PieceIsNormal(nfc, s, 0, n);
      PieceIsNormal(nfc, s, n + k, |s|);
      assert s[n..][k..] == s[n + k..|s|];
      CollapseKeepsNormal(nfc, s[n + k..|s|], ws);
    }
  }

  /** Collapsing brings in no character but the space. */
  lemma {:induction false} CollapseKeepsCharacters(s: string, ws: char -> bool)
    ensures forall c :: c in Collapse(s, ws) ==> c == ' ' || (c in s && !ws(c))
    decreases |s|
  {
    var n := WordLength(s, ws);
    if n < |s| {
      var k := TrimStartDrops(s[n..], ws);
      TrimStartShrinks(s[n..], ws);
      var rest := TrimStart(s[n..], ws);
      CollapseKeepsCharacters(rest, ws);
      forall c | c in rest
        ensures c in s
      {
        var i :| 0 <= i < |rest| && rest[i] == c;
        assert s[n + k + i] == c;
      }
    }
  }

  /** Only a text of white space alone collapses and trims to nothing. */
  predicate Blank(s: string, ws: char -> bool) { forall i :: 0 <= i < |s| ==> ws(s[i]) }

  lemma BlankParts(a: string, b: string, ws: char -> bool)
    ensures Blank(a + b, ws) <==> Blank(a, ws) && Blank(b, ws)
  {
    assert forall i :: 0 <= i < |a| ==> (a + b)[i] == a[i];
    assert forall i :: 0 <= i < |b| ==> (a + b)[|a| + i] == b[i];
  }

  /** Text with white space is a word, a run of white space, and a rest to collapse. */
  lemma CollapseStep(s: string, ws: char -> bool) returns (word: string, run: string, rest: string)
    requires WordLength(s, ws) < |s|
    ensures s == word + run + rest && Blank(run, ws) && run != []
    ensures Collapse(s, ws) == word + " " + Collapse(rest, ws)
  {
    hide TrimStart, WordLength;
    var n := WordLength(s, ws);
    var k := TrimStartDrops(s[n..], ws);
    word, run, rest := s[..n], s[n..][..k], s[n..][k..];
    assert s[n..] == run + rest;
    assert s == word + s[n..];
  }

  lemma {:induction false} CollapseKeepsWords(s: string, ws: char -> bool)
    requires ws(' ')
    ensures Blank(Collapse(s, ws), ws) <==> Blank(s, ws)
    decreases |s|
  {
    if WordLength(s, ws) < |s| {
      var word, run, rest := CollapseStep(s, ws);
      assert Blank(" ", ws);
      hide Blank, Collapse;
      CollapseKeepsWords(rest, ws);
      BlankParts(word, run, ws);
      BlankParts(word + run, rest, ws);
      BlankParts(word, " ", ws);
      BlankParts(word + " ", Collapse(rest, ws), ws);
    }
  }

  // ----- Tidy text -----

  /** Collapsed, with no white space at either end. */
  ghost predicate Tidy(s: string, ws: char -> bool) {
    Collapsed(s, ws) && (s != [] ==> !ws(s[0]) && !ws(s[|s| - 1]))
  }

  /** Collapse, then trim: `drop` is what the trim removes. */
  function TidyUp(s: string, ws: char -> bool, drop: char -> bool): string {
    TrimBoth(Collapse(s, ws), drop)
  }

  lemma TrimBothIsPiece(s: string, drop: char -> bool) returns (lo: nat, hi: nat)
    ensures lo <= hi <= |s| && TrimBoth(s, drop) == s[lo..hi]
    ensures lo < hi ==> !drop(s[lo]) && !drop(s[hi - 1])
    ensures lo == hi ==> forall i :: 0 <= i < |s| ==> drop(s[i])
  {
    lo := TrimStartDrops(s, drop);
    var k := TrimEndDrops(s[lo..], drop);
    hi := lo + k;
    assert s[lo..][..k] == s[lo..hi];
    assert forall i :: lo <= i < |s| ==> s[i] == s[lo..][i - lo];
  }

  /** What the two steps produce, once and for all. */
  lemma TidyUpTidies(s: string, ws: char -> bool, drop: char -> bool)
    requires ws(' ') && drop(' ') && (forall c :: drop(c) ==> ws(c))
    ensures Tidy(TidyUp(s, ws, drop), ws)
    ensures TidyUp(s, ws, drop) == [] <==> Blank(s, ws)
    ensures forall c :: c in TidyUp(s, ws, drop) ==> c == ' ' || (c in s && !ws(c))
  {
    hide Collapsed, Collapse, TrimBoth, Blank;
    var c := Collapse(s, ws);
    CollapseCollapses(s, ws);
    CollapseKeepsWords(s, ws);
    CollapseKeepsCharacters(s, ws);
    var lo, hi := TrimBothIsPiece(c, drop);
    PieceOfCollapsed(c, ws, lo, hi);
    TrimmedCollapsed(c, ws, drop, lo, hi);
    assert forall i :: 0 <= i < hi - lo ==> c[lo..hi][i] == c[lo + i];
  }

  /** After collapsing, trimming spaces removes all white space at the ends. */
  lemma TrimmedCollapsed(c: string, ws: char -> bool, drop: char -> bool, lo: nat, hi: nat)
    requires drop(' ') && (forall c :: drop(c) ==> ws(c))
    requires Collapsed(c, ws) && lo <= hi <= |c|
    requires lo < hi ==> !drop(c[lo]) && !drop(c[hi - 1])
    requires lo == hi ==> forall i :: 0 <= i < |c| ==> drop(c[i])
    ensures lo < hi ==> !ws(c[lo..hi][0]) && !ws(c[lo..hi][hi - lo - 1])
    ensures lo == hi <==> Blank(c, ws)
  {
    if lo < hi {
      assert c[lo..hi][0] == c[lo] && c[lo..hi][hi - lo - 1] == c[hi - 1];
    }
  }

  // ----- Words -----

  /** The words of a text: its longest stretches without white space. */
  function Words(s: string, ws: char -> bool): seq<string>
    decreases |s|
  {
    var n := WordLength(s, ws);
    if n == |s| then (if s == [] then [] else [s])
    else
      TrimStartShrinks(s[n..], ws);
      (if n == 0 then [] else [s[..n]]) + Words(TrimStart(s[n..], ws), ws)
  }

  function Spaced(words: seq<string>): string {
    if |words| == 0 then []
    else if |words| == 1 then words[0]
    else words[0] + " " + Spaced(words[1..])
  }

  ghost predicate AreWords(words: seq<string>, ws: char -> bool) {
    forall i :: 0 <= i < |words| ==> words[i] != [] && forall j :: 0 <= j < |words[i]| ==> !ws(words[i][j])
  }

  lemma WordsStep(s: string, ws: char -> bool) returns (word: string, rest: string)
    requires WordLength(s, ws) < |s|
    ensures |rest| < |s| && (forall j :: 0 <= j < |word| ==> !ws(word[j])) && (rest != [] ==> !ws(rest[0]))
    ensures Words(s, ws) == (if word == [] then [] else [word]) + Words(rest, ws)
    ensures Collapse(s, ws) == word + " " + Collapse(rest, ws)
    ensures word == [] <==> ws(s[0])
  {
    hide TrimStart, WordLength;
    var n := WordLength(s, ws);
    var k := TrimStartDrops(s[n..], ws);
    TrimStartShrinks(s[n..], ws);
    word, rest := s[..n], TrimStart(s[n..], ws);
  }

  lemma OneWord(s: string, ws: char -> bool)
    requires WordLength(s, ws) == |s|
    ensures Words(s, ws) == (if s == [] then [] else [s]) && Collapse(s, ws) == s
    ensures forall j :: 0 <= j < |s| ==> !ws(s[j])
  {
    hide WordLength;
  }

  lemma {:induction false} WordsAreWords(s: string, ws: char -> bool)
    ensures AreWords(Words(s, ws), ws)
    ensures s == [] ==> Words(s, ws) == []
    ensures s != [] && !ws(s[0]) ==> Words(s, ws) != []
    decreases |s|
  {
    hide Words, Collapse, WordLength;
    if WordLength(s, ws) == |s| {
      OneWord(s, ws);
    } else {
      var word, rest := WordsStep(s, ws);
      WordsAreWords(rest, ws);
    }
  }

  /** Collapsed text is its words, spaced, with at most a space before and a space after. */
  lemma {:induction false} CollapsedWords(s: string, ws: char -> bool) returns (lead: string, trail: string)
    ensures lead in {"", " "} && trail in {"", " "}
    ensures Collapse(s, ws) == lead + Spaced(Words(s, ws)) + trail
    ensures s != [] && !ws(s[0]) ==> lead == ""
    decreases |s|
  {
    hide WordLength;
    if WordLength(s, ws) == |s| {
      OneWord(s, ws);
      SpacedFirst(s, []);
      lead, trail := "", "";
      assert s == "" + s + "";
    } else {
      var word, rest := WordsStep(s, ws);
      WordsAreWords(rest, ws);
      NoWordsAtAll(rest, ws);
      var l, t := CollapsedWords(rest, ws);
      lead, trail := SpacedStep(word, Words(rest, ws), Collapse(rest, ws), l, t);
    }
  }

  /** One more word before collapsed text. */
  lemma SpacedStep(word: string, words: seq<string>, collapsed: string, l: string, t: string)
    returns (lead: string, trail: string)
    requires words == [] ==> collapsed == []
    requires words != [] ==> l == "" && t in {"", " "} && collapsed == l + Spaced(words) + t
    ensures lead in {"", " "} && trail in {"", " "} && (lead == "" <==> word != [])
    ensures word + " " + collapsed == lead + Spaced((if word == [] then [] else [word]) + words) + trail
  {
    SpacedFirst(word, words);
    lead := if word == [] then " " else "";
    trail := if words != [] then t else if word == [] then "" else " ";
    if words != [] {
      assert collapsed == Spaced(words) + t;
      assert word + " " + (Spaced(words) + t) == word + " " + Spaced(words) + t;
    }
  }

  lemma SpacedFirst(word: string, words: seq<string>)
    ensures Spaced([]) == [] && Spaced([word] + []) == word
    ensures words != [] ==> Spaced([word] + words) == word + " " + Spaced(words)
    ensures [] + words == words
  {
    assert ([word] + words)[1..] == words;
  }

  lemma NoWordsAtAll(s: string, ws: char -> bool)
    ensures s == [] ==> Words(s, ws) == [] && Collapse(s, ws) == []
  {
  }

  lemma {:induction false} SpacedEnds(words: seq<string>, ws: char -> bool)
    requires AreWords(words, ws)
    ensures words != [] ==> Spaced(words) != [] && !ws(Spaced(words)[0]) && !ws(Spaced(words)[|Spaced(words)| - 1])
  {
    if |words| > 1 {
      SpacedEnds(words[1..], ws);
      var last := Spaced(words[1..]);
      assert Spaced(words)[|Spaced(words)| - 1] == last[|last| - 1];
      assert Spaced(words)[0] == words[0][0];
    }
  }

  lemma TrimLead(lead: string, s: string, drop: char -> bool)
    requires lead in {"", " "} && drop(' ')
    ensures TrimStart(lead + s, drop) == TrimStart(s, drop)
    ensures s != [] && !drop(s[0]) ==> TrimStart(s, drop) == s
  {
    if lead == " " {
      assert (lead + s)[1..] == s;
    } else {
      assert lead + s == s;
    }
  }

  lemma TrimTrail(s: string, trail: string, drop: char -> bool)
    requires trail in {"", " "} && drop(' ')
    requires s != [] ==> !drop(s[|s| - 1])
    ensures TrimEnd(s + trail, drop) == s
  {
    if trail == " " {
      assert (s + trail)[..|s|] == s;
    } else {
      assert s + trail == s;
    }
  }

  lemma TrimAroundWords(lead: string, middle: string, trail: string, drop: char -> bool)
    requires lead in {"", " "} && trail in {"", " "} && drop(' ')
    requires middle != [] ==> !drop(middle[0]) && !drop(middle[|middle| - 1])
    ensures TrimBoth(lead + middle + trail, drop) == middle
  {
    hide TrimStart, TrimEnd;
    assert lead + middle + trail == lead + (middle + trail);
    TrimLead(lead, middle + trail, drop);
    TrimTrail(middle, trail, drop);
    if middle == [] {
      assert middle + trail == trail + [];
      TrimLead(trail, [], drop);
      TrimOfNothing(drop);
    }
  }

  lemma TrimOfNothing(drop: char -> bool)
    ensures TrimStart([], drop) == [] && TrimEnd([], drop) == []
  {
  }

  /** Tidying a text is spacing its words: nothing else is kept, and no word is lost or changed. */
  lemma TidyUpSpacesWords(s: string, ws: char -> bool, drop: char -> bool)
    requires drop(' ') && (forall c :: drop(c) ==> ws(c))
    ensures TidyUp(s, ws, drop) == Spaced(Words(s, ws))
  {
    hide Words, Collapse, Spaced, TrimBoth;
    var lead, trail := CollapsedWords(s, ws);
    WordsAreWords(s, ws);
    SpacedEnds(Words(s, ws), ws);
    assert Words(s, ws) == [] ==> Spaced(Words(s, ws)) == [] by { NothingSpaced(); }
    TrimAroundWords(lead, Spaced(Words(s, ws)), trail, drop);
  }

  lemma NothingSpaced()
    ensures Spaced([]) == []
  {
  }

  lemma TidyStays(s: string, ws: char -> bool, drop: char -> bool)
    requires ws(' ') && Tidy(s, ws) && (forall c :: drop(c) ==> ws(c))
    ensures TidyUp(s, ws, drop) == s
  {
    CollapsedStays(s, ws);
  }

  lemma TidyUpKeepsNormal(nfc: string -> string, s: string, ws: char -> bool, drop: char -> bool)
    requires IsNfc(nfc) && Normal(nfc, s)
    ensures Normal(nfc, TidyUp(s, ws, drop))
  {
    CollapseKeepsNormal(nfc, s, ws);
    var lo, hi := TrimBothIsPiece(Collapse(s, ws), drop);
    PieceIsNormal(nfc, Collapse(s, ws), lo, hi);
  }

  lemma WordLengthStops(word: string, rest: string, ws: char -> bool)
    requires (forall i :: 0 <= i < |word| ==> !ws(word[i])) && (rest == [] || ws(rest[0]))
    ensures WordLength(word + rest, ws) == |word|
  {
    hide WordLength;
    var s := word + rest;
    assert forall i :: 0 <= i < |word| ==> s[i] == word[i];
    assert rest != [] ==> s[|word|] == rest[0];
    var n := WordLength(s, ws);
  }

  lemma WordsSkipWhiteSpace(gap: string, rest: string, ws: char -> bool)
    requires Blank(gap, ws)
    ensures Words(gap + rest, ws) == Words(rest, ws) == Words(TrimStart(gap + rest, ws), ws)
  {
    TrimStartSkips(gap, rest, ws);
    if gap == [] {
      assert gap + rest == rest;
    }
  }

  /** The words of a text, from its front: white space is skipped, and a stretch without any is a word. */
  lemma WordsFromTheFront(word: string, gap: string, rest: string, ws: char -> bool)
    requires word != [] && (forall i :: 0 <= i < |word| ==> !ws(word[i])) && gap != [] && Blank(gap, ws)
    ensures Words([], ws) == []
    ensures Words(word, ws) == [word]
    ensures Words(gap + rest, ws) == Words(rest, ws)
    ensures Words(word + gap + rest, ws) == [word] + Words(rest, ws)
  {
    hide TrimStart, WordLength;
    WordLengthStops(word, [], ws);
    assert word + [] == word;
    WordLengthStops(word, gap + rest, ws);
    WordsSkipWhiteSpace(gap, rest, ws);
    var s := word + gap + rest;
    assert s == word + (gap + rest);
    assert s[..|word|] == word && s[|word|..] == gap + rest;
    NoWordsAtAll([], ws);
  }

  // ----- One line -----

  function NormalizeDisplayText(nfc: string -> string, value: string): string {
    TidyUp(nfc(value), IsWhiteSpace, IsWhiteSpace)
  }

  /** Normalised display text is the words of the text, spaced; it is tidy, and normalising it again changes nothing. */
  lemma DisplayTextIsCanonical(nfc: string -> string, value: string)
    requires IsNfc(nfc)
    ensures
      var r := NormalizeDisplayText(nfc, value);
      && r == Spaced(Words(nfc(value), IsWhiteSpace))
      && Tidy(r, IsWhiteSpace)
      && NormalizeDisplayText(nfc, r) == r
      && (HasNoControl(value) ==> HasNoControl(r))
  {
    var n := nfc(value);
    TidyUpSpacesWords(n, IsWhiteSpace, IsWhiteSpace);
    hide Words, Spaced, Collapse, TrimBoth;
    TidyUpTidies(n, IsWhiteSpace, IsWhiteSpace);
    TidyUpKeepsNormal(nfc, n, IsWhiteSpace, IsWhiteSpace);
    var r := NormalizeDisplayText(nfc, value);
    TidyStays(r, IsWhiteSpace, IsWhiteSpace);
    forall i | HasNoControl(value) && 0 <= i < |r|
      ensures !IsControl(r[i])
    {
      assert r[i] in r;
    }
  }
}
