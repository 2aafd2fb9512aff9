/**
 Map keys made by `JSON.stringify` of an array of strings and nulls (section 25.5.2 of
 ECMA-262). Keys of arrays of one length are equal only if the arrays are.
 */
module JsonKeys {
  import opened Outcomes

  function HexDigit(d: int): char
    requires 0 <= d < 16
  {
    if d < 10 then (48 + d) as char else (87 + d) as char
  }

  /** `QuoteJSONString` for one code point. */
  function EscapeChar(c: char): string {
    if c == '"' then ['\\', '"']
    else if c == '\\' then ['\\', '\\']
    else if c == '\U{0008}' then ['\\', 'b']
    else if c == '\U{0009}' then ['\\', 't']
    else if c == '\U{000A}' then ['\\', 'n']
    else if c == '\U{000C}' then ['\\', 'f']
    else if c == '\U{000D}' then ['\\', 'r']
    else if c < ' ' then ['\\', 'u', '0', '0', HexDigit(c as int / 16), HexDigit(c as int % 16)]
    else [c]
  }

  function Escape(s: string): string {
    if s == [] then [] else EscapeChar(s[0]) + Escape(s[1..])
  }

  function Quote(s: string): string { ['"'] + Escape(s) + ['"'] }

  function Item(v: Option<string>): string {
    match v
    case None => "null"
    case Some(s) => Quote(s)
  }

  function Key2(a: string, b: string): string { ['['] + (Quote(a) + ([','] + (Quote(b) + "]"))) }

  function Key3(a: string, b: Option<string>, c: string): string {
    ['['] + (Quote(a) + ([','] + (Item(b) + ([','] + (Quote(c) + "]")))))
  }

  lemma HexDigitsDiffer(d: int, e: int)
    requires 0 <= d < 16 && 0 <= e < 16 && HexDigit(d) == HexDigit(e)
    ensures d == e
  {
  }

  lemma EscapeCharStarts(c: char)
    ensures |EscapeChar(c)| >= 1 && EscapeChar(c)[0] != '"'
    ensures EscapeChar(c)[0] == '\\' <==> |EscapeChar(c)| > 1
    ensures |EscapeChar(c)| == 1 ==> EscapeChar(c) == [c]
  {
  }

  /** Escapes form a prefix code: what comes after them does not blur them. */
  lemma EscapeCharIsPrefixCode(c: char, d: char, x: string, y: string)
    requires EscapeChar(c) + x == EscapeChar(d) + y
    ensures c == d && x == y
  {
    var s, t := EscapeChar(c) + x, EscapeChar(d) + y;
    EscapeCharStarts(c);
    EscapeCharStarts(d);
    assert s[0] == EscapeChar(c)[0] && t[0] == EscapeChar(d)[0];
    if |EscapeChar(c)| > 1 {
      assert s[1] == EscapeChar(c)[1] && t[1] == EscapeChar(d)[1];
      if EscapeChar(c)[1] == 'u' {
        assert s[4] == EscapeChar(c)[4] && s[5] == EscapeChar(c)[5] && t[4] == EscapeChar(d)[4] && t[5] == EscapeChar(d)[5];
        HexDigitsDiffer(c as int / 16, d as int / 16);
        HexDigitsDiffer(c as int % 16, d as int % 16);
      }
    }
    assert c == d;
    assert x == s[|EscapeChar(c)|..] && y == t[|EscapeChar(d)|..];
  }

  lemma {:induction false} EscapeEndsAtQuote(s: string, t: string, x: string, y: string)
    requires Escape(s) + ['"'] + x == Escape(t) + ['"'] + y
    ensures s == t && x == y
    decreases |s|
  {
    hide EscapeChar;
    var u, v := Escape(s) + ['"'] + x, Escape(t) + ['"'] + y;
    if s != [] { EscapeCharStarts(s[0]); assert u[0] == EscapeChar(s[0])[0]; }
    if t != [] { EscapeCharStarts(t[0]); assert v[0] == EscapeChar(t[0])[0]; }
    if s != [] && t != [] {
      var p, q := Escape(s[1..]) + ['"'] + x, Escape(t[1..]) + ['"'] + y;
      assert u == EscapeChar(s[0]) + p && v == EscapeChar(t[0]) + q;
      EscapeCharIsPrefixCode(s[0], t[0], p, q);
      EscapeEndsAtQuote(s[1..], t[1..], x, y);
      assert s == [s[0]] + s[1..] && t == [t[0]] + t[1..];
    } else {
      assert s == [] && t == [];
      assert x == u[1..] && y == v[1..];
    }
  }

  lemma QuoteIsPrefixCode(s: string, t: string, x: string, y: string)
    requires Quote(s) + x == Quote(t) + y
    ensures s == t && x == y
  {
    hide Escape;
    assert (Quote(s) + x)[1..] == Escape(s) + ['"'] + x;
    assert (Quote(t) + y)[1..] == Escape(t) + ['"'] + y;
    EscapeEndsAtQuote(s, t, x, y);
  }

  lemma ItemIsPrefixCode(v: Option<string>, w: Option<string>, x: string, y: string)
    requires Item(v) + x == Item(w) + y
    ensures v == w && x == y
  {
    hide Escape;
    assert (Item(v) + x)[0] == Item(v)[0] && (Item(w) + y)[0] == Item(w)[0];
    match (v, w) {
      case (Some(s), Some(t)) => QuoteIsPrefixCode(s, t, x, y);
      case (None, None) => assert x == (Item(v) + x)[4..] && y == (Item(w) + y)[4..];
      case (_, _) =>
    }
  }

  lemma SameAfterFirst(c: char, x: string, y: string)
    requires [c] + x == [c] + y
    ensures x == y
  {
    assert ([c] + x)[1..] == x && ([c] + y)[1..] == y;
  }

  lemma Key2IsInjective(a: string, b: string, a': string, b': string)
    requires Key2(a, b) == Key2(a', b')
    ensures a == a' && b == b'
  {
    hide Quote;
    var x, y := Quote(b) + "]", Quote(b') + "]";
    SameAfterFirst('[', Quote(a) + ([','] + x), Quote(a') + ([','] + y));
    QuoteIsPrefixCode(a, a', [','] + x, [','] + y);
    SameAfterFirst(',', x, y);
    QuoteIsPrefixCode(b, b', "]", "]");
  }

  lemma Key3IsInjective(a: string, b: Option<string>, c: string, a': string, b': Option<string>, c': string)
    requires Key3(a, b, c) == Key3(a', b', c')
    ensures a == a' && b == b' && c == c'
  {
    hide Quote, Item;
    var x, y := Quote(c) + "]", Quote(c') + "]";
    var u, v := Item(b) + ([','] + x), Item(b') + ([','] + y);
    SameAfterFirst('[', Quote(a) + ([','] + u), Quote(a') + ([','] + v));
    QuoteIsPrefixCode(a, a', [','] + u, [','] + v);
    SameAfterFirst(',', u, v);
    ItemIsPrefixCode(b, b', [','] + x, [','] + y);
    SameAfterFirst(',', x, y);
    QuoteIsPrefixCode(c, c', "]", "]");
  }
}
