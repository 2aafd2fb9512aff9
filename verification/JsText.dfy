/**
 Text as ECMAScript sees it: white space, trimming, splitting, `parseInt`, and the order
 of strings. A string is a sequence of Unicode code points; unpaired surrogates are not
 modelled.
 */
module JsText {
  import opened Decimal
  import opened Outcomes

  /** White space and line terminators (sections 12.2 and 12.3 of ECMA-262): what `trim` removes and `\s` matches. */
  predicate IsWhiteSpace(c: char) {
    || '\t' <= c <= '\r'
    || c == ' '
    || c == '\U{00A0}'
    || c == '\U{1680}'
    || '\U{2000}' <= c <= '\U{200A}'
    || c == '\U{2028}'
    || c == '\U{2029}'
    || c == '\U{202F}'
    || c == '\U{205F}'
    || c == '\U{3000}'
    || c == '\U{FEFF}'
  }

  /** The table in code points: white space of section 12.2, among it all of category Zs, and the line ends of 12.3. */
  lemma WhiteSpaceIs(c: char)
    ensures IsWhiteSpace(c) <==>
              || (c as int) in {0x09, 0x0B, 0x0C, 0xFEFF}
              || (c as int) in {0x20, 0xA0, 0x1680, 0x202F, 0x205F, 0x3000} || 0x2000 <= c as int <= 0x200A
              || (c as int) in {0x0A, 0x0D, 0x2028, 0x2029}
  {
  }

  // ----- Trimming -----

  function TrimStart(s: string, drop: char -> bool): string {
    if s != [] && drop(s[0]) then TrimStart(s[1..], drop) else s
  }

  function TrimEnd(s: string, drop: char -> bool): string {
    if s != [] && drop(s[|s| - 1]) then TrimEnd(s[..|s| - 1], drop) else s
  }

  function TrimBoth(s: string, drop: char -> bool): string {
    TrimEnd(TrimStart(s, drop), drop)
  }

  function Trim(s: string): string { TrimBoth(s, IsWhiteSpace) }

  lemma {:induction false} TrimStartSkips(lead: string, s: string, drop: char -> bool)
    requires forall i :: 0 <= i < |lead| ==> drop(lead[i])
    ensures TrimStart(lead + s, drop) == TrimStart(s, drop)
  {
    if lead == [] {
      assert lead + s == s;
    } else {
      assert (lead + s)[1..] == lead[1..] + s;
      TrimStartSkips(lead[1..], s, drop);
    }
  }

  lemma {:induction false} TrimEndSkips(s: string, trail: string, drop: char -> bool)
    requires forall i :: 0 <= i < |trail| ==> drop(trail[i])
    ensures TrimEnd(s + trail, drop) == TrimEnd(s, drop)
    decreases |trail|
  {
    if trail == [] {
      assert s + trail == s;
    } else {
      var n := |trail| - 1;
      assert (s + trail)[..|s| + n] == s + trail[..n];
      TrimEndSkips(s, trail[..n], drop);
    }
  }

  /** Trimming cuts off the white space at both ends, and no more. */
  lemma TrimKeepsTheMiddle(lead: string, middle: string, trail: string)
    requires forall i :: 0 <= i < |lead| ==> IsWhiteSpace(lead[i])
    requires forall i :: 0 <= i < |trail| ==> IsWhiteSpace(trail[i])
    requires middle != [] ==> !IsWhiteSpace(middle[0]) && !IsWhiteSpace(middle[|middle| - 1])
    ensures Trim(lead + middle + trail) == middle
  {
    hide IsWhiteSpace;
    assert lead + middle + trail == lead + (middle + trail);
    TrimStartSkips(lead, middle + trail, IsWhiteSpace);
    if middle == [] {
      assert middle + trail == trail + [];
      TrimStartSkips(trail, [], IsWhiteSpace);
    } else {
      TrimEndSkips(middle, trail, IsWhiteSpace);
    }
  }

  // ----- Splitting -----

  function Split(s: string, sep: char): (parts: seq<string>)
    ensures |parts| >= 1
  {
    if s == [] then [[]]
    else
      var rest := Split(s[1..], sep);
      if s[0] == sep then [[]] + rest else [[s[0]] + rest[0]] + rest[1..]
  }

  lemma {:induction false} SplitOne(s: string, sep: char)
    requires sep !in s
    ensures Split(s, sep) == [s]
  {
    if s != [] {
      assert s[0] in s;
      SplitOne(s[1..], sep);
      assert [s[0]] + s[1..] == s;
    }
  }

  lemma {:induction false} SplitFirst(s: string, sep: char, rest: string)
    requires sep !in s
    ensures Split(s + [sep] + rest, sep) == [s] + Split(rest, sep)
  {
    var t := s + [sep] + rest;
    if s == [] {
      assert t[1..] == rest;
    } else {
      assert s[0] in s;
      assert t[1..] == s[1..] + [sep] + rest;
      SplitFirst(s[1..], sep, rest);
      assert [s[0]] + s[1..] == s;
    }
  }

  // ----- parseInt(s, 10) -----

  function DigitPrefix(s: string): (d: string)
    ensures AllDigits(d)
  {
    if s != [] && IsDigit(s[0]) then [s[0]] + DigitPrefix(s[1..]) else []
  }

  /** None stands for NaN. */
  function ParseInt(s: string): Option<int> {
    var t := TrimStart(s, IsWhiteSpace);
    var signed := t != [] && (t[0] == '+' || t[0] == '-');
    var digits := DigitPrefix(if signed then t[1..] else t);
    var value: int := ValueOf(digits);
    if digits == [] then None
    else if signed && t[0] == '-' then Some(-value)
    else Some(value)
  }

  lemma {:induction false} DigitPrefixAll(s: string)
    requires AllDigits(s)
    ensures DigitPrefix(s) == s
  {
    if s != [] {
      DigitPrefixAll(s[1..]);
      assert [s[0]] + s[1..] == s;
    }
  }

  lemma ParseDigits(s: string)
    requires AllDigits(s) && s != []
    ensures ParseInt(s) == Some(ValueOf(s))
  {
    DigitPrefixAll(s);
    assert !IsWhiteSpace(s[0]);
    assert TrimStart(s, IsWhiteSpace) == s;
  }

  /** White space, a sign or none, digits, and then no digit: the text starts with this integer. */
  ghost predicate StartsWithInteger(s: string, v: int) {
    exists blank: string, sign: string, digits: string, rest: string :: IsIntegerText(s, blank, sign, digits, rest, v)
  }

  ghost predicate IsIntegerText(s: string, blank: string, sign: string, digits: string, rest: string, v: int) {
    && s == blank + sign + digits + rest
    && (forall i :: 0 <= i < |blank| ==> IsWhiteSpace(blank[i]))
    && (sign == "" || sign == "+" || sign == "-")
    && digits != [] && AllDigits(digits)
    && (rest == [] || !IsDigit(rest[0]))
    && v == if sign == "-" then -(ValueOf(digits) as int) else ValueOf(digits) as int
  }

  lemma {:induction false} DigitPrefixStops(digits: string, rest: string)
    requires AllDigits(digits) && (rest == [] || !IsDigit(rest[0]))
    ensures DigitPrefix(digits + rest) == digits
  {
    if digits == [] {
      assert digits + rest == rest;
    } else {
      assert (digits + rest)[1..] == digits[1..] + rest;
      DigitPrefixStops(digits[1..], rest);
      assert [digits[0]] + digits[1..] == digits;
    }
  }

  lemma {:induction false} DigitPrefixIs(s: string) returns (rest: string)
    ensures s == DigitPrefix(s) + rest && (rest == [] || !IsDigit(rest[0]))
  {
    if s != [] && IsDigit(s[0]) {
      rest := DigitPrefixIs(s[1..]);
      assert s == [s[0]] + s[1..];
    } else {
      rest := s;
    }
  }

  lemma {:induction false} TrimStartCuts(s: string, drop: char -> bool) returns (lead: string)
    ensures s == lead + TrimStart(s, drop) && forall i :: 0 <= i < |lead| ==> drop(lead[i])
  {
    if s != [] && drop(s[0]) {
      var l := TrimStartCuts(s[1..], drop);
      lead := [s[0]] + l;
      assert s == [s[0]] + s[1..];
    } else {
      lead := [];
    }
  }

  lemma DigitsAndSignsAreNotWhite(c: char)
    ensures IsDigit(c) || c == '+' || c == '-' ==> !IsWhiteSpace(c)
    ensures c == '+' || c == '-' ==> !IsDigit(c)
  {
    WhiteSpaceIs(c);
  }

  /** `parseInt(s, 10)` reads exactly the integer a text starts with. */
  lemma ParseIntReadsTheStart(s: string, v: int)
    ensures ParseInt(s) == Some(v) <==> StartsWithInteger(s, v)
  {
    hide IsWhiteSpace, TrimStart, IsDigit, AllDigits, DigitPrefix, ValueOf;
    if StartsWithInteger(s, v) {
      var blank, sign, digits, rest :| IsIntegerText(s, blank, sign, digits, rest, v);
      IntegerTextIsRead(s, blank, sign, digits, rest, v);
    }
    if ParseInt(s) == Some(v) {
      IntegerIsThere(s, v);
    }
  }

  lemma IntegerTextIsRead(s: string, blank: string, sign: string, digits: string, rest: string, v: int)
    requires IsIntegerText(s, blank, sign, digits, rest, v)
    ensures ParseInt(s) == Some(v)
  {
    hide IsWhiteSpace, IsDigit, DigitPrefix, ValueOf;
    var t := sign + digits + rest;
    assert s == blank + t;
    TrimStartSkips(blank, t, IsWhiteSpace);
    DigitsAndSignsAreNotWhite(t[0]);
    assert sign == "" ==> t[0] == digits[0] && t == digits + rest;
    assert sign != "" ==> t[0] == sign[0] && t[1..] == digits + rest;
    DigitsAndSignsAreNotWhite(digits[0]);
    assert TrimStart(t, IsWhiteSpace) == t;
    DigitPrefixStops(digits, rest);
  }

  lemma InFourParts(a: string, b: string, c: string, d: string)
    ensures a + (b + (c + d)) == a + b + c + d
  {
  }

  lemma IntegerIsThere(s: string, v: int)
    requires ParseInt(s) == Some(v)
    ensures StartsWithInteger(s, v)
  {
    hide IsWhiteSpace, TrimStart, IsDigit, DigitPrefix, ValueOf, AllDigits;
    var blank := TrimStartCuts(s, IsWhiteSpace);
    var t := TrimStart(s, IsWhiteSpace);
    var signed := t != [] && (t[0] == '+' || t[0] == '-');
    var sign := if signed then t[..1] else "";
    var body := if signed then t[1..] else t;
    var rest := DigitPrefixIs(body);
    assert t == sign + body;
    InFourParts(blank, sign, DigitPrefix(body), rest);
    assert IsIntegerText(s, blank, sign, DigitPrefix(body), rest, v);
  }

  // ----- Order of strings -----

  /**
   `<` on strings compares UTF-16 code units. On code points this is the order in which
   U+E000..U+FFFF come after the supplementary characters, whose first unit is a surrogate.
   */
  function Rank(c: char): int {
    var n := c as int;
    if 0xE000 <= n <= 0xFFFF then n + 0x11_0000 else n
  }

  predicate TextLess(s: string, t: string)
    decreases |s|
  {
    if t == [] then false
    else if s == [] then true
    else if s[0] != t[0] then Rank(s[0]) < Rank(t[0])
    else TextLess(s[1..], t[1..])
  }

  lemma {:induction false} TextLessTotal(s: string, t: string)
    ensures s == t || TextLess(s, t) || TextLess(t, s)
    decreases |s|
  {
    if s != [] && t != [] && s[0] == t[0] {
      TextLessTotal(s[1..], t[1..]);
      assert s == [s[0]] + s[1..] && t == [t[0]] + t[1..];
    }
  }

  lemma {:induction false} TextLessAsymmetric(s: string, t: string)
    requires TextLess(s, t)
    ensures !TextLess(t, s)
    decreases |s|
  {
    if s != [] && s[0] == t[0] { TextLessAsymmetric(s[1..], t[1..]); }
  }

  lemma {:induction false} TextLessTransitive(s: string, t: string, u: string)
    requires TextLess(s, t) && TextLess(t, u)
    ensures TextLess(s, u)
    decreases |s|
  {
    if s != [] && s[0] == t[0] && t[0] == u[0] { TextLessTransitive(s[1..], t[1..], u[1..]); }
  }

  /** The order of strings is a strict total order. */
  lemma TextOrder(s: string, t: string, u: string)
    ensures TextLess(s, t) ==> !TextLess(t, s)
    ensures !TextLess(t, s) && !TextLess(u, t) ==> !TextLess(u, s)
    ensures s == t || TextLess(s, t) || TextLess(t, s)
  {
    hide TextLess;
    TextLessTotal(s, t);
    TextLessTotal(t, u);
    TextLessTotal(s, u);
    if TextLess(s, t) { TextLessAsymmetric(s, t); }
    if TextLess(s, t) && TextLess(t, u) { TextLessTransitive(s, t, u); }
    if TextLess(s, u) { TextLessAsymmetric(s, u); }
  }

  /** The UTF-16 code units of a code point (section 11.1.1 of ECMA-262): one, or a pair of surrogates. */
  function UnitsOf(c: char): seq<int> {
    var n := c as int;
    if n < 0x1_0000 then [n] else [0xD800 + (n - 0x1_0000) / 0x400, 0xDC00 + (n - 0x1_0000) % 0x400]
  }

  function Units(s: string): seq<int> {
    if s == [] then [] else UnitsOf(s[0]) + Units(s[1..])
  }

  /** The two agree up to `k`, where the first ends or has the smaller unit. */
  ghost predicate LessAt(x: seq<int>, y: seq<int>, k: nat) {
    k <= |x| && k < |y| && (forall i :: 0 <= i < k ==> x[i] == y[i]) && (k == |x| || x[k] < y[k])
  }

  /** A proper prefix comes first; otherwise the first unit that differs decides. */
  ghost predicate UnitsLess(x: seq<int>, y: seq<int>) { exists k :: LessAt(x, y, k) }

  /** Code points differ in their first units or, both being pairs with one first unit, in their second. */
  lemma UnitsTellApart(c: char, d: char)
    requires c != d
    ensures
      var x, y := UnitsOf(c), UnitsOf(d);
      || (x[0] != y[0] && (x[0] < y[0] <==> Rank(c) < Rank(d)))
      || (|x| == |y| == 2 && x[0] == y[0] && x[1] != y[1] && (x[1] < y[1] <==> Rank(c) < Rank(d)))
  {
    var m, n := c as int, d as int;
    if m >= 0x1_0000 && n >= 0x1_0000 {
      var a, b := m - 0x1_0000, n - 0x1_0000;
      assert a == 0x400 * (a / 0x400) + a % 0x400;
      assert b == 0x400 * (b / 0x400) + b % 0x400;
    }
  }

  lemma FirstDifference(x: seq<int>, y: seq<int>, k: nat)
    requires k < |x| && k < |y| && (forall i :: 0 <= i < k ==> x[i] == y[i]) && x[k] != y[k]
    ensures UnitsLess(x, y) <==> x[k] < y[k]
  {
    if x[k] < y[k] {
      assert LessAt(x, y, k);
    }
    if UnitsLess(x, y) {
      var j :| LessAt(x, y, j);
      assert j == k;
    }
  }

  lemma SameStart(p: seq<int>, x: seq<int>, y: seq<int>)
    ensures UnitsLess(p + x, p + y) <==> UnitsLess(x, y)
  {
    var u, v := p + x, p + y;
    assert forall i :: 0 <= i < |p| ==> u[i] == v[i] == p[i];
    assert forall i :: 0 <= i < |x| ==> u[|p| + i] == x[i];
    assert forall i :: 0 <= i < |y| ==> v[|p| + i] == y[i];
    if UnitsLess(x, y) {
      var k :| LessAt(x, y, k);
      forall i | 0 <= i < |p| + k
        ensures u[i] == v[i]
      {
        if i >= |p| { assert u[|p| + (i - |p|)] == x[i - |p|]; }
      }
      assert LessAt(u, v, |p| + k);
    }
    if UnitsLess(u, v) {
      var k: nat :| LessAt(u, v, k);
      assert |p| <= k;
      forall i | 0 <= i < k - |p|
        ensures x[i] == y[i]
      {
        assert u[|p| + i] == v[|p| + i];
      }
      assert LessAt(x, y, k - |p|);
    }
  }

  /** The order of strings is that of their UTF-16 code units. */
  lemma {:induction false} TextLessComparesUnits(s: string, t: string)
    ensures TextLess(s, t) <==> UnitsLess(Units(s), Units(t))
    decreases |s|
  {
    hide UnitsLess, UnitsOf, Rank;
    if t == [] || s == [] {
      EmptyUnits(s, t);
    } else if s[0] == t[0] {
      SameStart(UnitsOf(s[0]), Units(s[1..]), Units(t[1..]));
      TextLessComparesUnits(s[1..], t[1..]);
    } else {
      DifferentStart(s, t);
    }
  }

  lemma EmptyUnits(s: string, t: string)
    requires t == [] || s == []
    ensures UnitsLess(Units(s), Units(t)) <==> t != [] && s == []
  {
    if s == [] && t != [] {
      SomeUnits(t[0]);
      assert LessAt(Units(s), Units(t), 0);
    }
  }

  lemma DifferentStart(s: string, t: string)
    requires s != [] && t != [] && s[0] != t[0]
    ensures UnitsLess(Units(s), Units(t)) <==> Rank(s[0]) < Rank(t[0])
  {
    hide UnitsLess, UnitsOf, Rank;
    var x, y := Units(s), Units(t);
    SomeUnits(s[0]);
    SomeUnits(t[0]);
    UnitsTellApart(s[0], t[0]);
    assert x[0] == UnitsOf(s[0])[0] && y[0] == UnitsOf(t[0])[0];
    if x[0] != y[0] {
      FirstDifference(x, y, 0);
    } else {
      assert x[1] == UnitsOf(s[0])[1] && y[1] == UnitsOf(t[0])[1];
      FirstDifference(x, y, 1);
    }
  }

  lemma SomeUnits(c: char)
    ensures |UnitsOf(c)| >= 1
  {
  }
}
