/**
 The UTC instant parser and the "room open" predicate of
 `backend/src/contracts/programCommunitySettings.ts`.
 */
module ProgramCommunitySettings {
  import opened AlumniDirectoryData
  import opened Calendar
  import opened Decimal
  import opened IsoInstant
  import opened Outcomes

  /** What `new Date(text)` makes of a text; implementations differ on texts outside the standard. */
  type DateParser = string -> TimeValue

  /** All that is asked of a parser: it yields dates, and reads back what `toISOString` prints in four-digit years. */
  ghost predicate ReadsIsoStrings(parse: DateParser) {
    && (forall s :: IsDateValue(parse(s)))
    && (forall t {:trigger parse(ToIsoString(t))} :: 0 <= YearOf(t) <= 9_999 ==> parse(ToIsoString(t)) == At(t))
  }

  // ----- The pattern -----

  /** Date, time and, after a point, one to three digits: `UTC_INSTANT_PATTERN`. */
  predicate MatchesPattern(s: string) {
    && |s| >= 20
    && DigitsAt(s, 0, 4) && s[4] == '-' && DigitsAt(s, 5, 7) && s[7] == '-' && DigitsAt(s, 8, 10) && s[10] == 'T'
    && DigitsAt(s, 11, 13) && s[13] == ':' && DigitsAt(s, 14, 16) && s[16] == ':' && DigitsAt(s, 17, 19)
    && s[|s| - 1] == 'Z'
    && (|s| == 20 || (22 <= |s| <= 24 && s[19] == '.' && DigitsAt(s, 20, |s| - 1)))
  }

  /** The digits of the fraction, if any, filled up to three. */
  function Fraction(s: string): string
    requires MatchesPattern(s)
  {
    var digits := if |s| == 20 then "" else s[20..|s| - 1];
    digits + Zeros(3 - |digits|)
  }

  function Canonical(s: string): string
    requires MatchesPattern(s)
  {
    s[..19] + "." + Fraction(s) + "Z"
  }

  lemma CanonicalHasColumns(s: string)
    requires MatchesPattern(s)
    ensures HasColumns(Canonical(s))
    ensures |s| == 24 ==> Canonical(s) == s
  {
    hide AllDigits;
    var c := Canonical(s);
    assert c[20..23] == Fraction(s);
    assert AllDigits(Fraction(s)) by { FractionDigits(s); }
    assert c[..19] == s[..19];
    SliceOfPrefix(c, 19, 0, 4);
    SliceOfPrefix(s, 19, 0, 4);
    SliceOfPrefix(c, 19, 5, 7);
    SliceOfPrefix(s, 19, 5, 7);
    SliceOfPrefix(c, 19, 8, 10);
    SliceOfPrefix(s, 19, 8, 10);
    SliceOfPrefix(c, 19, 11, 13);
    SliceOfPrefix(s, 19, 11, 13);
    SliceOfPrefix(c, 19, 14, 16);
    SliceOfPrefix(s, 19, 14, 16);
    SliceOfPrefix(c, 19, 17, 19);
    SliceOfPrefix(s, 19, 17, 19);
  }

  lemma FractionDigits(s: string)
    requires MatchesPattern(s)
    ensures AllDigits(Fraction(s)) && |Fraction(s)| == 3
  {
  }

  /** A canonical text matches the pattern and is its own canonical form. */
  lemma ColumnsMatchPattern(c: string)
    requires HasColumns(c)
    ensures MatchesPattern(c) && Canonical(c) == c
  {
    CanonicalHasColumns(c);
  }

  // ----- Parsing -----

  /** A field of the request body: null, a string, or something else. */
  datatype BodyValue = Null | Text(s: string) | Other

  /** The field of the body that an issue is about. */
  datatype Path = OpensAt | ClosesAt

  datatype Issue =
    | NotAnInstant(path: Path)      // must be a UTC ISO-8601 instant or null
    | NotAValidInstant(path: Path)  // must be a valid UTC instant
    | EnabledNeedsOpensAt
    | ClosesAtNeedsOpensAt
    | ClosesAtNotAfterOpensAt

  function NullableUtcInstant(value: BodyValue, path: Path, parse: DateParser): Result<Option<int>, Issue> {
    match value
    case Null => Success(None)
    case Other => Failure(NotAnInstant(path))
    case Text(s) =>
      if !MatchesPattern(s) then Failure(NotAnInstant(path))
      else
        var canonical := Canonical(s);
        match parse(canonical)
        case Invalid => Failure(NotAValidInstant(path))
        case At(t) => if ToIsoString(t) != canonical then Failure(NotAValidInstant(path)) else Success(Some(t))
  }

  /** A `Date`, a string, or neither. */
  datatype DateLike = Missing | DateValue(time: TimeValue) | DateText(s: string)

  function Instant(value: DateLike, parse: DateParser): Option<int> {
    match value
    case Missing => None
    case DateValue(time) => (match time case Invalid => None case At(t) => Some(t))
    case DateText(s) =>
      if !MatchesPattern(s) then None
      else
        var canonical := Canonical(s);
        match parse(canonical)
        case Invalid => None
        case At(t) => if ToIsoString(t) != canonical then None else Some(t)
  }

  /** Text that names an existing moment of the calendar. */
  predicate NamesAnInstant(s: string) {
    && MatchesPattern(s)
    && (CanonicalHasColumns(s); ReadStamp(Canonical(s)).Valid())
  }

  function NamedInstant(s: string): int
    requires NamesAnInstant(s)
  {
    CanonicalHasColumns(s);
    ReadStamp(Canonical(s)).Instant()
  }

  lemma PrintedYears(t: int)
    ensures StampOf(t).year == YearOf(t)
    ensures 0 <= YearOf(t) <= 9_999 <==> IsDigit(ToIsoString(t)[0])
    ensures 0 <= YearOf(t) <= 9_999 ==>
              StampOf(t).Printable() && HasColumns(ToIsoString(t)) && ReadStamp(ToIsoString(t)) == StampOf(t)
  {
    hide StampOf, StampText;
    StampOfInstant(t);
    InstantOfStamp(StampOf(t));
    if 0 <= YearOf(t) <= 9_999 {
      PrintedStampReadsBack(StampOf(t));
      assert IsDigit(ToIsoString(t)[0..4][0]);
    }
  }

  /** Comparing the reprint accepts exactly the real calendar instants, however lenient the parser. */
  lemma ReprintDecides(s: string, parse: DateParser)
    requires ReadsIsoStrings(parse)
    ensures Instant(DateText(s), parse) == if NamesAnInstant(s) then Some(NamedInstant(s)) else None
  {
    hide ToIsoString, StampOf, HasColumns, ReadStamp, StampText, Canonical, MatchesPattern;
    if MatchesPattern(s) {
      var c := Canonical(s);
      CanonicalHasColumns(s);
      var stamp := ReadStamp(c);
      ReadStampPrintsBack(c);
      if stamp.Valid() {
        var t := stamp.Instant();
        InstantOfStamp(stamp);
        FourDigitYearsAreInRange(stamp);
        PrintsAs(t, stamp);
        assert parse(c) == At(t);
      } else if parse(c).At? && ToIsoString(parse(c).ms) == c {
        var t := parse(c).ms;
        FirstColumnIsDigit(c);
        PrintedYears(t);
        StampOfInstant(t);
        assert false;
      }
    }
  }

  lemma FirstColumnIsDigit(c: string)
    requires HasColumns(c)
    ensures IsDigit(c[0])
  {
    assert IsDigit(c[0..4][0]);
  }

  lemma PrintsAs(t: int, s: Stamp)
    requires StampOf(t) == s && s.Printable()
    ensures ToIsoString(t) == StampText(s)
  {
    hide StampOf, StampText;
  }

  /** The request parser and the stored-value parser accept the same text and read it alike. */
  lemma BothParsersAgree(s: string, path: Path, parse: DateParser)
    ensures
      match NullableUtcInstant(Text(s), path, parse)
      case Success(v) => v.Some? && Instant(DateText(s), parse) == v
      case Failure(_) => Instant(DateText(s), parse) == None
  {
    hide MatchesPattern, Canonical, ToIsoString;
  }

  // ----- What is read, said of the fields -----

  /** The date and time of some fields, up to the seconds. */
  function WrittenSeconds(s: Stamp): string
    requires s.Printable()
  {
    Pad(s.year, 4) + "-" + Pad(s.month, 2) + "-" + Pad(s.day, 2) + "T"
    + Pad(s.hour, 2) + ":" + Pad(s.minute, 2) + ":" + Pad(s.second, 2)
  }

  /** A fraction of no, one, two or three digits, and the milliseconds it stands for. */
  ghost predicate IsFraction(fraction: string, ms: int) {
    || (fraction == "" && ms == 0)
    || (exists d: nat :: d < 10 && fraction == "." + Pad(d, 1) && ms == 100 * d)
    || (exists d: nat :: d < 100 && fraction == "." + Pad(d, 2) && ms == 10 * d)
    || (0 <= ms < 1_000 && fraction == "." + Pad(ms, 3))
  }

  /** The text writes these fields, which need not be those of an existing moment. */
  ghost predicate Writes(x: string, s: Stamp) {
    s.Printable() && exists fraction :: IsFraction(fraction, s.ms) && x == WrittenSeconds(s) + fraction + "Z"
  }

  lemma AppendZero(s: string)
    requires AllDigits(s)
    ensures AllDigits(s + ['0']) && ValueOf(s + ['0']) == 10 * ValueOf(s)
  {
    assert (s + ['0'])[..|s|] == s;
  }

  lemma TrailingZeros(s: string, k: nat)
    requires AllDigits(s) && k <= 2
    ensures AllDigits(s + Zeros(k)) && ValueOf(s + Zeros(k)) == ValueOf(s) * Pow10(k)
  {
    PowersOfTen();
    AppendZero(s);
    AppendZero(s + ['0']);
    hide ValueOf, AllDigits;
    assert s + Zeros(0) == s && s + Zeros(1) == s + ['0'] && s + Zeros(2) == s + ['0'] + ['0'];
    assert Pow10(0) == 1;
    assert k == 0 || k == 1 || k == 2;
  }

  /** Digits filled up to three are those of the number times a power of ten, and the other way round. */
  lemma FilledUp(digits: string, width: nat, d: nat)
    requires 1 <= width <= 3 && d < Pow10(width)
    ensures digits == Pad(d, width) <==>
              && |digits| == width && AllDigits(digits)
              && d * Pow10(3 - width) < 1_000
              && digits + Zeros(3 - width) == Pad(d * Pow10(3 - width), 3)
  {
    hide Pad, Zeros, ValueOf;
    PowersOfTen();
    ZerosAre(3 - width);
    PadColumn(d, width);
    if |digits| == width && AllDigits(digits) {
      TrailingZeros(digits, 3 - width);
      BelowPower(digits);
      ReadThenPad(digits);
      ReadThenPad(digits + Zeros(3 - width));
      PadColumn(d * Pow10(3 - width), 3);
      ScaledEqual(ValueOf(digits), d, 3 - width);
    }
  }

  lemma ZerosAre(k: nat)
    ensures |Zeros(k)| == k
  {
  }

  lemma ScaledEqual(m: nat, n: nat, k: nat)
    requires k <= 2
    ensures m * Pow10(k) == n * Pow10(k) <==> m == n
  {
    PowersOfTen();
    assert Pow10(0) == 1;
  }

  /** Columns print as their fields, split after the seconds. */
  lemma PrintedSeconds(s: Stamp)
    requires s.Printable()
    ensures |WrittenSeconds(s)| == 19 && StampText(s) == WrittenSeconds(s) + "." + Pad(s.ms, 3) + "Z"
    ensures |Pad(s.ms, 3)| == 3
  {
    hide Pad;
    PowersOfTen();
    PadColumn(s.year, 4);
    PadColumn(s.month, 2);
    PadColumn(s.day, 2);
    PadColumn(s.hour, 2);
    PadColumn(s.minute, 2);
    PadColumn(s.second, 2);
    PadColumn(s.ms, 3);
    var x, y := StampText(s), WrittenSeconds(s) + "." + Pad(s.ms, 3) + "Z";
    assert x == y;
  }

  /** The fraction of a written text, filled up, is that of its milliseconds. */
  lemma FractionsFillUp(fraction: string, ms: int) returns (digits: string)
    requires IsFraction(fraction, ms)
    ensures 0 <= ms < 1_000 && |digits| <= 3 && AllDigits(digits) && digits + Zeros(3 - |digits|) == Pad(ms, 3)
    ensures fraction == if digits == "" then "" else "." + digits
  {
    hide Pad, Zeros;
    PowersOfTen();
    if fraction == "" && ms == 0 {
      digits := "";
      NoFraction();
    } else if d: nat :| d < 10 && fraction == "." + Pad(d, 1) && ms == 100 * d {
      digits := Pad(d, 1);
      FilledUp(digits, 1, d);
    } else if d: nat :| d < 100 && fraction == "." + Pad(d, 2) && ms == 10 * d {
      digits := Pad(d, 2);
      FilledUp(digits, 2, d);
    } else {
      digits := Pad(ms, 3);
      FilledUp(digits, 3, ms);
    }
  }

  lemma NoFraction()
    ensures "" + Zeros(3) == Pad(0, 3) && AllDigits("")
  {
    assert ToDecimal(0) == ['0'];
  }

  lemma DigitsAreAFraction(digits: string, ms: nat)
    requires |digits| <= 3 && AllDigits(digits) && ms < 1_000 && digits + Zeros(3 - |digits|) == Pad(ms, 3)
    ensures IsFraction(if digits == "" then "" else "." + digits, ms)
  {
    hide Pad, Zeros;
    PowersOfTen();
    var k := |digits|;
    if k == 0 {
      NoFraction();
      PadIsInjective(0, ms);
    } else {
      hide IsFraction;
      var d := ValueOf(digits);
      BelowPower(digits);
      ReadThenPad(digits);
      FilledUp(digits, k, d);
      PadIsInjective(d * Pow10(3 - k), ms);
      OneOfTheFractions("." + digits, k, d, ms);
    }
  }

  lemma PadIsInjective(m: nat, n: nat)
    requires m < 1_000 && n < 1_000 && Pad(m, 3) == Pad(n, 3)
    ensures m == n
  {
    hide Pad;
    PowersOfTen();
    PadColumn(m, 3);
    PadColumn(n, 3);
  }

  lemma OneOfTheFractions(fraction: string, width: nat, d: nat, ms: nat)
    requires 1 <= width <= 3 && d < Pow10(width) && fraction == "." + Pad(d, width)
    requires ms == d * Pow10(3 - width) < 1_000
    ensures IsFraction(fraction, ms)
  {
    hide Pad;
    PowersOfTen();
    assert Pow10(0) == 1;
  }

  /** What the pattern matches is what writes some fields, and the fields are those its canonical form reads as. */
  lemma MatchedMeansWritten(x: string, s: Stamp)
    ensures Writes(x, s) <==> MatchesPattern(x) && (CanonicalHasColumns(x); ReadStamp(Canonical(x)) == s)
  {
    hide WrittenSeconds, Pad, Zeros, StampText, ReadStamp, HasColumns, MatchesPattern, Canonical;
    if Writes(x, s) {
      var fraction :| IsFraction(fraction, s.ms) && x == WrittenSeconds(s) + fraction + "Z";
      WrittenIsMatched(x, s, fraction);
    }
    if MatchesPattern(x) {
      CanonicalHasColumns(x);
      MatchedIsWritten(x);
    }
  }

  lemma WrittenIsMatched(x: string, s: Stamp, fraction: string)
    requires s.Printable() && IsFraction(fraction, s.ms) && x == WrittenSeconds(s) + fraction + "Z"
    ensures MatchesPattern(x) && Canonical(x) == StampText(s)
    ensures HasColumns(StampText(s)) && ReadStamp(StampText(s)) == s
  {
    hide Pad, Zeros, StampText, ReadStamp, AllDigits, WrittenSeconds, IsFraction;
    var digits := FractionsFillUp(fraction, s.ms);
    PrintedSeconds(s);
    PrintedStampReadsBack(s);
    var c := StampText(s);
    assert x[..19] == WrittenSeconds(s) == c[..19];
    SameColumns(x, c, 0, 4);
    SameColumns(x, c, 5, 7);
    SameColumns(x, c, 8, 10);
    SameColumns(x, c, 11, 13);
    SameColumns(x, c, 14, 16);
    SameColumns(x, c, 17, 19);
    assert x[4] == c[4] && x[7] == c[7] && x[10] == c[10] && x[13] == c[13] && x[16] == c[16];
    if digits != "" {
      assert x[20..|x| - 1] == digits;
    }
  }

  lemma SameColumns(x: string, c: string, lo: nat, hi: nat)
    requires lo <= hi <= 19 <= |x| && 19 <= |c| && x[..19] == c[..19]
    ensures x[lo..hi] == c[lo..hi]
    ensures forall i :: 0 <= i < 19 ==> x[i] == c[i]
  {
    SliceOfPrefix(x, 19, lo, hi);
    SliceOfPrefix(c, 19, lo, hi);
    assert forall i :: 0 <= i < 19 ==> x[i] == x[..19][i] == c[..19][i] == c[i];
  }

  lemma MatchedIsWritten(x: string)
    requires MatchesPattern(x) && HasColumns(Canonical(x))
    ensures Writes(x, ReadStamp(Canonical(x)))
  {
    hide Pad, Zeros, StampText, ReadStamp, AllDigits, WrittenSeconds, IsFraction, HasColumns;
    var c := Canonical(x);
    ReadStampPrintsBack(c);
    var s := ReadStamp(c);
    PrintedSeconds(s);
    FractionDigits(x);
    var digits := if |x| == 20 then "" else x[20..|x| - 1];
    assert c[..19] == x[..19] && WrittenSeconds(s) == c[..19];
    assert c[20..23] == Fraction(x);
    assert (WrittenSeconds(s) + "." + Pad(s.ms, 3) + "Z")[20..23] == Pad(s.ms, 3);
    NoDigits();
    DigitsAreAFraction(digits, s.ms);
    var fraction := if digits == "" then "" else "." + digits;
    WholeText(x, WrittenSeconds(s), digits);
    assert IsFraction(fraction, s.ms) && x == WrittenSeconds(s) + fraction + "Z";
  }

  lemma WholeText(x: string, head: string, digits: string)
    requires MatchesPattern(x) && x[..19] == head && digits == if |x| == 20 then "" else x[20..|x| - 1]
    ensures x == head + (if digits == "" then "" else "." + digits) + "Z"
  {
    hide DigitsAt;
    if |x| == 20 {
      assert x == x[..19] + "Z";
    } else {
      assert x == x[..19] + ("." + x[20..|x| - 1]) + "Z";
    }
  }

  lemma NoDigits()
    ensures AllDigits("")
  {
  }

  /**
   For every date parser that reads ISO strings: a text is read as an instant exactly if it
   writes, with up to three digits of a second, the fields of that instant; the request
   parser calls it no instant if it writes no fields at all, and not valid if fields of no instant.
   */
  lemma InstantsAreReadExactly(x: string, path: Path, parse: DateParser)
    requires ReadsIsoStrings(parse)
    ensures forall t :: Instant(DateText(x), parse) == Some(t) <==>
                        exists s :: Writes(x, s) && s.Valid() && s.Instant() == t
    ensures forall t :: NullableUtcInstant(Text(x), path, parse) == Success(Some(t)) <==>
                        exists s :: Writes(x, s) && s.Valid() && s.Instant() == t
    ensures NullableUtcInstant(Text(x), path, parse) == Failure(NotAnInstant(path)) <==> forall s :: !Writes(x, s)
    ensures NullableUtcInstant(Text(x), path, parse) == Failure(NotAValidInstant(path)) <==>
              exists s :: Writes(x, s) && !s.Valid()
  {
    hide Writes, MatchesPattern, Canonical, ToIsoString, ReadStamp, HasColumns, Stamp.Valid, Stamp.Instant;
    forall s
      ensures Writes(x, s) <==> MatchesPattern(x) && (CanonicalHasColumns(x); ReadStamp(Canonical(x)) == s)
    {
      MatchedMeansWritten(x, s);
    }
    if MatchesPattern(x) {
      CanonicalHasColumns(x);
      assert Writes(x, ReadStamp(Canonical(x)));
    }
    ReprintDecides(x, parse);
    BothParsersAgree(x, path, parse);
  }

  lemma ThreeDigits(ms: nat)
    requires ms < 1_000
    ensures IsFraction("." + Pad(ms, 3), ms)
  {
  }

  /** Instants of four-digit years print as their fields. */
  lemma InstantsPrintAsTheirFields(t: int)
    requires 0 <= YearOf(t) <= 9_999
    ensures Writes(ToIsoString(t), StampOf(t)) && StampOf(t).Valid() && StampOf(t).Instant() == t
  {
    hide WrittenSeconds, Pad, StampOf, StampText, ToIsoString, Stamp.Valid, Stamp.Instant, HasColumns, ReadStamp;
    StampOfInstant(t);
    PrintedYears(t);
    var s := StampOf(t);
    PrintsAs(t, s);
    PrintedSeconds(s);
    var fraction := "." + Pad(s.ms, 3);
    ThreeDigits(s.ms);
    assert WrittenSeconds(s) + "." + Pad(s.ms, 3) + "Z" == WrittenSeconds(s) + fraction + "Z";
  }

  /** A printed instant parses back to itself exactly for the years 0 to 9999; others are turned away. */
  lemma PrintThenParse(t: int, parse: DateParser)
    requires ReadsIsoStrings(parse) && InRange(t)
    ensures Instant(DateText(ToIsoString(t)), parse) == if 0 <= YearOf(t) <= 9_999 then Some(t) else None
  {
    hide ToIsoString, StampOf, HasColumns, ReadStamp, StampText, Canonical, MatchesPattern, YearOf, IsDigit;
    var s := ToIsoString(t);
    PrintedYears(t);
    ReprintDecides(s, parse);
    if 0 <= YearOf(t) <= 9_999 {
      ColumnsMatchPattern(s);
      StampOfInstant(t);
    } else if MatchesPattern(s) {
      CanonicalHasColumns(s);
      PatternStartsWithDigit(s);
    }
  }

  lemma PatternStartsWithDigit(s: string)
    requires MatchesPattern(s)
    ensures IsDigit(s[0])
  {
    assert IsDigit(s[0..4][0]);
  }

  /** An accepted text, reprinted, is the text itself with its milliseconds filled up. */
  lemma ParseThenPrint(s: string, parse: DateParser)
    requires Instant(DateText(s), parse).Some?
    ensures MatchesPattern(s) && ToIsoString(Instant(DateText(s), parse).value) == Canonical(s)
    ensures |s| == 24 ==> ToIsoString(Instant(DateText(s), parse).value) == s
  {
    hide ToIsoString, Canonical, MatchesPattern;
    CanonicalHasColumns(s);
  }

  // ----- The room -----

  datatype OpenState = OpenState(enabled: bool, opensAt: DateLike, closesAt: DateLike, archivedAt: DateLike)

  predicate IsProgramCommunityOpen(settings: OpenState, now: TimeValue, parse: DateParser) {
    var opensAt := Instant(settings.opensAt, parse);
    var closesAt := Instant(settings.closesAt, parse);
    if || (!settings.opensAt.Missing? && opensAt.None?)
       || (!settings.closesAt.Missing? && closesAt.None?)
       || (!settings.archivedAt.Missing? && Instant(settings.archivedAt, parse).None?)
    then false
    else
      && settings.enabled
      && now.At?
      && opensAt.Some?
      && opensAt.value <= now.ms
      && (closesAt.None? || now.ms < closesAt.value)
      && settings.archivedAt.Missing?
  }

  /** The ISO form of a value, as a DTO carries it; an invalid `Date` has none and is left alone. */
  function IsoForm(v: DateLike): DateLike {
    match v
    case DateValue(At(t)) => DateText(ToIsoString(t))
    case _ => v
  }

  function IsoForms(s: OpenState): OpenState {
    OpenState(s.enabled, IsoForm(s.opensAt), IsoForm(s.closesAt), IsoForm(s.archivedAt))
  }

  predicate IsADate(v: DateLike) { v.DateValue? ==> IsDateValue(v.time) }

  /** A `Date` whose year takes four digits when printed. */
  predicate PrintsPlainly(v: DateLike) {
    v.DateValue? && v.time.At? ==> 0 <= YearOf(v.time.ms) <= 9_999
  }

  lemma IsoFormReads(v: DateLike, parse: DateParser)
    requires ReadsIsoStrings(parse) && IsADate(v)
    ensures PrintsPlainly(v) ==> Instant(IsoForm(v), parse) == Instant(v, parse)
    ensures !PrintsPlainly(v) ==> Instant(IsoForm(v), parse) == None
  {
    hide ToIsoString, YearOf, MatchesPattern, Canonical;
    match v
    case DateValue(At(t)) => PrintThenParse(t, parse);
    case _ =>
  }

  /**
   The predicate answers alike on dates and on their ISO strings, save that a room whose
   opening or closing year does not print in four digits reads as closed in ISO form.
   */
  lemma OpenAgreesOnIsoForms(s: OpenState, now: TimeValue, parse: DateParser)
    requires ReadsIsoStrings(parse)
    requires IsADate(s.opensAt) && IsADate(s.closesAt) && IsADate(s.archivedAt)
    ensures IsProgramCommunityOpen(IsoForms(s), now, parse) <==>
              IsProgramCommunityOpen(s, now, parse) && PrintsPlainly(s.opensAt) && PrintsPlainly(s.closesAt)
  {
    hide Instant, PrintsPlainly;
    IsoFormReads(s.opensAt, parse);
    IsoFormReads(s.closesAt, parse);
    IsoFormReads(s.archivedAt, parse);
    PlainIfMissing(s.opensAt);
    PlainIfMissing(s.closesAt);
    PlainIfMissing(s.archivedAt);
  }

  lemma PlainIfMissing(v: DateLike)
    ensures IsoForm(v).Missing? <==> v.Missing?
    ensures v.Missing? ==> PrintsPlainly(v)
  {
  }

  /** Open means enabled, not archived, and within a window whose stated ends can be read. */
  lemma OpenExactlyWhen(s: OpenState, now: TimeValue, parse: DateParser)
    ensures IsProgramCommunityOpen(s, now, parse) <==>
              && s.enabled && s.archivedAt.Missing? && now.At?
              && (exists o :: Instant(s.opensAt, parse) == Some(o) && o <= now.ms)
              && (s.closesAt.Missing? || exists c :: Instant(s.closesAt, parse) == Some(c) && now.ms < c)
  {
    hide MatchesPattern, Canonical, ToIsoString;
  }

  /** A room opened at the start of the year -1 is open by its dates, and closed once they travel as text. */
  lemma AncientRoomsReadAsClosed(parse: DateParser)
    requires ReadsIsoStrings(parse)
    ensures exists s, now :: IsProgramCommunityOpen(s, now, parse) && !IsProgramCommunityOpen(IsoForms(s), now, parse)
  {
    hide IsProgramCommunityOpen, YearOf, ReadsIsoStrings;
    hide FirstDay;
    var c := Civil(-1, 1, 1);
    var t := InstantOf(c, 0);
    InstantFields(c, 0);
    MonthOfYear(-1, 0);
    var s := OpenState(true, DateValue(At(t)), Missing, Missing);
    OpenExactlyWhen(s, At(t), parse);
    OpenAgreesOnIsoForms(s, At(t), parse);
    assert IsProgramCommunityOpen(s, At(t), parse) && !IsProgramCommunityOpen(IsoForms(s), At(t), parse);
  }

  // ----- Accepted updates -----

  datatype Window = Window(enabled: bool, opensAt: Option<int>, closesAt: Option<int>)

  /** The window of an update: both instants are parsed first, then their order is checked. */
  function ParseWindow(enabled: bool, opensAt: BodyValue, closesAt: BodyValue, parse: DateParser): Result<Window, Issue> {
    match NullableUtcInstant(opensAt, OpensAt, parse)
    case Failure(e) => Failure(e)
    case Success(opens) =>
      match NullableUtcInstant(closesAt, ClosesAt, parse)
      case Failure(e) => Failure(e)
      case Success(closes) =>
        if enabled && opens.None? then Failure(EnabledNeedsOpensAt)
        else if closes.Some? && opens.None? then Failure(ClosesAtNeedsOpensAt)
        else if opens.Some? && closes.Some? && closes.value <= opens.value then Failure(ClosesAtNotAfterOpensAt)
        else Success(Window(enabled, opens, closes))
  }

  /** Null stands for no instant, a text for the instant whose fields it writes. */
  ghost predicate StandsFor(v: BodyValue, o: Option<int>) {
    match v
    case Null => o.None?
    case Other => false
    case Text(x) => o.Some? && exists s :: Writes(x, s) && s.Valid() && s.Instant() == o.value
  }

  /** What there is to object to in a value by itself. */
  ghost predicate IsFaulty(v: BodyValue, path: Path, e: Issue) {
    match v
    case Null => false
    case Other => e == NotAnInstant(path)
    case Text(x) =>
      || (e == NotAnInstant(path) && forall s :: !Writes(x, s))
      || (e == NotAValidInstant(path) && exists s :: Writes(x, s) && !s.Valid())
  }

  lemma FieldsAreReadExactly(v: BodyValue, path: Path, parse: DateParser)
    requires ReadsIsoStrings(parse)
    ensures forall o :: NullableUtcInstant(v, path, parse) == Success(o) <==> StandsFor(v, o)
    ensures forall e :: NullableUtcInstant(v, path, parse) == Failure(e) <==> IsFaulty(v, path, e)
  {
    hide Writes, MatchesPattern, Canonical, ToIsoString, ReadsIsoStrings, Stamp.Valid, Stamp.Instant;
    match v
    case Text(x) => InstantsAreReadExactly(x, path, parse); BothParsersAgree(x, path, parse);
    case _ =>
  }

  /**
   An update is accepted, as a window, exactly if both ends stand for those of the window,
   an enabled room opens, and a room closes only after opening.
   */
  lemma WindowsAreAcceptedExactly(enabled: bool, opensAt: BodyValue, closesAt: BodyValue, parse: DateParser, w: Window)
    requires ReadsIsoStrings(parse)
    ensures ParseWindow(enabled, opensAt, closesAt, parse) == Success(w) <==>
              && w.enabled == enabled && StandsFor(opensAt, w.opensAt) && StandsFor(closesAt, w.closesAt)
              && (enabled ==> w.opensAt.Some?)
              && (w.closesAt.Some? ==> w.opensAt.Some? && w.opensAt.value < w.closesAt.value)
  {
    hide ReadsIsoStrings, NullableUtcInstant, StandsFor, IsFaulty;
    FieldsAreReadExactly(opensAt, OpensAt, parse);
    FieldsAreReadExactly(closesAt, ClosesAt, parse);
  }

  /** Otherwise the first objection counts: to the opening, to the closing, then to the two together. */
  lemma WindowsAreRefusedExactly(enabled: bool, opensAt: BodyValue, closesAt: BodyValue, parse: DateParser, e: Issue)
    requires ReadsIsoStrings(parse)
    ensures ParseWindow(enabled, opensAt, closesAt, parse) == Failure(e) <==>
              || IsFaulty(opensAt, OpensAt, e)
              || ((exists o :: StandsFor(opensAt, o)) && IsFaulty(closesAt, ClosesAt, e))
              || (exists o, c :: StandsFor(opensAt, o) && StandsFor(closesAt, c) &&
                    match e
                    case EnabledNeedsOpensAt => enabled && o.None?
                    case ClosesAtNeedsOpensAt => !enabled && c.Some? && o.None?
                    case ClosesAtNotAfterOpensAt => o.Some? && c.Some? && c.value <= o.value
                    case _ => false)
  {
    hide ReadsIsoStrings, NullableUtcInstant, StandsFor, IsFaulty;
    FieldsAreReadExactly(opensAt, OpensAt, parse);
    FieldsAreReadExactly(closesAt, ClosesAt, parse);
    OneReading(opensAt, OpensAt, parse);
    OneReading(closesAt, ClosesAt, parse);
  }

  lemma OneReading(v: BodyValue, path: Path, parse: DateParser)
    requires ReadsIsoStrings(parse)
    ensures forall o, o' :: StandsFor(v, o) && StandsFor(v, o') ==> o == o'
    ensures forall o, e :: !(StandsFor(v, o) && IsFaulty(v, path, e))
  {
    hide ReadsIsoStrings, NullableUtcInstant, StandsFor, IsFaulty;
    FieldsAreReadExactly(v, path, parse);
  }

  function StoredDate(v: Option<int>): DateLike {
    match v
    case None => Missing
    case Some(t) => DateValue(At(t))
  }

  function StoredText(v: Option<int>): DateLike {
    match v
    case None => Missing
    case Some(t) => DateText(ToIsoString(t))
  }

  lemma AcceptedInstantsPrintPlainly(v: BodyValue, path: Path, parse: DateParser)
    requires ReadsIsoStrings(parse)
    requires NullableUtcInstant(v, path, parse).Success? && NullableUtcInstant(v, path, parse).value.Some?
    ensures
      var t := NullableUtcInstant(v, path, parse).value.value;
      InRange(t) && 0 <= YearOf(t) <= 9_999
  {
    hide ToIsoString, YearOf, MatchesPattern, Canonical, NamesAnInstant;
    BothParsersAgree(v.s, path, parse);
    ReprintDecides(v.s, parse);
    NamedInstantIsPlain(v.s);
  }

  lemma NamedInstantIsPlain(s: string)
    requires NamesAnInstant(s)
    ensures InRange(NamedInstant(s)) && 0 <= YearOf(NamedInstant(s)) <= 9_999
  {
    hide MatchesPattern, Canonical, YearOf, ReadStamp, HasColumns, StampText;
    CanonicalHasColumns(s);
    var stamp := ReadStamp(Canonical(s));
    ReadStampPrintsBack(Canonical(s));
    InstantOfStamp(stamp);
    FourDigitYearsAreInRange(stamp);
  }

  /**
   Once accepted and stored, as dates or as text, an enabled window is open on a nonempty
   stretch of time, exactly from its opening to just before its closing; a disabled one never.
   */
  lemma AcceptedWindowsOpenAsStated(enabled: bool, opensAt: BodyValue, closesAt: BodyValue, parse: DateParser, now: TimeValue)
    requires ReadsIsoStrings(parse)
    requires ParseWindow(enabled, opensAt, closesAt, parse).Success?
    ensures
      var w := ParseWindow(enabled, opensAt, closesAt, parse).value;
      var asDates := OpenState(enabled, StoredDate(w.opensAt), StoredDate(w.closesAt), Missing);
      var asText := OpenState(enabled, StoredText(w.opensAt), StoredText(w.closesAt), Missing);
      && (enabled ==> w.opensAt.Some?)
      && (IsProgramCommunityOpen(asDates, now, parse) <==>
            enabled && now.At? && w.opensAt.value <= now.ms && (w.closesAt.Some? ==> now.ms < w.closesAt.value))
      && (IsProgramCommunityOpen(asText, now, parse) <==> IsProgramCommunityOpen(asDates, now, parse))
      && (enabled ==> IsProgramCommunityOpen(asDates, At(w.opensAt.value), parse))
  {
    hide NullableUtcInstant, ToIsoString, YearOf, MatchesPattern;
    var w := ParseWindow(enabled, opensAt, closesAt, parse).value;
    if w.opensAt.Some? { AcceptedInstantsPrintPlainly(opensAt, OpensAt, parse); }
    if w.closesAt.Some? { AcceptedInstantsPrintPlainly(closesAt, ClosesAt, parse); }
    var asDates := OpenState(enabled, StoredDate(w.opensAt), StoredDate(w.closesAt), Missing);
    OpenAgreesOnIsoForms(asDates, now, parse);
  }

  /** The assumption on parsers can be met: by one that reads the columns. */
  lemma ParsersExist()
    ensures exists parse :: ReadsIsoStrings(parse)
  {
    hide HasColumns, ReadStamp, ToIsoString, YearOf, StampOf;
    var parse: DateParser := s => if HasColumns(s) then TimeClip(ReadStamp(s).Instant()) else Invalid;
    forall t | 0 <= YearOf(t) <= 9_999
      ensures parse(ToIsoString(t)) == At(t)
    {
      PrintedYears(t);
      StampOfInstant(t);
      FourDigitYearsAreInRange(StampOf(t));
    }
    assert ReadsIsoStrings(parse);
  }
}
