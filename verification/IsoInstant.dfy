/**
 ISO instants: `Date.prototype.toISOString` (section 21.4.4.36 of ECMA-262) and the text
 of an instant to the millisecond.
 */
module IsoInstant {
  import opened AlumniDirectoryData
  import opened Calendar
  import opened Decimal

  /** Calendar and clock fields in UTC, to the millisecond. */
  datatype Stamp = Stamp(year: int, month: int, day: int, hour: int, minute: int, second: int, ms: int) {
    function Date(): Civil { Civil(year, month, day) }

    predicate Valid() {
      && Date().Valid()
      && 0 <= hour < 24 && 0 <= minute < 60 && 0 <= second < 60 && 0 <= ms < 1_000
    }

    /** Four digits hold the year. */
    predicate FourDigitYear() { 0 <= year <= 9_999 }

    /** The fields fit their columns, valid or not. */
    predicate Printable() {
      && FourDigitYear()
      && 0 <= month < 100 && 0 <= day < 100 && 0 <= hour < 100 && 0 <= minute < 100 && 0 <= second < 100
      && 0 <= ms < 1_000
    }

    function Instant(): int {
      DaysFromCivil(Date()) * MS_PER_DAY + MakeTime(hour, minute, second, ms)
    }
  }

  function StampOf(t: int): Stamp {
    var c := CivilFromDays(Day(t));
    Stamp(c.year, c.month, c.day, HourOf(t), MinuteOf(t), SecondOf(t), MillisecondOf(t))
  }

  /** Instants and valid fields correspond one to one. */
  lemma StampOfInstant(t: int)
    ensures StampOf(t).Valid() && StampOf(t).Instant() == t
    ensures StampOf(t).FourDigitYear() ==> StampOf(t).Printable()
  {
    hide HourOf, MinuteOf, SecondOf, MillisecondOf, MakeTime, TimeInDay, FirstDay, MonthOfDay, DayInMonth, MonthLength;
    TimeOfDayRoundTrip(t);
    var c := CivilFromDays(Day(t));
    NextMonth(12 * c.year + c.month - 1);
    assert StampOf(t).Date() == c;
  }

  lemma ClockFields(day: int, hour: int, minute: int, second: int, ms: int)
    requires 0 <= hour < 24 && 0 <= minute < 60 && 0 <= second < 60 && 0 <= ms < 1_000
    ensures
      var t := day * MS_PER_DAY + MakeTime(hour, minute, second, ms);
      && Day(t) == day && TimeInDay(t) == MakeTime(hour, minute, second, ms)
      && HourOf(t) == hour && MinuteOf(t) == minute && SecondOf(t) == second && MillisecondOf(t) == ms
  {
    hide TimeInDay;
    var x := MakeTime(hour, minute, second, ms);
    DayAndTime(day, x);
    Quotient(x, 3_600_000, hour);
    Quotient(x, 60_000, 60 * hour + minute);
    Quotient(60 * hour + minute, 60, hour);
    Quotient(x, 1_000, 60 * (60 * hour + minute) + second);
    Quotient(60 * (60 * hour + minute) + second, 60, 60 * hour + minute);
  }

  lemma InstantOfStamp(s: Stamp)
    requires s.Valid()
    ensures StampOf(s.Instant()) == s
    ensures YearOf(s.Instant()) == s.year
  {
    hide DaysFromCivil, CivilFromDays, TimeInDay, MakeTime, HourOf, MinuteOf, SecondOf, MillisecondOf, Day;
    ClockFields(DaysFromCivil(s.Date()), s.hour, s.minute, s.second, s.ms);
    CivilRoundTrip(s.Date());
    YearFromCivil(s.Instant());
  }

  lemma YearFromCivil(t: int)
    ensures YearOf(t) == CivilFromDays(Day(t)).year
  {
    hide MonthOfDay, DayInMonth;
  }

  lemma YearZero()
    ensures FirstDay(0) == -719_528
  {
    MonthOfYear(0, 0);
  }

  lemma DaysOfFourDigitYears(c: Civil)
    requires c.Valid() && 0 <= c.year <= 9_999
    ensures -1_000_000 < DaysFromCivil(c) < 4_000_000
  {
    hide FirstDay, MonthLength;
    var k := 12 * c.year + c.month - 1;
    YearZero();
    MonthsApart(0, k);
    NextMonth(k);
  }

  lemma FourDigitYearsAreInRange(s: Stamp)
    requires s.Valid() && s.FourDigitYear()
    ensures InRange(s.Instant())
  {
    hide DaysFromCivil, MonthLength;
    DaysOfFourDigitYears(s.Date());
  }

  // ----- Printing -----

  function DateColumns(year: nat, month: nat, day: nat): string {
    Pad(year, 4) + "-" + Pad(month, 2) + "-" + Pad(day, 2)
  }

  function TimeColumns(hour: nat, minute: nat, second: nat, ms: nat): string {
    Pad(hour, 2) + ":" + Pad(minute, 2) + ":" + Pad(second, 2) + "." + Pad(ms, 3)
  }

  function StampText(s: Stamp): string
    requires s.Printable()
  {
    DateColumns(s.year, s.month, s.day) + "T" + TimeColumns(s.hour, s.minute, s.second, s.ms) + "Z"
  }

  /** Years outside 0..9999 are printed with a sign and six digits. */
  function ExpandedText(s: Stamp): string
    requires s.Valid()
  {
    hide DayInMonth, MonthLength;
    [if s.year < 0 then '-' else '+'] + Pad(if s.year < 0 then -s.year else s.year, 6)
    + "-" + Pad(s.month, 2) + "-" + Pad(s.day, 2)
    + "T" + TimeColumns(s.hour, s.minute, s.second, s.ms) + "Z"
  }

  function ToIsoString(t: int): string {
    StampOfInstant(t);
    var s := StampOf(t);
    if s.FourDigitYear() then StampText(s) else ExpandedText(s)
  }

  // ----- Columns -----

  predicate DigitsAt(s: string, lo: int, hi: int) {
    0 <= lo <= hi <= |s| && AllDigits(s[lo..hi])
  }

  /** The 24 columns `YYYY-MM-DDTHH:mm:ss.sssZ`. */
  predicate HasColumns(s: string) {
    && |s| == 24
    && DigitsAt(s, 0, 4) && s[4] == '-' && DigitsAt(s, 5, 7) && s[7] == '-' && DigitsAt(s, 8, 10) && s[10] == 'T'
    && DigitsAt(s, 11, 13) && s[13] == ':' && DigitsAt(s, 14, 16) && s[16] == ':' && DigitsAt(s, 17, 19) && s[19] == '.'
    && DigitsAt(s, 20, 23) && s[23] == 'Z'
  }

  function ReadStamp(s: string): Stamp
    requires HasColumns(s)
  {
    Stamp(ValueOf(s[0..4]), ValueOf(s[5..7]), ValueOf(s[8..10]), ValueOf(s[11..13]), ValueOf(s[14..16]),
          ValueOf(s[17..19]), ValueOf(s[20..23]))
  }

  lemma PadColumn(n: nat, width: nat)
    requires 1 <= width && n < Pow10(width)
    ensures |Pad(n, width)| == width && AllDigits(Pad(n, width)) && ValueOf(Pad(n, width)) == n
  {
    PadWidth(n, width);
    PadThenRead(n, width);
  }

  lemma ReadColumn(s: string, width: nat)
    requires AllDigits(s) && |s| == width >= 1
    ensures ValueOf(s) < Pow10(width) && Pad(ValueOf(s), width) == s
  {
    BelowPower(s);
    ReadThenPad(s);
  }

  lemma DateColumnsAre(year: nat, month: nat, day: nat)
    requires year < 10_000 && month < 100 && day < 100
    ensures
      var d := DateColumns(year, month, day);
      && |d| == 10 && d[0..4] == Pad(year, 4) && d[4] == '-' && d[5..7] == Pad(month, 2) && d[7] == '-'
      && d[8..10] == Pad(day, 2)
  {
    hide Pad;
    PowersOfTen();
    PadColumn(year, 4);
    PadColumn(month, 2);
    PadColumn(day, 2);
  }

  lemma TimeColumnsAre(hour: nat, minute: nat, second: nat, ms: nat)
    requires hour < 100 && minute < 100 && second < 100 && ms < 1_000
    ensures
      var c := TimeColumns(hour, minute, second, ms);
      && |c| == 12 && c[0..2] == Pad(hour, 2) && c[2] == ':' && c[3..5] == Pad(minute, 2) && c[5] == ':'
      && c[6..8] == Pad(second, 2) && c[8] == '.' && c[9..12] == Pad(ms, 3)
  {
    hide Pad;
    PowersOfTen();
    PadColumn(hour, 2);
    PadColumn(minute, 2);
    PadColumn(second, 2);
    PadColumn(ms, 3);
  }

  lemma StampTextColumns(s: Stamp)
    requires s.Printable()
    ensures
      var x := StampText(s);
      && |x| == 24 && x[..10] == DateColumns(s.year, s.month, s.day) && x[10] == 'T'
      && x[11..23] == TimeColumns(s.hour, s.minute, s.second, s.ms) && x[23] == 'Z'
  {
    hide DateColumns, TimeColumns, Pad;
    DateColumnsAre(s.year, s.month, s.day);
    TimeColumnsAre(s.hour, s.minute, s.second, s.ms);
  }

  /** Printed fields read back. */
  lemma PrintedStampReadsBack(s: Stamp)
    requires s.Printable()
    ensures HasColumns(StampText(s)) && ReadStamp(StampText(s)) == s
  {
    hide DateColumns, TimeColumns, Pad, StampText, AllDigits;
    var x := StampText(s);
    StampTextColumns(s);
    DateColumnsAre(s.year, s.month, s.day);
    TimeColumnsAre(s.hour, s.minute, s.second, s.ms);
    PowersOfTen();
    PadColumn(s.year, 4);
    PadColumn(s.month, 2);
    PadColumn(s.day, 2);
    PadColumn(s.hour, 2);
    PadColumn(s.minute, 2);
    PadColumn(s.second, 2);
    PadColumn(s.ms, 3);
    SliceOfPrefix(x, 10, 0, 4);
    SliceOfPrefix(x, 10, 5, 7);
    SliceOfPrefix(x, 10, 8, 10);
    SliceOfMiddle(x, 11, 23, 0, 2);
    SliceOfMiddle(x, 11, 23, 3, 5);
    SliceOfMiddle(x, 11, 23, 6, 8);
    SliceOfMiddle(x, 11, 23, 9, 12);
    assert x[..10][4] == '-' && x[..10][7] == '-';
    assert x[11..23][2] == ':' && x[11..23][5] == ':' && x[11..23][8] == '.';
  }

  lemma SliceOfPrefix(x: string, n: nat, lo: nat, hi: nat)
    requires lo <= hi <= n <= |x|
    ensures x[..n][lo..hi] == x[lo..hi]
  {
  }

  lemma SliceOfMiddle(x: string, a: nat, b: nat, lo: nat, hi: nat)
    requires a <= b <= |x| && lo <= hi <= b - a
    ensures x[a..b][lo..hi] == x[a + lo..a + hi]
  {
    var u, v := x[a..b][lo..hi], x[a + lo..a + hi];
    assert |u| == |v|;
    forall i | 0 <= i < |u|
      ensures u[i] == v[i]
    {
      assert u[i] == x[a..b][lo + i] == x[a + lo + i] == v[i];
    }
  }

  /** Read columns print back. */
  lemma ReadStampPrintsBack(x: string)
    requires HasColumns(x)
    ensures ReadStamp(x).Printable() && StampText(ReadStamp(x)) == x
  {
    hide Pad, AllDigits, DateColumns, TimeColumns;
    var s := ReadStamp(x);
    PowersOfTen();
    ReadColumn(x[0..4], 4);
    ReadColumn(x[5..7], 2);
    ReadColumn(x[8..10], 2);
    ReadColumn(x[11..13], 2);
    ReadColumn(x[14..16], 2);
    ReadColumn(x[17..19], 2);
    ReadColumn(x[20..23], 3);
    DateFromColumns(x, s.year, s.month, s.day);
    TimeFromColumns(x, s.hour, s.minute, s.second, s.ms);
    assert x == x[0..10] + "T" + x[11..23] + "Z";
  }

  lemma DateFromColumns(x: string, year: nat, month: nat, day: nat)
    requires |x| == 24 && x[4] == '-' && x[7] == '-'
    requires Pad(year, 4) == x[0..4] && Pad(month, 2) == x[5..7] && Pad(day, 2) == x[8..10]
    ensures DateColumns(year, month, day) == x[0..10]
  {
    hide Pad;
    assert x[0..10] == x[0..4] + "-" + x[5..7] + "-" + x[8..10];
  }

  lemma TimeFromColumns(x: string, hour: nat, minute: nat, second: nat, ms: nat)
    requires |x| == 24 && x[13] == ':' && x[16] == ':' && x[19] == '.'
    requires Pad(hour, 2) == x[11..13] && Pad(minute, 2) == x[14..16] && Pad(second, 2) == x[17..19] && Pad(ms, 3) == x[20..23]
    ensures TimeColumns(hour, minute, second, ms) == x[11..23]
  {
    hide Pad;
    assert x[11..23] == x[11..13] + ":" + x[14..16] + ":" + x[17..19] + "." + x[20..23];
  }
}
