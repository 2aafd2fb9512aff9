/**
 The proleptic Gregorian calendar of section 21.4.1 of ECMA-262.

 A month is identified by its index `12 * year + month` (month 0 is January), so
 month overflow and underflow is plain integer arithmetic. `FirstDay` maps a month
 index to the day number of its first day, counted from 1 January 1970, by adding up
 month lengths; the standard's closed form is proved of it.
 */
module Calendar {

  const MS_PER_DAY: int := 86_400_000

  /** Largest absolute time value of a `Date`. */
  const MAX_TIME: int := 8_640_000_000_000_000

  // ----- Years and months -----

  predicate IsLeap(year: int) {
    year % 4 == 0 && (year % 100 != 0 || year % 400 == 0)
  }

  function YearLength(year: int): int {
    if IsLeap(year) then 366 else 365
  }

  /** The day number of 1 January, in closed form. */
  function DayFromYear(year: int): int {
    365 * (year - 1970) + (year - 1969) / 4 - (year - 1901) / 100 + (year - 1601) / 400
  }

  function DaysBefore(leap: bool, month: int): int
    requires 0 <= month < 12
  {
    var l := if leap then 1 else 0;
    if month == 0 then 0
    else if month == 1 then 31
    else if month == 2 then 59 + l
    else if month == 3 then 90 + l
    else if month == 4 then 120 + l
    else if month == 5 then 151 + l
    else if month == 6 then 181 + l
    else if month == 7 then 212 + l
    else if month == 8 then 243 + l
    else if month == 9 then 273 + l
    else if month == 10 then 304 + l
    else 334 + l
  }

  function LengthOf(leap: bool, month: int): int
    requires 0 <= month < 12
  {
    if month == 1 then (if leap then 29 else 28)
    else if month == 3 || month == 5 || month == 8 || month == 10 then 30
    else 31
  }

  function MonthLength(k: int): int {
    LengthOf(IsLeap(k / 12), k % 12)
  }

  /** The month of the epoch, January 1970. */
  const EPOCH_MONTH: int := 23_640

  /** The day number of the first of a month: the lengths of the months since the epoch, or until it. */
  function FirstDay(k: int): int
    decreases if k >= EPOCH_MONTH then k - EPOCH_MONTH else EPOCH_MONTH - k
  {
    if k == EPOCH_MONTH then 0
    else if k > EPOCH_MONTH then FirstDay(k - 1) + MonthLength(k - 1)
    else FirstDay(k + 1) - MonthLength(k)
  }

  lemma MultipleBound(b: int, d: int)
    requires 0 < b
    ensures d >= 1 ==> b * d >= b
    ensures d <= -1 ==> b * d <= -b
  {
  }

  /** `x / b == q` when `q` whole `b`s fit in `x` and no more. */
  lemma Quotient(x: int, b: int, q: int)
    requires 0 < b && b * q <= x < b * q + b
    ensures x / b == q && x % b == x - b * q
  {
    var d := x / b - q;
    assert x == b * (x / b) + x % b;
    assert b * d == b * (x / b) - b * q;
    MultipleBound(b, d);
  }

  /** A quotient goes up by one exactly at the multiples. */
  lemma QuotientStep(a: int, b: int)
    requires 1 < b
    ensures (a + 1) / b == a / b + if (a + 1) % b == 0 then 1 else 0
  {
    var q, r := a / b, a % b;
    assert a == b * q + r;
    if r == b - 1 {
      assert b * (q + 1) == b * q + b;
      Quotient(a + 1, b, q + 1);
    } else {
      Quotient(a + 1, b, q);
    }
  }

  lemma Shift(x: int, b: int, c: int)
    requires 0 < b
    ensures (x - b * c) % b == x % b
  {
    var q := x / b;
    assert x == b * q + x % b;
    assert b * (q - c) == b * q - b * c;
    Quotient(x - b * c, b, q - c);
  }

  /** How often a leap rule of period `b` has applied goes up by one after each year it applies to. */
  lemma LeapRuleStep(year: int, b: int, c: int)
    requires 1 < b
    ensures (year - b * c) / b == (year - 1 - b * c) / b + if year % b == 0 then 1 else 0
  {
    QuotientStep(year - 1 - b * c, b);
    Shift(year, b, c);
  }

  lemma YearStep(year: int)
    ensures DayFromYear(year + 1) == DayFromYear(year) + YearLength(year)
  {
    LeapRuleStep(year, 4, 492);
    LeapRuleStep(year, 100, 19);
    LeapRuleStep(year, 400, 4);
    LeapsAreCounted(year);
    var a, b, c := (year - 1969) / 4, (year - 1901) / 100, (year - 1601) / 400;
    var a', b', c' := (year - 1968) / 4, (year - 1900) / 100, (year - 1600) / 400;
    assert DayFromYear(year) == 365 * (year - 1970) + a - b + c;
    assert DayFromYear(year + 1) == 365 * (year - 1969) + a' - b' + c';
  }

  lemma LeapsAreCounted(year: int)
    ensures YearLength(year) ==
            365 + (if year % 4 == 0 then 1 else 0) - (if year % 100 == 0 then 1 else 0) + (if year % 400 == 0 then 1 else 0)
  {
    if year % 100 == 0 { Quotient(year, 4, 25 * (year / 100)); }
    if year % 400 == 0 { Quotient(year, 100, 4 * (year / 400)); }
  }

  /** The months tile the day line: each starts where the one before it ends. */
  lemma NextMonth(k: int)
    ensures FirstDay(k + 1) == FirstDay(k) + MonthLength(k)
    ensures 28 <= MonthLength(k) <= 31
  {
  }

  /** The closed form of the standard, proved from year to year in both directions. */
  lemma {:induction false} FirstDayInClosedForm(k: int)
    ensures FirstDay(k) == DayFromYear(k / 12) + DaysBefore(IsLeap(k / 12), k % 12)
    decreases if k >= EPOCH_MONTH then k - EPOCH_MONTH else EPOCH_MONTH - k
  {
    hide DayFromYear, IsLeap, MonthLength, DaysBefore;
    if k == EPOCH_MONTH {
      EpochIsDayZero();
    } else if k > EPOCH_MONTH {
      FirstDayInClosedForm(k - 1);
      ClosedFormStep(k - 1);
    } else {
      FirstDayInClosedForm(k + 1);
      ClosedFormStep(k);
    }
  }

  lemma EpochIsDayZero()
    ensures DayFromYear(1970) + DaysBefore(IsLeap(1970), 0) == 0
  {
  }

  lemma ClosedFormStep(k: int)
    ensures DayFromYear((k + 1) / 12) + DaysBefore(IsLeap((k + 1) / 12), (k + 1) % 12)
         == DayFromYear(k / 12) + DaysBefore(IsLeap(k / 12), k % 12) + MonthLength(k)
  {
    hide DayFromYear, IsLeap;
    var y, m := k / 12, k % 12;
    if m == 11 {
      Quotient(k + 1, 12, y + 1);
      YearStep(y);
    } else {
      Quotient(k + 1, 12, y);
    }
  }

  /** Each month takes between 28 and 31 days. */
  lemma {:induction false} MonthsApart(j: int, k: int)
    requires j <= k
    ensures FirstDay(j) + 28 * (k - j) <= FirstDay(k) <= FirstDay(j) + 31 * (k - j)
    decreases k - j
  {
    if j < k {
      MonthsApart(j, k - 1);
      NextMonth(k - 1);
    }
  }

  /** Later months start after the last day of earlier ones. */
  lemma LaterMonthStartsLater(j: int, k: int)
    requires j < k
    ensures FirstDay(j) + MonthLength(j) <= FirstDay(k)
  {
    NextMonth(j);
    MonthsApart(j + 1, k);
  }

  // ----- Days to months -----

  predicate InMonth(n: int, k: int) {
    FirstDay(k) <= n < FirstDay(k) + MonthLength(k)
  }

  lemma MonthIsUnique(n: int, j: int, k: int)
    requires InMonth(n, j) && InMonth(n, k)
    ensures j == k
  {
    if j < k { LaterMonthStartsLater(j, k); }
    if k < j { LaterMonthStartsLater(k, j); }
  }

  /** Where to look for the month of a day: months have 28 days or more. */
  predicate MonthInSight(n: int, k: int) {
    if n >= 0 then EPOCH_MONTH <= k <= EPOCH_MONTH + n / 28 else EPOCH_MONTH + n / 28 <= k < EPOCH_MONTH
  }

  lemma {:induction false} MonthExists(n: int)
    ensures exists k :: MonthInSight(n, k) && InMonth(n, k)
    decreases if n >= 0 then n else -n
  {
    hide MonthLength;
    if n == 0 {
      NextMonth(EPOCH_MONTH);
      assert InMonth(0, EPOCH_MONTH);
    } else if n > 0 {
      MonthExists(n - 1);
      var k :| MonthInSight(n - 1, k) && InMonth(n - 1, k);
      NextMonth(k);
      NextMonth(k + 1);
      MonthsApart(EPOCH_MONTH, k);
      MonthsApart(EPOCH_MONTH, k + 1);
      assert InMonth(n, k) || InMonth(n, k + 1);
    } else {
      if n == -1 {
        NextMonth(EPOCH_MONTH - 1);
        assert InMonth(-1, EPOCH_MONTH - 1);
      } else {
        MonthExists(n + 1);
        var k :| MonthInSight(n + 1, k) && InMonth(n + 1, k);
        NextMonth(k);
        NextMonth(k - 1);
        MonthsApart(k, EPOCH_MONTH);
        assert InMonth(n, k) || InMonth(n, k - 1);
      }
    }
  }

  lemma OnlyOneMonth(n: int)
    ensures forall j, k :: InMonth(n, j) && InMonth(n, k) ==> j == k
  {
    hide InMonth;
    forall j, k | InMonth(n, j) && InMonth(n, k)
      ensures j == k
    {
      MonthIsUnique(n, j, k);
    }
  }

  lemma MonthParts(year: int, month: int)
    requires 0 <= month < 12
    ensures (12 * year + month) / 12 == year && (12 * year + month) % 12 == month
  {
    Quotient(12 * year + month, 12, year);
  }

  lemma MonthOfYear(year: int, month: int)
    requires 0 <= month < 12
    ensures FirstDay(12 * year + month) == DayFromYear(year) + DaysBefore(IsLeap(year), month)
    ensures MonthLength(12 * year + month) == LengthOf(IsLeap(year), month)
  {
    hide DayFromYear, IsLeap, DaysBefore, LengthOf, FirstDay;
    MonthParts(year, month);
    FirstDayInClosedForm(12 * year + month);
  }

  /** A month and the same month a year later. */
  lemma YearAhead(year: int, month: int)
    requires 0 <= month < 12
    ensures FirstDay(12 * year + month + 12) - FirstDay(12 * year + month) == YearLength(if month <= 1 then year else year + 1)
    ensures MonthLength(12 * year + month + 12) == LengthOf(IsLeap(year + 1), month)
  {
    hide DayFromYear, IsLeap, FirstDay, MonthLength;
    MonthOfYear(year, month);
    MonthOfYear(year + 1, month);
    assert 12 * (year + 1) + month == 12 * year + month + 12;
    YearStep(year);
  }

  /** The index of the month holding day `n`. */
  function MonthOfDay(n: int): (k: int)
    ensures InMonth(n, k)
  {
    MonthExists(n);
    OnlyOneMonth(n);
    var k :| MonthInSight(n, k) && InMonth(n, k);
    k
  }

  function DayInMonth(n: int): (d: int)
    ensures 1 <= d <= MonthLength(MonthOfDay(n)) <= 31
    ensures n == FirstDay(MonthOfDay(n)) + d - 1
  {
    NextMonth(MonthOfDay(n));
    n - FirstDay(MonthOfDay(n)) + 1
  }

  // ----- Civil dates -----

  datatype Civil = Civil(year: int, month: int, day: int) {
    /** Months are numbered from 1, as in a written date. */
    predicate Valid() {
      1 <= month <= 12 && 1 <= day <= MonthLength(12 * year + month - 1)
    }
  }

  function DaysFromCivil(c: Civil): int {
    FirstDay(12 * c.year + c.month - 1) + c.day - 1
  }

  function CivilFromDays(n: int): (c: Civil)
    ensures c.Valid() && DaysFromCivil(c) == n
  {
    hide MonthOfDay, DayInMonth;
    var k := MonthOfDay(n);
    assert 12 * (k / 12) + k % 12 == k;
    Civil(k / 12, k % 12 + 1, DayInMonth(n))
  }

  /** Days and valid civil dates correspond one to one. */
  lemma CivilRoundTrip(c: Civil)
    requires c.Valid()
    ensures CivilFromDays(DaysFromCivil(c)) == c
  {
    var k := 12 * c.year + c.month - 1;
    var n := DaysFromCivil(c);
    assert InMonth(n, k);
    MonthIsUnique(n, k, MonthOfDay(n));
    assert k / 12 == c.year && k % 12 == c.month - 1;
  }

  lemma MonthOrder(m: int, n: int)
    requires m <= n
    ensures MonthOfDay(m) <= MonthOfDay(n)
    ensures MonthOfDay(m) == MonthOfDay(n) ==> DayInMonth(m) <= DayInMonth(n)
  {
    if MonthOfDay(n) < MonthOfDay(m) {
      LaterMonthStartsLater(MonthOfDay(n), MonthOfDay(m));
    }
  }

  // ----- Time values -----

  /** The `[[DateValue]]` of a `Date`: NaN, or milliseconds since the epoch. */
  datatype TimeValue = Invalid | At(ms: int)

  predicate InRange(ms: int) {
    -MAX_TIME <= ms <= MAX_TIME
  }

  /** Every `Date` holds either NaN or a time value in range. */
  predicate IsDateValue(t: TimeValue) {
    t.At? ==> InRange(t.ms)
  }

  function TimeClip(ms: int): TimeValue {
    if InRange(ms) then At(ms) else Invalid
  }

  function Day(ms: int): int { ms / MS_PER_DAY }

  function TimeInDay(ms: int): (r: int)
    ensures 0 <= r < MS_PER_DAY
    ensures ms == Day(ms) * MS_PER_DAY + r
  {
    ms % MS_PER_DAY
  }

  function MonthIndex(ms: int): int { MonthOfDay(Day(ms)) }

  function YearOf(ms: int): int { MonthIndex(ms) / 12 }

  function DateOf(ms: int): int { DayInMonth(Day(ms)) }

  lemma YearOrder(s: int, t: int)
    requires s <= t
    ensures YearOf(s) <= YearOf(t)
  {
    assert Day(s) <= Day(t);
    MonthOrder(Day(s), Day(t));
  }

  /** `MakeDay`: the month may be any integer and carries into the year; so may the date. */
  function MakeDay(year: int, month: int, date: int): int {
    FirstDay(12 * year + month) + date - 1
  }

  /** `MakeFullYear`, as used by `Date.UTC`: two-digit years mean the twentieth century. */
  function FullYear(year: int): int {
    if 0 <= year <= 99 then 1900 + year else year
  }

  function MakeTime(hour: int, minute: int, second: int, ms: int): int {
    hour * 3_600_000 + minute * 60_000 + second * 1_000 + ms
  }

  function DateUtc(year: int, month: int, date: int, hour: int, minute: int, second: int, ms: int): TimeValue {
    TimeClip(MakeDay(FullYear(year), month, date) * MS_PER_DAY + MakeTime(hour, minute, second, ms))
  }
}
