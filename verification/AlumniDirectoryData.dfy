/**
 Date arithmetic of `backend/src/contracts/alumniDirectoryData.ts`: calendar months in
 UTC with clamping to the month end, and fixed days.
 */
module AlumniDirectoryData {
  import opened Calendar
  import opened Outcomes

  const MAX_SAFE_INTEGER: int := 9_007_199_254_740_991

  /** First and last month that `AddUtcCalendarMonths` can land in: May -271821, August 275760. */
  const FIRST_MONTH: int := 12 * -271_821 + 4
  const LAST_MONTH: int := 12 * 275_760 + 7

  function Min(a: int, b: int): int { if a <= b then a else b }

  predicate IsSafeInteger(n: int) { -MAX_SAFE_INTEGER <= n <= MAX_SAFE_INTEGER }

  // ----- What "n calendar months later" means -----

  /** Day `d` of month `k`, or its last day when the month is shorter. */
  function ClampedDay(k: int, d: int): int {
    FirstDay(k) + Min(d, MonthLength(k)) - 1
  }

  /** The same time of day, in the month `n` later, on the same day or on the last day if that month is shorter. */
  function MonthsLater(t: int, n: int): int {
    ClampedDay(MonthIndex(t) + n, DateOf(t)) * MS_PER_DAY + TimeInDay(t)
  }

  lemma DayAndTime(day: int, time: int)
    requires 0 <= time < MS_PER_DAY
    ensures Day(day * MS_PER_DAY + time) == day && TimeInDay(day * MS_PER_DAY + time) == time
  {
  }

  lemma FieldsOfDay(day: int, time: int)
    requires 0 <= time < MS_PER_DAY
    ensures
      var t := day * MS_PER_DAY + time;
      Day(t) == day && MonthIndex(t) == MonthOfDay(day) && DateOf(t) == DayInMonth(day) && TimeInDay(t) == time
  {
    DayAndTime(day, time);
  }

  lemma ClampedDayFields(k: int, d: int)
    requires 1 <= d
    ensures MonthOfDay(ClampedDay(k, d)) == k
    ensures DayInMonth(ClampedDay(k, d)) == Min(d, MonthLength(k))
  {
    NextMonth(k);
    MonthIsUnique(ClampedDay(k, d), k, MonthOfDay(ClampedDay(k, d)));
  }

  lemma MonthsLaterFields(t: int, n: int)
    ensures
      var r := MonthsLater(t, n);
      && MonthIndex(r) == MonthIndex(t) + n
      && DateOf(r) == Min(DateOf(t), MonthLength(MonthIndex(t) + n))
      && TimeInDay(r) == TimeInDay(t)
      && Day(r) == ClampedDay(MonthIndex(t) + n, DateOf(t))
  {
    hide FirstDay, MonthLength, MonthOfDay, DayInMonth;
    ClampedDayFields(MonthIndex(t) + n, DateOf(t));
    FieldsOfDay(ClampedDay(MonthIndex(t) + n, DateOf(t)), TimeInDay(t));
  }

  lemma ClampedDayOrder(j: int, d: int, k: int, e: int)
    requires 1 <= d && 1 <= e
    requires j < k || (j == k && d <= e)
    ensures ClampedDay(j, d) <= ClampedDay(k, e)
  {
    if j < k {
      LaterMonthStartsLater(j, k);
      NextMonth(k);
    }
  }

  /** Adding months keeps the order of days, though not the order of instants within a day. */
  lemma MonthsLaterKeepsDayOrder(l: int, r: int, n: int)
    requires l <= r
    ensures Day(MonthsLater(l, n)) <= Day(MonthsLater(r, n))
    ensures MonthsLater(l, n) < MonthsLater(r, n) + MS_PER_DAY
  {
    hide FirstDay, MonthLength, MonthOfDay, DayInMonth, ClampedDay, MonthsLater;
    assert Day(l) <= Day(r);
    MonthOrder(Day(l), Day(r));
    MonthsLaterFields(l, n);
    MonthsLaterFields(r, n);
    ClampedDayOrder(MonthIndex(l) + n, DateOf(l), MonthIndex(r) + n, DateOf(r));
    InstantsOfOrderedDays(MonthsLater(l, n), MonthsLater(r, n));
  }

  /** Two days of one month, of which the later comes at the earlier time of day, and which clamping makes one day. */
  predicate Swaps(l: int, r: int, n: int) {
    && MonthIndex(l) == MonthIndex(r)
    && MonthLength(MonthIndex(l) + n) <= DateOf(l) < DateOf(r)
    && TimeInDay(r) < TimeInDay(l)
  }

  /** Clamping makes two days of different months never, and of one month exactly past its end, the same. */
  lemma ClampedDaysCoincide(j: int, d: int, k: int, e: int)
    requires 1 <= d && 1 <= e
    ensures ClampedDay(j, d) == ClampedDay(k, e) <==> j == k && Min(d, MonthLength(j)) == Min(e, MonthLength(k))
  {
    NextMonth(j);
    NextMonth(k);
    if j < k { LaterMonthStartsLater(j, k); }
    if k < j { LaterMonthStartsLater(k, j); }
  }

  /** Instants keep their order but for those that clamping puts on one day with their times of day reversed. */
  lemma MonthsLaterKeepsOrderUnlessSwapped(l: int, r: int, n: int)
    requires l <= r
    ensures MonthsLater(l, n) <= MonthsLater(r, n) <==> !Swaps(l, r, n)
  {
    hide FirstDay, MonthLength, MonthOfDay, DayInMonth, ClampedDay, MonthsLater;
    assert Day(l) <= Day(r);
    MonthOrder(Day(l), Day(r));
    MonthsLaterFields(l, n);
    MonthsLaterFields(r, n);
    ClampedDayOrder(MonthIndex(l) + n, DateOf(l), MonthIndex(r) + n, DateOf(r));
    ClampedDaysCoincide(MonthIndex(l) + n, DateOf(l), MonthIndex(r) + n, DateOf(r));
  }

  lemma InstantsOfOrderedDays(s: int, t: int)
    requires Day(s) <= Day(t)
    ensures s < t + MS_PER_DAY
  {
  }

  /** The days taken by `n` months: those of the whole months passed, less what clamping cuts off. */
  lemma MonthsLaterSpan(t: int, n: int)
    ensures
      var k := MonthIndex(t);
      var cut := DateOf(t) - Min(DateOf(t), MonthLength(k + n));
      MonthsLater(t, n) - t == (FirstDay(k + n) - FirstDay(k) - cut) * MS_PER_DAY
  {
    var k, d := MonthIndex(t), DateOf(t);
    assert t == (FirstDay(k) + d - 1) * MS_PER_DAY + TimeInDay(t);
  }

  // ----- The code -----

  function HourOf(t: int): int { TimeInDay(t) / 3_600_000 }
  function MinuteOf(t: int): int { TimeInDay(t) / 60_000 % 60 }
  function SecondOf(t: int): int { TimeInDay(t) / 1_000 % 60 }
  function MillisecondOf(t: int): int { TimeInDay(t) % 1_000 }

  lemma TimeOfDayRoundTrip(t: int)
    ensures MakeTime(HourOf(t), MinuteOf(t), SecondOf(t), MillisecondOf(t)) == TimeInDay(t)
    ensures 0 <= HourOf(t) < 24 && 0 <= MinuteOf(t) < 60 && 0 <= SecondOf(t) < 60 && 0 <= MillisecondOf(t) < 1_000
  {
    hide TimeInDay;
    var x := TimeInDay(t);
    var h := x / 3_600_000;
    var x' := x - h * 3_600_000;
    var m := x' / 60_000;
    var x'' := x' - m * 60_000;
    var s := x'' / 1_000;
    Quotient(x, 60_000, 60 * h + m);
    Quotient(60 * h + m, 60, h);
    Quotient(x, 1_000, 60 * (60 * h + m) + s);
    Quotient(60 * (60 * h + m) + s, 60, 60 * h + m);
  }

  datatype TypeError = NotASafeInteger

  /** A number that may be NaN, as the getters and setters of `Date` use it. */
  datatype Number = NaN | Num(n: int)

  /** A mutable `Date`. */
  class JsDate {
    var time: TimeValue

    constructor (t: TimeValue)
      ensures time == t
    {
      time := t;
    }

    function GetUTCDate(): Number
      reads this
    {
      match time
      case Invalid => NaN
      case At(ms) => Num(DateOf(ms))
    }

    /** `setUTCDate`: moves within the month held, keeping the time of day; NaN spoils the date. */
    method SetUTCDate(date: Number)
      modifies this
      ensures time == match (old(time), date)
                      case (At(ms), Num(d)) => TimeClip((FirstDay(MonthIndex(ms)) + d - 1) * MS_PER_DAY + TimeInDay(ms))
                      case (_, _) => Invalid
    {
      hide FirstDay, MonthOfDay, DayInMonth, TimeInDay;
      match (time, date) {
        case (At(ms), Num(d)) =>
          time := TimeClip(MakeDay(YearOf(ms), MonthIndex(ms) % 12, d) * MS_PER_DAY + TimeInDay(ms));
        case (_, _) =>
          time := Invalid;
      }
    }
  }

  /** `Date.UTC` of the fields of `t`, with the month moved and the day replaced. */
  function UtcFirstOfMonth(t: TimeValue, months: int): TimeValue {
    match t
    case Invalid => Invalid
    case At(ms) =>
      DateUtc(YearOf(ms), MonthIndex(ms) % 12 + months, 1, HourOf(ms), MinuteOf(ms), SecondOf(ms), MillisecondOf(ms))
  }

  /** "Day 0 of the next month": midnight on the last day of the month of `t`. */
  function UtcLastOfMonth(t: TimeValue): TimeValue {
    match t
    case Invalid => Invalid
    case At(ms) => DateUtc(YearOf(ms), MonthIndex(ms) % 12 + 1, 0, 0, 0, 0, 0)
  }

  /** The month `Date.UTC` is asked for, once two-digit years are read as the twentieth century. */
  function TargetMonth(t: int, n: int): int {
    12 * FullYear(YearOf(t)) + MonthIndex(t) % 12 + n
  }

  /** The month `Date.UTC` reads when it is given the year and month of month `k`. */
  function ReadMonth(k: int): int {
    12 * FullYear(k / 12) + k % 12
  }

  /** The length looked up for a month; it is wrong for February of year 0 only, which is read as 1900. */
  function LookedUpLength(k: int): int {
    MonthLength(ReadMonth(k))
  }

  /** The result of `addUtcCalendarMonths`, for every time value and every month count. */
  function AddUtcCalendarMonths(t: TimeValue, n: int): TimeValue
  {
    match t
    case Invalid => Invalid
    case At(ms) =>
      var k := TargetMonth(ms, n);
      if FIRST_MONTH <= k <= LAST_MONTH then
        At((FirstDay(k) + Min(DateOf(ms), LookedUpLength(k)) - 1) * MS_PER_DAY + TimeInDay(ms))
      else Invalid
  }

  lemma MonthRange()
    ensures FirstDay(FIRST_MONTH) == -99_999_989
    ensures FirstDay(LAST_MONTH + 1) == 99_999_988
    ensures MonthLength(FIRST_MONTH - 1) == 30
  {
    hide FirstDay, MonthLength;
    MonthOfYear(-271_821, 4);
    MonthOfYear(-271_821, 3);
    MonthOfYear(275_760, 8);
  }

  lemma LookedUpLengthIs(k: int)
    ensures LookedUpLength(k) == if k == 1 then 28 else MonthLength(k)
    ensures MonthLength(1) == 29
  {
    var y, m := k / 12, k % 12;
    assert k == 12 * y + m;
    var j := 12 * FullYear(y) + m;
    assert j / 12 == FullYear(y) && j % 12 == m;
    if 0 <= y <= 99 {
      assert IsLeap(1900 + y) == (IsLeap(y) && y != 0);
    }
  }

  /** Every day of a month in this range, at any time of day, is a time value in range. */
  lemma LandableDay(k: int, d: int, time: int)
    requires FIRST_MONTH <= k <= LAST_MONTH
    requires 1 <= d <= MonthLength(k) && 0 <= time < MS_PER_DAY
    ensures InRange((FirstDay(k) + d - 1) * MS_PER_DAY + time)
  {
    MonthRange();
    MonthsApart(FIRST_MONTH, k);
    MonthsApart(k + 1, LAST_MONTH + 1);
    NextMonth(k);
  }

  /** Which first-of-month instants exist: those from `FIRST_MONTH` to one month past `LAST_MONTH`. */
  lemma FirstOfMonthExists(k: int, time: int)
    requires 0 <= time < MS_PER_DAY
    ensures InRange(FirstDay(k) * MS_PER_DAY + time) <==> FIRST_MONTH <= k <= LAST_MONTH + 1
  {
    hide FirstDay, MonthLength;
    MonthRange();
    if k < FIRST_MONTH {
      NextMonth(FIRST_MONTH - 1);
      MonthsApart(k, FIRST_MONTH - 1);
    } else if k <= LAST_MONTH + 1 {
      MonthsApart(FIRST_MONTH, k);
      MonthsApart(k, LAST_MONTH + 1);
    } else {
      NextMonth(LAST_MONTH + 1);
      MonthsApart(LAST_MONTH + 2, k);
    }
  }

  lemma FirstOfMonth(ms: int, n: int)
    ensures
      var k := TargetMonth(ms, n);
      var first := FirstDay(k) * MS_PER_DAY + TimeInDay(ms);
      && UtcFirstOfMonth(At(ms), n) == (if FIRST_MONTH <= k <= LAST_MONTH + 1 then At(first) else Invalid)
      && MonthIndex(first) == k && TimeInDay(first) == TimeInDay(ms)
  {
    hide FirstDay, MonthLength, MonthOfDay, DayInMonth, TimeInDay, MonthIndex, DateOf, YearOf;
    hide HourOf, MinuteOf, SecondOf, MillisecondOf, FullYear, MakeTime, InRange;
    var k := TargetMonth(ms, n);
    TimeOfDayRoundTrip(ms);
    FirstOfMonthExists(k, TimeInDay(ms));
    ClampedDayFields(k, 1);
    NextMonth(k);
    assert ClampedDay(k, 1) == FirstDay(k);
    FieldsOfDay(FirstDay(k), TimeInDay(ms));
    assert 12 * FullYear(YearOf(ms)) + (MonthIndex(ms) % 12 + n) == k;
  }

  /** The month whose length is looked up is in range exactly when the month itself is. */
  lemma LookedUpMonth(k: int)
    requires FIRST_MONTH <= k <= LAST_MONTH + 1
    ensures
      var j := ReadMonth(k);
      FIRST_MONTH <= j <= LAST_MONTH + 1 && (j == LAST_MONTH + 1 <==> k == LAST_MONTH + 1)
  {
    var y := k / 12;
    assert k == 12 * y + k % 12;
  }

  lemma NoTime()
    ensures MakeTime(0, 0, 0, 0) == 0
  {
  }

  lemma DayZero(k: int)
    ensures MakeDay(FullYear(k / 12), k % 12 + 1, 0) == FirstDay(ReadMonth(k) + 1) - 1
  {
    hide FirstDay, FullYear;
  }

  lemma LastOfMonthIs(ms: int)
    ensures UtcLastOfMonth(At(ms)) == TimeClip((FirstDay(ReadMonth(MonthIndex(ms)) + 1) - 1) * MS_PER_DAY)
  {
    hide FirstDay, FullYear, MonthIndex, TimeClip, MakeTime, MakeDay, ReadMonth;
    DayZero(MonthIndex(ms));
    assert MakeTime(0, 0, 0, 0) == 0 by { NoTime(); }
  }

  lemma LastOfMonth(ms: int)
    requires FIRST_MONTH <= MonthIndex(ms) <= LAST_MONTH + 1
    ensures
      var k := MonthIndex(ms);
      if k == LAST_MONTH + 1 then UtcLastOfMonth(At(ms)) == Invalid
      else UtcLastOfMonth(At(ms)).At? && DateOf(UtcLastOfMonth(At(ms)).ms) == LookedUpLength(k)
  {
    hide FirstDay, MonthLength, MonthOfDay, DayInMonth, TimeInDay, DateOf, MonthIndex, UtcLastOfMonth, ReadMonth, FullYear;
    LastOfMonthIs(ms);
    var k := MonthIndex(ms);
    var j := ReadMonth(k);
    LookedUpMonth(k);
    NextMonth(j);
    var last := FirstDay(j + 1) - 1;
    if k == LAST_MONTH + 1 {
      MonthRange();
    } else {
      LandableDay(j, MonthLength(j), 0);
      ClampedDayFields(j, MonthLength(j));
      FieldsOfDay(last, 0);
    }
  }

  /** What the code's three steps compute, for every time value. */
  lemma AddMonthsSteps(t: TimeValue, n: int)
    requires IsDateValue(t)
    ensures
      var first := UtcFirstOfMonth(t, n);
      var last := UtcLastOfMonth(first);
      && (last.Invalid? ==> AddUtcCalendarMonths(t, n) == Invalid)
      && (last.At? ==>
            && t.At? && first.At?
            && AddUtcCalendarMonths(t, n) ==
               TimeClip((FirstDay(MonthIndex(first.ms)) + Min(DateOf(t.ms), DateOf(last.ms)) - 1) * MS_PER_DAY
                        + TimeInDay(first.ms)))
  {
    hide MonthOfDay, DayInMonth, MonthLength, FirstDay, TimeInDay, UtcFirstOfMonth, UtcLastOfMonth;
    match t
    case Invalid => assert UtcLastOfMonth(UtcFirstOfMonth(t, n)) == Invalid by { InvalidStays(n); }
    case At(ms) =>
      FirstOfMonth(ms, n);
      var k := TargetMonth(ms, n);
      if FIRST_MONTH <= k <= LAST_MONTH + 1 {
        LastOfMonth(UtcFirstOfMonth(t, n).ms);
        if k <= LAST_MONTH {
          LookedUpLengthIs(k);
          NextMonth(k);
          LandableDay(k, Min(DateOf(ms), LookedUpLength(k)), TimeInDay(ms));
        }
      } else {
        InvalidStays(n);
      }
  }

  lemma InvalidStays(n: int)
    ensures UtcFirstOfMonth(Invalid, n) == Invalid && UtcLastOfMonth(Invalid) == Invalid
  {
  }

  /** `addUtcCalendarMonths`, step by step as the code takes them. */
  method AddMonthsInPlace(value: JsDate, months: int) returns (r: Result<JsDate, TypeError>)
    requires IsDateValue(value.time)
    ensures r.Failure? <==> months <= -0x20_0000_0000_0000 || 0x20_0000_0000_0000 <= months
    ensures r.Success? ==> fresh(r.value) && r.value.time == AddUtcCalendarMonths(value.time, months)
  {
    hide AddUtcCalendarMonths, UtcFirstOfMonth, UtcLastOfMonth, MonthIndex, DateOf, TimeInDay, FirstDay;
    hide TimeClip, IsDateValue;
    if !IsSafeInteger(months) {
      return Failure(NotASafeInteger);
    }
    AddMonthsSteps(value.time, months);
    var target := new JsDate(UtcFirstOfMonth(value.time, months));
    var last := new JsDate(UtcLastOfMonth(target.time));
    var lastDay := last.GetUTCDate();
    var day := match (value.GetUTCDate(), lastDay)
               case (Num(d), Num(l)) => Num(Min(d, l))
               case (_, _) => NaN;
    target.SetUTCDate(day);
    r := Success(target);
  }

  // ----- When the code delivers calendar months -----

  /**
   The inputs on which the code keeps its promise: the year is not read as a two-digit
   one, the target is not 29 February of year 0, and the target month is in range.
   */
  predicate Faithful(t: int, n: int) {
    var k := MonthIndex(t) + n;
    && !(0 <= YearOf(t) <= 99)
    && !(k == 1 && DateOf(t) > 28)
    && FIRST_MONTH <= k <= LAST_MONTH
  }

  lemma TargetMonthIs(t: int, n: int)
    ensures TargetMonth(t, n) == MonthIndex(t) + n + if 0 <= YearOf(t) <= 99 then 22_800 else 0
  {
    hide MonthIndex;
    var k := MonthIndex(t);
    assert k == 12 * (k / 12) + k % 12;
  }

  /** The code returns the promised instant exactly on the faithful inputs. */
  lemma AddMonthsIsExactWhenFaithful(t: int, n: int)
    ensures AddUtcCalendarMonths(At(t), n) == At(MonthsLater(t, n)) <==> Faithful(t, n)
  {
    hide FirstDay, MonthLength, MonthIndex, DateOf, TimeInDay, YearOf, LookedUpLength, TargetMonth, MonthsLater;
    TargetMonthIs(t, n);
    var k, k' := MonthIndex(t) + n, TargetMonth(t, n);
    LookedUpLengthIs(k');
    MonthsLaterIs(t, n);
    if FIRST_MONTH <= k' <= LAST_MONTH {
      LandsIn(t, n);
    }
    MonthsLaterFields(t, n);
  }

  /** Where the code lands whenever it lands at all. */
  lemma LandsIn(t: int, n: int)
    requires FIRST_MONTH <= TargetMonth(t, n) <= LAST_MONTH
    ensures AddUtcCalendarMonths(At(t), n).At?
    ensures
      var r := AddUtcCalendarMonths(At(t), n).ms;
      MonthIndex(r) == TargetMonth(t, n) && DateOf(r) == Min(DateOf(t), LookedUpLength(TargetMonth(t, n)))
  {
    hide FirstDay, MonthLength, MonthIndex, TimeInDay, YearOf, LookedUpLength, TargetMonth, DayInMonth, MonthOfDay;
    var k := TargetMonth(t, n);
    var d := Min(DateOf(t), LookedUpLength(k));
    ShortestMonth(k);
    ClampedDayFields(k, d);
    FieldsOfDay(ClampedDay(k, d), TimeInDay(t));
  }

  lemma MonthsLaterIs(t: int, n: int)
    ensures
      var k := MonthIndex(t) + n;
      MonthsLater(t, n) == (FirstDay(k) + Min(DateOf(t), MonthLength(k)) - 1) * MS_PER_DAY + TimeInDay(t)
  {
    hide FirstDay, MonthLength, MonthIndex, DateOf, TimeInDay;
  }

  lemma FaithfulIsInRange(t: int, n: int)
    requires Faithful(t, n)
    ensures InRange(MonthsLater(t, n))
  {
    hide FirstDay, MonthLength, MonthOfDay, DayInMonth, TimeInDay, MonthsLater;
    MonthsLaterIs(t, n);
    NextMonth(MonthIndex(t) + n);
    LandableDay(MonthIndex(t) + n, Min(DateOf(t), MonthLength(MonthIndex(t) + n)), TimeInDay(t));
  }

  lemma ShortestMonth(k: int)
    ensures 28 <= LookedUpLength(k) <= MonthLength(k)
  {
    hide MonthLength, LookedUpLength;
    LookedUpLengthIs(k);
    NextMonth(k);
  }

  /** For years 0 to 99 the answer is 1900 years too late. */
  lemma TwoDigitYearsMoveBy1900(t: int, n: int)
    requires 0 <= YearOf(t) <= 99
    requires FIRST_MONTH <= MonthIndex(t) + 22_800 + n <= LAST_MONTH
    requires !(MonthIndex(t) + 22_800 + n == 1 && DateOf(t) > 28)
    ensures AddUtcCalendarMonths(At(t), n) == At(MonthsLater(t, n + 22_800))
  {
    hide FirstDay, MonthLength, MonthIndex, DateOf, TimeInDay, YearOf, LookedUpLength, TargetMonth, MonthsLater;
    TargetMonthIs(t, n);
    LookedUpLengthIs(TargetMonth(t, n));
    MonthsLaterIs(t, n + 22_800);
  }

  /** The fields of the result: exactly `n` months on, clamped to the month, at the same time of day. */
  lemma AddMonthsFields(t: int, n: int)
    requires Faithful(t, n)
    ensures AddUtcCalendarMonths(At(t), n).At?
    ensures
      var r := AddUtcCalendarMonths(At(t), n).ms;
      && MonthIndex(r) == MonthIndex(t) + n
      && DateOf(r) == Min(DateOf(t), MonthLength(MonthIndex(t) + n))
      && TimeInDay(r) == TimeInDay(t)
  {
    hide AddUtcCalendarMonths, MonthsLater, FirstDay, MonthLength, MonthIndex, DateOf, TimeInDay, Faithful;
    AddMonthsIsExactWhenFaithful(t, n);
    MonthsLaterFields(t, n);
  }

  /** The order of days survives, and instants never swap by a day or more. */
  lemma AddMonthsKeepsDayOrder(l: int, r: int, n: int)
    requires l <= r && Faithful(l, n) && Faithful(r, n)
    ensures AddUtcCalendarMonths(At(l), n).At? && AddUtcCalendarMonths(At(r), n).At?
    ensures
      var l', r' := AddUtcCalendarMonths(At(l), n).ms, AddUtcCalendarMonths(At(r), n).ms;
      Day(l') <= Day(r') && l' < r' + MS_PER_DAY
  {
    hide AddUtcCalendarMonths, MonthsLater, MonthIndex, Faithful;
    AddMonthsIsExactWhenFaithful(l, n);
    AddMonthsIsExactWhenFaithful(r, n);
    MonthsLaterKeepsDayOrder(l, r, n);
  }

  /** The order of instants survives exactly unless the two swap. */
  lemma AddMonthsKeepsOrderUnlessSwapped(l: int, r: int, n: int)
    requires l <= r && Faithful(l, n) && Faithful(r, n)
    ensures AddUtcCalendarMonths(At(l), n).At? && AddUtcCalendarMonths(At(r), n).At?
    ensures AddUtcCalendarMonths(At(l), n).ms <= AddUtcCalendarMonths(At(r), n).ms <==> !Swaps(l, r, n)
  {
    hide AddUtcCalendarMonths, MonthsLater, Swaps, Faithful;
    AddMonthsIsExactWhenFaithful(l, n);
    AddMonthsIsExactWhenFaithful(r, n);
    MonthsLaterKeepsOrderUnlessSwapped(l, r, n);
  }

  /** Adding in two steps never lands later, and lands short exactly when the stop in between cut the day. */
  lemma TwoSteps(t: int, a: int, b: int)
    ensures MonthsLater(MonthsLater(t, a), b) <= MonthsLater(t, a + b)
    ensures
      var k := MonthIndex(t);
      MonthsLater(MonthsLater(t, a), b) == MonthsLater(t, a + b) <==>
      (DateOf(t) <= MonthLength(k + a) || MonthLength(k + a + b) <= MonthLength(k + a))
  {
    hide FirstDay, MonthLength, MonthIndex, DateOf, TimeInDay, MonthsLater;
    MonthsLaterFields(t, a);
    MonthsLaterIs(MonthsLater(t, a), b);
    MonthsLaterIs(t, a + b);
  }

  lemma AddMonthsInTwoSteps(t: int, a: int, b: int)
    requires Faithful(t, a) && Faithful(MonthsLater(t, a), b) && Faithful(t, a + b)
    ensures AddUtcCalendarMonths(AddUtcCalendarMonths(At(t), a), b).At? && AddUtcCalendarMonths(At(t), a + b).At?
    ensures AddUtcCalendarMonths(AddUtcCalendarMonths(At(t), a), b).ms <= AddUtcCalendarMonths(At(t), a + b).ms
    ensures
      var k := MonthIndex(t);
      AddUtcCalendarMonths(AddUtcCalendarMonths(At(t), a), b) == AddUtcCalendarMonths(At(t), a + b) <==>
      (DateOf(t) <= MonthLength(k + a) || MonthLength(k + a + b) <= MonthLength(k + a))
    ensures DateOf(t) <= 28 ==>
              AddUtcCalendarMonths(AddUtcCalendarMonths(At(t), a), b) == AddUtcCalendarMonths(At(t), a + b)
  {
    hide AddUtcCalendarMonths, MonthsLater, MonthLength, MonthIndex, DateOf, Faithful;
    AddMonthsIsExactWhenFaithful(t, a);
    AddMonthsIsExactWhenFaithful(MonthsLater(t, a), b);
    AddMonthsIsExactWhenFaithful(t, a + b);
    TwoSteps(t, a, b);
    NextMonth(MonthIndex(t) + a);
  }

  /** Adding `n` months and taking them away again gives back the start exactly when the month between holds its day. */
  lemma AddMonthsUndone(t: int, n: int)
    requires Faithful(t, n) && Faithful(MonthsLater(t, n), -n)
    ensures AddUtcCalendarMonths(AddUtcCalendarMonths(At(t), n), -n) == At(t) <==> DateOf(t) <= MonthLength(MonthIndex(t) + n)
  {
    hide AddUtcCalendarMonths, MonthsLater, FirstDay, MonthLength, MonthIndex, DateOf, Faithful, TimeInDay;
    AddMonthsIsExactWhenFaithful(t, n);
    AddMonthsIsExactWhenFaithful(MonthsLater(t, n), -n);
    TwoSteps(t, n, -n);
    NoMonths(t);
  }

  lemma NoMonths(t: int)
    ensures MonthsLater(t, 0) == t
    ensures 1 <= DateOf(t) <= MonthLength(MonthIndex(t))
  {
    hide FirstDay, MonthLength, MonthOfDay, TimeInDay;
  }

  // ----- What fails, by example -----

  /** The instant of a written date and a time of day. */
  function InstantOf(c: Civil, time: int): int {
    DaysFromCivil(c) * MS_PER_DAY + time
  }

  lemma InstantFields(c: Civil, time: int)
    requires c.Valid() && 0 <= time < MS_PER_DAY
    ensures
      var t := InstantOf(c, time);
      MonthIndex(t) == 12 * c.year + c.month - 1 && YearOf(t) == c.year && DateOf(t) == c.day && TimeInDay(t) == time
  {
    hide FirstDay, MonthLength, MonthOfDay;
    var k := 12 * c.year + c.month - 1;
    FieldsOfDay(DaysFromCivil(c), time);
    MonthIsUnique(DaysFromCivil(c), k, MonthOfDay(DaysFromCivil(c)));
    MonthParts(c.year, c.month - 1);
  }

  /** 30 January 23:00 and 31 January 01:00 swap one month later: both come out on 28 February. */
  lemma InstantsCanSwap()
    ensures
      var l, r := InstantOf(Civil(2023, 1, 30), 82_800_000), InstantOf(Civil(2023, 1, 31), 3_600_000);
      && l < r
      && AddUtcCalendarMonths(At(l), 1) == At(InstantOf(Civil(2023, 2, 28), 82_800_000))
      && AddUtcCalendarMonths(At(r), 1) == At(InstantOf(Civil(2023, 2, 28), 3_600_000))
  {
    hide FirstDay, MonthOfDay, MonthIndex, DateOf, TimeInDay, YearOf, AddUtcCalendarMonths;
    var c, d := Civil(2023, 1, 30), Civil(2023, 1, 31);
    InstantFields(c, 82_800_000);
    InstantFields(d, 3_600_000);
    AddMonthsIsExactWhenFaithful(InstantOf(c, 82_800_000), 1);
    AddMonthsIsExactWhenFaithful(InstantOf(d, 3_600_000), 1);
  }

  /** Adding nothing to 1 January of the year 50 gives 1 January 1950. */
  lemma TwoDigitYearIsMisread()
    ensures
      var t := InstantOf(Civil(50, 1, 1), 0);
      AddUtcCalendarMonths(At(t), 0) == At(InstantOf(Civil(1950, 1, 1), 0))
  {
    hide FirstDay, MonthOfDay, MonthIndex, DateOf, TimeInDay, YearOf;
    InstantFields(Civil(50, 1, 1), 0);
    TargetMonthIs(InstantOf(Civil(50, 1, 1), 0), 0);
    LookedUpLengthIs(12 * 1950);
  }

  /** Four years after 29 February of the year -4 the code gives 28, not 29, February of the year 0. */
  lemma LeapDayOfYearZeroIsMissed()
    ensures
      var t := InstantOf(Civil(-4, 2, 29), 0);
      && AddUtcCalendarMonths(At(t), 48) == At(InstantOf(Civil(0, 2, 28), 0))
      && MonthsLater(t, 48) == InstantOf(Civil(0, 2, 29), 0)
  {
    hide FirstDay, MonthOfDay, MonthIndex, DateOf, TimeInDay, YearOf;
    InstantFields(Civil(-4, 2, 29), 0);
    TargetMonthIs(InstantOf(Civil(-4, 2, 29), 0), 48);
    LookedUpLengthIs(1);
  }

  /** Adding nothing to 30 April -271821 or to 1 September 275760, in the first and last month of the range, gives NaN. */
  lemma OutermostMonthsAreLost()
    ensures
      var first, last := InstantOf(Civil(-271_821, 4, 30), 0), InstantOf(Civil(275_760, 9, 1), 0);
      && InRange(first) && AddUtcCalendarMonths(At(first), 0) == Invalid
      && InRange(last) && AddUtcCalendarMonths(At(last), 0) == Invalid
  {
    hide FirstDay, MonthOfDay, MonthIndex, DateOf, TimeInDay, YearOf;
    InstantFields(Civil(-271_821, 4, 30), 0);
    InstantFields(Civil(275_760, 9, 1), 0);
    TargetMonthIs(InstantOf(Civil(-271_821, 4, 30), 0), 0);
    TargetMonthIs(InstantOf(Civil(275_760, 9, 1), 0), 0);
    MonthRange();
    NextMonth(FIRST_MONTH - 1);
  }

  // ----- Fixed days -----

  /** `addFixedDays`, for a safe integer of days. */
  function AddFixedDays(t: TimeValue, days: int): TimeValue {
    match t
    case Invalid => Invalid
    case At(ms) => TimeClip(ms + days * MS_PER_DAY)
  }

  /** `>` on dates compares time values; any comparison with NaN is false. */
  predicate IsAfter(a: TimeValue, b: TimeValue) {
    a.At? && b.At? && a.ms > b.ms
  }

  // ----- How long one and two years take -----

  /** The February met first from month `k` on decides whether the next twelve months hold a leap day. */
  lemma TwelveMonthsFrom(k: int)
    ensures FirstDay(k + 12) - FirstDay(k) == YearLength((k + 10) / 12)
  {
    hide FirstDay, YearLength;
    var y, m := k / 12, k % 12;
    assert k == 12 * y + m;
    YearAhead(y, m);
    if m <= 1 {
      Quotient(k + 10, 12, y);
    } else {
      Quotient(k + 10, 12, y + 1);
    }
  }

  lemma TwoYearsFrom(k: int)
    ensures FirstDay(k + 24) - FirstDay(k) == YearLength((k + 10) / 12) + YearLength((k + 10) / 12 + 1)
  {
    hide FirstDay, YearLength;
    TwelveMonthsFrom(k);
    TwelveMonthsFrom(k + 12);
    Quotient(k + 22, 12, (k + 10) / 12 + 1);
    assert k + 12 + 12 == k + 24;
  }

  lemma LeapYearsAreApart(y: int)
    ensures IsLeap(y) ==> !IsLeap(y + 1)
  {
  }

  lemma FebruaryYear(k: int)
    ensures k % 12 == 1 ==> (k + 10) / 12 == k / 12
  {
    if k % 12 == 1 { Quotient(k + 10, 12, k / 12); }
  }

  /** A 29 February, which clamping takes to the 28th. */
  predicate OnLeapDay(t: int) { MonthIndex(t) % 12 == 1 && DateOf(t) == 29 }

  /** Whether the February met next, counted from the month of `t`, is long; that of `t` itself does not count on its 29th. */
  predicate LeapDayAhead(t: int) { IsLeap((MonthIndex(t) + 10) / 12) && !OnLeapDay(t) }

  predicate LeapDayAheadInTwoYears(t: int) { LeapDayAhead(t) || IsLeap((MonthIndex(t) + 10) / 12 + 1) }

  /** One or two years on, clamping cuts a day off exactly from a 29 February. */
  lemma CutMeansLeapDay(k: int, d: int, n: int)
    requires (n == 12 || n == 24) && 1 <= d <= MonthLength(k)
    ensures d - Min(d, MonthLength(k + n)) == if k % 12 == 1 && d == 29 then 1 else 0
    ensures k % 12 == 1 && d == 29 ==> IsLeap((k + 10) / 12)
  {
    Quotient(k + n, 12, k / 12 + n / 12);
    FebruaryYear(k);
  }

  lemma TwoYearsTake(t: int)
    ensures MonthsLater(t, 24) - t == (730 + if LeapDayAheadInTwoYears(t) then 1 else 0) * MS_PER_DAY
  {
    hide FirstDay, MonthLength, MonthIndex, DateOf, MonthsLater, IsLeap;
    var k := MonthIndex(t);
    MonthsLaterSpan(t, 24);
    TwoYearsFrom(k);
    LeapYearsAreApart((k + 10) / 12);
    NoMonths(t);
    CutMeansLeapDay(k, DateOf(t), 24);
  }

  lemma OneYearTakes(t: int)
    ensures MonthsLater(t, 12) - t == (365 + if LeapDayAhead(t) then 1 else 0) * MS_PER_DAY
  {
    hide FirstDay, MonthLength, MonthIndex, DateOf, MonthsLater, IsLeap;
    var k := MonthIndex(t);
    MonthsLaterSpan(t, 12);
    TwelveMonthsFrom(k);
    NoMonths(t);
    CutMeansLeapDay(k, DateOf(t), 12);
  }

  /** Twelve calendar months take 365 days, and one more exactly with a leap day ahead. */
  lemma YearSpan(t: int)
    ensures t + 365 * MS_PER_DAY <= MonthsLater(t, 12) <= t + 366 * MS_PER_DAY
    ensures MonthsLater(t, 12) == t + 366 * MS_PER_DAY <==> LeapDayAhead(t)
  {
    hide MonthsLater, LeapDayAhead;
    OneYearTakes(t);
  }
}
