/**
 Wall clock to UTC (`shared/time/timezoneSearch.ts`): a search over a grid of quarter
 hours within a day of the naive reading, testing each point by formatting it in the zone.
 */
module TimezoneSearch {
  import opened AlumniDirectoryData
  import opened Calendar
  import opened Decimal
  import opened JsText
  import opened Outcomes

  const STEP_MS: int := 900_000
  const RANGE_MS: int := 86_400_000
  const MINUTE_MS: int := 60_000

  /** A zone gives, for each instant, the offset of its clocks from UTC in milliseconds. */
  type Zone = int -> int

  /** Clocks are never a day or more away from UTC, as in every IANA zone. */
  ghost predicate IsZone(z: Zone) {
    forall t :: -MS_PER_DAY < z(t) < MS_PER_DAY
  }

  /** Year, month, day, hour and minute: as asked for (any integers) or as a clock shows them. */
  datatype Wall = Wall(year: int, month: int, day: int, hour: int, minute: int) {
    function Date(): Civil { Civil(year, month, day) }

    predicate Valid() {
      Date().Valid() && 0 <= hour < 24 && 0 <= minute < 60
    }
  }

  function WallOf(local: int): Wall {
    var c := CivilFromDays(Day(local));
    Wall(c.year, c.month, c.day, HourOf(local), MinuteOf(local))
  }

  /** Clocks in zone `z` show `w` at instant `t`. */
  ghost predicate Shows(z: Zone, t: int, w: Wall) {
    WallOf(t + z(t)) == w
  }

  // ----- Reading the request -----

  function ParseSpec(date: string, time: string): Option<Wall> {
    var t := Split(time, ':');
    var d := Split(date, '-');
    if |t| < 2 || |d| < 3 then None
    else
      match (ParseInt(d[0]), ParseInt(d[1]), ParseInt(d[2]), ParseInt(t[0]), ParseInt(t[1]))
      case (Some(y), Some(mo), Some(day), Some(h), Some(m)) => Some(Wall(y, mo, day, h, m))
      case (_, _, _, _, _) => None
  }

  // ----- Formatting -----

  datatype Parts = Parts(year: string, month: string, day: string, hour: string, minute: string)

  function TargetParts(w: Wall): Parts {
    Parts(PadStart(IntText(w.year), 4), PadStart(IntText(w.month), 2), PadStart(IntText(w.day), 2),
          PadStart(IntText(w.hour), 2), PadStart(IntText(w.minute), 2))
  }

  /** Years before 1 are shown by their number in the era before. */
  function YearShown(year: int): nat { if year >= 1 then year else 1 - year }

  /** How `hour12: false` counts hours: from 00 to 23 or, in older editions of ECMA-402, from 01 to 24. */
  datatype HourCycle = H23 | H24

  function ShownHour(cycle: HourCycle, hour: nat): nat { if cycle.H24? && hour == 0 then 24 else hour }

  /** The reading that clocks show when the text asked for comes up. */
  function Sought(cycle: HourCycle, w: Wall): Wall {
    if cycle.H24? && w.hour == 24 then w.(hour := 0)
    else if cycle.H24? && w.hour == 0 then w.(hour := 24)
    else w
  }

  /** What the formatter shows: the year unpadded, the rest in two digits. */
  function FormatParts(cycle: HourCycle, z: Zone, t: int): Parts {
    var w := WallOf(t + z(t));
    assert w.month >= 0 && w.day >= 0 && w.hour >= 0 && w.minute >= 0 by { WallIsValid(t + z(t)); }
    Parts(ToDecimal(YearShown(w.year)), Pad(w.month, 2), Pad(w.day, 2), Pad(ShownHour(cycle, w.hour), 2), Pad(w.minute, 2))
  }

  lemma WallIsValid(local: int)
    ensures WallOf(local).Valid()
    ensures 0 <= WallOf(local).month < 100 && 0 <= WallOf(local).day < 100
  {
    hide DayInMonth, MonthOfDay, MonthLength;
    TimeOfDayRoundTrip(local);
    var c := CivilFromDays(Day(local));
    NextMonth(12 * c.year + c.month - 1);
  }

  predicate MatchesTarget(cycle: HourCycle, z: Zone, t: int, w: Wall) {
    FormatParts(cycle, z, t) == TargetParts(w)
  }

  lemma TwoDigitsAgree(v: int, n: int)
    requires 0 <= n < 100
    ensures PadStart(IntText(v), 2) == Pad(n, 2) <==> v == n
  {
    PadThenRead(n, 2);
    PowersOfTen();
    PadWidth(n, 2);
    if v >= 0 {
      PadThenRead(v, 2);
    } else {
      assert PadStart(IntText(v), 2)[0] == '-';
    }
  }

  /** The padded year asked for equals the unpadded year shown only from the year 1000 on. */
  lemma YearsAgree(v: int, n: nat)
    requires n >= 1
    ensures PadStart(IntText(v), 4) == ToDecimal(n) <==> v >= 1_000 && v == n
  {
    PowersOfTen();
    PrintThenRead(n);
    NoLeadingZero(n);
    if v < 0 {
      var s := IntText(v);
      assert PadStart(s, 4)[0] == '-' || PadStart(s, 4)[0] == '0';
    } else {
      PadThenRead(v, 4);
      DigitCount(v, 3);
      DigitCount(n, 3);
      PadWidth(v, 4);
    }
  }

  /** Formatting and comparing text decides whether the fields agree, up to the era of the year. */
  lemma MatchMeansFieldsAgree(cycle: HourCycle, z: Zone, t: int, w: Wall)
    ensures
      var s, sought := WallOf(t + z(t)), Sought(cycle, w);
      MatchesTarget(cycle, z, t, w) <==>
        && sought.year >= 1_000 && sought.year == YearShown(s.year)
        && sought.month == s.month && sought.day == s.day && sought.hour == s.hour && sought.minute == s.minute
  {
    hide WallOf, ToDecimal, PadStart, IntText, Pad;
    var s := WallOf(t + z(t));
    WallIsValid(t + z(t));
    YearsAgree(w.year, YearShown(s.year));
    TwoDigitsAgree(w.month, s.month);
    TwoDigitsAgree(w.day, s.day);
    TwoDigitsAgree(w.hour, ShownHour(cycle, s.hour));
    TwoDigitsAgree(w.minute, s.minute);
  }

  // ----- From fields to minutes -----

  /** The naive reading: the fields taken as UTC. */
  function NaiveBase(w: Wall): TimeValue {
    DateUtc(w.year, w.month - 1, w.day, w.hour, w.minute, 0, 0)
  }

  function BaseMs(w: Wall): int {
    DaysFromCivil(w.Date()) * MS_PER_DAY + w.hour * 3_600_000 + w.minute * MINUTE_MS
  }

  lemma NaiveBaseIs(w: Wall)
    requires !(0 <= w.year <= 99)
    ensures NaiveBase(w) == TimeClip(BaseMs(w))
  {
    hide FirstDay, TimeClip;
    assert 12 * w.year + (w.month - 1) == 12 * w.year + w.month - 1;
  }

  lemma WallStartsMinute(local: int)
    ensures BaseMs(WallOf(local)) <= local < BaseMs(WallOf(local)) + MINUTE_MS
  {
    hide DaysFromCivil, CivilFromDays, TimeInDay;
    TimeOfDayRoundTrip(local);
    var c := CivilFromDays(Day(local));
    assert WallOf(local).Date() == c;
  }

  lemma MinuteFields(day: int, hour: int, minute: int, rest: int)
    requires 0 <= hour < 24 && 0 <= minute < 60 && 0 <= rest < MINUTE_MS
    ensures
      var t := day * MS_PER_DAY + hour * 3_600_000 + minute * MINUTE_MS + rest;
      Day(t) == day && HourOf(t) == hour && MinuteOf(t) == minute
  {
    var x := hour * 3_600_000 + minute * MINUTE_MS + rest;
    DayAndTime(day, x);
    assert day * MS_PER_DAY + x == day * MS_PER_DAY + hour * 3_600_000 + minute * MINUTE_MS + rest;
    Quotient(x, 3_600_000, hour);
    Quotient(x, MINUTE_MS, 60 * hour + minute);
    Quotient(60 * hour + minute, 60, hour);
  }

  /** A clock shows a valid reading for exactly one minute of local time. */
  lemma ShownForOneMinute(local: int, w: Wall)
    ensures WallOf(local) == w <==> w.Valid() && BaseMs(w) <= local < BaseMs(w) + MINUTE_MS
  {
    hide DaysFromCivil, CivilFromDays, HourOf, MinuteOf, Day;
    WallIsValid(local);
    WallStartsMinute(local);
    if w.Valid() && BaseMs(w) <= local < BaseMs(w) + MINUTE_MS {
      CivilRoundTrip(w.Date());
      MinuteFields(DaysFromCivil(w.Date()), w.hour, w.minute, local - BaseMs(w));
    }
  }

  /** Two readings with equal month and day in distant years are far apart. */
  lemma FarYearsAreFarApart(v: Wall, w: Wall)
    requires v.month == w.month && v.day == w.day && v.hour == w.hour && v.minute == w.minute
    requires v.year + 1 <= w.year
    ensures BaseMs(v) + 300 * MS_PER_DAY <= BaseMs(w)
  {
    hide FirstDay;
    MonthsApart(12 * v.year + v.month - 1, 12 * w.year + w.month - 1);
  }

  /**
   Within a day of the naive base, a grid point matches as text exactly when the clocks
   there show the reading sought; and no year before 1000 ever matches.
   */
  lemma MatchMeansShows(cycle: HourCycle, z: Zone, t: int, w: Wall)
    requires IsZone(z)
    requires w.year >= 1_000 ==> BaseMs(w) - RANGE_MS <= t <= BaseMs(w) + RANGE_MS
    ensures MatchesTarget(cycle, z, t, w) <==> w.year >= 1_000 && Shows(z, t, Sought(cycle, w))
  {
    hide MatchesTarget, WallOf, BaseMs, Sought;
    var s, sought := WallOf(t + z(t)), Sought(cycle, w);
    MatchMeansFieldsAgree(cycle, z, t, w);
    SoughtIsNear(cycle, w);
    if w.year >= 1_000 && s.year < 1 {
      WallStartsMinute(t + z(t));
      if sought.month == s.month && sought.day == s.day && sought.hour == s.hour && sought.minute == s.minute {
        FarYearsAreFarApart(s, sought);
        assert false;
      }
    }
  }

  lemma SoughtIsNear(cycle: HourCycle, w: Wall)
    ensures Sought(cycle, w).year == w.year
    ensures BaseMs(w) - RANGE_MS <= BaseMs(Sought(cycle, w)) <= BaseMs(w) + RANGE_MS
  {
    hide DaysFromCivil;
  }

  // ----- The runtime's own zone -----

  /**
   The runtime's own clock (section 21.4.1.26 of ECMA-262): its offset from UTC at each
   instant, and the instant at which it is taken to show a given local time.
   */
  datatype LocalClock = LocalClock(offset: int -> int, utc: int -> int) {
    function Local(t: int): int { t + offset(t) }

    /** Some instant has this local time: clocks do not skip it. */
    ghost predicate Exists(local: int) { exists t :: Local(t) == local }

    /** Clocks set forward at instant `t`, by a minute or more and for as long as it takes, skip this local time. */
    ghost predicate SkippedAt(local: int, t: int) {
      && t + offset(t - 1) <= local < t + offset(t)
      && offset(t - 1) + MINUTE_MS <= offset(t)
      && forall u :: t <= u <= local - offset(t - 1) ==> offset(u) == offset(t)
    }

    /** A local time that exists is read as an instant that has it; a skipped one with the offset before the skip. */
    ghost predicate Valid() {
      && (forall local :: Exists(local) ==> Local(utc(local)) == local)
      && (forall local :: !Exists(local) ==> exists t :: SkippedAt(local, t) && utc(local) == local - offset(t - 1))
    }

    /** So a skipped local time becomes one at least a minute later. */
    lemma SkippedTimesComeLater(local: int)
      requires Valid() && !Exists(local)
      ensures Local(utc(local)) >= local + MINUTE_MS
    {
      var t :| SkippedAt(local, t) && utc(local) == local - offset(t - 1);
      assert offset(utc(local)) == offset(t);
    }
  }

  /** A mutable `Date` with its setters in local time. */
  class LocalDate {
    const clock: LocalClock
    var time: TimeValue

    constructor (clock: LocalClock, time: TimeValue)
      ensures this.clock == clock && this.time == time
    {
      this.clock, this.time := clock, time;
    }

    /** Moves to the date given, at the same local time of day; from NaN, at midnight. */
    method SetFullYear(year: int, month: int, date: int)
      modifies this
      ensures time == AfterSetFullYear(clock, old(time), year, month, date)
    {
      var timeInDay := match time
                       case Invalid => 0
                       case At(ms) => TimeInDay(clock.Local(ms));
      time := TimeClip(clock.utc(MakeDay(year, month, date) * MS_PER_DAY + timeInDay));
    }

    /** Moves to the time given on the same local day; NaN stays. */
    method SetHours(hour: int, minute: int, second: int, ms: int)
      modifies this
      ensures time == AfterSetHours(clock, old(time), hour, minute, second, ms)
    {
      if time.At? {
        time := TimeClip(clock.utc(Day(clock.Local(time.ms)) * MS_PER_DAY + MakeTime(hour, minute, second, ms)));
      }
    }
  }

  function AfterSetFullYear(clock: LocalClock, t: TimeValue, year: int, month: int, date: int): TimeValue {
    var timeInDay := match t
                     case Invalid => 0
                     case At(ms) => TimeInDay(clock.Local(ms));
    TimeClip(clock.utc(MakeDay(year, month, date) * MS_PER_DAY + timeInDay))
  }

  function AfterSetHours(clock: LocalClock, t: TimeValue, hour: int, minute: int, second: int, ms: int): TimeValue {
    match t
    case Invalid => Invalid
    case At(x) => TimeClip(clock.utc(Day(clock.Local(x)) * MS_PER_DAY + MakeTime(hour, minute, second, ms)))
  }

  /** The day asked for at the current local time of day: where the first setter goes. */
  function FirstStop(clock: LocalClock, now: int, w: Wall): int {
    clock.utc(DaysFromCivil(w.Date()) * MS_PER_DAY + TimeInDay(clock.Local(now)))
  }

  /** What the two setters make of the current instant. */
  function OwnReading(clock: LocalClock, now: int, w: Wall): TimeValue {
    var stop := FirstStop(clock, now, w);
    if !InRange(stop) then Invalid
    else TimeClip(clock.utc(Day(clock.Local(stop)) * MS_PER_DAY + w.hour * 3_600_000 + w.minute * MINUTE_MS))
  }

  lemma OwnReadingSteps(clock: LocalClock, now: int, w: Wall)
    ensures OwnReading(clock, now, w) ==
            AfterSetHours(clock, AfterSetFullYear(clock, At(now), w.year, w.month - 1, w.day), w.hour, w.minute, 0, 0)
  {
    hide FirstDay, TimeInDay, Day, InRange;
    assert 12 * w.year + (w.month - 1) == 12 * w.year + w.month - 1;
  }

  /** The current time of day exists on the day asked for, so that the first setter stays on that day. */
  predicate KeepsTheDay(clock: LocalClock, now: int, w: Wall) {
    Day(clock.Local(FirstStop(clock, now, w))) == DaysFromCivil(w.Date())
  }

  /**
   The instant returned shows the reading exactly when clocks do not skip it and the first
   setter keeps the day; which it does whenever the current time of day exists on the day
   asked for.
   */
  lemma OwnReadingShowsExactlyWhen(clock: LocalClock, now: int, w: Wall)
    requires clock.Valid() && w.Valid() && OwnReading(clock, now, w).At?
    ensures Shows(clock.offset, OwnReading(clock, now, w).ms, w) <==> clock.Exists(BaseMs(w)) && KeepsTheDay(clock, now, w)
    ensures clock.Exists(DaysFromCivil(w.Date()) * MS_PER_DAY + TimeInDay(clock.Local(now))) ==> KeepsTheDay(clock, now, w)
  {
    hide DaysFromCivil, WallOf, TimeInDay, LocalClock.Valid, LocalClock.Exists;
    var first := DaysFromCivil(w.Date()) * MS_PER_DAY + TimeInDay(clock.Local(now));
    var stop := FirstStop(clock, now, w);
    var local := Day(clock.Local(stop)) * MS_PER_DAY + w.hour * 3_600_000 + w.minute * MINUTE_MS;
    DayAndTime(DaysFromCivil(w.Date()), TimeInDay(clock.Local(now)));
    ReadTimes(clock, first);
    ReadTimes(clock, local);
    assert Day(first) <= Day(clock.Local(stop));
    ShownForOneMinute(clock.Local(clock.utc(local)), w);
  }

  lemma ReadTimes(clock: LocalClock, local: int)
    requires clock.Valid()
    ensures clock.Exists(local) ==> clock.Local(clock.utc(local)) == local
    ensures !clock.Exists(local) ==> clock.Local(clock.utc(local)) >= local + MINUTE_MS
  {
    if !clock.Exists(local) { clock.SkippedTimesComeLater(local); }
  }

  /** Clocks set forward from 23:30 to 00:30 in the night of 1 January 1970, as section 21.4.1.26 of ECMA-262 reads them. */
  const SPRING_CLOCK: LocalClock :=
    LocalClock(t => if t < 84_600_000 then 0 else 3_600_000, x => if x < 88_200_000 then x else x - 3_600_000)

  lemma SpringClockIsValid()
    ensures SPRING_CLOCK.Valid()
  {
    forall local | !SPRING_CLOCK.Exists(local)
      ensures SPRING_CLOCK.SkippedAt(local, 84_600_000) && SPRING_CLOCK.utc(local) == local - SPRING_CLOCK.offset(84_599_999)
    {
      assert SPRING_CLOCK.Local(local) == local || local >= 84_600_000;
      assert SPRING_CLOCK.Local(local - 3_600_000) == local || local < 88_200_000;
    }
  }

  lemma DaysOfExample()
    ensures BaseMs(Wall(1970, 1, 1, 12, 0)) == 43_200_000 && BaseMs(Wall(1970, 1, 2, 12, 0)) == 129_600_000
    ensures Wall(1970, 1, 2, 12, 0).Valid()
    ensures DaysFromCivil(Civil(1970, 1, 1)) == 0
  {
  }

  /** With such clocks, asking at a quarter to midnight for noon of that day, which they do show, gives noon of the next. */
  lemma OwnReadingMayBeADayLate()
    ensures SPRING_CLOCK.Valid() && SPRING_CLOCK.Exists(BaseMs(Wall(1970, 1, 1, 12, 0)))
    ensures OwnReading(SPRING_CLOCK, -900_000, Wall(1970, 1, 1, 12, 0)).At?
    ensures Shows(SPRING_CLOCK.offset, OwnReading(SPRING_CLOCK, -900_000, Wall(1970, 1, 1, 12, 0)).ms, Wall(1970, 1, 2, 12, 0))
  {
    hide WallOf, BaseMs, DaysFromCivil, LocalClock.Valid;
    SpringClockIsValid();
    DaysOfExample();
    assert SPRING_CLOCK.Local(43_200_000) == 43_200_000;
    DayAndTime(-1, 85_500_000);
    DayAndTime(1, 2_700_000);
    assert FirstStop(SPRING_CLOCK, -900_000, Wall(1970, 1, 1, 12, 0)) == 85_500_000;
    assert OwnReading(SPRING_CLOCK, -900_000, Wall(1970, 1, 1, 12, 0)) == At(126_000_000);
    ShownForOneMinute(129_600_000, Wall(1970, 1, 2, 12, 0));
  }

  // ----- The grid -----

  /** The quarter hours from a day before the base to a day after. */
  predicate OnGrid(base: int, t: int) {
    (t - base) % STEP_MS == 0 && -RANGE_MS <= t - base <= RANGE_MS
  }

  /** The grid runs up to `t` without a match and without leaving the range of dates. */
  ghost predicate NothingBefore(cycle: HourCycle, z: Zone, w: Wall, base: int, t: int) {
    forall s :: OnGrid(base, s) && s < t ==> InRange(s) && !MatchesTarget(cycle, z, s, w)
  }

  /**
   What the search returns, grid point by grid point: the first match; or null if a point
   beyond the range of dates comes first; or, past the end of the grid, the base.
   */
  ghost predicate IsSearchResult(cycle: HourCycle, z: Zone, w: Wall, base: int, r: Option<int>) {
    match r
    case Some(t) =>
      || (OnGrid(base, t) && InRange(t) && MatchesTarget(cycle, z, t, w) && NothingBefore(cycle, z, w, base, t))
      || (t == base && NothingBefore(cycle, z, w, base, base + RANGE_MS + 1))
    case None =>
      exists t :: OnGrid(base, t) && !InRange(t) && NothingBefore(cycle, z, w, base, t)
  }

  /** There is only one such result. */
  lemma SearchResultIsUnique(cycle: HourCycle, z: Zone, w: Wall, base: int, r: Option<int>, r': Option<int>)
    requires IsSearchResult(cycle, z, w, base, r) && IsSearchResult(cycle, z, w, base, r')
    ensures r == r'
  {
    hide MatchesTarget;
    assert OnGrid(base, base);
  }

  /** The instant found, if any; the search never yields an invalid date. */
  function Found(r: Option<TimeValue>): Option<int> {
    match r
    case Some(At(t)) => Some(t)
    case _ => None
  }

  /** The time zone asked for: none, or a name that may be unknown. */
  datatype ZoneAsked = NoZone | UnknownZone | InZone(zone: Zone)

  /** `findUtcInstantFromLocal`, in the runtime's own zone when none is asked for. */
  method FindUtcInstantFromLocal(
      date: string, time: string, asked: ZoneAsked, cycle: HourCycle, own: LocalClock, now: int)
    returns (r: Option<TimeValue>)
    ensures ParseSpec(date, time).None? ==> r == None
    ensures ParseSpec(date, time).Some? && asked.NoZone? ==> r == Some(OwnReading(own, now, ParseSpec(date, time).value))
    ensures ParseSpec(date, time).Some? && asked.UnknownZone? ==> r == None
    ensures ParseSpec(date, time).Some? && asked.InZone? && NaiveBase(ParseSpec(date, time).value).Invalid? ==> r == None
    ensures ParseSpec(date, time).Some? && asked.InZone? && NaiveBase(ParseSpec(date, time).value).At? ==>
              var w := ParseSpec(date, time).value;
              (r.Some? ==> r.value.At?) && IsSearchResult(cycle, asked.zone, w, NaiveBase(w).ms, Found(r))
  {
    hide NaiveBase, MatchesTarget, ParseSpec, OwnReading;
    var spec := ParseSpec(date, time);
    if spec.None? {
      return None;
    }
    var w := spec.value;
    if asked.NoZone? {
      var own' := new LocalDate(own, At(now));
      own'.SetFullYear(w.year, w.month - 1, w.day);
      own'.SetHours(w.hour, w.minute, 0, 0);
      OwnReadingSteps(own, now, w);
      return Some(own'.time);
    }
    if asked.UnknownZone? {
      return None;
    }
    var z := asked.zone;
    var naive := NaiveBase(w);
    if naive.Invalid? {
      return None;
    }
    var base := naive.ms;
    var found := None;
    var offset := -RANGE_MS;
    while offset <= RANGE_MS
      invariant found == None
      invariant offset % STEP_MS == 0 && -RANGE_MS <= offset <= RANGE_MS + STEP_MS
      invariant NothingBefore(cycle, z, w, base, base + offset)
      decreases RANGE_MS - offset
    {
      var ts := base + offset;
      GridHasNoGaps(base, offset);
      if !InRange(ts) {
        return None;
      }
      if MatchesTarget(cycle, z, ts, w) {
        found := Some(At(ts));
        break;
      }
      offset := offset + STEP_MS;
    }
    r := if found.Some? then found else Some(At(base));
  }

  lemma GridHasNoGaps(base: int, offset: int)
    requires offset % STEP_MS == 0
    ensures (offset + STEP_MS) % STEP_MS == 0
    ensures forall s :: OnGrid(base, s) && s < base + offset + STEP_MS ==> s <= base + offset
  {
    forall s | OnGrid(base, s) && s < base + offset + STEP_MS
      ensures s <= base + offset
    {
      if base + offset < s {
        var q := offset / STEP_MS;
        Quotient(s - base, STEP_MS, q);
      }
    }
  }

  // ----- What the search promises -----

  predicate Aligned(t: int) { t % MINUTE_MS == 0 }

  /** An offset whose whole minutes are a multiple of fifteen. */
  predicate QuarterHours(offset: int) {
    offset / MINUTE_MS % 15 == 0
  }

  /** The instants the search can find: whole minutes showing the reading at a quarter-hour offset. */
  ghost predicate Findable(z: Zone, t: int, w: Wall) {
    Aligned(t) && Shows(z, t, w) && QuarterHours(z(t))
  }

  lemma BaseIsAligned(w: Wall)
    ensures Aligned(BaseMs(w))
  {
    hide DaysFromCivil;
    Quotient(BaseMs(w), MINUTE_MS, 1_440 * DaysFromCivil(w.Date()) + 60 * w.hour + w.minute);
  }

  lemma OffsetToTheMinute(offset: int, d: int)
    requires d % MINUTE_MS == 0 && d <= offset < d + MINUTE_MS
    ensures QuarterHours(offset) <==> d % STEP_MS == 0
  {
    var q := d / MINUTE_MS;
    Quotient(offset, MINUTE_MS, q);
    if d % STEP_MS == 0 { Quotient(q, 15, d / STEP_MS); }
    if q % 15 == 0 { Quotient(d, STEP_MS, q / 15); }
  }

  /** Distances by whole steps are whole steps in both directions. */
  lemma StepsBothWays(x: int)
    ensures x % STEP_MS == 0 <==> (-x) % STEP_MS == 0
    ensures x % STEP_MS == 0 ==> x % MINUTE_MS == 0
  {
    var q := x / STEP_MS;
    if x % STEP_MS == 0 {
      Quotient(-x, STEP_MS, -q);
      Quotient(x, MINUTE_MS, 15 * q);
    }
    var p := -x / STEP_MS;
    if (-x) % STEP_MS == 0 {
      Quotient(x, STEP_MS, -p);
    }
  }

  lemma MinuteSums(x: int, y: int)
    requires x % MINUTE_MS == 0
    ensures (x + y) % MINUTE_MS == 0 <==> y % MINUTE_MS == 0
    ensures (x - y) % MINUTE_MS == 0 <==> y % MINUTE_MS == 0
  {
    var q := x / MINUTE_MS;
    Shift(y, MINUTE_MS, -q);
    Shift(-y, MINUTE_MS, -q);
    var p := y / MINUTE_MS;
    if y % MINUTE_MS == 0 { Quotient(-y, MINUTE_MS, -p); }
    var p' := -y / MINUTE_MS;
    if (-y) % MINUTE_MS == 0 { Quotient(y, MINUTE_MS, -p'); }
  }

  /** Among the whole minutes that show a reading, the grid holds exactly those at quarter-hour offsets. */
  lemma GridHoldsQuarterHours(z: Zone, t: int, w: Wall)
    requires IsZone(z) && Shows(z, t, w)
    ensures Aligned(t) ==> (OnGrid(BaseMs(w), t) <==> QuarterHours(z(t)))
    ensures OnGrid(BaseMs(w), t) ==> Aligned(t)
  {
    hide BaseMs, WallOf;
    var base := BaseMs(w);
    ShownForOneMinute(t + z(t), w);
    BaseIsAligned(w);
    StepsBothWays(base - t);
    MinuteSums(base, t);
    if Aligned(t) {
      OffsetToTheMinute(z(t), base - t);
    }
  }

  /** Room for the whole grid among the dates; it holds for the years up to 275759. */
  predicate GridInRange(base: int) {
    InRange(base - MS_PER_DAY) && InRange(base + MS_PER_DAY)
  }

  /** The readings whose text clocks show when they show the reading: from the year 1000 on, save midnight under h24. */
  predicate IsAskable(cycle: HourCycle, w: Wall) { w.year >= 1_000 && Sought(cycle, w) == w }

  /**
   For every zone and every reading that can be asked for: the search returns the earliest
   of the whole minutes that show the reading at a quarter-hour offset, and falls back to
   the naive base, which then does not show it, exactly when there is none.
   */
  lemma SearchFindsTheEarliest(cycle: HourCycle, z: Zone, w: Wall, r: Option<int>)
    requires IsZone(z) && IsAskable(cycle, w) && GridInRange(BaseMs(w))
    requires IsSearchResult(cycle, z, w, BaseMs(w), r)
    ensures r.Some?
    ensures Shows(z, r.value, w) <==> exists t :: Findable(z, t, w)
    ensures Shows(z, r.value, w) ==> Findable(z, r.value, w) && forall t :: Findable(z, t, w) ==> r.value <= t
    ensures !Shows(z, r.value, w) ==> r.value == BaseMs(w)
  {
    hide BaseMs, Shows, MatchesTarget, QuarterHours, Aligned;
    var base := BaseMs(w);
    forall t | OnGrid(base, t)
      ensures MatchesTarget(cycle, z, t, w) <==> Shows(z, t, w)
    {
      MatchMeansShows(cycle, z, t, w);
    }
    forall t | Shows(z, t, w)
      ensures Aligned(t) ==> (OnGrid(base, t) <==> QuarterHours(z(t)))
      ensures OnGrid(base, t) ==> Aligned(t)
    {
      GridHoldsQuarterHours(z, t, w);
    }
    forall t | Findable(z, t, w)
      ensures OnGrid(base, t) && MatchesTarget(cycle, z, t, w)
    {
      assert Shows(z, t, w);
    }
    assert OnGrid(base, base);
    if Shows(z, r.value, w) {
      assert Findable(z, r.value, w);
    }
  }

  /** No reading before the year 1000 is ever found: the base is returned unsearched. */
  lemma EarlyYearsAreNotFound(cycle: HourCycle, z: Zone, w: Wall, base: int, r: Option<int>)
    requires IsZone(z) && w.year < 1_000 && GridInRange(base)
    requires IsSearchResult(cycle, z, w, base, r)
    ensures r == Some(base)
  {
    hide BaseMs, Shows, MatchesTarget;
    forall t | OnGrid(base, t)
      ensures !MatchesTarget(cycle, z, t, w)
    {
      MatchMeansShows(cycle, z, t, w);
    }
  }

  lemma LaterBaseForTwoDigitYears(w: Wall)
    requires NaiveBase(w).At?
    ensures NaiveBase(w).ms == BaseMs(w) || NaiveBase(w).ms >= BaseMs(w) + RANGE_MS
  {
    hide FirstDay;
    var k := 12 * w.year + (w.month - 1);
    assert 12 * (1900 + w.year) + (w.month - 1) == k + 22_800;
    MonthsApart(k, k + 22_800);
  }

  /** So clocks an hour ahead show every reading before the year 1000, yet the search never finds one. */
  lemma EarlyReadingsAreMissed(cycle: HourCycle, w: Wall, r: Option<int>)
    requires w.Valid() && w.year < 1_000 && NaiveBase(w).At? && GridInRange(NaiveBase(w).ms)
    requires IsSearchResult(cycle, _ => 3_600_000, w, NaiveBase(w).ms, r)
    ensures Findable(_ => 3_600_000, BaseMs(w) - 3_600_000, w)
    ensures r == Some(NaiveBase(w).ms) && !Shows(_ => 3_600_000, r.value, w)
  {
    hide BaseMs, NaiveBase, MatchesTarget, GridInRange, IsSearchResult, WallOf;
    var z: Zone := _ => 3_600_000;
    EarlyYearsAreNotFound(cycle, z, w, NaiveBase(w).ms, r);
    LaterBaseForTwoDigitYears(w);
    BaseIsAligned(w);
    Shift(BaseMs(w), MINUTE_MS, 60);
    ShownForOneMinute(BaseMs(w), w);
    ShownForOneMinute(NaiveBase(w).ms + 3_600_000, w);
  }

  /**
   Where clocks count hours from 01 to 24, no reading in the hour after midnight is ever
   found: the base comes back, which shows the reading exactly if clocks there are on UTC.
   */
  lemma MidnightIsNotFoundUnderH24(z: Zone, w: Wall, r: Option<int>)
    requires IsZone(z) && w.Valid() && w.hour == 0 && w.year >= 1_000 && GridInRange(BaseMs(w))
    requires IsSearchResult(H24, z, w, BaseMs(w), r)
    ensures r == Some(BaseMs(w))
    ensures Shows(z, r.value, w) <==> 0 <= z(BaseMs(w)) < MINUTE_MS
  {
    hide BaseMs, MatchesTarget, WallOf;
    forall t | OnGrid(BaseMs(w), t)
      ensures !MatchesTarget(H24, z, t, w)
    {
      MatchMeansShows(H24, z, t, w);
      WallIsValid(t + z(t));
    }
    ShownForOneMinute(BaseMs(w) + z(BaseMs(w)), w);
  }

  /** Zones whose clocks are always whole quarter hours from UTC. */
  ghost predicate IsQuarterHourZone(z: Zone) {
    IsZone(z) && forall t :: z(t) % (15 * MINUTE_MS) == 0
  }

  /** Zones that change their offset only on whole minutes. */
  ghost predicate ChangesOnTheMinute(z: Zone) {
    forall t :: z(t) == z(t - t % MINUTE_MS)
  }

  lemma QuarterHourOffsets(x: int)
    requires x % STEP_MS == 0
    ensures QuarterHours(x)
  {
    StepsBothWays(x);
  }

  /**
   In a quarter-hour zone the search misses nothing: it returns the earliest of all whole
   minutes showing the reading, so the first occurrence when clocks are set back, and
   the naive base exactly when clocks skip the reading.
   */
  lemma QuarterHourZonesAreSearchedFully(cycle: HourCycle, z: Zone, w: Wall, r: Option<int>)
    requires IsQuarterHourZone(z) && IsAskable(cycle, w) && GridInRange(BaseMs(w))
    requires IsSearchResult(cycle, z, w, BaseMs(w), r)
    ensures r.Some?
    ensures Shows(z, r.value, w) <==> exists t :: Aligned(t) && Shows(z, t, w)
    ensures Shows(z, r.value, w) ==> Aligned(r.value) && forall t :: Aligned(t) && Shows(z, t, w) ==> r.value <= t
    ensures !Shows(z, r.value, w) ==> r.value == BaseMs(w)
  {
    hide BaseMs, Shows, MatchesTarget, QuarterHours, Aligned, GridInRange, IsSearchResult;
    SearchFindsTheEarliest(cycle, z, w, r);
    forall t
      ensures QuarterHours(z(t))
    {
      QuarterHourOffsets(z(t));
    }
    assert forall t :: Findable(z, t, w) <==> Aligned(t) && Shows(z, t, w);
  }

  /** If moreover offsets change only on the minute, it is the earliest of all instants whatsoever. */
  lemma NoEarlierInstantShowsTheReading(cycle: HourCycle, z: Zone, w: Wall, r: Option<int>, t: int)
    requires IsQuarterHourZone(z) && ChangesOnTheMinute(z) && IsAskable(cycle, w) && GridInRange(BaseMs(w))
    requires IsSearchResult(cycle, z, w, BaseMs(w), r) && Shows(z, t, w)
    ensures r.Some? && Shows(z, r.value, w) && r.value <= t
  {
    hide BaseMs, MatchesTarget, QuarterHours, GridInRange, IsSearchResult, WallOf, Aligned;
    QuarterHourZonesAreSearchedFully(cycle, z, w, r);
    var s := t - t % MINUTE_MS;
    ShownForOneMinute(t + z(t), w);
    ShownForOneMinute(s + z(s), w);
    StepsBothWays(z(t));
    StartOfMinute(t, z(t), BaseMs(w), w);
    assert Aligned(s) && Shows(z, s, w);
  }

  lemma StartOfMinute(t: int, offset: int, base: int, w: Wall)
    requires offset % MINUTE_MS == 0 && base == BaseMs(w) && base <= t + offset < base + MINUTE_MS
    ensures Aligned(t - t % MINUTE_MS)
    ensures base <= t - t % MINUTE_MS + offset
  {
    hide BaseMs;
    BaseIsAligned(w);
    MinuteSums(base, offset);
    Quotient(t, MINUTE_MS, (base - offset) / MINUTE_MS);
  }

  /** A clock twenty minutes ahead shows every reading, yet the search never finds one. */
  lemma OtherOffsetsAreMissed(cycle: HourCycle, w: Wall, r: Option<int>)
    requires w.Valid() && IsAskable(cycle, w) && GridInRange(BaseMs(w))
    requires IsSearchResult(cycle, _ => 1_200_000, w, BaseMs(w), r)
    ensures Aligned(BaseMs(w) - 1_200_000) && Shows(_ => 1_200_000, BaseMs(w) - 1_200_000, w)
    ensures r == Some(BaseMs(w)) && !Shows(_ => 1_200_000, r.value, w)
  {
    hide BaseMs, MatchesTarget, GridInRange, IsSearchResult, WallOf;
    var z: Zone := _ => 1_200_000;
    SearchFindsTheEarliest(cycle, z, w, r);
    BaseIsAligned(w);
    Shift(BaseMs(w), MINUTE_MS, 20);
    ShownForOneMinute(BaseMs(w), w);
    ShownForOneMinute(BaseMs(w) + 1_200_000, w);
  }

  // ----- There and back -----

  function DateText(w: Wall): string
    requires w.year >= 0 && w.month >= 0 && w.day >= 0
  {
    Pad(w.year, 4) + ['-'] + (Pad(w.month, 2) + ['-'] + Pad(w.day, 2))
  }

  function TimeText(w: Wall): string
    requires w.hour >= 0 && w.minute >= 0
  {
    Pad(w.hour, 2) + [':'] + Pad(w.minute, 2)
  }

  lemma ParsePadded(n: nat, width: nat)
    ensures ParseInt(Pad(n, width)) == Some(n)
    ensures '-' !in Pad(n, width) && ':' !in Pad(n, width)
  {
    PadThenRead(n, width);
    ParseDigits(Pad(n, width));
  }

  /** The first piece of a text ends at the first separator or at the end. */
  lemma FirstPiece(piece: string, sep: char, more: string)
    requires sep !in piece && (more == [] || more[0] == sep)
    ensures Split(piece + more, sep)[0] == piece
    ensures |Split(piece + more, sep)| == 1 <==> more == []
  {
    SplitOne(piece, sep);
    if more == [] {
      assert piece + more == piece;
    } else {
      assert piece + more == piece + [sep] + more[1..];
      SplitFirst(piece, sep, more[1..]);
    }
  }

  lemma TwoPieces(a: string, sep: char, b: string, more: string)
    requires sep !in a && sep !in b && (more == [] || more[0] == sep)
    ensures
      var parts := Split(a + [sep] + (b + more), sep);
      |parts| >= 2 && parts[0] == a && parts[1] == b && (|parts| == 2 <==> more == [])
  {
    SplitFirst(a, sep, b + more);
    FirstPiece(b, sep, more);
  }

  /**
   A request is read from the integers that start its first three pieces between hyphens and
   its first two between colons, whatever follows; with fewer pieces there is none.
   */
  lemma SpecReadsThePieces(
      y: string, mo: string, d: string, h: string, m: string, moreDate: string, moreTime: string, w: Wall, other: string)
    requires '-' !in y && '-' !in mo && '-' !in d && (moreDate == [] || moreDate[0] == '-')
    requires ':' !in h && ':' !in m && (moreTime == [] || moreTime[0] == ':')
    ensures
      ParseSpec(y + ['-'] + (mo + (['-'] + (d + moreDate))), h + [':'] + (m + moreTime)) == Some(w) <==>
        && StartsWithInteger(y, w.year) && StartsWithInteger(mo, w.month) && StartsWithInteger(d, w.day)
        && StartsWithInteger(h, w.hour) && StartsWithInteger(m, w.minute)
    ensures ParseSpec(y, other) == None && ParseSpec(y + ['-'] + mo, other) == None && ParseSpec(other, h) == None
  {
    hide ParseInt, StartsWithInteger, Split;
    ParseIntReadsTheStart(y, w.year);
    ParseIntReadsTheStart(mo, w.month);
    ParseIntReadsTheStart(d, w.day);
    ParseIntReadsTheStart(h, w.hour);
    ParseIntReadsTheStart(m, w.minute);
    TwoPieces(h, ':', m, moreTime);
    SplitFirst(y, '-', mo + (['-'] + (d + moreDate)));
    assert mo + (['-'] + (d + moreDate)) == mo + ['-'] + (d + moreDate);
    TwoPieces(mo, '-', d, moreDate);
    SplitOne(y, '-');
    SplitOne(mo, '-');
    SplitFirst(y, '-', mo);
    SplitOne(h, ':');
  }

  lemma PrintedReadingsParse(w: Wall)
    requires w.year >= 0 && w.month >= 0 && w.day >= 0 && w.hour >= 0 && w.minute >= 0
    ensures ParseSpec(DateText(w), TimeText(w)) == Some(w)
  {
    hide Pad, ParseInt;
    ParsePadded(w.year, 4);
    ParsePadded(w.month, 2);
    ParsePadded(w.day, 2);
    ParsePadded(w.hour, 2);
    ParsePadded(w.minute, 2);
    SplitFirst(Pad(w.year, 4), '-', Pad(w.month, 2) + ['-'] + Pad(w.day, 2));
    SplitFirst(Pad(w.month, 2), '-', Pad(w.day, 2));
    SplitOne(Pad(w.day, 2), '-');
    SplitFirst(Pad(w.hour, 2), ':', Pad(w.minute, 2));
    SplitOne(Pad(w.minute, 2), ':');
  }

  /**
   Printing what a quarter-hour zone's clocks show at a whole minute, and searching for the
   printed text, gives an instant no later that shows the same reading.
   */
  lemma ReadingsComeBack(cycle: HourCycle, z: Zone, t: int, r: Option<int>)
    requires IsQuarterHourZone(z) && Aligned(t)
    requires IsAskable(cycle, WallOf(t + z(t))) && GridInRange(BaseMs(WallOf(t + z(t))))
    ensures
      var w := WallOf(t + z(t));
      && w.month >= 0 && w.day >= 0 && w.hour >= 0 && w.minute >= 0
      && ParseSpec(DateText(w), TimeText(w)) == Some(w)
      && NaiveBase(w) == At(BaseMs(w))
      && (IsSearchResult(cycle, z, w, BaseMs(w), r) ==> r.Some? && WallOf(r.value + z(r.value)) == w && r.value <= t)
  {
    hide BaseMs, MatchesTarget, WallOf, IsSearchResult, NaiveBase, DateText, TimeText, ParseSpec;
    var w := WallOf(t + z(t));
    WallIsValid(t + z(t));
    PrintedReadingsParse(w);
    NaiveBaseIs(w);
    if IsSearchResult(cycle, z, w, BaseMs(w), r) {
      QuarterHourZonesAreSearchedFully(cycle, z, w, r);
      assert Shows(z, t, w);
    }
  }

  /** The assumptions on zones can be met: clocks on UTC, and clocks set back by an hour at the epoch. */
  lemma ZonesExist()
    ensures IsQuarterHourZone(_ => 0) && ChangesOnTheMinute(_ => 0)
    ensures IsQuarterHourZone(t => if t < 0 then 3_600_000 else 0) && ChangesOnTheMinute(t => if t < 0 then 3_600_000 else 0)
  {
    var z: Zone := t => if t < 0 then 3_600_000 else 0;
    forall t
      ensures z(t) == z(t - t % MINUTE_MS)
    {
      assert t < 0 <==> t - t % MINUTE_MS < 0;
    }
  }
}
