/**
 Purge clocks of `backend/src/contracts/chatRooms.ts`: a chat message lives twelve
 months, a conversation twenty-four months after archiving or thirty days longer
 than its latest message, whichever is later.
 */
module ChatRooms {
  import opened Calendar
  import opened AlumniDirectoryData
  import opened Outcomes

  const CHAT_MESSAGE_RETENTION_MONTHS := 12
  const CONVERSATION_RETENTION_MONTHS := 24
  const CHAT_RETENTION_SAFETY_DAYS := 30

  function ChatMessagePurgeAt(createdAt: TimeValue): TimeValue {
    AddUtcCalendarMonths(createdAt, CHAT_MESSAGE_RETENTION_MONTHS)
  }

  function ConversationPurgeAt(archivedAt: TimeValue, latestChatMessagePurgeAt: Option<TimeValue>): TimeValue {
    var archiveClock := AddUtcCalendarMonths(archivedAt, CONVERSATION_RETENTION_MONTHS);
    match latestChatMessagePurgeAt
    case None => archiveClock
    case Some(purge) =>
      var messageClock := AddFixedDays(purge, CHAT_RETENTION_SAFETY_DAYS);
      if IsAfter(messageClock, archiveClock) then messageClock else archiveClock
  }

  /**
   The purge is the latest of the clocks that exist, provided the archive clock does; when
   that clock is NaN so is the purge, whatever the messages ask for.
   */
  lemma LaterClockDecides(archivedAt: TimeValue, latest: Option<TimeValue>)
    ensures
      var purge := ConversationPurgeAt(archivedAt, latest);
      var archive := AddUtcCalendarMonths(archivedAt, CONVERSATION_RETENTION_MONTHS);
      var message := if latest.Some? then AddFixedDays(latest.value, CHAT_RETENTION_SAFETY_DAYS) else Invalid;
      && (purge.At? <==> archive.At?)
      && (purge.At? ==>
            && purge in {archive, message}
            && forall clock :: clock in {archive, message} && clock.At? ==> clock.ms <= purge.ms)
  {
    hide AddUtcCalendarMonths;
  }

  /**
   A conversation given its latest message's clock outlives, by more than 29 days, every
   message created no later than that one, although clamping may let an earlier message
   expire after the latest.
   */
  lemma ConversationOutlivesItsMessages(archivedAt: TimeValue, latest: int, created: int)
    requires created <= latest
    requires Faithful(created, 12) && Faithful(latest, 12)
    requires InRange(MonthsLater(latest, 12) + 30 * MS_PER_DAY)
    requires AddUtcCalendarMonths(archivedAt, 24).At?
    ensures ChatMessagePurgeAt(At(created)).At?
    ensures
      var purge := ConversationPurgeAt(archivedAt, Some(ChatMessagePurgeAt(At(latest))));
      purge.At? && purge.ms > ChatMessagePurgeAt(At(created)).ms + 29 * MS_PER_DAY
  {
    hide AddUtcCalendarMonths, MonthsLater, Faithful, Day;
    AddMonthsIsExactWhenFaithful(created, 12);
    AddMonthsIsExactWhenFaithful(latest, 12);
    MonthsLaterKeepsDayOrder(created, latest, 12);
  }

  /** A message of 28 February and a later one of the 29th, at an earlier time of day. */
  predicate StraddlesALeapDay(created: int, latest: int) {
    && MonthIndex(created) == MonthIndex(latest) && MonthIndex(created) % 12 == 1
    && DateOf(created) == 28 && DateOf(latest) == 29
    && TimeInDay(latest) < TimeInDay(created)
  }

  /** Over twelve months two instants swap only around a leap day. */
  lemma YearSwapsAroundLeapDays(created: int, latest: int)
    ensures Swaps(created, latest, 12) <==> StraddlesALeapDay(created, latest)
  {
    hide FirstDay, MonthLength, MonthIndex, DateOf, TimeInDay;
    var k := MonthIndex(created);
    NoMonths(latest);
    MonthAYearLater(k);
  }

  lemma MonthAYearLater(k: int)
    ensures MonthLength(k + 12) < MonthLength(k) ==> k % 12 == 1 && MonthLength(k + 12) == 28 && MonthLength(k) == 29
    ensures k % 12 == 1 && 29 <= MonthLength(k) ==> MonthLength(k + 12) == 28
  {
    hide IsLeap;
    Quotient(k + 12, 12, k / 12 + 1);
    LeapYearsAreApart(k / 12);
  }

  /**
   The thirty days are kept in full exactly if the archive clock sees to it, or the two
   messages do not straddle a leap day and the message clock is still a date.
   */
  lemma ThirtyDaysAreKeptExactlyWhen(archivedAt: TimeValue, latest: int, created: int)
    requires created <= latest
    requires Faithful(created, 12) && Faithful(latest, 12)
    requires AddUtcCalendarMonths(archivedAt, 24).At?
    ensures ChatMessagePurgeAt(At(created)).At?
    ensures
      var own := ChatMessagePurgeAt(At(created)).ms;
      var purge := ConversationPurgeAt(archivedAt, Some(ChatMessagePurgeAt(At(latest))));
      && purge.At?
      && (own + 30 * MS_PER_DAY <= purge.ms <==>
            || own + 30 * MS_PER_DAY <= AddUtcCalendarMonths(archivedAt, 24).ms
            || (!StraddlesALeapDay(created, latest) && MonthsLater(latest, 12) + 30 * MS_PER_DAY <= MAX_TIME))
  {
    hide AddUtcCalendarMonths, MonthsLater, Faithful, Swaps, StraddlesALeapDay;
    AddMonthsIsExactWhenFaithful(created, 12);
    AddMonthsIsExactWhenFaithful(latest, 12);
    MonthsLaterKeepsOrderUnlessSwapped(created, latest, 12);
    YearSwapsAroundLeapDays(created, latest);
    FaithfulIsInRange(latest, 12);
  }

  /** So they are kept whenever the latest message came no more than 335 days after archiving. */
  lemma ThirtyDaysAreKeptSoonAfterArchiving(archivedAt: int, latest: int, created: int)
    requires created <= latest <= archivedAt + 335 * MS_PER_DAY
    requires Faithful(created, 12) && Faithful(latest, 12) && Faithful(archivedAt, 24)
    ensures ChatMessagePurgeAt(At(created)).At?
    ensures
      var purge := ConversationPurgeAt(At(archivedAt), Some(ChatMessagePurgeAt(At(latest))));
      purge.At? && ChatMessagePurgeAt(At(created)).ms + 30 * MS_PER_DAY <= purge.ms
  {
    hide AddUtcCalendarMonths, MonthsLater, Faithful;
    AddMonthsIsExactWhenFaithful(archivedAt, 24);
    AddMonthsIsExactWhenFaithful(created, 12);
    ClocksApart(archivedAt, created);
  }

  lemma DaysOfLeapExample()
    ensures DaysFromCivil(Civil(2024, 2, 28)) == 19_781 && DaysFromCivil(Civil(2024, 2, 29)) == 19_782
    ensures FirstDay(12 * 2025 + 1) == 20_120 && MonthLength(12 * 2025 + 1) == 28
    ensures DaysFromCivil(Civil(2023, 1, 1)) == 19_358 && FirstDay(12 * 2025) == 20_089 && MonthLength(12 * 2025) == 31
    ensures Civil(2023, 1, 1).Valid() && Civil(2024, 2, 28).Valid() && Civil(2024, 2, 29).Valid()
  {
    hide FirstDay;
    MonthOfYear(2023, 0);
    MonthOfYear(2024, 1);
    MonthOfYear(2025, 0);
    MonthOfYear(2025, 1);
  }

  /**
   Otherwise the margin can shrink to 29 days and a millisecond: archived on 1 January 2023,
   with messages at the last millisecond of 28 February 2024 and at the start of the 29th.
   */
  lemma MarginDropsBelowThirtyDays()
    ensures
      var archived, created, latest :=
        InstantOf(Civil(2023, 1, 1), 0), InstantOf(Civil(2024, 2, 28), MS_PER_DAY - 1), InstantOf(Civil(2024, 2, 29), 0);
      && created < latest && ChatMessagePurgeAt(At(created)).At?
      && ConversationPurgeAt(At(archived), Some(ChatMessagePurgeAt(At(latest)))) ==
         At(ChatMessagePurgeAt(At(created)).ms + 29 * MS_PER_DAY + 1)
  {
    hide FirstDay, MonthLength, MonthIndex, DateOf, TimeInDay, YearOf, AddUtcCalendarMonths, DaysFromCivil;
    var a, c, d := Civil(2023, 1, 1), Civil(2024, 2, 28), Civil(2024, 2, 29);
    var archived, created, latest := InstantOf(a, 0), InstantOf(c, MS_PER_DAY - 1), InstantOf(d, 0);
    DaysOfLeapExample();
    InstantFields(a, 0);
    InstantFields(c, MS_PER_DAY - 1);
    InstantFields(d, 0);
    AddMonthsIsExactWhenFaithful(archived, 24);
    AddMonthsIsExactWhenFaithful(created, 12);
    AddMonthsIsExactWhenFaithful(latest, 12);
    assert MonthsLater(created, 12) == 20_148 * MS_PER_DAY - 1;
    assert MonthsLater(latest, 12) == 20_147 * MS_PER_DAY;
    assert MonthsLater(archived, 24) == 20_089 * MS_PER_DAY;
  }

  // ----- When the archive clock decides -----

  /** Where a month within a year of month `j` finds its February. */
  lemma NextFebruary(j: int, k: int)
    requires j <= k <= j + 12
    ensures (k + 10) / 12 == (j + 10) / 12 || (k + 10) / 12 == (j + 10) / 12 + 1
  {
    var q := (j + 10) / 12;
    var r := (j + 10) % 12;
    if r + (k - j) < 12 {
      Quotient(k + 10, 12, q);
    } else if r + (k - j) < 24 {
      Quotient(k + 10, 12, q + 1);
    }
  }

  /** An instant in the 335th day after `a` lies at most twelve months on; eleven if `a` is a 29 February. */
  lemma MonthOfLastAllowedDay(a: int, m: int)
    requires a + 334 * MS_PER_DAY < m <= a + 335 * MS_PER_DAY
    ensures MonthIndex(a) <= MonthIndex(m) <= MonthIndex(a) + 12
    ensures MonthIndex(a) % 12 == 1 && DateOf(a) == 29 ==> MonthIndex(m) == MonthIndex(a) + 11
  {
    hide FirstDay, MonthLength, MonthOfDay, TimeInDay;
    var j, k := MonthIndex(a), MonthIndex(m);
    assert Day(a) + 334 <= Day(m) <= Day(a) + 335;
    NextMonth(j);
    MonthsApartInYear(j);
    if k < j { LaterMonthStartsLater(k, j); }
    if j + 12 < k { MonthsApart(j + 12, k - 1); NextMonth(k - 1); }
    if j % 12 == 1 && DateOf(a) == 29 {
      assert InMonth(Day(m), j + 11);
      MonthIsUnique(Day(m), j + 11, k);
    }
  }

  lemma MonthsApartInYear(k: int)
    ensures FirstDay(k + 12) >= FirstDay(k) + 365
    ensures k % 12 == 1 && IsLeap(k / 12) ==>
              FirstDay(k + 11) == FirstDay(k) + 335 && FirstDay(k + 11) + MonthLength(k + 11) == FirstDay(k) + 366
    ensures k % 12 == 1 && MonthLength(k) >= 29 ==> IsLeap(k / 12)
  {
    hide FirstDay, MonthLength, DayFromYear, IsLeap;
    var y, m := k / 12, k % 12;
    assert k == 12 * y + m;
    MonthOfYear(y, m);
    YearAhead(y, m);
    if m == 1 {
      MonthOfYear(y + 1, 0);
      YearStep(y);
      assert 12 * (y + 1) + 0 == k + 11;
    }
  }

  /** Messages created up to 335 days after archiving do not outlast the archive clock. */
  lemma ClocksApart(a: int, m: int)
    requires m <= a + 335 * MS_PER_DAY
    ensures MonthsLater(m, 12) + 30 * MS_PER_DAY <= MonthsLater(a, 24)
  {
    hide FirstDay, MonthLength, MonthIndex, DateOf, MonthsLater, IsLeap;
    TwoYearsTake(a);
    OneYearTakes(m);
    if a + 334 * MS_PER_DAY < m {
      MonthOfLastAllowedDay(a, m);
      NextFebruary(MonthIndex(a), MonthIndex(m));
      FebruaryElevenMonthsOn(MonthIndex(a));
    }
  }

  lemma FebruaryElevenMonthsOn(k: int)
    ensures k % 12 == 1 ==> (k + 11 + 10) / 12 == (k + 10) / 12 + 1
  {
    if k % 12 == 1 {
      Quotient(k + 10, 12, k / 12);
      Quotient(k + 21, 12, k / 12 + 1);
    }
  }

  /** The latest message, if it was created at `created`, makes no difference to the purge. */
  predicate ArchiveDecides(archivedAt: int, created: int) {
    ConversationPurgeAt(At(archivedAt), Some(ChatMessagePurgeAt(At(created)))) == ConversationPurgeAt(At(archivedAt), None)
  }

  /** The days after archiving up to which the archive clock decides: 335, by the leap days ahead one more or less. */
  function DecidingDays(archivedAt: int, created: int): int {
    335 + (if LeapDayAheadInTwoYears(archivedAt) then 1 else 0) - (if LeapDayAhead(created) then 1 else 0)
  }

  /**
   The archive clock decides exactly up to that many days after archiving, or when the
   message clock lies past the last date.
   */
  lemma ArchiveClockDecidesExactlyWhen(archivedAt: int, created: int)
    requires Faithful(archivedAt, 24) && Faithful(created, 12)
    ensures ArchiveDecides(archivedAt, created) <==>
              || created <= archivedAt + DecidingDays(archivedAt, created) * MS_PER_DAY
              || MonthsLater(created, 12) + 30 * MS_PER_DAY > MAX_TIME
  {
    hide AddUtcCalendarMonths, MonthsLater, Faithful, LeapDayAhead, LeapDayAheadInTwoYears;
    AddMonthsIsExactWhenFaithful(archivedAt, 24);
    AddMonthsIsExactWhenFaithful(created, 12);
    TwoYearsTake(archivedAt);
    OneYearTakes(created);
    FaithfulIsInRange(created, 12);
  }

  /** Whatever the leap days, it decides up to 335 days after archiving, and no longer past 336. */
  lemma ArchiveClockDecides(archivedAt: int, created: int)
    requires Faithful(archivedAt, 24) && Faithful(created, 12)
    ensures created <= archivedAt + 335 * MS_PER_DAY ==> ArchiveDecides(archivedAt, created)
    ensures created > archivedAt + 336 * MS_PER_DAY && MonthsLater(created, 12) + 30 * MS_PER_DAY <= MAX_TIME ==>
              ConversationPurgeAt(At(archivedAt), Some(ChatMessagePurgeAt(At(created)))) ==
              At(MonthsLater(created, 12) + 30 * MS_PER_DAY)
  {
    hide AddUtcCalendarMonths, MonthsLater, Faithful, LeapDayAhead, LeapDayAheadInTwoYears;
    AddMonthsIsExactWhenFaithful(archivedAt, 24);
    AddMonthsIsExactWhenFaithful(created, 12);
    ArchiveClockDecidesExactlyWhen(archivedAt, created);
    if created <= archivedAt + 335 * MS_PER_DAY { ClocksApart(archivedAt, created); }
  }

  lemma MonthsOfExample()
    ensures FirstDay(12 * 2025) == 20_089 && FirstDay(12 * 2025 + 11) == 20_423
    ensures FirstDay(12 * 2026 + 11) == 20_788 && FirstDay(12 * 2027) == 20_819
  {
    hide FirstDay;
    MonthOfYear(2025, 0);
    MonthOfYear(2025, 11);
    MonthOfYear(2026, 11);
    MonthOfYear(2027, 0);
  }

  /** One millisecond more than 335 days can be too much: archived on 1 January 2025, message on 2 December. */
  lemma MessageClockMayDecideLater()
    ensures
      var archivedAt, created := InstantOf(Civil(2025, 1, 1), 0), InstantOf(Civil(2025, 12, 2), 1);
      && created == archivedAt + 335 * MS_PER_DAY + 1
      && !ArchiveDecides(archivedAt, created)
  {
    hide FirstDay, MonthOfDay, MonthIndex, DateOf, TimeInDay, YearOf, AddUtcCalendarMonths;
    var c, d := Civil(2025, 1, 1), Civil(2025, 12, 2);
    var archivedAt, created := InstantOf(c, 0), InstantOf(d, 1);
    InstantFields(c, 0);
    InstantFields(d, 1);
    MonthsOfExample();
    AddMonthsIsExactWhenFaithful(archivedAt, 24);
    AddMonthsIsExactWhenFaithful(created, 12);
    assert MonthsLater(archivedAt, 24) == 20_819 * MS_PER_DAY;
    assert MonthsLater(created, 12) == 20_789 * MS_PER_DAY + 1;
  }

  /** And it need not be: archived on 1 March 2022, with a leap day in the two years ahead, 336 days are not too much. */
  lemma ArchiveClockMayDecideLonger()
    ensures
      var archivedAt := InstantOf(Civil(2022, 3, 1), 0);
      var created := archivedAt + 336 * MS_PER_DAY;
      && created == InstantOf(Civil(2023, 1, 31), 0)
      && ArchiveDecides(archivedAt, created)
  {
    hide FirstDay, MonthOfDay, MonthIndex, DateOf, TimeInDay, YearOf, AddUtcCalendarMonths;
    var c, d := Civil(2022, 3, 1), Civil(2023, 1, 31);
    MonthOfYear(2022, 2);
    MonthOfYear(2023, 0);
    InstantFields(c, 0);
    InstantFields(d, 0);
    ArchiveClockDecidesExactlyWhen(InstantOf(c, 0), InstantOf(d, 0));
  }
}
