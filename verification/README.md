# Verified model of the community platform's calendar, registration and migration logic

This project models, in Dafny 4.11, the parts of the repository that compute something: the
UTC calendar and the retention clocks built on it, the search from wall clock to UTC, the
instant parser behind the "room open" predicate, registration profile validation and the
KPIs aggregated from it, the help-request lifecycle, the service worker's precache list, and
the migration of program labels with its verifier. `dafny verify dfyconfig.toml` checks it all.

## How it is laid out

| module | models |
|---|---|
| `Calendar` | the proleptic Gregorian calendar of section 21.4.1 of ECMA-262, on month indices |
| `AlumniDirectoryData` | `addUtcCalendarMonths` on a mutable `JsDate`, and fixed days |
| `ChatRooms`, `AlumniHelpFlow` | purge clocks; the lifecycle table and its runs |
| `Decimal`, `JsText`, `Sorting`, `Outcomes` | decimal text, trimming, splitting, `parseInt`, the order of strings, sorting |
| `TimezoneSearch` | the quarter-hour grid search |
| `IsoInstant`, `ProgramCommunitySettings` | `toISOString`, the instant parser, the open predicate, accepted windows |
| `DisplayText`, `MultilineText` | one-line and multi-line normalisation |
| `RegistrationProfile`, `ProfileMeaning` | the profile validator, and what it accepts and reports, said of the values |
| `JsonKeys`, `KpiDimensions`, `KpiLaws`, `RegistrationProfileKpi` | composite keys, dimensions, their laws, and the aggregation |
| `KpiMeaning`, `KpiSuppression` | what the published KPIs say of the stored rows, and what they show and hide of suppressed cities |
| `ServiceWorkerManifest` | the chunk worklist and the sorted precache list |
| `ProgramLabelMigration` | the migration script and the verification script |

A `Date` holds NaN or a time value in the range of ECMA-262; `Date.UTC` reads the years 0 to
99 as 1900 to 1999. Code that changes things in place is modelled by classes and methods with
loops; each such method is proved equal to, or to satisfy, a specification, and the laws are
proved of the specification. Where a law does not hold on all inputs, the exact condition is
stated and a concrete input shows the failure.

## Findings

- `addUtcCalendarMonths` (`backend/src/contracts/alumniDirectoryData.ts:149-170`) delivers the
  month `n` later exactly on the inputs of `Faithful` (`AddMonthsIsExactWhenFaithful`): it
  misreads the years 0 to 99 (`TwoDigitYearIsMisread`), misses 29 February of the year 0
  (`LeapDayOfYearZeroIsMissed`), and returns NaN for the first and last month of the range of
  dates (`OutermostMonthsAreLost`).
- Adding months (the same lines) keeps the order of two instants unless clamping puts them on
  one day with their times of day reversed (`AddMonthsKeepsOrderUnlessSwapped`, `InstantsCanSwap`).
- The wall-clock search (`shared/time/timezoneSearch.ts:84-95`) finds exactly the whole minutes
  at offsets of whole quarter hours (`SearchFindsTheEarliest`). A zone at any other offset is
  never matched (`OtherOffsetsAreMissed`), and no year before 1000 is, because the shown year
  is not padded (`EarlyReadingsAreMissed`). If `hour12: false` (line 63) selects h24, no reading
  in the hour after midnight is found either (`MidnightIsNotFoundUnderH24`).
- Without a zone (`shared/time/timezoneSearch.ts:41-46`) the result depends on the time of day
  of the call: if clocks skip that time on the day asked for, the reading may come out a day
  late (`OwnReadingShowsExactlyWhen`, `OwnReadingMayBeADayLate`).
- The archive clock of a conversation (`backend/src/contracts/chatRooms.ts:73-87`) decides up to
  335 days after archiving, a day more or less by the leap days ahead
  (`ArchiveClockDecidesExactlyWhen`). 335 is the largest bound that holds of every archiving
  (`ArchiveClockDecides`, `MessageClockMayDecideLater`), not of each (`ArchiveClockMayDecideLonger`).
- The thirty days a conversation is to outlive its messages are kept unless messages far from
  archiving straddle a leap day (`ThirtyDaysAreKeptExactlyWhen`,
  `ThirtyDaysAreKeptSoonAfterArchiving`, `MarginDropsBelowThirtyDays`); 29 days always are
  (`ConversationOutlivesItsMessages`).
- An ISO string stands for its date exactly if the year prints in four digits
  (`backend/src/contracts/programCommunitySettings.ts:265-305`, `PrintThenParse`); a room opening
  or closing in any other year reads as closed once its settings travel as text
  (`OpenAgreesOnIsoForms`, `AncientRoomsReadAsClosed`).
- The published KPIs (`backend/src/contracts/registrationProfileKpiContracts.ts:103-120`) give
  away how many profiles of a published country live in its suppressed cities, so the very count
  of a city that is suppressed alone (`ResidualIsTheSuppressed`); they do not tell two suppressed
  cities of a region apart (`SuppressedCitiesAreInterchangeable`).
- The verifier of program labels (`backend/scripts/verify-program-labels.ts:104-106`) counts
  events without a program as migrated whatever labels they have, but a live migration erases
  those labels (`RunsKeepAllLabelsExactlyWhen`, `LabelsOfEventsWithoutProgramAreErased`). A dry run
  (`backend/scripts/migrate-program-to-labels.ts:88-106`) announces every event as one it would
  update (`DryRunAnnouncesEverything`).

## Assumptions

- Time zones give each instant an offset of less than a day. The runtime's own clock reads a
  local time as an instant that has it, and one skipped, by a minute or more, with the offset
  before the skip (section 21.4.1.26 of ECMA-262). The formatter shows the year without padding
  and counts hours from 00 to 23 or from 01 to 24; which of the two is a parameter.
- `new Date(text)` is an arbitrary function that reads back what `toISOString` prints.
- Normalisation to NFC is an arbitrary function that is idempotent, under which pieces of
  normalised text are normalised and a space or newline may join normalised texts, and which
  brings in no control character. Upper- and lower-casing are arbitrary functions that fix the
  ISO codes and the status names; the validity of a phone number, beyond its pattern, is an
  arbitrary predicate.
- Text is a sequence of Unicode code points; unpaired surrogates are not modelled.

Each set of assumptions can be met: `TimezoneSearch.ZonesExist`, `TimezoneSearch.SpringClockIsValid`,
`ProgramCommunitySettings.ParsersExist` and `RegistrationProfile.SoundTablesExist` show how.

## Model

| member | source | states |
|---|---|---|
| Calendar.FirstDayInClosedForm | backend/src/contracts/alumniDirectoryData.ts:154-167 | adding up month lengths from the epoch gives the closed form of day numbers, so "day 0" of a month is the last day of the one before |
| Calendar.CivilRoundTrip | shared/time/timezoneSearch.ts:66-82 | day numbers and valid civil dates correspond one to one, so equal fields mean equal days |
| JsText.ParseIntReadsTheStart | shared/time/timezoneSearch.ts:37-38 | parseInt reads exactly the integer a text starts with: white space, a sign or none, and digits |
| JsText.TrimKeepsTheMiddle | shared/time/registrationProfile.ts:293-293 | trimming cuts off the white space at both ends and no more |
| JsText.TextLessComparesUnits | backend/src/contracts/registrationProfileKpiContracts.ts:77-81 | the order of strings is that of their UTF-16 code units: a proper prefix first, else the first unit that differs decides |
| AlumniDirectoryData.JsDate.SetUTCDate | backend/src/contracts/alumniDirectoryData.ts:168-168 | moves within the month held, keeps the time of day, and NaN spoils the date |
| AlumniDirectoryData.AddMonthsInPlace | backend/src/contracts/alumniDirectoryData.ts:149-170 | the in-place code fails only on counts of 2^53 and more in size, and computes the closed form of the result for every time value, NaN and out-of-range cases included |
| AlumniDirectoryData.AddMonthsIsExactWhenFaithful | backend/src/contracts/alumniDirectoryData.ts:148-170 | the result is the instant n calendar months later, clamped to month end, if and only if the input is faithful |
| AlumniDirectoryData.AddMonthsFields | backend/src/contracts/alumniDirectoryData.ts:148-170 | the result lies exactly n months on, on the smaller of the day and the month's length, at the same time of day |
| AlumniDirectoryData.TwoDigitYearsMoveBy1900 | backend/src/contracts/alumniDirectoryData.ts:154-164 | for the years 0 to 99 the result is that of 1900 years later |
| AlumniDirectoryData.TwoDigitYearIsMisread | backend/src/contracts/alumniDirectoryData.ts:154-164 | a date in the year 50 plus no months lands in 1950 |
| AlumniDirectoryData.LeapDayOfYearZeroIsMissed | backend/src/contracts/alumniDirectoryData.ts:165-168 | four years after 29 February of the year -4 comes 28 February of the year 0 |
| AlumniDirectoryData.OutermostMonthsAreLost | backend/src/contracts/alumniDirectoryData.ts:154-168 | dates of the first and of the last month of the range, moved by no months, give NaN |
| AlumniDirectoryData.AddMonthsKeepsDayOrder | backend/src/contracts/alumniDirectoryData.ts:149-170 | earlier inputs give no later days, and instants swap by less than a day |
| AlumniDirectoryData.AddMonthsKeepsOrderUnlessSwapped | backend/src/contracts/alumniDirectoryData.ts:149-170 | ordered instants come out in order if and only if it is not the case that they lie in one month, the earlier on a day the target month has at best as its last, on different days, and with reversed times of day |
| AlumniDirectoryData.InstantsCanSwap | backend/src/contracts/alumniDirectoryData.ts:149-170 | 30 January 23:00 and 31 January 01:00 plus one month come out on 28 February in reverse order |
| AlumniDirectoryData.AddMonthsInTwoSteps | backend/src/contracts/alumniDirectoryData.ts:149-170 | adding a then b is never later than adding a+b, and equal exactly when the month between does not cut the day below the final month's length; always for days up to 28 |
| AlumniDirectoryData.AddMonthsUndone | backend/src/contracts/alumniDirectoryData.ts:149-170 | adding n and then -n gives back the start exactly when the month between holds its day |
| AlumniDirectoryData.YearSpan | backend/src/contracts/alumniDirectoryData.ts:149-170 | twelve months take 365 days, or 366 exactly with a leap day ahead |
| ChatRooms.LaterClockDecides | backend/src/contracts/chatRooms.ts:73-87 | for all time values the purge exists exactly if the archive clock does, and is then the latest of the clocks that exist; a NaN archive clock is not made up for by a message |
| ChatRooms.ConversationOutlivesItsMessages | backend/src/contracts/chatRooms.ts:69-87 | a conversation given the latest message's clock outlives every message up to that one by more than 29 days |
| ChatRooms.ThirtyDaysAreKeptExactlyWhen | backend/src/contracts/chatRooms.ts:69-87 | the purge leaves an earlier message its thirty days if and only if the archive clock does, or the two messages do not straddle a leap day and the message clock is still a date |
| ChatRooms.ThirtyDaysAreKeptSoonAfterArchiving | backend/src/contracts/chatRooms.ts:69-87 | the thirty days are always kept if the latest message came no more than 335 days after archiving |
| ChatRooms.MarginDropsBelowThirtyDays | backend/src/contracts/chatRooms.ts:69-87 | archived on 1 January 2023, with messages around the leap day of 2024, the purge leaves 29 days and a millisecond |
| ChatRooms.ArchiveClockDecidesExactlyWhen | backend/src/contracts/chatRooms.ts:73-87 | the archive clock decides if and only if the latest message came no more than 335 days after archiving, one more with a leap day in the two years after archiving and one less with one in the year after the message, or the message clock is past the last date |
| ChatRooms.ArchiveClockDecides | backend/src/contracts/chatRooms.ts:73-87 | whatever the leap days the archive clock decides up to 335 days after archiving, and the message clock past 336 |
| ChatRooms.MessageClockMayDecideLater | backend/src/contracts/chatRooms.ts:73-87 | archived on 1 January 2025, one millisecond past 335 days is too much, so no larger bound holds of every archiving |
| ChatRooms.ArchiveClockMayDecideLonger | backend/src/contracts/chatRooms.ts:73-87 | archived on 1 March 2022, 336 days are not too much |
| AlumniHelpFlow.TerminalMeansNoWayOut | backend/src/contracts/alumniHelpFlow.ts:34-47 | active and terminal statuses split all statuses, and the terminal ones are exactly those that no run of any length leaves |
| AlumniHelpFlow.AcceptanceIsBookedOnce | backend/src/contracts/alumniHelpFlow.ts:179-258 | in every run from requested, acceptances, closings, declines and withdrawals occur at most once, exactly in the statuses that record them |
| AlumniHelpFlow.ExchangesAreAnswered | backend/src/contracts/alumniHelpFlow.ts:180-204 | in every run not refused, requests for information and proposals exceed their answers by one exactly while waiting for one |
| AlumniHelpFlow.AcceptanceIsFinal | backend/src/contracts/alumniHelpFlow.ts:195-258 | after an acceptance come at most three actions, none of them a refusal or an acceptance |
| AlumniHelpFlow.EveryStatusIsReachable | backend/src/contracts/alumniHelpFlow.ts:179-258 | every status ends some run |
| AlumniHelpFlow.StepsAreOpen | backend/src/contracts/alumniHelpFlow.ts:179-258 | status by status, the statuses that some action leads to next |
| AlumniHelpFlow.RefusalsAndClosingsAreOpen | backend/src/contracts/alumniHelpFlow.ts:205-258 | every open status can be declined and withdrawn, and every agreed one but closed can be closed by each of the four closing actions |
| AlumniHelpFlow.ReachesExactlyWhen | backend/src/contracts/alumniHelpFlow.ts:179-258 | a run leads from one status to another if and only if the first is open, they are the same, or the second comes later in the agreed work |
| AlumniHelpFlow.SidesTakeTurns | backend/src/contracts/alumniHelpFlow.ts:179-258 | in every run, up to the first acceptance and but for refusals, the provider takes the even steps and the requester the odd ones, so accept falls on even and confirm_alternative on odd steps |
| AlumniHelpFlow.AcceptedRequestOutlivesItsDuties | backend/src/contracts/alumniHelpFlow.ts:763-787 | the accepted purge is at least 365 days after closing, after the room's grace of seven days, and at least 30 days after the outcome's due date exactly when that instant exists |
| AlumniHelpFlow.OutcomeExtendsExactlyWhen | backend/src/contracts/alumniHelpFlow.ts:749-787 | the outcome clock moves the purge if and only if the outcome came more than 315 days after closing, 316 with a leap day ahead, and its clock is still a date |
| AlumniHelpFlow.OutcomeJustLateEnough | backend/src/contracts/alumniHelpFlow.ts:749-787 | one millisecond past 315 days can suffice |
| AlumniHelpFlow.NeverAcceptedRequestIsKeptTwoMonths | backend/src/contracts/alumniHelpFlow.ts:767-772 | a request never accepted is purged two calendar months after its end, so 59 to 62 days after it |
| TimezoneSearch.FindUtcInstantFromLocal | shared/time/timezoneSearch.ts:34-99 | null for unreadable fields, unknown zones and impossible dates; without a zone, what the two local setters make of the current instant; otherwise the first grid point whose formatted text equals the target, or the base past the end of the grid, or null if the grid leaves the range of dates first |
| TimezoneSearch.OwnReadingShowsExactlyWhen | shared/time/timezoneSearch.ts:41-46 | without a zone: the result shows the reading if and only if clocks do not skip it and setting the date first keeps the day, which it does whenever the current time of day exists on that day |
| TimezoneSearch.OwnReadingMayBeADayLate | shared/time/timezoneSearch.ts:41-46 | a reading the clocks do show comes out a day late when the call falls at a time of day skipped on that day |
| TimezoneSearch.SearchResultIsUnique | shared/time/timezoneSearch.ts:84-98 | the search result is determined by zone, fields and base |
| TimezoneSearch.MatchMeansShows | shared/time/timezoneSearch.ts:48-82 | near the base, comparing formatted text decides whether the clock shows the fields asked for, with midnight as 24 under h24, and never succeeds before the year 1000 |
| TimezoneSearch.SearchFindsTheEarliest | shared/time/timezoneSearch.ts:84-95 | for every zone and either hour cycle: the result is the earliest whole minute showing the reading at an offset whose minutes are a multiple of 15, and the base, not showing it, exactly when there is none |
| TimezoneSearch.EarlyYearsAreNotFound | shared/time/timezoneSearch.ts:48-95 | readings before the year 1000 give the base |
| TimezoneSearch.EarlyReadingsAreMissed | shared/time/timezoneSearch.ts:48-95 | at an offset of one hour every reading before the year 1000 is shown at a quarter-hour offset and the search from the base of Date.UTC does not find it |
| TimezoneSearch.MidnightIsNotFoundUnderH24 | shared/time/timezoneSearch.ts:56-82 | where hour12: false counts hours from 01 to 24, a reading in the hour after midnight gives the base, which shows it exactly if clocks are on UTC |
| TimezoneSearch.QuarterHourZonesAreSearchedFully | shared/time/timezoneSearch.ts:4-12 | in zones whose offsets are multiples of 15 minutes the result is the earliest of all whole minutes showing the reading, and the base exactly when clocks skip it |
| TimezoneSearch.NoEarlierInstantShowsTheReading | shared/time/timezoneSearch.ts:4-12 | if offsets change on the minute, no instant at all shows the reading earlier |
| TimezoneSearch.OtherOffsetsAreMissed | shared/time/timezoneSearch.ts:85-95 | at an offset of twenty minutes every reading is shown and none is found |
| TimezoneSearch.SpecReadsThePieces | shared/time/timezoneSearch.ts:36-39 | a request is read from the integers that start its first three and first two pieces, whatever follows; with fewer pieces there is none |
| TimezoneSearch.PrintedReadingsParse | shared/time/timezoneSearch.ts:36-39 | printed dates and times read back as their fields |
| TimezoneSearch.ReadingsComeBack | shared/time/timezoneSearch.ts:34-99 | printing what the clocks show at a whole minute and searching for it gives an instant, no later, showing the same |
| IsoInstant.StampOfInstant | backend/src/contracts/programCommunitySettings.ts:150-154 | every instant has valid fields that give it back |
| IsoInstant.PrintedStampReadsBack | backend/src/contracts/programCommunitySettings.ts:149-154 | printed fields occupy fixed columns and read back |
| IsoInstant.ReadStampPrintsBack | backend/src/contracts/programCommunitySettings.ts:149-154 | text in those columns is what its fields print |
| ProgramCommunitySettings.BothParsersAgree | backend/src/contracts/programCommunitySettings.ts:138-158 | the request parser accepts and reads the same texts as the stored-value parser |
| ProgramCommunitySettings.InstantsAreReadExactly | backend/src/contracts/programCommunitySettings.ts:138-158 | a text is read as an instant if and only if it writes that instant's fields, with no, one, two or three digits of a second; the request parser objects to its form if it writes no fields, and to its validity if fields of no instant |
| ProgramCommunitySettings.InstantsPrintAsTheirFields | backend/src/contracts/programCommunitySettings.ts:149-155 | instants of four-digit years print as their fields |
| ProgramCommunitySettings.PrintThenParse | backend/src/contracts/programCommunitySettings.ts:265-280 | a printed instant parses back to itself exactly for the years 0 to 9999 |
| ProgramCommunitySettings.ParseThenPrint | backend/src/contracts/programCommunitySettings.ts:143-157 | an accepted text reprints as itself with its milliseconds filled up |
| ProgramCommunitySettings.OpenAgreesOnIsoForms | backend/src/contracts/programCommunitySettings.ts:283-305 | the open predicate agrees on dates and their ISO strings, but for openings and closings outside the four-digit years, which read as closed |
| ProgramCommunitySettings.AncientRoomsReadAsClosed | backend/src/contracts/programCommunitySettings.ts:283-305 | a room opened in the year -1 is open by its dates and closed by their ISO strings |
| ProgramCommunitySettings.WindowsAreAcceptedExactly | backend/src/contracts/programCommunitySettings.ts:229-262 | an update is accepted as a window if and only if both ends are null or write the fields of the window's instants, an enabled room opens, and a room closes only after it opens |
| ProgramCommunitySettings.WindowsAreRefusedExactly | backend/src/contracts/programCommunitySettings.ts:229-262 | otherwise which objection is raised: to the opening first, then to the closing, then to the two together |
| ProgramCommunitySettings.AcceptedWindowsOpenAsStated | backend/src/contracts/programCommunitySettings.ts:229-262 | an accepted window is open exactly from opening to before closing, at least at its opening, whether stored as dates or as text |
| DisplayText.DisplayTextIsCanonical | shared/time/registrationProfile.ts:139-141 | normalised display text is the words of the normalised text, spaced; it is a fixed point and stays free of control characters |
| DisplayText.TidyUpSpacesWords | shared/time/registrationProfile.ts:139-141 | collapsing and trimming gives the words of the text, unchanged and in order, with single spaces between |
| DisplayText.WordsFromTheFront | shared/time/registrationProfile.ts:139-141 | the words of a text, from its front: white space is skipped and each stretch without any is a word |
| MultilineText.LinesEndAtBreaks | shared/time/registrationProfile.ts:158-159 | a line ends at LF, at CRLF as a whole, and at a CR that no LF follows |
| MultilineText.LineSpaceIs | shared/time/registrationProfile.ts:161-161 | the white space collapsed within a line is all that trimming removes, but for line ends and the byte order mark |
| MultilineText.BreaksAreInterchangeable | shared/time/registrationProfile.ts:152-166 | exchanging one of the three breaks for another changes nothing in the output |
| MultilineText.ParagraphBreaksSurvive | shared/time/registrationProfile.ts:152-166 | the output is the tidied lines from the first to the last not blank, with exactly the newlines between them, or null if all are blank |
| MultilineText.KeptLinesAreTheirWords | shared/time/registrationProfile.ts:160-162 | each kept line comes out as its words with single spaces between |
| MultilineText.MultilineIsIdempotent | shared/time/registrationProfile.ts:152-166 | normalising twice is normalising once |
| RegistrationProfile.AddTextIssue | shared/time/registrationProfile.ts:241-285 | appends at most the one issue the text deserves and returns the normalised text otherwise |
| RegistrationProfile.ValidateRegistrationProfile | shared/time/registrationProfile.ts:287-484 | for every untyped input the verdict is failure with the issues found, field by field in order, or success when there are none; the last guards never reject alone |
| RegistrationProfile.NoIssueMeansReady | shared/time/registrationProfile.ts:461-469 | when no field has an issue, the final guards hold |
| RegistrationProfile.ReportsEachFaultOnce | shared/time/registrationProfile.ts:291-469 | validation fails exactly when some field is at fault; exactly the fields at fault are reported, with their codes, each once |
| ProfileMeaning.ProfilesAreReadExactly | shared/time/registrationProfile.ts:287-484 | an untyped input is accepted as a profile if and only if its fields, trimmed, folded or spaced, read as that profile, the profile is well formed, and no text asked for holds a control character |
| ProfileMeaning.IssuesAreThoseDeserved | shared/time/registrationProfile.ts:287-469 | for every untyped input exactly the issues that its values deserve are reported, field by field and code by code, each once, in the order of the fields; it is accepted exactly when none is deserved |
| RegistrationProfile.ValidationIsACanonicaliser | shared/time/registrationProfile.ts:287-484 | validating a validated profile again, at the same or a later time, returns it unchanged |
| RegistrationProfile.FixedPointsAreWellFormed | shared/time/registrationProfile.ts:287-484 | validation returns a profile unchanged exactly if it is well formed, as said without the validator |
| RegistrationProfile.AcceptedProfilesAreWellFormed | shared/time/registrationProfile.ts:471-483 | whatever is accepted comes back well formed |
| JsonKeys.Key2IsInjective | backend/src/contracts/registrationProfileKpiContracts.ts:191-194 | region keys determine country and region |
| JsonKeys.Key3IsInjective | backend/src/contracts/registrationProfileKpiContracts.ts:204-208 | city keys determine country, region or its absence, and city |
| KpiDimensions.KeyIsInjective | backend/src/contracts/registrationProfileKpiContracts.ts:178-227 | within each dimension a key belongs to one bucket |
| KpiDimensions.BeforeIsAnOrder | backend/src/contracts/registrationProfileKpiContracts.ts:83-88 | every comparator is a strict order on its dimension |
| KpiDimensions.BeforeTellsApart | backend/src/contracts/registrationProfileKpiContracts.ts:232-263 | every comparator separates distinct buckets of its dimension |
| KpiDimensions.PublishedFormIsUnique | backend/src/contracts/registrationProfileKpiContracts.ts:103-120 | the published form of a dimension is determined by the multiset of counted profiles |
| KpiDimensions.BucketsAreListedOnce | backend/src/contracts/registrationProfileKpiContracts.ts:103-120 | a bucket is listed at one place only, exactly when its group is large enough |
| KpiMeaning.KpisCountTheirGroups | backend/src/contracts/registrationProfileKpiContracts.ts:137-265 | for any rows, each of the seven lists holds exactly the groups of at least five active rows storing a well-formed profile of that decade, country, region, city, status, company or occupation, with their number, and reports suppression exactly if some group has one to four |
| KpiMeaning.KpisAreInOrder | backend/src/contracts/registrationProfileKpiContracts.ts:83-88 | decades ascend; all other lists come by descending count, then by name or JSON text |
| KpiMeaning.PlainKeys | backend/src/contracts/registrationProfileKpiContracts.ts:191-208 | the JSON keys of regions and cities, written out |
| KpiMeaning.QuotesAreEscaped | backend/src/contracts/registrationProfileKpiContracts.ts:191-208 | in these keys a quote or a backslash gets a backslash before it |
| KpiLaws.PublishedCountsAddUpUnlessSuppressed | backend/src/contracts/registrationProfileKpiContracts.ts:103-120 | the published counts of a mandatory dimension add up to it exactly when nothing was suppressed |
| KpiLaws.RegionsHaveTheirCountry | backend/src/contracts/registrationProfileKpiContracts.ts:184-200 | a published region has its country published with at least its count |
| KpiLaws.CitiesHaveTheirCountryAndRegion | backend/src/contracts/registrationProfileKpiContracts.ts:184-214 | a published city has its country, and its region if any, published with at least its count |
| RegistrationProfileKpi.CountMap.CountBucket | backend/src/contracts/registrationProfileKpiContracts.ts:90-101 | one more under the key: the first bucket stays, the count goes up by one, all other entries stay |
| RegistrationProfileKpi.TallyStep | backend/src/contracts/registrationProfileKpiContracts.ts:178-227 | counting one profile turns a tally of some profiles into a tally of one more |
| RegistrationProfileKpi.PublishedFromTally | backend/src/contracts/registrationProfileKpiContracts.ts:103-120 | publishing a tally gives exactly the groups of five or more, with true counts, in order |
| RegistrationProfileKpi.TalliedCountsAddUp | backend/src/contracts/registrationProfileKpiContracts.ts:178-218 | the counts held in the map of a mandatory dimension add up to the number of counted profiles |
| RegistrationProfileKpi.TalliedCityCountsAddUp | backend/src/contracts/registrationProfileKpiContracts.ts:184-214 | the counts held for the cities of a country add up to the count held for the country |
| RegistrationProfileKpi.BuildRegistrationProfileKpis | backend/src/contracts/registrationProfileKpiContracts.ts:137-265 | the seven dimensions are published from exactly the active rows that are fixed points of validation |
| RegistrationProfileKpi.KpisIgnoreTheOrderOfRows | backend/src/contracts/registrationProfileKpiContracts.ts:137-265 | rows in any order give equal KPIs |
| RegistrationProfileKpi.ValidatedRowsAreCounted | backend/src/contracts/registrationProfileKpiContracts.ts:122-131 | an active row storing validator output with an int birth year is counted, then and later |
| RegistrationProfileKpi.CountedRowsAreWellFormed | backend/src/contracts/registrationProfileKpiContracts.ts:170-176 | exactly the active rows storing a well-formed profile with an int birth year are counted |
| KpiSuppression.ResidualIsTheSuppressed | backend/src/contracts/registrationProfileKpiContracts.ts:103-120 | a published country less its published cities is exactly the number of its profiles in suppressed cities: 0 exactly when none is suppressed, and the count of a city suppressed alone |
| KpiSuppression.SuppressedCitiesAreInterchangeable | backend/src/contracts/registrationProfileKpiContracts.ts:133-265 | exchanging two cities of a region with fewer than five profiles each in all stored rows changes no KPI |
| ServiceWorkerManifest.CollectShell | frontend/vite.config.ts:52-66 | the worklist ends, on cycles too, with exactly the non-empty names reachable from entry chunks through static imports |
| ServiceWorkerManifest.AddStyleSheets | frontend/vite.config.ts:68-72 | exactly the outputs named as style sheets join the set |
| ServiceWorkerManifest.PrecacheUrls | frontend/vite.config.ts:74-85 | the list is sorted and holds the fixed files and each name of the shell once, behind a slash |
| ServiceWorkerManifest.ManifestIgnoresBundleOrder | frontend/vite.config.ts:74-85 | the list is determined by the outputs, not by the order of the bundle |
| ServiceWorkerManifest.ManifestIsInOrder | frontend/vite.config.ts:74-85 | the list is in the order of UTF-16 code units |
| ProgramLabelMigration.MigratePrograms | backend/scripts/migrate-program-to-labels.ts:36-111 | a live run leaves every event processed or untouched as its write fared, a dry run changes nothing, and the counters say what happened |
| ProgramLabelMigration.VerifyMigration | backend/scripts/verify-program-labels.ts:63-116 | the counters classify all events and the issues list exactly those at issue |
| ProgramLabelMigration.VerdictsAddUp | backend/scripts/verify-program-labels.ts:76-115 | the four counters add up to the total and the last is always zero |
| ProgramLabelMigration.CountersCountWhatTheySay | backend/scripts/verify-program-labels.ts:76-110 | the counters count events with a program and no label, events with labels none of which is the program's, and the rest |
| ProgramLabelMigration.RunsWriteTheProgram | backend/scripts/migrate-program-to-labels.ts:64-106 | a write that takes effect leaves exactly the program as label, or none; which events are counted as updated or failed, in terms of the stored fields |
| ProgramLabelMigration.VerifierFindsTheLostWrites | backend/scripts/migrate-program-to-labels.ts:57-111 | after a live run over any events the verifier finds at issue as many as were so before and had a write without effect, at most the errors of the run |
| ProgramLabelMigration.ErrorFreeRunsSettle | backend/scripts/migrate-program-to-labels.ts:57-111 | after a run without errors all events verify and another run updates nothing |
| ProgramLabelMigration.RunsKeepAllLabelsExactlyWhen | backend/scripts/migrate-program-to-labels.ts:67-97 | a live run keeps every label of every event if and only if no write takes effect on an event with a label that is not its program's |
| ProgramLabelMigration.SatisfiedVerifierMayLeaveWork | backend/scripts/verify-program-labels.ts:84-110 | when the verifier counts all events as migrated, a live run still attempts exactly those with more labels than their program gives, and is idle if and only if there are none |
| ProgramLabelMigration.LabelsOfEventsWithoutProgramAreErased | backend/scripts/verify-program-labels.ts:104-106 | labels without a program count as migrated and are erased by a live run |
| ProgramLabelMigration.DryRunAnnouncesEverything | backend/scripts/migrate-program-to-labels.ts:88-106 | a dry run reports the programs a live run would and announces all events; a live run updates as many only if each needs and gets its write |

## Left out

- The Express application, controllers, models, sockets, payments, e-mail and React routes: input and output over libraries.
- The auto-reschedule policy described in the README: its code is not part of this model.
- The viewer-local formatting helpers beside the wall-clock search: one formatter call each.
- `isWithinFixedDayRetention` and `datesEqual`: comparisons of two dates, settled by one line.
- Rounding of numbers above 2^53 in `parseInt` and `Date.UTC`: such values lie outside the range of dates either way.
- The strict reading of request bodies, the role mappings and the revision number: one-branch checks before the window is checked.
- The wording of validation messages: only field and code of an issue are modelled.
- ISO 3166 tables, phone number metadata and Unicode normalisation: abstract sets, predicates and functions with the assumptions above.
- The file reading, fingerprint and template substitution after the precache list is built.
- Service code that applies lifecycle actions, actor checks, revisions and room membership: only the table and the clocks are modelled.
- Console output, titles and percentages of the two scripts, and writes by others while they run.
- The seven counting maps are held in one list, in the order of the dimensions, instead of seven variables.
