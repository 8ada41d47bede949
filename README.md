# Habit tracker core, modelled in Dafny

This project models the core of a habit tracker:

- **The check-in store.** Each check-in record belongs to a habit and to one UTC day, and it has a count.
  - `checkin` adds one to the record of the habit's day. It creates the record when there is none.
  - `uncheckin` takes one away and deletes the record when its count would fall to zero.
  - Both succeed only for a habit the caller owns. `checkin` also refuses an archived habit.
- **The statistics.** These are the current and longest streak of done days and the completion rate over a range of days.
- **The date helpers.** They turn an instant into its `YYYY-MM-DD` key and turn a key back into its UTC midnight.
- **The dashboard's aggregation.** This covers the window of day keys, today's count and progress, and the overview series.
- **The client's authentication reducer.**

The backend's service layer and its inline HTTP handlers are both modelled. The handlers share the store's code paths, and lemmas show where they agree and where they differ.

Modules, one per file:

| File | Module | Contents |
|---|---|---|
| `wrappers.dfy` | `Wrappers` | `Option` and `Result` |
| `records.dfy` | `Records` | habit and check-in records, service errors |
| `date.dfy` | `Date` | day numbers, the proleptic Gregorian calendar, decimal formatting, `toISODateOnly` and `startOfUTCDate` |
| `numbers.dfy` | `Numbers` | `Number(s)` and `parseInt(s, 10)` on decimal integers |
| `checkin_repo.dfy` | `CheckinRepo` | the repository's query semantics |
| `streaks.dfy` | `Streaks` | `computeStreaks` as two loops, proved against set-level definitions of runs |
| `habits_service.dfy` | `HabitsService` | day bounds, the table invariant, the service operations and the `Store` class |
| `server.dfy` | `Server` | the inline handlers for checkin, uncheckin, listing and stats |
| `dashboard.dfy` | `Dashboard` | `fmtShort`, `daysBackISO`, `todayCountFromCheckins`, `todayPercent`, `buildOverviewSeries` |
| `auth.dfy` | `Auth` | the reducer, `initialState`, `isAuthed` |

Instants are integer milliseconds since the epoch. A day is the day number `t / 86400000` (Euclidean division), covering the half-open interval `[d·86400000, (d+1)·86400000)`. The current instant is always a parameter `now`.

An invalid JavaScript Date is `None`. A string that does not parse as a calendar date therefore gives `None` from `Date.StartOfUTCDate`. The service then answers `BadDate` where the original would hand the invalid Date to the database.

Other facts about the original that the model records:

- **The check-in table invariant** (`HabitsService.TableInvariant`): every record is dated at a UTC midnight, every count is at least 1, there is at most one record per habit and day, and ids are distinct and below the next free id. `checkin` and `uncheckin` preserve it.
- **A check-in followed by an un-check-in** restores the table exactly.
- **The completion rate is not clamped.** The stats window `date >= now − days·86400000` does not start at a midnight, so it can reach into `days + 1` calendar days. When `now` is exactly a UTC midnight, a range of 1 with records today and yesterday gives a rate of 200 (`HabitsService.CompletionRateOverHundred`). At any other instant the record of yesterday falls before the window and the same records give 100 (`HabitsService.CompletionRateMidDay`). In general, with records at midnights and none after a `now` that is not a midnight, the rate stays within 0..100 (`HabitsService.StatsRateOffMidnight`). A record dated after `now` lifts it over 100 at any instant (`HabitsService.CompletionRateFutureDated`). At most `days + 1` days of the window can be done (`HabitsService.WindowDoneDays`), so with no record dated after `now` the reported rate is at most `CompletionRate(days + 1, days)` (`HabitsService.StatsRateBound`, through `HabitsService.RateMonotone`).
- **The two stats endpoints read `range` differently.** The service uses `Number(range) || 30`, the inline handler `parseInt(range, 10) || 30`. They agree on signed decimal integers and differ on strings such as `"7days"` (`Server.RangesAgree`, `Server.RangesDiffer`).
- **`dayBoundsUTC` rebuilds the day with `Date.UTC`**, which reads a year 0..99 as 1900..1999. A check-in dated "0050-03-10" is therefore stored on 10 March 1950, and "0000-02-29" on 1 March 1900 (see Findings).
- **`toISODateOnly` does not pad the year.** Lexicographic order of its keys is chronological only for four-digit years (see Findings). The streak engine's exact results are therefore stated for days in years 1000 to 9999.

## Model

| member | source | states |
|---|---|---|
| Date.StartOfDay | backend/src/utils/date.js:2-5 | the UTC midnight of the day the UTC getters read: aligned to a day, at or before the instant and less than a day before it, with the same day number |
| Date.DayOf | backend/src/utils/date.js:2-5 | the UTC day of an instant, by floor division by 86400000; its properties are stated by `Date.InDayInterval`, `Date.DayOfMonotone` and `Date.DayShift` |
| Date.DayOfMidnight | backend/src/utils/date.js:9-12 | helper: the midnight of day `d` lies in day `d` |
| Date.InDayInterval | backend/src/services/habits.service.js:6-11 | an instant lies in `[d·86400000, d·86400000 + 86400000)` exactly when its day is `d` |
| Date.MidnightAligned | backend/src/utils/date.js:9-12 | helper: a day's midnight is a multiple of 86400000 |
| Date.DayOfMonotone | backend/src/utils/date.js:1-7 | a later instant never has an earlier day |
| Date.DayShift | backend/src/services/stats.service.js:11 | going back `k` whole days lowers the day number by exactly `k` |
| Date.MidnightOfDay | backend/src/utils/date.js:9-12 | an aligned instant is the midnight of its own day |
| Date.DayOfPreviousDay | backend/src/services/stats.service.js:11 | the instant 86400000 ms earlier lies in the previous day |
| Date.MonthStartStep | backend/src/utils/date.js:3-5 | month starts within a year add up the month lengths, from 0 to the year's length |
| Date.YearStartStep | backend/src/utils/date.js:3 | consecutive year starts differ by the year's length |
| Date.YearStartMonotone | backend/src/utils/date.js:3 | year starts increase with the year |
| Date.YearUp | backend/src/utils/date.js:3 | the upward search finds a year whose span contains the day |
| Date.YearDown | backend/src/utils/date.js:3 | the downward search finds a year whose span contains the day |
| Date.YearOf | backend/src/utils/date.js:3 | `getUTCFullYear`: the year whose span contains the day |
| Date.YearUnique | backend/src/utils/date.js:3 | a day lies in exactly one year |
| Date.MonthOf | backend/src/utils/date.js:4 | `getUTCMonth() + 1`: the month, 1 to 12, whose span contains the day of the year |
| Date.CivilFromDays | backend/src/utils/date.js:3-5 | the calendar date of a day number is valid and converts back to that day number |
| Date.UTCFullYear | backend/src/services/habits.service.js:8 | the year `Date.UTC` uses: 0..99 read as 1900..1999, other years unchanged; stated through `Date.UTCDaysOfCivil` and `Date.UTCDaysTwoDigit` |
| Date.UTCDays | backend/src/services/habits.service.js:8 | `Date.UTC(y, m - 1, d)` in days, with a day past the month's end running on; its meaning is stated by the three lemmas below |
| Date.UTCDaysOfCivil | backend/src/services/habits.service.js:8 | outside years 0..99, `Date.UTC` of a valid date is its day number |
| Date.UTCDaysTwoDigit | backend/src/services/habits.service.js:8 | in years 0..99, `Date.UTC` gives the day number of the same month and day in 1900 + year, when that date exists |
| Date.UTCDaysLeapDayOfYearZero | backend/src/services/habits.service.js:8 | 29 February of year 0 exists but 29 February 1900 does not, and `Date.UTC(0, 1, 29)` is 1 March 1900 |
| Date.UTCMidnight | backend/src/services/habits.service.js:7-8 | the rebuilt day start is aligned to a midnight, and outside years 0..99 it is the instant's own UTC midnight |
| Date.UTCMidnightTwoDigit | backend/src/services/habits.service.js:8 | in years 0..99 the rebuilt day start is the midnight of the same date in 1900 + year when that exists, and always later than the instant's own midnight |
| Date.CivilRoundTrip | backend/src/utils/date.js:9-12 | a valid calendar date survives the conversion to a day number and back |
| Date.MonthOfUnique | backend/src/utils/date.js:4 | a day of the year lies in exactly one month |
| Date.CivilOrder | backend/src/utils/date.js:1-12 | day numbers order valid calendar dates exactly as calendar order does |
| Date.MonthStartMonotone | backend/src/utils/date.js:4 | month starts increase with the month |
| Date.DigitChar | backend/src/utils/date.js:3-5 | helper: a digit value becomes the digit character with that value |
| Date.FixedValue | backend/src/utils/date.js:4-5 | a zero-padded field of width `w` has `w` digits and denotes its number |
| Date.FixedOfDigits | backend/src/utils/date.js:9-12 | a digit string is the zero-padded field of its own value |
| Date.FixedInjective | backend/src/utils/date.js:4-5 | distinct numbers give distinct padded fields |
| Date.NatToDecFixed | backend/src/utils/date.js:3 | a number with exactly `w` digits prints as its padded field of width `w` |
| Date.NatToDecValue | backend/src/utils/date.js:3 | `String(n)` is a non-empty digit string that denotes `n` |
| Date.IntToDecHead | backend/src/utils/date.js:3 | `String(y)` starts with '-' exactly when `y` is negative |
| Date.IntToDecInjective | backend/src/utils/date.js:3 | distinct integers print differently |
| Date.Pad2Fixed | backend/src/utils/date.js:4-5 | `padStart(2, "0")` of a number from 1 to 99 is its two-digit field |
| Date.NatToDec | backend/src/utils/date.js:3-5 | `String(n)` of a non-negative integer; stated by `Date.NatToDecValue`, `Date.NatToDecFixed`, `Date.NatToDecLeading` and `Date.NatToDecLength` |
| Date.IntToDec | backend/src/utils/date.js:3 | `String(year)`, negative years with '-'; stated by `Date.IntToDecHead` and `Date.IntToDecInjective` |
| Date.PadStart2 | backend/src/utils/date.js:4-5 | `padStart(2, "0")`; stated by `Date.Pad2Fixed` |
| Date.LexIrreflexive | backend/src/services/stats.service.js:26 | the string order used by `sort()` is irreflexive |
| Date.LexTotal | backend/src/services/stats.service.js:26 | the string order is total |
| Date.LexAsymmetric | backend/src/services/stats.service.js:26 | the string order is asymmetric |
| Date.LexTransitive | backend/src/services/stats.service.js:26 | the string order is transitive |
| Date.LexAppend | backend/src/services/stats.service.js:26 | strings with equal-length heads compare by head, then by tail |
| Date.FixedLex | backend/src/utils/date.js:4-5 | padded fields of one width compare as their numbers do |
| Date.FormatCivil | backend/src/utils/date.js:6 | the template `${yyyy}-${mm}-${dd}`; stated by `Date.FormatPaddedFields`, `Date.FormatCivilInjective` and, for years before 1000, `Date.UnpaddedYearMisorders` |
| Date.DayKey | backend/src/utils/date.js:1-7 | `toISODateOnly` of any instant of a day; stated by `Date.DayKeyInjective`, `Date.KeyOrder` and `Date.KeyRoundTrip` |
| Date.ToISODateOnly | backend/src/utils/date.js:1-7 | `toISODateOnly(t)`; stated by `Date.ISOShape`, `Date.ISOPaddedFields`, `Date.ISOEqualIffSameDay`, `Date.ISORoundTrip` and `Date.ISOOrder` |
| Date.ToFullDate | backend/src/utils/date.js:1-7 | the padded key the function evidently means; stated by `Date.FullDateOrder` and `Date.FullDateRoundTrip` |
| Date.FieldsOf | backend/src/utils/date.js:9-12 | the fields read from a `YYYY-MM-DD` string lie within their widths |
| Date.StartOfUTCDate | backend/src/utils/date.js:9-12 | `startOfUTCDate` gives an instant at a UTC midnight, or an invalid Date |
| Date.FullDate | backend/src/utils/date.js:1-7 | the padded `YYYY-MM-DD` text of a date has the full-date shape and reads back as the same fields |
| Date.FullDateOfFields | backend/src/utils/date.js:9-12 | a full-date string naming a valid date is the padded text of its fields |
| Date.FormatIsFullDate | backend/src/utils/date.js:1-7 | for years 1000 to 9999, the unpadded format equals the padded one |
| Date.FormatPaddedFields | backend/src/utils/date.js:3-6 | the key is the year's decimal text, then the two-digit month and day |
| Date.SplitAtSuffix | backend/src/utils/date.js:6 | helper: strings with tails of equal length are equal only if heads and tails are |
| Date.SplitFields | backend/src/utils/date.js:6 | two keys with two-digit month and day fields are equal only if all their fields are |
| Date.FormatCivilInjective | backend/src/utils/date.js:1-7 | distinct valid dates format differently |
| Date.LexDateParts | backend/src/utils/date.js:6 | dash-joined keys compare by year, then month, then day, when the years' texts have equal length |
| Date.FullDateLex | backend/src/utils/date.js:1-7 | for years 0 to 9999, padded keys compare exactly as the dates do |
| Date.ISOShape | backend/src/utils/date.js:1-7 | for four-digit years `toISODateOnly` gives a 10-character `YYYY-MM-DD` string |
| Date.ISOPaddedFields | backend/src/utils/date.js:2-6 | `toISODateOnly` is the instant's UTC year, then the two-digit month and day |
| Date.DayKeyInjective | backend/src/utils/date.js:1-7 | distinct days have distinct keys |
| Date.ISOEqualIffSameDay | backend/src/utils/date.js:2-6 | two instants have the same key exactly when they lie in the same UTC day |
| Date.NatToDecLeading | backend/src/utils/date.js:3 | a number of two or more digits prints without a leading zero |
| Date.FixedLength | backend/src/utils/date.js:4-5 | helper: a padded field has its width |
| Date.FixedLeadingZero | backend/src/utils/date.js:9-12 | a number below `10^(w-1)` padded to width `w` starts with '0' |
| Date.LeadingDigit | backend/src/utils/date.js:9-12 | a four-digit field without a leading zero denotes a year of at least 1000 |
| Date.ParseThenFormat | backend/src/utils/date.js:1-12 | a string that parses names a day in years 0 to 9999; the padded format gives the string back, and `toISODateOnly` does exactly when it does not start with '0' |
| Date.FullDateRoundTrip | backend/src/utils/date.js:1-12 | parsing the padded key of an instant gives its UTC midnight |
| Date.ISORoundTrip | backend/src/utils/date.js:1-12 | for four-digit years, `startOfUTCDate(toISODateOnly(t))` is `t` truncated to UTC midnight |
| Date.ConsecutiveMidnights | backend/src/utils/date.js:9-12 | the parsed keys of consecutive days differ by exactly 86400000 ms |
| Date.FullDateOrder | backend/src/utils/date.js:1-7 | for years 0 to 9999, padded keys sort exactly as their days do |
| Date.ISOOrder | backend/src/utils/date.js:1-7 | for four-digit years, keys sort exactly as their days do |
| Date.UnpaddedYearMisorders | backend/src/utils/date.js:3-6 | 999-12-31 precedes 1000-01-01, yet its key sorts after, and the key does not parse |
| Date.FormatLastOf999 | backend/src/utils/date.js:3-6 | the key of 31 December 999 is "999-12-31" |
| Date.FormatFirstOf1000 | backend/src/utils/date.js:3-6 | the key of 1 January 1000 is "1000-01-01" |
| Date.KeyOfDate | backend/src/utils/date.js:1-7 | `toISODateOnly` of a Date that may be invalid, giving "NaN-NaN-NaN" for an invalid one; stated by `Date.KeyOfMidnight` and `Date.KeyNotInvalid` |
| Date.KeyOfMidnight | backend/src/utils/date.js:1-7 | the key of a day's midnight is the day's key |
| Date.KeyRoundTrip | backend/src/utils/date.js:1-12 | for four-digit years, parsing a day's key gives that day's midnight |
| Date.KeyOrder | backend/src/services/stats.service.js:26 | for four-digit years, keys sort exactly as days do |
| Date.NatToDecLength | backend/src/utils/date.js:3 | a number below `10^w` prints in at most `w` digits, one at or above `10^w` in more |
| Date.Pow10AtLeast | backend/src/utils/date.js:4-5 | helper: powers of ten are positive |
| Date.KeyOutsideRejected | backend/src/utils/date.js:9-12 | the key of a day outside years 1000 to 9999 does not parse back |
| Date.KeyNotInvalid | backend/src/utils/date.js:1-7 | no day's key is the key of an invalid Date |
| Numbers.TrimStart | backend/src/services/habits.service.js:133 | removes exactly the leading white space |
| Numbers.TrimEnd | backend/src/services/habits.service.js:133 | removes exactly the trailing white space |
| Numbers.SignedDecimal | backend/src/services/habits.service.js:133 | a value is read only from a string of an optional sign and digits |
| Numbers.NumberOf | backend/src/services/habits.service.js:133 | `Number(range)` on decimal integers, NaN as None; stated by `Numbers.NumberAgreesWithParseInt` and `Numbers.NumberRejectsSuffix` |
| Numbers.DigitPrefix | backend/src/index.js:390 | the longest leading run of digits |
| Numbers.ParseInt | backend/src/index.js:390 | `parseInt(range, 10)`: optional sign, then the longest digit run, NaN without a digit; stated by `Numbers.NumberAgreesWithParseInt` and `Numbers.ParseIntReadsPrefix` |
| Numbers.TrimUnspaced | backend/src/services/habits.service.js:133 | a string without outer white space trims to itself |
| Numbers.DigitPrefixOfDigits | backend/src/index.js:390 | a digit string is all prefix |
| Numbers.NumberAgreesWithParseInt | backend/src/index.js:390 | on a signed decimal, `Number` and `parseInt` give its value |
| Numbers.NumberRejectsSuffix | backend/src/services/habits.service.js:133 | `Number("7days")` is NaN |
| Numbers.ParseIntReadsPrefix | backend/src/index.js:390 | `parseInt("7days", 10)` is 7 |
| CheckinRepo.FindInRange | backend/src/repositories/checkin.repo.js:4-8 | finds a record of the habit in the interval exactly when one exists; it has the earliest date there, and no earlier position has that date |
| CheckinRepo.Select | backend/src/repositories/checkin.repo.js:23-27 | the listing holds exactly the table's records of the habit that pass the date filter |
| CheckinRepo.ListSince | backend/src/repositories/checkin.repo.js:29-34 | the listing holds exactly the habit's records dated at or after `since` |
| Streaks.DoneDays | backend/src/services/stats.service.js:4-8 | the UTC days of the check-ins whose count reaches the target; stated by `Streaks.DoneKeysSpec`, `Streaks.SameDayCollapses` and `Streaks.ReorderingKeepsDoneDays` |
| Streaks.DoneKeys | backend/src/services/stats.service.js:4-8 | the `doneDays` set of keys; stated by `Streaks.DoneKeysSpec` and `Streaks.DoneKeysAreImage` |
| Streaks.Anchor | backend/src/services/stats.service.js:10-13 | today if today is done, otherwise yesterday; stated by `Streaks.CurrentStreakSpec` |
| Streaks.RunEndingAt | backend/src/services/stats.service.js:15-24 | the length of the run of done days ending at a day; stated by `Streaks.RunEndingAtSpec` and `Streaks.RunUnique` |
| Streaks.CurrentStreak | backend/src/services/stats.service.js:13-24 | the run ending at the anchor; stated by `Streaks.CurrentStreakSpec` and `Streaks.CurrentStreakExamples` |
| Streaks.LongestStreak | backend/src/services/stats.service.js:26-43 | the longest run of done days; stated by `Streaks.LongestStreakSpec` and `Streaks.LongestStreakExample` |
| Streaks.DayKeyIsInjective | backend/src/services/stats.service.js:4-8 | helper: day keys are injective, so the key set counts days |
| Streaks.ImageMember | backend/src/services/stats.service.js:4-8 | under an injective key, a day's key is in the image exactly when the day is in the set |
| Streaks.ImageSize | backend/src/services/stats.service.js:4-8 | an injective key's image has as many elements as the set |
| Streaks.ImageOfMapped | backend/src/services/stats.service.js:4-8 | keying the done check-ins' days is keying the set of done days |
| Streaks.DoneKeyList | backend/src/services/stats.service.js:26 | `Array.from(doneDays)` lists exactly the done keys and is no longer than the input |
| Streaks.DoneKeysAreImage | backend/src/services/stats.service.js:4-8 | the done keys are the keys of the done days |
| Streaks.KeyImageMember | backend/src/services/stats.service.js:4-20 | a day's key is done exactly when the day is done |
| Streaks.InvalidKeyNotDone | backend/src/services/stats.service.js:17-20 | an invalid Date's key is never a done key |
| Streaks.KeyImageSize | backend/src/services/stats.service.js:4-8 | there are as many done keys as done days |
| Streaks.DoneKeysSpec | backend/src/services/stats.service.js:4-8 | an instant's key is done exactly when some check-in on its UTC day reaches the target; done keys and done days are equally many |
| Streaks.SameDayCollapses | backend/src/services/stats.service.js:4-8 | a further done record on an already done day changes neither done keys nor done days |
| Streaks.ReorderingKeepsDoneDays | backend/src/services/stats.service.js:4-8 | reordering the check-ins changes neither done keys nor done days |
| Streaks.Dedup | backend/src/services/stats.service.js:26 | a duplicate-free list of the same elements |
| Streaks.InsertLex | backend/src/services/stats.service.js:26 | inserting a new key into a sorted list keeps it sorted and adds exactly that key |
| Streaks.SortLex | backend/src/services/stats.service.js:26 | `sort()`: a sorted list of exactly the same distinct keys |
| Streaks.RunExtend | backend/src/services/stats.service.js:31-42 | a run preceded by a done day grows by one |
| Streaks.RunBound | backend/src/services/stats.service.js:18-23 | a run is no longer than the set of done days |
| Streaks.RunEndingAtSpec | backend/src/services/stats.service.js:15-24 | the run ending at a day is a run, the day before it is not done, and it is no longer than the set |
| Streaks.RunEndingAtAtLeast | backend/src/services/stats.service.js:15-24 | the run ending at a day is at least as long as any run ending there |
| Streaks.RunUnique | backend/src/services/stats.service.js:15-24 | a run ending at a day and not preceded by a done day is the run ending at that day |
| Streaks.RunEndingBelow | backend/src/services/stats.service.js:15-24 | removing a later day does not change the run ending at an earlier one |
| Streaks.LongestUpToSpec | backend/src/services/stats.service.js:26-43 | the longest run up to a bound exists and no longer run below the bound does |
| Streaks.LongestStreakSpec | backend/src/services/stats.service.js:26-43 | the longest streak bounds every run and is achieved; it is 0 exactly when there are no done days, and at most their number |
| Streaks.LongestRunStart | backend/src/services/stats.service.js:26-43 | a run achieving the longest streak starts somewhere |
| Streaks.CurrentStreakSpec | backend/src/services/stats.service.js:13-24 | the current streak is the maximal run ending at the anchor; 0 when the anchor is not done; at most the longest streak, which is at most the number of done days |
| Streaks.CurrentStreakExamples | backend/src/services/stats.service.js:13-24 | done = {yesterday} gives 1; done = {today, yesterday, the day before} gives 3 |
| Streaks.LongestStreakExample | backend/src/services/stats.service.js:26-43 | done = {D, D+1, D+4} gives a longest streak of 2 |
| Streaks.MaxRunAtBounds | backend/src/services/stats.service.js:40 | the running maximum bounds every run so far and is one of them |
| Streaks.SortedRunAt | backend/src/services/stats.service.js:31-39 | over sorted distinct days, the loop's `run` at a day is the run ending at that day |
| Streaks.SortedLongest | backend/src/services/stats.service.js:26-43 | over sorted distinct days, the loop's maximum is the longest streak |
| Streaks.DaysOfKeys | backend/src/services/stats.service.js:35-36 | each key's day number, in list order |
| Streaks.SortedKeysAreDays | backend/src/services/stats.service.js:26-36 | sorted done keys of four-digit years give strictly increasing day numbers of exactly the done days, and each key parses to its day's midnight |
| Streaks.KeyImageKeysOfDays | backend/src/services/stats.service.js:4-8 | the keys of a set of days describe that set |
| Streaks.WalkKey | backend/src/services/stats.service.js:19-20 | the cursor's key is done exactly when the cursor is valid and its day is done |
| Streaks.WalkStops | backend/src/services/stats.service.js:20 | when the walk stops, its count is the run ending at the anchor |
| Streaks.WalkContinues | backend/src/services/stats.service.js:21-22 | when the walk continues, the run grows by one and stays within the done days |
| Streaks.WalkBack | backend/src/services/stats.service.js:15-24 | the backward walk from the anchor's key counts the run ending at the anchor; the loop terminates |
| Streaks.GapStep | backend/src/services/stats.service.js:35-37 | two parsed keys are 86400000 ms apart exactly when their days are consecutive |
| Streaks.KeyRunsAreRuns | backend/src/services/stats.service.js:31-39 | the run counted over keys is the run counted over their days |
| Streaks.KeyMaxRunsAreRuns | backend/src/services/stats.service.js:40 | the maximum counted over keys is the maximum over their days |
| Streaks.SortedKeysLongest | backend/src/services/stats.service.js:26-43 | over the sorted done keys of four-digit years, the loop's maximum is the longest streak |
| Streaks.LongestRun | backend/src/services/stats.service.js:26-43 | the `for` loop over sorted keys returns the longest streak of the done days |
| Streaks.ComputeStreaks | backend/src/services/stats.service.js:3-45 | current streak = the run ending at the anchor (today if done, else yesterday); longest streak = the longest run of done days. The inline copy at backend/src/index.js:334-379 is the same code and is modelled by the same method |
| HabitsService.DayBounds | backend/src/services/habits.service.js:6-11 | `dayStart` is aligned to a midnight and `nextDay` = `dayStart + 86400000`; without a date there are always bounds, and outside years 0..99 they enclose `now`; a given date has bounds exactly when it parses, and outside years 0..99 they start at its midnight |
| HabitsService.DayBoundsTwoDigitYear | backend/src/services/habits.service.js:7-8 | for a base in years 0..99 the bounds start later than the base's own day, at the same date in 1900 + year when that exists |
| HabitsService.DayBoundsNameTheDay | backend/src/services/habits.service.js:6-11 | for a date of a year from 100 on, the bounds start at the day that date names |
| HabitsService.NamedDayBounds | backend/src/services/habits.service.js:6-11 | the intended bounds: the midnight of the named day, or of the day of `now`, and the next midnight |
| HabitsService.NamedDayBoundsNameTheDay | backend/src/services/habits.service.js:6-11 | the intended bounds of every parsable date start at the day it names |
| HabitsService.DayBoundsAgree | backend/src/services/habits.service.js:6-11 | outside years 0..99 the bounds as written are the intended ones |
| HabitsService.DayBoundsOfTwoDigitDate | backend/src/services/habits.service.js:7-8 | a full-date of a year 0..99 whose date exists 1900 years later is checked in on that later date, not the named one |
| HabitsService.DayBoundsOfYear50 | backend/src/services/habits.service.js:7-8 | "0050-03-10" gets the bounds of 10 March 1950 |
| HabitsService.BoundsAreDayRange | backend/src/services/habits.service.js:6-11 | aligned one-day bounds are the interval of their day |
| HabitsService.TableInvariant | backend/src/services/habits.service.js:73-104 | every record at a UTC midnight with count at least 1, at most one per habit and day, ids distinct and below the next id; kept by `HabitsService.CheckinKeepsInvariant` and `HabitsService.UncheckinKeepsInvariant` |
| HabitsService.CheckinInto | backend/src/services/habits.service.js:73-80 | the check-in once the habit is known; stated by `HabitsService.CheckinCounts`, `HabitsService.CheckinCreatesAtMostOne` and `HabitsService.CheckinKeepsInvariant` |
| HabitsService.UncheckinFrom | backend/src/services/habits.service.js:93-104 | the un-check-in once the habit is known; stated by `HabitsService.UncheckinCounts`, `HabitsService.UncheckinWithoutRecord` and `HabitsService.CheckinThenUncheckin` |
| HabitsService.FindOnly | backend/src/repositories/checkin.repo.js:4-8 | under the invariant, the day lookup finds the one record of that habit and day |
| HabitsService.FindNone | backend/src/repositories/checkin.repo.js:4-8 | with no record of that habit and day, the lookup finds none |
| HabitsService.CheckinKeepsInvariant | backend/src/services/habits.service.js:71-80 | a check-in keeps the table invariant, the next id advancing only when a record is created |
| HabitsService.RemoveKeepsInvariant | backend/src/services/habits.service.js:99-101 | deleting a record keeps the table invariant |
| HabitsService.RecountKeepsInvariant | backend/src/services/habits.service.js:104 | setting a count of at least 1 keeps the table invariant |
| HabitsService.UncheckinKeepsInvariant | backend/src/services/habits.service.js:91-104 | an un-check-in keeps the table invariant |
| HabitsService.FoundOnDay | backend/src/repositories/checkin.repo.js:4-8 | a record found for a day belongs to that habit and day |
| HabitsService.AppendCounts | backend/src/services/habits.service.js:76 | appending a record changes only the count of its own habit and day |
| HabitsService.RecountCounts | backend/src/services/habits.service.js:80 | recounting a record changes only the count of its own habit and day |
| HabitsService.DeleteKeepsOther | backend/src/services/habits.service.js:100 | deleting one record leaves the count of another habit and day unchanged |
| HabitsService.DeleteCounts | backend/src/services/habits.service.js:100 | deleting a record zeroes its habit and day and leaves every other count unchanged |
| HabitsService.CheckinCounts | backend/src/services/habits.service.js:71-80 | a check-in adds 1 to its habit and day and leaves every other count unchanged |
| HabitsService.CheckinCreatesAtMostOne | backend/src/services/habits.service.js:73-80 | a record is created exactly when the day had none; the table grows by at most one; the returned record is the day's record with its new count |
| HabitsService.UncheckinCounts | backend/src/services/habits.service.js:91-104 | an un-check-in lowers its habit and day by 1, to no less than 0, and leaves every other count unchanged |
| HabitsService.UncheckinWithoutRecord | backend/src/services/habits.service.js:93-95 | with no record for the day, the table is unchanged and the reply is `{count: 0, removed: false}` |
| HabitsService.CheckinThenUncheckin | backend/src/services/habits.service.js:58-105 | a check-in followed by an un-check-in of the same habit and day restores the table |
| HabitsService.FindForUser | backend/src/services/habits.service.js:28 | the habit is found exactly when it exists and belongs to the user |
| HabitsService.ApplyPatch | backend/src/services/habits.service.js:34 | an update keeps the id and owner, and an empty patch changes nothing |
| HabitsService.CheckinSpec | backend/src/services/habits.service.js:58-81 | NOT_FOUND exactly for a habit the user does not own, ARCHIVED exactly for an owned inactive one, BadDate exactly for an unparsable date; a failure changes nothing |
| HabitsService.UncheckinSpec | backend/src/services/habits.service.js:83-105 | NOT_FOUND exactly for a habit the user does not own, BadDate for an unparsable date, never ARCHIVED; a failure changes nothing |
| HabitsService.CheckinSpecCounts | backend/src/services/habits.service.js:58-81 | `checkin` keeps the table invariant and, on success, adds 1 to the day's count of that habit only |
| HabitsService.UncheckinSpecCounts | backend/src/services/habits.service.js:83-105 | `uncheckin` keeps the table invariant and, on success, lowers that habit's day by 1, to no less than 0, leaving other counts alone |
| HabitsService.WhereDate | backend/src/services/habits.service.js:115-120 | each bound is the parsed midnight of a given `from`/`to`, absent when not given; an unparsable bound is an error |
| HabitsService.RangeDays | backend/src/services/habits.service.js:133 | `max(1, min(365, n || 30))`: within 1 to 365, 30 for NaN or 0, `n` itself within range, clamped outside it |
| HabitsService.CompletionRate | backend/src/services/habits.service.js:146 | `Math.round(done/days·100)`: the integer nearest to `100·done/days`, halves rounded up |
| HabitsService.RateAtMostHundred | backend/src/services/habits.service.js:146 | no more done days than range days gives a rate from 0 to 100 |
| HabitsService.RateOfFullRange | backend/src/services/habits.service.js:146 | every day done gives 100 |
| HabitsService.RateBeyondRange | backend/src/services/habits.service.js:146 | more done days than range days gives at least 100: the rate is not clamped |
| HabitsService.RateMonotone | backend/src/services/habits.service.js:146 | more done days never give a lower rate |
| HabitsService.IntervalSize | backend/src/services/habits.service.js:134-144 | helper: a set of days within an interval is no larger than the interval |
| HabitsService.WindowDoneDays | backend/src/services/habits.service.js:134-144 | with no future records, the window's done days number at most `days + 1` |
| HabitsService.WindowDoneDaysOffMidnight | backend/src/services/habits.service.js:134-144 | with records at midnights and none after a `now` that is not a midnight, the window's done days number at most `days` |
| HabitsService.CompletionRateOverHundred | backend/src/services/habits.service.js:133-146 | at `now` exactly the UTC midnight of a day, range "1" with done records that day and the day before gives a rate of 200 |
| HabitsService.CompletionRateMidDay | backend/src/services/habits.service.js:133-146 | one hour into that day the same records give a rate of 100 |
| HabitsService.CompletionRateFutureDated | backend/src/services/habits.service.js:133-146 | one hour into a day, range "1" with done records that day and the next gives a rate of 200 |
| HabitsService.NumberOfOne | backend/src/services/habits.service.js:133 | `Number("1")` is 1 |
| HabitsService.TwoDoneDays | backend/src/services/habits.service.js:140-144 | the two records of that example give two done days |
| HabitsService.StatsOf | backend/src/services/habits.service.js:138-154 | what a stats reply holds for a window: id, range, streaks of its done days, rate; produced by `HabitsService.StatsOfWindow` |
| HabitsService.StatsRateBound | backend/src/services/habits.service.js:134-146 | with no record dated after `now`, the reported rate is at most `CompletionRate(days + 1, days)` |
| HabitsService.StatsRateOffMidnight | backend/src/services/habits.service.js:134-146 | with records at midnights and none after a `now` that is not a midnight, the reported rate is within 0..100 |
| HabitsService.StatsOfWindow | backend/src/services/habits.service.js:138-154 | the reply carries the habit id, the range, the streaks of the window and the rate of its done days |
| HabitsService.CheckinKeepsStore | backend/src/services/habits.service.js:71-80 | a check-in of a stored habit keeps the store invariant |
| HabitsService.UncheckinKeepsStore | backend/src/services/habits.service.js:91-104 | an un-check-in keeps the store invariant |
| HabitsService.Store.constructor | backend/src/services/habits.service.js:13 | an empty store satisfies the invariant |
| HabitsService.Store.Create | backend/src/services/habits.service.js:18-25 | adds one active habit under a fresh id, `targetPerDay ?? 1`; check-ins unchanged |
| HabitsService.Store.Update | backend/src/services/habits.service.js:27-35 | NOT_FOUND and no change for a habit the user does not own; otherwise the patch is applied to that habit only |
| HabitsService.Store.Archive | backend/src/services/habits.service.js:37-46 | NOT_FOUND and no change for a habit the user does not own; otherwise that habit becomes inactive |
| HabitsService.Store.Restore | backend/src/services/habits.service.js:48-56 | NOT_FOUND and no change for a habit the user does not own; otherwise that habit becomes active again and is returned |
| HabitsService.Store.CheckinDay | backend/src/services/habits.service.js:73-80 | the check-in of a stored habit on given day bounds: the new table and record, the next id advancing only on creation |
| HabitsService.Store.Checkin | backend/src/services/habits.service.js:58-81 | the reply and new state are those of `CheckinSpec`; the habits stay as they were |
| HabitsService.Store.UncheckinDay | backend/src/services/habits.service.js:93-104 | the un-check-in on given day bounds: the new table and reply |
| HabitsService.Store.Uncheckin | backend/src/services/habits.service.js:83-105 | the reply and new table are those of `UncheckinSpec`; nothing else changes |
| HabitsService.Store.ListCheckins | backend/src/services/habits.service.js:107-123 | NOT_FOUND exactly for a habit the user does not own, BadDate exactly for an unparsable bound; otherwise exactly the habit's records within the inclusive bounds |
| HabitsService.Store.StatsForDays | backend/src/services/habits.service.js:125-155 | NOT_FOUND exactly for a habit the user does not own; otherwise the statistics of the habit's records since `now − days·86400000` |
| HabitsService.Store.Stats | backend/src/services/habits.service.js:125-155 | `stats` with `days = RangeDays(Number(range))` |
| Server.PostCheckin | backend/src/index.js:225-267 | the inline handler's reply and new state are those of the service's `checkin` |
| Server.PostUncheckin | backend/src/index.js:269-307 | the inline handler's reply and new state are those of the service's `uncheckin` |
| Server.GetCheckins | backend/src/index.js:309-332 | the inline listing answers what the service's `listCheckins` answers |
| Server.RangeOfQuery | backend/src/index.js:389-390 | within 1 to 365; `parseInt(range, 10) || 30` clamped, the default range being "30" |
| Server.ParseThirty | backend/src/index.js:389 | `parseInt("30", 10)` is 30 |
| Server.GetStats | backend/src/index.js:381-415 | NOT_FOUND exactly for a habit the user does not own; otherwise the statistics over the handler's range |
| Server.RangesAgree | backend/src/index.js:389-390 | on a signed decimal range, the handler's days equal the service's |
| Server.RangesDiffer | backend/src/index.js:389-390 | on "7days" the service uses 30 days and the handler 7 |
| Dashboard.Split | frontend/src/features/dashboard/logic/dashboardLogic.js:10 | `split("-")` always yields at least one part |
| Dashboard.SplitJoin | frontend/src/features/dashboard/logic/dashboardLogic.js:10 | splitting a dash-free head joined by a dash gives the head, then the tail's parts |
| Dashboard.SplitPlain | frontend/src/features/dashboard/logic/dashboardLogic.js:10 | a dash-free string splits into itself |
| Dashboard.DigitsHaveNoDash | frontend/src/features/dashboard/logic/dashboardLogic.js:10 | helper: digit strings contain no dash |
| Dashboard.FmtShort | frontend/src/features/dashboard/logic/dashboardLogic.js:9-12 | `fmtShort(iso)`; stated by `Dashboard.FmtShortOfFields` and `Dashboard.FmtShortOfKey` |
| Dashboard.FmtShortOfFields | frontend/src/features/dashboard/logic/dashboardLogic.js:9-12 | `fmtShort("Y-M-D")` is `"D.M"` for dash-free fields |
| Dashboard.KeyFields | frontend/src/features/dashboard/logic/dashboardLogic.js:19-22 | a day key of a year from 0 up is year, two-digit month and two-digit day, dash-joined |
| Dashboard.FieldsDashFree | frontend/src/features/dashboard/logic/dashboardLogic.js:19-22 | none of a key's fields contains a dash |
| Dashboard.FmtShortOfKey | frontend/src/features/dashboard/logic/dashboardLogic.js:9-12 | `fmtShort` of a day's key is its two-digit day, '.', its two-digit month |
| Dashboard.KeyBack | frontend/src/features/dashboard/logic/dashboardLogic.js:18-22 | the key `i` days before the base, "NaN-NaN-NaN" for an invalid base; stated by `Dashboard.KeyBackOfMidnight` |
| Dashboard.DaysBackISO | frontend/src/features/dashboard/logic/dashboardLogic.js:14-25 | returns `max(n, 0)` keys; the `i`-th from the end is the key of the day `i` days before the base |
| Dashboard.KeyBackOfMidnight | frontend/src/features/dashboard/logic/dashboardLogic.js:18-22 | the key `i` days back from an instant is the key of its day minus `i` |
| Dashboard.KeyIsDayKey | frontend/src/features/dashboard/logic/dashboardLogic.js:18-22 | the same, for a named key |
| Dashboard.DaysBackKeys | frontend/src/features/dashboard/logic/dashboardLogic.js:14-25 | the window from a valid base is the keys of consecutive days ending at the base's day |
| Dashboard.ParseKey | frontend/src/features/dashboard/logic/dashboardLogic.js:16 | a four-digit-year day key parses to that day's midnight |
| Dashboard.OrderKeys | frontend/src/features/dashboard/logic/dashboardLogic.js:17-23 | keys of earlier four-digit-year days sort first |
| Dashboard.KeyAt | frontend/src/features/dashboard/logic/dashboardLogic.js:17-23 | a window position holds the key of its day, which has a four-digit year |
| Dashboard.ParseAt | frontend/src/features/dashboard/logic/dashboardLogic.js:17-23 | a window position parses to its day's midnight |
| Dashboard.OrderAt | frontend/src/features/dashboard/logic/dashboardLogic.js:17-23 | a key further from the end sorts before one nearer the end |
| Dashboard.AscendingFromEnd | frontend/src/features/dashboard/logic/dashboardLogic.js:17-23 | ascending when counted from the end means ascending in list order |
| Dashboard.AscendingDistinct | frontend/src/features/dashboard/logic/dashboardLogic.js:17-23 | a strictly ascending list has no duplicates |
| Dashboard.LastKeyIsBase | frontend/src/features/dashboard/logic/dashboardLogic.js:16-22 | formatting a valid four-digit-year base's midnight gives the base string back |
| Dashboard.DaysBackParse | frontend/src/features/dashboard/logic/dashboardLogic.js:14-25 | the window's keys are consecutive: the `i`-th from the end parses to the base minus `i` days |
| Dashboard.DaysBackAscending | frontend/src/features/dashboard/logic/dashboardLogic.js:14-25 | the window is strictly ascending and duplicate-free |
| Dashboard.LastKey | frontend/src/features/dashboard/logic/dashboardLogic.js:17-22 | the last key is the key of the base's day |
| Dashboard.DaysBackEndsAtBase | frontend/src/features/dashboard/logic/dashboardLogic.js:14-25 | for a valid four-digit-year base, the last key equals the base string |
| Dashboard.Prefix10 | frontend/src/features/dashboard/logic/dashboardLogic.js:28 | `c.date.slice(0, 10)`; used by `Dashboard.FirstCount` |
| Dashboard.CountOrZero | frontend/src/features/dashboard/logic/dashboardLogic.js:29 | `count ?? 0`; used by `Dashboard.FirstCount` and `Dashboard.DoneDates` |
| Dashboard.FirstCount | frontend/src/features/dashboard/logic/dashboardLogic.js:28-29 | the count (or 0) of the first record whose date prefix is `isoDate`; 0 when there is none |
| Dashboard.TodayCountFromCheckins | frontend/src/features/dashboard/logic/dashboardLogic.js:27-30 | as `FirstCount`, and 0 for a missing list |
| Dashboard.TodayPercent | frontend/src/features/dashboard/logic/dashboardLogic.js:32-35 | never above 1; exactly 1 when the count reaches `t` (the target, or 1 for 0 or NaN); otherwise `count / t`; not negative for non-negative inputs |
| Dashboard.DoneDates | frontend/src/features/dashboard/logic/dashboardLogic.js:45-49 | one habit's `doneSet`: date prefixes of its check-ins whose `count ?? 0` reaches its target; used by `Dashboard.HabitsDoneBounds` |
| Dashboard.HabitsDone | frontend/src/features/dashboard/logic/dashboardLogic.js:43-54 | the number of habits done on a date; stated by `Dashboard.HabitsDoneBounds` |
| Dashboard.Tally | frontend/src/features/dashboard/logic/dashboardLogic.js:43-54 | a date's counter after the outer loop; stated by `Dashboard.TallyIsProduct` |
| Dashboard.TallyIsProduct | frontend/src/features/dashboard/logic/dashboardLogic.js:43-54 | a date's counter is its number of occurrences times the number of habits done on it |
| Dashboard.AddDoneDates | frontend/src/features/dashboard/logic/dashboardLogic.js:51-53 | the inner loop adds the date's occurrences to the counter of each done date and leaves the others alone |
| Dashboard.BuildOverviewSeries | frontend/src/features/dashboard/logic/dashboardLogic.js:37-65 | empty without active habits; otherwise one point per date in order, with the short label, the done count, the total number of habits, and `perfect` exactly when done equals total |
| Dashboard.HabitsDoneBounds | frontend/src/features/dashboard/logic/dashboardLogic.js:43-63 | the done count is at most the total, and equals it exactly when every habit is done |
| Dashboard.OccursOnce | frontend/src/features/dashboard/logic/dashboardLogic.js:51 | in a duplicate-free list each element occurs once |
| Dashboard.Absent | frontend/src/features/dashboard/logic/dashboardLogic.js:51 | an element not in the list occurs zero times |
| Dashboard.DistinctDatesCount | frontend/src/features/dashboard/logic/dashboardLogic.js:43-63 | with distinct dates, `done` is the number of habits done that day, from 0 to the total, and equals the total exactly when all are done |
| Auth.Reduce | frontend/src/app/providers/AuthProvider.jsx:11-22 | RESTORE: authed exactly with a non-empty token, guest exactly with an empty one; SET_TOKEN: authed with the token; LOGOUT: empty token, guest; other actions: unchanged |
| Auth.IsAuthed | frontend/src/app/providers/AuthProvider.jsx:53 | `!!state.token`; stated by `Auth.ReachableConsistent` and `Auth.AuthedWithoutToken` |
| Auth.LogoutIdempotent | frontend/src/app/providers/AuthProvider.jsx:17-18 | LOGOUT gives `{"", guest}` from any state, and twice is once |
| Auth.KnownLeavesIdle | frontend/src/app/providers/AuthProvider.jsx:13-18 | after any known action the status is not idle |
| Auth.ReducePreserves | frontend/src/app/providers/AuthProvider.jsx:11-22 | every action keeps the state consistent: idle only as the initial state, a guest has no token, a token implies authed |
| Auth.RunPreserves | frontend/src/app/providers/AuthProvider.jsx:11-22 | a sequence of actions keeps the state consistent |
| Auth.ReachableConsistent | frontend/src/app/providers/AuthProvider.jsx:6-22 | every state reachable from `initialState` (`Auth.Initial`, an empty token with status idle) is consistent |
| Auth.RunIdle | frontend/src/app/providers/AuthProvider.jsx:11-22 | a run ends idle exactly when it began idle and no known action occurred |
| Auth.IdleUntilKnown | frontend/src/app/providers/AuthProvider.jsx:6-22 | from the initial state, the status is idle exactly until a known action is dispatched |
| Auth.AuthedWithoutToken | frontend/src/app/providers/AuthProvider.jsx:15-16 | SET_TOKEN with an empty token gives status authed while `isAuthed` (at line 53) is false |

## Left out

- Streaks.ComputeStreaks: the current streak is exact when the anchor day has a four-digit year, and 0 otherwise. The longest streak is stated only when every done day has a four-digit year. Outside years 1000 to 9999 the keys are not padded and `startOfUTCDate` does not read them back (see Findings), so the original's result there is not stated.
- Streaks.LongestRun: states its result only for done days in years 1000 to 9999, for the same reason.
- HabitsService.StatsOf and the stats members built on it carry the same condition on the streaks.
- Dashboard.DaysBackISO and the window lemmas state order, parsing and the last key only for windows inside years 1000 to 9999; the key of each position is stated for every base.
- Dashboard.TodayPercent: the quotient is exact rational arithmetic, not IEEE-754 double division. The target is an integer or NaN (`None`); other values that `Number(target)` accepts are not modelled.
- HabitsService.CompletionRate: `Math.round` of the double `(size/days)*100` is modelled as exact rounding of the rational `100·size/days`, halves going up. The rounding error of double arithmetic is not modelled, and it changes the reported integer where `(size/days)*100` lands just below a half: 14 pairs with `days` up to 365 and at most `days + 1` done days do so, for example 23 of 40 days (57.49999999999999, reported as 57 where the model gives 58), 29 of 200 (14 against 15), 41 of 40 (102 against 103) and 201 of 200 (100 against 101).
- Numbers.NumberOf: only the empty or blank string and optional-sign decimal integers are read. Decimal fractions, exponents, hexadecimal, binary, octal and "Infinity" are NaN (`None`) here, while `Number` reads them.
- Numbers.ParseInt: only `parseInt(s, 10)` is modelled, on integer values. The loss of precision above 2^53 is not modelled.
- Date.StartOfUTCDate: only strings of the exact shape `YYYY-MM-DD` naming a valid proleptic Gregorian date are accepted. The original builds the string `${isoDate}T00:00:00.000Z`, so other text that the JavaScript date parser might accept is not modelled. Neither are the parser's implementation-defined fallbacks, nor the Date range limit of ±8.64·10^15 ms.
- HabitsService.DayBounds: a date that does not parse becomes an explicit `BadDate` error. In the original the invalid Date reaches the database query, whose failure is a foreign call. This covers an exact-shape string whose day its month lacks, such as "2024-02-30": V8 rolls that forward to 1 March 2024, and the original then writes there.
- HabitsService.Store.ListCheckins: the database returns rows newest first. The model returns them in table order, so it states which records are listed, not their order. The same holds for `listSince` and the inline listing.
- CheckinRepo.FindInRange: when two records share the earliest date, the database's tie order is not specified. The model takes the first in table order. Under the table invariant there is at most one record per day, so the choice does not arise.
- `count ?? 0`: in the store, counts are always set, so the fallback is not modelled there. On the client (`Dashboard.CountOrZero`) a missing count is modelled.
- The `list(userId)` operation (backend/src/services/habits.service.js:14-16) is left out. It is a plain repository listing with no logic of its own.
- Clock reads (`new Date()`, `Date.now()`) are the parameter `now`. `isoTodayUTC`, the default `baseIso` of `daysBackISO`, makes `baseIso` an explicit parameter.
- `buildOverviewSeries` keeps `totalByDate` as a map from date strings, so JavaScript object-key quirks (such as the key `"__proto__"`) are not modelled. `h.id` and dates are plain strings.
- `fmtShort` of a string with fewer than three dash-separated fields gives the text "undefined" for each missing field, as JavaScript's template string does. Non-string input is not modelled.
- Client check-in dates are strings, as JSON carries them. The server's Date-to-JSON conversion is not modelled.
- Server.PostCheckin, Server.PostUncheckin: `req.body?.date` is taken to be a string or absent. A truthy JSON number, boolean or object is not modelled; in the original it reaches the `${date}T00:00:00.000Z` template as its string form.
- The AuthProvider's effect, context, `login`/`register`/`logout` wiring, and `getToken()` reading localStorage are not modelled; the token restored is a parameter of the action. The real `getToken()` always yields a string.
- Concurrency is not modelled. Each checkin and uncheckin is one atomic step, and the read-modify-write race between concurrent requests is not modelled.
- Habit creation through the inline handlers, authentication (bcrypt, JWT), Express routing, status codes, zod request validation and the Prisma client are not modelled. The zod bound `targetPerDay ∈ [1, 50]` is not assumed; any integer target is allowed.

## Findings

| source | as written | input that shows it | evidently intended | confidence | as-written member | corrected member |
|---|---|---|---|---|---|---|
| backend/src/utils/date.js:3-6 | `toISODateOnly` prints the year with `getUTCFullYear()` unpadded, so days before year 1000 get keys like "999-12-31" | 31 December 999 and 1 January 1000: "1000-01-01" sorts before "999-12-31", and `startOfUTCDate("999-12-31")` is not the day's midnight | an RFC 3339 section 5.6 full-date with a four-digit year, whose lexicographic order is chronological for years 0000 to 9999 and which `startOfUTCDate` reads back | not executed | Date.UnpaddedYearMisorders | Date.FullDateOrder |
| backend/src/services/habits.service.js:8 | `dayBoundsUTC` rebuilds the day with `Date.UTC(getUTCFullYear(), …)`, which reads a year 0..99 as 1900..1999; the inline handlers at backend/src/index.js:230 and :274 do the same | `checkin(u, h, "0050-03-10")` looks up and writes the record of 10 March 1950; "0000-02-29" becomes 1 March 1900 | the bounds of the day the string names | not executed | HabitsService.DayBoundsOfYear50 | HabitsService.NamedDayBoundsNameTheDay |

`Date.ToFullDate` is the corrected, padded formatter. `Date.FullDateOrder` proves its order is chronological for years 0 to 9999, and `Date.FullDateRoundTrip` proves `startOfUTCDate` reads it back. `Date.ParseThenFormat` and `HabitsService.DayBoundsNameTheDay` use it to name the day of a parsed date. For years 1000 to 9999 the as-written and corrected formats agree (`Date.FormatIsFullDate`). The streak engine and the dashboard keep the as-written keys and state their results within that range.

`HabitsService.NamedDayBounds` is the day bounds `dayBoundsUTC` evidently means. `HabitsService.NamedDayBoundsNameTheDay` proves they start at the named day for every parsable date, and `HabitsService.DayBoundsAgree` proves they are the as-written bounds outside years 0..99. The store and the inline handlers keep the as-written `HabitsService.DayBounds`, so the model reproduces the original's check-ins for those years.
