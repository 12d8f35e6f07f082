# Streak periods of a session history

`index.js` reads a user's session history (records with a `dateSession` date and
an `isSessionCompleted` flag) and reports the user's streaks: for each maximal
run of consecutive calendar days with a completed session, the number of days
in the run, newest run first, optionally cut to the first `amountOfPeriods`
runs. This project models that computation in Dafny and proves what it
returns:

- `dates.dfy` (module `Dates`): dates as integer millisecond timestamps with
  24-hour days; `getDiffOnDays` as dayjs computes it (end of one day minus start
  of the other, truncated toward zero) and its closed form on day numbers,
  `CalendarDiff`.
- `sessions.dfy` (module `Sessions`): session records, the comparator
  `sortByDate`, the completed-session filter, the in-place sort of the
  filtered array (an insertion sort on a Dafny `array`) and a reference
  newest-first order `NewestFirstOrder` with a proof that the sorted result
  is unique.
- `streaks.dfy` (module `Streaks`): `getLastCompletionIndex`, the streak
  runs `Runs`, the loop of `splitStreakPeriods` as a method
  (`SegmentNewestFirst`) proved against a loop-state function `Segment`,
  and a closed description `ExpectedPeriods` of what the whole function
  returns, including the `TypeError` it throws (the `Outcome` constructor
  `UndefinedSession`, carrying the index of the missing element).
- `properties.dfy` (module `StreakProperties`): what the runs mean (days
  covered, count, positivity), when the function throws, how many lengths it
  returns, and where it departs from the runs.
- `intended.dfy` (module `IntendedStreaks`): the documented result
  `IntendedPeriods` (one length per run, cut to the cap), the exact
  conditions under which the code as written meets it, two concrete inputs on
  which it does not, and a corrected `splitStreakPeriods` proved to return it.

The cap follows JavaScript truthiness: `amountOfPeriods` is `Option<int>`,
`None` stands for the default `null`; `null` and `0` never stop the loop, and
any other value stops it when the count of pushed lengths equals it.

The function's doc comment promises one length per streak. The code does not
deliver that in two cases, which the model follows as written and records
under "## Findings": a list with no completed session or with a single
unbroken run throws, and the oldest run, when the cap does not stop the loop
first, is measured against the session just before it.

## Model

| member | source | states |
|---|---|---|
| Dates.StartOfDay | index.js:18 | dayjs `startOf('day')` is the first millisecond (a multiple of the day length) of the date's calendar day |
| Dates.EndOfDay | index.js:18 | dayjs `endOf('day')` is the last millisecond (23:59:59.999) of the date's calendar day |
| Dates.GetDiffOnDays | index.js:18 | `getDiffOnDays` is 0 for two dates on the same day and 1 when the first is on the day after the second |
| Dates.DiffOnDays | index.js:60 | the call `getDiffOnDays(dayOfLastSessionInPeriod, dayOfFirstSessionInPeriod)` yields the day-number difference, plus one when the first date is earlier |
| Dates.GetDiffOnDaysByDay | index.js:18 | for every pair of timestamps `getDiffOnDays` is the day-number difference when the first date is on the same day or later, and one more than it when it is earlier |
| Sessions.SortByDate | index.js:16 | the comparator returns only 1 or -1 |
| Sessions.SortByDateNeverEqual | index.js:16 | the comparator never returns 0; it is antisymmetric on distinct dates, returns -1 both ways on equal dates, and is positive exactly when the second session is later |
| Sessions.Completed | index.js:50 | the filter keeps exactly the completed sessions, each with its multiplicity in the history |
| Sessions.NewestFirstOrder | index.js:50 | the reference order is newest first and a permutation of its input |
| Sessions.NewestFirstUnique | index.js:16 | two newest-first permutations of the same completed sessions are equal, so the order the sort gives to ties does not matter |
| Sessions.AllCompletedPermutation | index.js:50 | sorting the filtered sessions keeps every session completed |
| Sessions.SortNewestFirst | index.js:50 | the in-place sort leaves the array newest first and a permutation of what it held |
| Sessions.InsertNewer | index.js:50 | one insertion step extends the newest-first prefix by one, leaves the sessions after it untouched and permutes the array |
| Streaks.FindGap | index.js:27-35 | the `findIndex` scan returns -1 or an index of the block that has a successor |
| Streaks.FindGapFindsFirst | index.js:27-35 | the scan returns the first index at or after its start whose session is more than one day after the next, and -1 exactly when there is none |
| Streaks.GetLastCompletionIndex | index.js:26-37 | the result is -1 or at most the block's length minus 2 |
| Streaks.GetLastCompletionIndexFindsFirst | index.js:26-37 | the result is the first gap of the block, and -1 exactly when the block has no gap (always for fewer than two sessions) |
| Streaks.GapInSuffix | index.js:55 | a gap found in `slice(leftIndex)` at `b` is a gap of the whole list at `leftIndex + b` |
| Streaks.Runs | index.js:55-62 | there is at least one run from any cursor inside the list |
| Streaks.LastRunStart | index.js:55-66 | the oldest run starts at or after the cursor, inside the list, and after it exactly when the scan from the cursor finds a gap |
| Streaks.CapReached | index.js:64 | null and 0 are falsy and never stop the loop; any other cap stops it only when the count of lengths equals it, so a negative cap never does |
| Streaks.ExpectedPeriods | index.js:48-71 | the function throws exactly on an empty list or a list with no gap, reading element 0 or -1, and otherwise returns at least one length |
| Streaks.RunsStep | index.js:55-68 | when the scan finds a gap at `b`, the newest run ends at `leftIndex + b`, the next starts inside the list at `leftIndex + b + 1`; when it finds none, one run remains |
| Streaks.MeasureInOrder | index.js:60 | on a newest-first list `getDiffOnDays` from a newer to an older session is the plain difference of their day numbers |
| Streaks.GapFound | index.js:26-37 | a gap anywhere in the list makes the scan of the whole list succeed |
| Streaks.ElementAt | index.js:57-59 | reading an element yields a session exactly when the index is in range, and then the element at that index |
| Streaks.Segment | index.js:53-69 | a throw from the loop reads an index outside the list, and a result keeps every length pushed before and adds at least one |
| Streaks.SegmentAtBreak | index.js:55-68 | an iteration that finds a gap pushes the days from the cursor to the gap plus one and either stops at the cap or moves the cursor just past the gap |
| Streaks.SegmentWithoutBreak | index.js:55-66 | an iteration from a cursor past the start that finds no gap measures the cursor's session against the one before it and stops |
| Streaks.RunsAfterBreak | index.js:55-68 | after a break the new cursor is inside the list just past a gap, the pushed entry is the newest remaining run, and the oldest run is unchanged |
| Streaks.ExpectedAtCap | index.js:64 | stopping at the cap returns exactly the runs pushed so far |
| Streaks.ExpectedAtOldest | index.js:59-66 | reaching the oldest run without the cap returns all newer runs followed by the oldest run measured against the session before it |
| Streaks.SegmentFrom | index.js:53-69 | from any cursor just past a gap, with the newer runs pushed and the cap not reached, the loop ends in the expected outcome |
| Streaks.SegmentMeetsExpected | index.js:51-70 | the loop started at cursor 0 with nothing pushed ends in the expected outcome: a throw for an empty or gapless list, otherwise the runs cut to the cap or with the oldest one mismeasured |
| Streaks.SegmentNewestFirst | index.js:51-70 | the `while (true)` loop with cursor `leftIndex` and a growing result returns exactly what the loop-state function gives from cursor 0 |
| Streaks.SplitStreakPeriods | index.js:48-71 | filter, in-place sort of the fresh array and loop together return the expected outcome for the completed sessions in newest-first order |
| StreakProperties.ScanFrom | index.js:55 | the scan of `slice(leftIndex)` returns -1 exactly when the list has no gap at or after `leftIndex`, and otherwise the offset of the first such gap |
| StreakProperties.RunsPositive | index.js:60-62 | on a newest-first list every run length is at least 1 |
| StreakProperties.CountGapsSkip | index.js:26-37 | positions without a gap add nothing to the gap count or to the days inside gaps |
| StreakProperties.RunsCount | index.js:53-68 | there is exactly one run more than there are gaps |
| StreakProperties.RunsSpan | index.js:39-41 | the run lengths plus the days inside the gaps add up to every day from the oldest session to the newest |
| StreakProperties.NoGapCoversDays | index.js:20-22 | between sessions with no gap, every calendar day from the oldest to the newest has a session |
| StreakProperties.Interval | index.js:60-61 | the days from `lo` to `hi` are exactly those between them, `hi - lo + 1` of them |
| StreakProperties.RunDays | index.js:20-22 | the sessions of a run took place on exactly the days from its oldest session's day to its newest's |
| StreakProperties.DaysOfRun | index.js:60-62 | the day difference plus one of a run equals the number of distinct days with a session in it |
| StreakProperties.RunCountsDays | index.js:58-62 | each run length is the number of distinct calendar days with a completed session in that run |
| StreakProperties.LastRunStartAfterGap | index.js:65-66 | the oldest run follows a gap unless it starts at the cursor, and no gap follows it |
| StreakProperties.ThrowsExactly | index.js:55-59 | the function throws exactly when there are no completed sessions (reading element 0) or no gap (reading element -1), whatever the cap |
| StreakProperties.PeriodsCount | index.js:64 | when it returns, the result holds the cap's number of lengths if the cap is at least 1 and at most the number of runs, and one per run otherwise |
| StreakProperties.AgreesWithRuns | index.js:53-69 | every returned length but the last is the length of the corresponding run, and all are when the cap stops the loop before the oldest run |
| StreakProperties.OldestRunMismeasured | index.js:59-66 | when the cap does not stop the loop first, one length per run is returned and the last is `2 - g <= 0`, with `g >= 2` the day gap before the oldest run |
| StreakProperties.OrderIndependent | index.js:50 | the result depends only on the multiset of sessions in the history, not on their order |
| IntendedStreaks.IntendedPeriods | index.js:39-43 | the documented result is empty for no sessions and otherwise a non-empty prefix of the runs, newest first, no longer than a cap of at least 1 |
| IntendedStreaks.IntendedPeriodsAreRuns | index.js:39-43 | the documented result is the run lengths newest first, each at least 1, as many as a cap of at least 1 or the runs allow, and empty for no sessions |
| IntendedStreaks.IntendedPeriodsSpan | index.js:39-41 | without an early cap, the documented lengths plus the days inside the gaps cover every day from the oldest session to the newest |
| IntendedStreaks.IntendedUncapped | index.js:42-43 | a cap not reached before the oldest run leaves every run in the documented result |
| IntendedStreaks.CodeMatchesIntendedOnlyWhenCapped | index.js:39-71 | on a list with a gap the code returns the documented lengths exactly when the cap stops it before the oldest run |
| IntendedStreaks.CodeThrowsWhereIntendedDoesNot | index.js:55-59 | on a list without a gap the code throws, while the documented result is empty or the single run's length |
| IntendedStreaks.OldestRunExample | index.js:59-66 | sessions on days 1 and 5 give `[1, -2]` instead of the documented `[1, 1]` |
| IntendedStreaks.SingleRunExample | index.js:55-59 | sessions on days 1, 2 and 3 throw, with any cap, instead of giving `[3]` |
| IntendedStreaks.SplitStreakPeriodsCorrected | index.js:48-71 | the corrected function returns the documented lengths for the completed sessions in newest-first order |
| IntendedStreaks.SegmentRuns | index.js:51-70 | the corrected loop, which measures the oldest run to the last session, returns the documented lengths |
| IntendedStreaks.OldestRunStep | index.js:59-62 | the corrected iteration that finds no gap completes the documented lengths |
| IntendedStreaks.BreakStep | index.js:55-68 | a corrected iteration that finds a gap keeps pushed lengths plus remaining runs equal to all runs and, at the cap, returns the documented lengths |
| IntendedStreaks.IntendedAtCap | index.js:64 | stopping at the cap with the newest runs pushed gives the documented lengths |

## Left out

- `getSessionHistory` and `env.apiUrl` (index.js:4-14): a network fetch and JSON decoding, which are I/O; the history is a parameter.
- `main` (index.js:74-82): console output and `Math.max` over the result, which are presentation.
- `getPreviousDay` (index.js:17): it has no callers.
- dayjs date parsing, local time zones and days that are not 24 hours long: dates are integer millisecond timestamps in a zone whose days all last 24 hours.
- The JavaScript engine's sort algorithm: an insertion sort that consults the same comparator stands in for it, and only its result (newest first, a permutation) is used, which is unique for completed sessions.
- Fields of a session record other than `dateSession` and `isSessionCompleted` are not modelled.
- `amountOfPeriods` values that are not integers (strings, fractions, `NaN`) are not modelled.
- The thrown `TypeError` is modelled as the result `UndefinedSession(index)`; its message and stack are not.
- Streaks.SegmentNewestFirst: reads a sequence snapshot of the sorted array rather than the array itself; nothing writes the array during the loop, so no update in place is lost.
- Streaks.FindGap and Streaks.GetLastCompletionIndex: their own contracts state only the range of the result; the first-gap property is stated by the lemmas `FindGapFindsFirst` and `GetLastCompletionIndexFindsFirst`.

## Findings

| source | as written | input that shows it | evidently intended | confidence | as-written member | corrected member |
|---|---|---|---|---|---|---|
| index.js:59-66 | when the scan from the cursor finds no gap, `nextStreakIndex` is `leftIndex - 1`, so the oldest run is measured against the session before it and comes out as `2 - g` | completed sessions on days 1 and 5, no cap: `[1, -2]` | one length per run, the oldest measured to the last session: `[1, 1]` | not executed | IntendedStreaks.OldestRunExample | IntendedStreaks.SegmentRuns |
| index.js:55-59 | with no completed session the loop reads element 0, and with no gap it reads element -1; both are `undefined` and `.dateSession` throws | completed sessions on days 1, 2 and 3, any cap: `TypeError` | the single run's length `[3]`; with no session there is no period to report (index.js:40-41), so `[]` | not executed | IntendedStreaks.SingleRunExample | IntendedStreaks.SplitStreakPeriodsCorrected |
