# checkly core in Dafny

checkly is a small to-do and daily-goals app. Its logic is a set of pure
functions over an immutable application state:

- calendar helpers on JavaScript `Date` (`src/lib/date.ts`);
- the recurrence step that finds a repeating task's next due date
  (`src/lib/recurrence.ts`);
- the state transitions for tasks, goals and daily goal logs, and the
  derived views (`src/lib/logic.ts`);
- a few string and form helpers inside `src/App.tsx`.

This project restates that logic in Dafny and proves what each piece
promises.

| file | module | what it holds |
|---|---|---|
| `wrappers.dfy` | `Wrappers` | `Option`, for JavaScript's `undefined` |
| `text.dfy` | `Text` | decimal printing and reading (`${n}`, `Number`); JavaScript string order (`<`, `<=`); `String.prototype.trim` |
| `calendar.dfy` | `Calendar` | calendar days as `(year, month, day)` with the Gregorian leap rule; the `Date` normalisation of `setDate`, `setMonth` and `setFullYear`; `addDays`, `addMonths` (with the clamp loop itself as a method), `addYears` |
| `isodate.dfy` | `IsoDate` | `pad2`, `toISODate`, `fromISODate`, `isBefore` |
| `recurrence.dfy` | `Recurrence` | `computeNextDueDate`, its re-anchoring recursion and its possible divergence |
| `lists.dfy` | `Lists` | `Array.prototype.filter` and the subsequence relation |
| `store.dfy` | `Store` | the `AppState` records and every operation of `src/lib/logic.ts` except `todayISO` |
| `labels.dfy` | `Labels` | `monthNames`, `recurrenceLabel`, `plannedLabel`, the quick-add field normalisation and the interval input floor |

Modelling choices:

- A JavaScript `Date` is a calendar day. Month and day numbers out of range
  are normalised the way the `Date` constructor and setters do it.
  - `MonthStart` carries a month index over into the year.
  - `Shift` steps one calendar day at a time, forwards or backwards.
  - `setDate(k)` is `k - 1` days on from the first of the month.
- `fromISODate` builds its `Date` with the year-month-day-time constructor,
  `new Date(y, m - 1, d, 12, 0, 0, 0)`. That constructor reads a year from 0
  to 99 as 1900 plus that year, and so does `FromISO`.
- That constructor also treats some numbers specially, so the round-trip
  and ordering lemmas are stated for canonical dates with years from 1000 on
  (four-digit years for ordering).
- JavaScript treats `0`, `""` and `undefined` as falsy. The predicates
  `TruthyInt`, `TruthyString` and `TruthyBool` make every truthiness test
  of the source explicit.
- `{ ...x, ...patch }` with a `Partial<T>` patch becomes a record of
  `Keep | Put(v)` fields.
- `Date.now()` and the random ids are parameters (`now`, `id`).
- `computeNextDueDate` can recurse without end. Its model therefore takes the
  depth of the JavaScript call stack as a parameter (`depth`). Exhausting it
  gives the outcome `StackOverflow`: the call does not return normally. On
  engines without proper tail calls (V8, SpiderMonkey) that is a `RangeError`;
  on an engine with proper tail calls (JavaScriptCore) the recursive call in
  tail position reuses its frame and the call never returns.
- Either way `completeTask` does not return normally. So `Store.CompleteTask`
  returns `None` exactly when the completed task's recurrence overflows.

## Model

| member | source | states |
|---|---|---|
| Text.NatToString | src/lib/date.ts:3-11 | `${n}` of a non-negative integer is a numeral: digits only, no leading zero, one digit exactly when n is below ten |
| Text.ValueOfNatToString | src/lib/date.ts:14-15 | `Number` reads a printed non-negative integer back as the same integer |
| Text.NatToStringOfValue | src/lib/date.ts:14-15 | a numeral without a leading zero, read by `Number` and printed again, is the same string |
| Text.IntToStringInjective | src/App.tsx:150-155 | two integers print the same text exactly when they are equal |
| Text.FourDigitLength | src/lib/date.ts:8-11 | years 1000 to 9999 print with exactly four digits |
| Text.StrLtIrreflexive | src/lib/date.ts:41-43 | no string is `<` itself |
| Text.StrLtTransitive | src/lib/date.ts:41-43 | `<` on strings is transitive |
| Text.StrLtTrichotomy | src/lib/date.ts:41-43 | any two strings are equal or ordered one way or the other by `<` |
| Text.StrLeIsLtOrEq | src/lib/recurrence.ts:24 | JavaScript's `a <= b` on strings (defined as not `b < a`) holds exactly when `a < b` or the strings are equal |
| Text.StrLtConcat | src/lib/date.ts:41-43 | strings whose heads have equal length compare by their heads first and by their tails when the heads are equal |
| Text.DigitStringOrder | src/lib/date.ts:41-43 | digit strings of equal length compare by `<` as the numbers they denote, and are equal exactly when those numbers are |
| Text.Trim | src/lib/logic.ts:54 | the trimmed title has no white space at either end; it is empty exactly when the title is nothing but white space |
| Text.TrimKeepsMiddle | src/lib/logic.ts:54 | the trimmed title is one contiguous piece of the title, and everything cut off before and after it is white space |
| Text.TrimUnpadded | src/lib/logic.ts:54 | a title with no white space at either end is left as it is |
| Text.TrimIdempotent | src/lib/logic.ts:54 | trimming a trimmed title changes nothing |
| Calendar.Shift | src/lib/date.ts:21 | stepping n days from a real calendar day gives a real calendar day: the same day for n = 0, a later one for n > 0, an earlier one for n < 0 |
| Calendar.MakeDay | src/lib/date.ts:16 | `new Date(y, m0, k)` is always a real calendar day, and is exactly day k of month m0 + 1 of year y when that day exists |
| Calendar.SetDate | src/lib/date.ts:21 | `d.setDate(k)` is always a real calendar day, and keeps the year and month of d with day k when day k exists in that month |
| Calendar.SetMonth | src/lib/date.ts:28 | `d.setMonth(m0)` is always a real calendar day, and keeps the year and day number of d in month m0 + 1 when that day exists there |
| Calendar.SetFullYear | src/lib/date.ts:37 | `d.setFullYear(y)` is always a real calendar day, and keeps the month and day of d in year y when that day exists there |
| Calendar.AddDays | src/lib/date.ts:19-23 | `addDays(d, n)` is always a real calendar day, and stays in the month of d, on day `d.day + n`, when that day exists |
| Calendar.DaysInMonth | src/lib/date.ts:25-31 | a month has 28 to 31 days; February has 29 exactly in a leap year and 28 otherwise |
| Calendar.MonthStart | src/lib/date.ts:16 | the `Date` constructor carries a month index outside 0..11 into the year: the month it lands on has the same absolute month number |
| Calendar.SetDateBack | src/lib/date.ts:31 | `d.setDate(d.getDate() - 1)` is the previous calendar day, also across month and year ends |
| Calendar.AddDaysIsShift | src/lib/date.ts:19-23 | `addDays(d, n)` is the day reached by stepping n calendar days from d, backwards for negative n |
| Calendar.AddDaysZero | src/lib/date.ts:19-23 | adding zero days gives the same day |
| Calendar.AddDaysAdd | src/lib/date.ts:19-23 | adding a days and then b days is adding a + b days |
| Calendar.AddDaysMoves | src/lib/date.ts:19-23 | the result is a real calendar day; it is strictly later for n > 0 and strictly earlier for n < 0 |
| Calendar.AddOneDay | src/lib/date.ts:19-23 | one day on is the next calendar day, so Dec 31 rolls over to Jan 1 of the next year |
| Calendar.AddMonths | src/lib/date.ts:25-33 | `addMonths(d, n)` is a real calendar day, and is the same day number n months on when that day exists in the target month |
| Calendar.AddMonthsOverflow | src/lib/date.ts:28-32 | when the target month is too short, the loop stops on the day before the target month's first day, which is the 31st of the month before it, so the result lies before the target month |
| Calendar.AddMonthsDayNotSmaller | src/lib/date.ts:31-32 | after the loop the day number is at least the starting day number |
| Calendar.AddMonthsNotBefore | src/lib/date.ts:25-32 | adding one or more months never gives a day earlier than the start |
| Calendar.AddMonthsLoop | src/lib/date.ts:25-32 | the clamp loop, as written, terminates and returns the day `AddMonths` describes, with a day number at least the starting one |
| Calendar.AddMonthsClamped | src/lib/date.ts:30 | the clamp the comment describes: exactly n months on, with the day number cut down to the target month's length |
| Calendar.AddMonthsVersusClamped | src/lib/date.ts:25-32 | the loop and the comment's clamp agree exactly when the day number exists in the target month |
| Calendar.AddMonthsJan31 | src/lib/date.ts:30-31 | 2024-01-31 plus one month is 2024-01-31 under the loop and 2024-02-29 under the comment's clamp |
| Calendar.AddYearsSpec | src/lib/date.ts:35-39 | `addYears` keeps month and day n years on, except that Feb 29 into a common year becomes Mar 1 |
| Calendar.AddYearsLeapDay | src/lib/date.ts:35-39 | Feb 29 moved into a common year is Mar 1 |
| Calendar.AddYears | src/lib/date.ts:35-39 | `addYears(d, n)` is a real calendar day, and keeps the month and day of d n years on when that day exists in the target year |
| IsoDate.Pad2 | src/lib/date.ts:3-5 | `pad2(n)`: "0" and n below ten, n printed otherwise; no contract of its own, `IsoDate.Pad2Digits` states what it prints |
| IsoDate.ToISO | src/lib/date.ts:7-12 | `toISODate(d)`; no contract of its own, `IsoDate.ToISOFields`, `IsoDate.ToISOIsISODate` and `IsoDate.ToISOInjective` state what it prints |
| IsoDate.FromISO | src/lib/date.ts:14-17 | `fromISODate(s)` of a `digits-DD-DD` string is always a real calendar day (out-of-range fields normalised) |
| IsoDate.IsBefore | src/lib/date.ts:41-43 | `isBefore(a, b)` holds exactly when b is neither a nor before a in string order |
| IsoDate.Pad2Digits | src/lib/date.ts:3-5 | for 0 to 99, `pad2(n)` is two digits that read back as n: "0" and the digit below ten, the plain decimal otherwise |
| IsoDate.Pad2OfValue | src/lib/date.ts:3-5 | any two digits, read as a number and padded again, come back unchanged |
| IsoDate.ToISOFields | src/lib/date.ts:7-12 | `toISODate` prints `Y-MM-DD`, and the three fields read back as the day's year, month and day |
| IsoDate.ToISOIsISODate | src/lib/date.ts:7-12 | every day from year 1000 on prints as a canonical ISO date |
| IsoDate.FromToISO | src/lib/date.ts:7-17 | `fromISODate(toISODate(d))` is d for every day from year 1000 on |
| IsoDate.FromISOOfISODate | src/lib/date.ts:14-17 | a canonical ISO string parses to exactly the day its three fields name |
| IsoDate.ToFromISO | src/lib/date.ts:7-17 | `toISODate(fromISODate(s))` is s for every canonical ISO string |
| IsoDate.ToISOInjective | src/lib/date.ts:7-12 | distinct days print as distinct strings |
| IsoDate.IsBeforeStrict | src/lib/date.ts:41-43 | `isBefore` is irreflexive and transitive, and any two distinct strings are ordered one way or the other |
| IsoDate.DashedOrder | src/lib/date.ts:41-43 | strings `x-y-z` whose first two fields have equal lengths compare field by field |
| IsoDate.IsBeforeChronological | src/lib/date.ts:41-43 | for four-digit years, `isBefore` on the ISO strings holds exactly when the first day is chronologically earlier, and the strings are equal exactly when the days are |
| IsoDate.StrLeChronological | src/lib/recurrence.ts:24 | for four-digit years, `<=` on the ISO strings holds exactly when the first day is not later than the second |
| IsoDate.IsBeforeFiveDigitYear | src/lib/date.ts:41-43 | from year 10000 on, string order is no longer chronological: "10000-01-01" sorts before "9999-12-31" |
| Recurrence.Candidate | src/lib/recurrence.ts:12-21 | the first candidate is a real calendar day and never earlier than the completion day |
| Recurrence.CandidateDays | src/lib/recurrence.ts:14-19 | for unit day or week the candidate is n or 7n calendar days after the completion day, n being the interval floored at 1 |
| Recurrence.CandidateMonths | src/lib/recurrence.ts:14-20 | for unit month the candidate is the same day n months on, or the last day of the month before the target month when the day does not fit |
| Recurrence.CandidateYears | src/lib/recurrence.ts:14-21 | for unit year the candidate is the same month and day n years on, except that Feb 29 into a common year gives Mar 1 |
| Recurrence.CandidateFixedPoint | src/lib/recurrence.ts:12-21 | the candidate equals the completion day exactly for a one-month step from a 31st that is followed by a shorter month; every other candidate is strictly later |
| Recurrence.Walk | src/lib/recurrence.ts:9-28 | no date exactly for rule "none"; a stack of depth zero overflows; a returned day is never earlier than the anchor |
| Recurrence.NextDue | src/lib/recurrence.ts:9 | the result is `undefined` exactly when the rule's kind is "none" |
| Recurrence.NextDueUnfolds | src/lib/recurrence.ts:23-28 | when the candidate's ISO string is after `currentDue` it is the result; otherwise the result is that of the call with the candidate as both due date and completion date, one stack frame deeper |
| Recurrence.NextDueNotBeforeCompletion | src/lib/recurrence.ts:12-28 | a returned date is a canonical ISO date no earlier than the completion day |
| Recurrence.WalkIntervalFloored | src/lib/recurrence.ts:14 | at every depth, a rule with interval at most 0 recurses exactly like the same rule with interval 1 |
| Recurrence.IntervalFloored | src/lib/recurrence.ts:14 | an interval of zero or less gives exactly the result of interval 1 |
| Recurrence.CandidateFloored | src/lib/recurrence.ts:14 | the candidate for an interval of zero or less is the candidate for interval 1 |
| Recurrence.CandidateAdvances | src/lib/recurrence.ts:18-21 | for day, week and year the candidate is strictly after its anchor, in the same year or later |
| Recurrence.WalkStep | src/lib/recurrence.ts:23-28 | one call: the candidate is returned when its string is after `currentDue`, otherwise the call repeats from the candidate |
| Recurrence.StuckForever | src/lib/recurrence.ts:24-26 | once the candidate equals its own anchor, the recursive call has identical arguments and the stack overflows at every depth |
| Recurrence.WalkSettlesOnce | src/lib/recurrence.ts:24-28 | a re-anchored call whose candidate moves on returns that candidate at once |
| Recurrence.WalkTerminatesUnlessFixedPoint | src/lib/recurrence.ts:23-28 | with at least two frames, the recursion overflows exactly when the first candidate is `<=` `currentDue` and is its own candidate |
| Recurrence.TerminatesUnlessFixedPoint | src/lib/recurrence.ts:23-28 | `computeNextDueDate` overflows the stack exactly when the first candidate is not after `currentDue` and steps to itself; otherwise it returns with at most one re-anchor |
| Recurrence.WalkNoReanchor | src/lib/recurrence.ts:23-28 | a candidate after `currentDue` is returned at once |
| Recurrence.WalkReanchorStep | src/lib/recurrence.ts:24-26 | a candidate not after `currentDue` becomes both the new due date and the new anchor, one frame deeper |
| Recurrence.WalkSettlesAfterReanchor | src/lib/recurrence.ts:18-28 | for day, week and year, the re-anchored call returns its candidate at once |
| Recurrence.WalkOneReanchor | src/lib/recurrence.ts:18-28 | for day, week and year, after one re-anchor the result is the candidate's own candidate |
| Recurrence.WalkDayWeekYear | src/lib/recurrence.ts:18-28 | for day, week and year the result is the first candidate, or after one re-anchor the candidate's own candidate, and is strictly after the anchor |
| Recurrence.DayWeekYearSettles | src/lib/recurrence.ts:24-27 | for day, week and year at most one re-anchor happens |
| Recurrence.DayWeekYearAfterCompletion | src/lib/recurrence.ts:18-21 | for day, week and year a date is always returned, strictly after the completion day |
| Recurrence.WalkLateCompletion | src/lib/recurrence.ts:24-28 | for a day, week or year unit, with a due day from year 1000 on and the first candidate in a year up to 9999: when the anchor is not before the due day, the first candidate is returned, after both |
| Recurrence.LateCompletionAdvancesPastBoth | src/lib/recurrence.ts:11-28 | for a day, week or year unit, with the first candidate in a year up to 9999, completing on or after the due day returns the first candidate, which is after both the due day and the completion day |
| Recurrence.DailySteps | src/lib/recurrence.ts:18 | the daily candidates of 2024-01-01 and 2024-01-02 are the following days |
| Recurrence.WalkReanchorExample | src/lib/recurrence.ts:24-27 | a daily task due 2024-06-01 completed on 2024-01-01 re-anchors once and returns 2024-01-03 |
| Recurrence.ReanchorCanStayBehind | src/lib/recurrence.ts:24-27 | that result, 2024-01-03, is still before the old due date 2024-06-01 |
| Recurrence.MonthlyLateReturnsCompletion | src/lib/recurrence.ts:20-28 | a monthly task due 2024-01-15 and completed on 2024-01-31 comes back due on 2024-01-31, the completion day itself, not after it |
| Recurrence.MonthlyJan31Diverges | src/lib/recurrence.ts:20-26 | a monthly task due and completed on 2024-01-31 overflows the stack at every depth |
| Recurrence.CandidateClamped | src/lib/recurrence.ts:18-21 | with the comment's clamp for months, every candidate is strictly after its anchor |
| Recurrence.WalkClamped | src/lib/recurrence.ts:23-28 | with the clamp, a returned day is strictly after the anchor |
| Recurrence.NextDueClamped | src/lib/recurrence.ts:9 | with the clamp, the result is `undefined` exactly for rule "none" |
| Recurrence.WalkClampedSettles | src/lib/recurrence.ts:23-28 | with the clamp and two frames, the recursion always returns a date |
| Recurrence.ClampedAlwaysSettles | src/lib/recurrence.ts:23-28 | with the clamp, every unit returns a canonical ISO date strictly after the completion day |
| Recurrence.MonthlyJan31Clamped | src/lib/recurrence.ts:20-26 | with the clamp, the monthly task due and completed on 2024-01-31 gets 2024-02-29 |
| Lists.SubseqTransitive | src/lib/logic.ts:118-124 | a subsequence of a subsequence is a subsequence |
| Lists.Filter | src/lib/logic.ts:71-72 | `filter` keeps, in order and with their multiplicity, exactly the elements satisfying the condition |
| Lists.FilterMember | src/lib/logic.ts:71-72 | a value is in the result exactly when it is in the input and satisfies the condition |
| Lists.FilterSnoc | src/lib/logic.ts:71-72 | appending an element the condition rejects leaves the filter's result unchanged |
| Lists.FilterAll | src/lib/logic.ts:118-124 | a filter whose condition holds everywhere returns its input |
| Store.MissingGoals | src/lib/logic.ts:10-22 | the goals that get a new log are a subsequence of the goals, in goal order, holding exactly the active goals with no log on `today` before the call, each with its multiplicity |
| Store.NewLogs | src/lib/logic.ts:17-22 | one new log per missing goal, in the same order: dated `today`, for that goal's id, uncompleted, without `completedAt`, and for an id that had no log on `today` |
| Store.NewLogsEmpty | src/lib/logic.ts:17-23 | no new log is made exactly when every active goal already has a log on `today` |
| Store.EnsureTodayGoalLogs | src/lib/logic.ts:9-25 | only `goalLogs` changes; the old logs stay as an unchanged prefix; afterwards every active goal has a log on `today`; each added log is uncompleted, for `today`, and for an active goal that had none; the identical state comes back exactly when no active goal lacked a log |
| Store.AppendedLogs | src/lib/logic.ts:17-24 | appending the new logs keeps the old ones as a prefix, covers every active goal, and adds only fresh logs for goals that lacked one |
| Store.NewLogsCover | src/lib/logic.ts:17-24 | each active goal has a log on `today` once the new logs are appended |
| Store.NewLogsOrigin | src/lib/logic.ts:17-22 | each new log is uncompleted, dated `today` and belongs to an active goal that had no log that day |
| Store.EnsureTodayGoalLogsIdempotent | src/lib/logic.ts:9-25 | a second call returns the first call's result unchanged |
| Store.ToggleGoalForToday | src/lib/logic.ts:27-38 | only `goalLogs` changes and it keeps its length; the logs of that goal on that day flip `completed` and carry a `completedAt` (the toggle's time) exactly when they become completed; every other log is unchanged |
| Store.ToggleWithoutLog | src/lib/logic.ts:27-38 | toggling a goal with no log on that day changes nothing |
| Store.ToggleTwice | src/lib/logic.ts:27-38 | toggling twice restores the `completed` flag of each log of that goal on that day; its `completedAt` becomes the second toggle's time if it was completed and is cleared otherwise; every other log is unchanged |
| Store.InsertGoalAdds | src/lib/logic.ts:41-43 | inserting a goal adds exactly that goal to the multiset |
| Store.InsertGoalBound | src/lib/logic.ts:41-43 | inserting keeps a common lower bound on `sortOrder` and adds one element |
| Store.InsertGoalSorted | src/lib/logic.ts:41-43 | inserting into a list sorted by `sortOrder` keeps it sorted |
| Store.SortGoals | src/lib/logic.ts:41-43 | the sort's result is ordered by `sortOrder` and is a permutation of its input |
| Store.LastLogOn | src/lib/logic.ts:44-46 | the `Map` built from the day's logs yields no log exactly when the goal has none that day; otherwise it yields the last such log |
| Store.ActiveGoals | src/lib/logic.ts:41-42 | the active goals, each with its multiplicity, and no inactive goal |
| Store.GoalsForToday | src/lib/logic.ts:40-47 | the entries' goals are a permutation of the active goals, sorted by `sortOrder`; an entry has a log exactly when its goal has one on `today`, and that log is one of the state's logs for that goal and day |
| Store.GoalsForTodayMembers | src/lib/logic.ts:40-47 | a goal appears exactly when it is one of the state's goals and active |
| Store.MaxSortOrder | src/lib/logic.ts:50 | `Math.max(0, ...sortOrders)`: at least 0, no smaller than any `sortOrder`, and either 0 or some goal's `sortOrder` |
| Store.AddGoal | src/lib/logic.ts:49-59 | only `goals` changes; exactly one goal is appended, active, with the given id and the trimmed title; its `sortOrder` is above every existing one and is one more than the largest positive `sortOrder`, or 1 when none is positive |
| Store.PatchGoal | src/lib/logic.ts:63 | `{ ...g, ...patch }`: an empty patch gives g back, a patch setting every field gives exactly the patch's values |
| Store.PatchGoalIdempotent | src/lib/logic.ts:63 | spreading the same patch twice is spreading it once |
| Store.PatchGoalThen | src/lib/logic.ts:63 | spreading p and then q is spreading the merged patch `{ ...p, ...q }` |
| Store.UpdateGoal | src/lib/logic.ts:61-66 | only `goals` changes; it keeps length and order; a goal with that id is patched, the others are unchanged |
| Store.UpdateGoalUnknown | src/lib/logic.ts:61-66 | an id no goal has leaves the state unchanged |
| Store.UpdateGoalIdempotent | src/lib/logic.ts:61-66 | running the same update twice gives the state of running it once, even when the patch changes the goal's id |
| Store.UpdateGoalEmptyPatch | src/lib/logic.ts:61-66 | an empty patch leaves the state unchanged |
| Store.DeleteGoal | src/lib/logic.ts:68-74 | only `goals` and `goalLogs` change; both keep their order; exactly the goals with that id and the logs with that `goalId` are removed, and every other goal and log keeps its multiplicity |
| Store.AddTask | src/lib/logic.ts:76-80 | only `tasks` changes; exactly one task is appended, with the given id and creation time and otherwise the draft's fields |
| Store.PatchTask | src/lib/logic.ts:84 | `{ ...t, ...patch }`: an empty patch gives t back; the id is the patch's when set and t's otherwise; a patch that leaves the recurrence and both due dates alone keeps them |
| Store.PatchTaskIdempotent | src/lib/logic.ts:84 | spreading the same patch twice is spreading it once |
| Store.PatchTaskThen | src/lib/logic.ts:84 | spreading p and then q is spreading the merged patch `{ ...p, ...q }` |
| Store.UpdateTask | src/lib/logic.ts:82-87 | only `tasks` changes; it keeps length and order; a task with that id is patched, the others are unchanged |
| Store.UpdateTaskUnknown | src/lib/logic.ts:82-87 | an id no task has leaves the state unchanged |
| Store.UpdateTaskIdempotent | src/lib/logic.ts:82-87 | running the same update twice gives the state of running it once, even when the patch changes the task's id |
| Store.UpdateTaskEmptyPatch | src/lib/logic.ts:82-87 | an empty patch leaves the state unchanged |
| Store.DeleteTask | src/lib/logic.ts:89-91 | only `tasks` changes; it keeps its order; exactly the tasks with that id are removed and the others keep their multiplicity |
| Store.DeleteAddedTask | src/lib/logic.ts:76-91 | deleting a just-added task under a fresh id restores the state |
| Store.CompleteOne | src/lib/logic.ts:94-111 | a task with another id is kept; a recurring task with a truthy `nextDueDate` gets `lastCompletedAt` and the computed next due date (`undefined` for none), and keeps `completedAt`; any other task with that id gets `completedAt`; the call fails exactly when the recurrence overflows |
| Store.CompleteAll | src/lib/logic.ts:94-112 | the mapped list has the same length, each task completed as above; it fails exactly when some task's recurrence overflows |
| Store.CompleteTask | src/lib/logic.ts:93-115 | it fails exactly when a task with that id overflows its recurrence; otherwise only `tasks` changes, keeping its length, and each task is completed as `CompletedAs` says |
| Store.GetDueToday | src/lib/logic.ts:117-125 | a subsequence of the tasks holding exactly the unarchived, uncompleted tasks due today (by `nextDueDate` when recurring, `dueDate` otherwise), each with its multiplicity |
| Store.GetOverdue | src/lib/logic.ts:127-135 | a subsequence of the tasks holding exactly the unarchived, uncompleted tasks whose truthy due string is before today, each with its multiplicity |
| Store.GetAnytime | src/lib/logic.ts:137-147 | a subsequence of the tasks holding exactly the unarchived, uncompleted one-time tasks with neither a due date nor a planned month, each with its multiplicity |
| Store.ViewsDisjoint | src/lib/logic.ts:117-147 | for a non-empty `today`, no task is in two of the three views |
| Store.CompletedLeavesViews | src/lib/logic.ts:93-147 | completing, at a non-zero time, a task that is not rescheduled (one-time, or repeating without a next due date) succeeds and removes it from all three views |
| Labels.MonthName | src/App.tsx:143 | month 1 to 12 gets its English name; any other number gets "Month " and the number |
| Labels.NamesAreNotFallbacks | src/App.tsx:121-134 | no month name looks like a "Month N" fallback |
| Labels.MonthNameInjective | src/App.tsx:121-143 | two month numbers get the same label exactly when they are equal |
| Labels.RecurrenceLabel | src/App.tsx:136-156 | "One-time" exactly for a task that does not repeat; every repeating task's label starts with "Every " |
| Labels.PlainLabelShape | src/App.tsx:154-155 | without a yearly month or monthly week, the label is "Every" and the unit, or the interval and the plural unit |
| Labels.PlainPhraseInjective | src/App.tsx:154-155 | for one unit, different intervals give different phrases |
| Labels.PlainLabelShowsInterval | src/App.tsx:149-155 | two plainly labelled tasks with the same unit get the same label exactly when their intervals are equal |
| Labels.WeekSuffixInjective | src/App.tsx:144 | the " (week N)" suffix shows the week number as stored: equal suffixes mean equal weeks |
| Labels.MonthlyLabelShowsWeek | src/App.tsx:149-152 | two monthly tasks with a week and the same interval get the same label exactly when their weeks are equal |
| Labels.YearlyLabelShowsMonth | src/App.tsx:142-146 | two yearly tasks with a month, no week and the same interval get the same label exactly when their months are equal |
| Labels.PlannedLabel | src/App.tsx:158-164 | null exactly for a repeating task or one with no (truthy) planned month; otherwise it starts with "Planned: " |
| Labels.PlannedLabelShowsPlan | src/App.tsx:158-164 | two planned labels are equal exactly when the tasks have the same planned month, both or neither have a (truthy) planned week, and the weeks are equal when they have one |
| Labels.MonthNameNoParen | src/App.tsx:121-143 | no month label, name or fallback, contains "(", so the week suffix of a planned label can be told apart from the month |
| Labels.SplitAtParen | src/App.tsx:161-163 | a month label followed by an optional " (week N)" suffix splits back into the label and the suffix |
| Labels.QuickAddSchedule | src/App.tsx:807-818 | the new task's schedule is consistent. A due date survives exactly for a one-time task with a date; a planned month only for a one-time task without a date; a planned week only under a planned month; a recurrence month only for a yearly rule; a recurrence week only for a monthly rule or a yearly one with a month. Each surviving field keeps the form's value |
| Labels.QuickAddIdempotent | src/App.tsx:807-818 | a consistent schedule, put back into the form, comes out unchanged |
| Labels.IntervalInput | src/App.tsx:677 | the interval input is at least 1, and keeps any entry of 1 or more |
| Labels.IntervalInputAgreesWithEngine | src/App.tsx:986 | the input's floor equals `Math.max(1, interval)` in `computeNextDueDate`, so the raw and the floored interval schedule alike |

## Left out

- The React components, hooks, modals and rendering of `src/App.tsx`, and the storage layer (`localStorage`, JSON, the seed state): this is UI and I/O.
- `todayISO` and `formatNice`: they read the wall clock and format by locale.
- The time of day, the time zone and daylight saving time. `fromISODate` pins noon, so only the calendar day matters.
- Ids built from `Math.random()` and timestamps from `Date.now()`: these are parameters.
- `computeInitialDueDate` and the quick-add `nextDueDate`: that function is not part of this model. The fourth argument `completeTask` passes to `computeNextDueDate` is ignored by the three-parameter function and is not modelled.
- Non-integer and `NaN` numbers. A non-numeric interval entry makes `Math.max(1, NaN)` give `NaN`; intervals and month or week numbers are integers here.
- Categories, `version` and `settings.strictMode`: they are carried in `AppState` but no modelled operation touches them.
- A `Partial<T>` patch that sets a required field to `undefined`: the patch model can only put a value of the field's type.
- `fromISODate` on strings without the `digits-DD-DD` shape, such as one-digit fields, signs or exponents, which `Number` also accepts. `Recurrence.NextDue` and the completion operations require that shape of their date argument.
- Recurrence.Walk: it passes the candidate day on directly, not as its ISO string parsed again. `Recurrence.NextDueUnfolds` proves this agrees with the source's string recursion for years from 1000 on.
- Recurrence.TerminatesUnlessFixedPoint: stated for completion dates whose candidates stay within years 1000 to 9999, where string order is chronological (see `IsoDate.IsBeforeFiveDigitYear`).
- Recurrence.WalkLateCompletion: stated only for day, week and year units, a due day from year 1000 on and a first candidate in a year up to 9999, where string order is chronological. For a month unit the first candidate can be the anchor itself (`Recurrence.MonthlyLateReturnsCompletion`), and with the anchor equal to the due day the walk never settles (`Recurrence.MonthlyJan31Diverges`).
- Recurrence.LateCompletionAdvancesPastBoth: stated only for day, week and year units, and only when the first candidate's year is at most 9999, where string order is chronological. For a month unit the claim is false: the first candidate can be the completion day itself (`Recurrence.MonthlyLateReturnsCompletion`).
- Recurrence.DayWeekYearSettles: stated only for completion dates from year 1000 on whose second candidate stays within year 9999, where string order is chronological.
- Recurrence.DayWeekYearAfterCompletion: stated only for completion dates from year 1000 on whose second candidate stays within year 9999, where string order is chronological.
- Recurrence.ClampedAlwaysSettles: stated only for completion dates from year 1000 on whose second candidate stays within year 9999, where string order is chronological.
- IsoDate.ToFromISO: the model's days have unbounded years. A JavaScript `Date` holds only the days within 8.64e15 ms of 1970-01-01, that is, from -271821-04-20 to 275760-09-13; past them the `Date` is invalid and `toISODate` prints "NaN-NaN-NaN". The round trip is claimed for every canonical ISO string, including ones beyond that range where the source gives "NaN-NaN-NaN".
- IsoDate.FromISOOfISODate: the same unbounded years; for a year beyond 275760 the source gives an invalid `Date`, not the named day.
- IsoDate.FromToISO: the same unbounded years; the round trip is claimed for days beyond the range of a JavaScript `Date`.
- IsoDate.FromISO: its contract says only that the result is a real calendar day; the day it is for a canonical string is stated by `IsoDate.FromISOOfISODate`.
- Store.AddGoal: `sortOrder` is an unbounded integer; JavaScript numbers are doubles, so `maxSort + 1` stops changing past 2^53. The same holds for `createdAt`, `completedAt` and `lastCompletedAt` timestamps.
- Labels.RecurrenceLabel: its contract gives only the "One-time" and "Every " forms. The wording of each kind of label is covered by `Labels.PlainLabelShape` and the three `...Shows...` lemmas; a yearly label with both a month and a week is not shown to determine the pair.
- Store.GoalsForToday: does not state that goals with equal `sortOrder` keep their input order (the sort is stable), nor which of several logs of a goal on that day is paired; `Store.LastLogOn`, which computes the pairing, states that it is the last one.
- Store.EnsureTodayGoalLogs: does not state that the new logs follow goal order with one log per missing active goal, only what each new log is and that all active goals are covered.
- Store.ViewsDisjoint: requires a non-empty `today`. With `today` equal to "", a one-time task whose `dueDate` is "" would be both due today and anytime.
- Store.CompleteTask: the recurrence gets `depth` stack frames; which depth a JavaScript engine allows is not modelled. `None` means "does not return normally": a `RangeError` on engines without proper tail calls, a call that never returns under proper tail calls.

## Findings

| source | as written | input that shows it | evidently intended | confidence | as-written member | corrected member |
|---|---|---|---|---|---|---|
| src/lib/date.ts:30-31 | the clamp loop steps back from the overflowed day until the day number is at least the original one, which leaves the short target month and stops on the 31st of the month before it | `addMonths(2024-01-31, 1)` gives 2024-01-31 | 2024-02-29, the last day of the target month, as the comment on line 30 says | high; not executed | Calendar.AddMonthsJan31 | Calendar.AddMonthsClamped |
| src/lib/recurrence.ts:20-26 | with that `addMonths`, a monthly step from a 31st before a shorter month gives back the completion day itself; when that day is `<=` `currentDue` the recursive call repeats its own arguments until the stack overflows (a `RangeError`) or, under proper tail calls, never returns; either way `completeTask` does not return normally | `computeNextDueDate("2024-01-31", every 1 month, "2024-01-31")` | "2024-02-29" | high; not executed | Recurrence.MonthlyJan31Diverges | Recurrence.ClampedAlwaysSettles |

The store follows the source as written: `Store.CompleteTask` uses
`Recurrence.NextDue`. The corrected engine is `Recurrence.NextDueClamped`.
It always returns a date strictly after the completion day
(`Recurrence.ClampedAlwaysSettles`).
