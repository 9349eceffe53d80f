# Workout history and catalog, in Dafny

This project models the data core of a small home-workout app. It has three parts:

- The history helpers of `src/utils/history.ts`. They turn a list of exercise logs into:
  - per-day buckets;
  - the logs of today, this week and this month;
  - period totals;
  - the current and best streak of consecutive workout days;
  - the texts shown for durations.
- The exercise catalog and its filters (`src/data/exercises.ts`).
- The equipment catalog and its lookup (`src/data/equipment.ts`).

The modules are:

| file | module | models |
|---|---|---|
| `seqs.dfy` | `Seqs` | `find`, `filter` and `reduce`, with their contracts; `FindIndex` is the index search that `Find` is built on |
| `dates.dfy` | `Dates` | Local civil dates and the days between them. It covers `getLocalDateString`, `getStartOfWeek`, `getStartOfMonth`, and how `YYYY-MM-DD` keys compare as strings. |
| `training.dfy` | `Training` | The record types of `src/types/training.ts` |
| `history.dfy` | `History` | `groupLogsByDate` (a method with a loop), the period selectors and `calculatePeriodSummary` |
| `streak.dfy` | `Streak` | `calculateStreak` (a method; its two loops are the methods `ForwardPass` and `BackwardPass`), and what its two numbers mean in calendar days |
| `format.dfy` | `Format` | `formatDuration`, `formatMinutes` and `getMotivationalMessage` |
| `equipment.dfy` | `EquipmentCatalog` | `EQUIPMENT` and `getEquipmentById` |
| `exercises.dfy` | `Exercises` | `EXERCISES`, `getExerciseById`, `getExercisesByBodyArea` and `getExercisesByEquipment` |

The clock is an input. A JavaScript `Date` becomes the civil date (year, month, day) that its local getters report. "Now" is a `today: CivilDate` parameter of the functions that read it. A log's `date` stays a string, as in the app. Where the app needs the day a key names, the model reads that key as a calendar date.

## Model

| member | source | states |
|---|---|---|
| Dates.KeyRoundTrip | src/utils/history.ts:14-19 | A date with a four-digit year has a well-formed key, and that key reads back as the same date |
| Dates.DayKeyRoundTrip | src/utils/history.ts:14-19 | Every well-formed key is the key of the date it names, so keys and dates correspond one to one |
| Dates.KeyOrder | src/utils/history.ts:66 | String order on keys is calendar order on the dates, and keys are equal exactly when the dates are; this is what the string comparisons of the period filters and the streak sort rely on |
| Dates.DayKeyOrder | src/utils/history.ts:105 | The same correspondence, stated on two well-formed keys: string order and equality match the order and equality of their day numbers |
| Dates.PrevDay | src/utils/history.ts:128 | "Yesterday" is a valid date whose day number is one less than today's |
| Dates.ConsecutiveDays | src/utils/history.ts:117-119 | Two valid dates are one day apart exactly when the first is the day before the second |
| Dates.LocalDateString | src/utils/history.ts:14-19 | `getLocalDateString`: the year, then the month and the day each padded to two digits, joined by dashes. `KeyRoundTrip`, `DayKeyRoundTrip` and `LocalDateStringShape` state what it means: keys and dates correspond one to one |
| Dates.Weekday | src/utils/history.ts:44 | `getDay()`: a weekday number from 0 (Sunday) to 6 (Saturday), counted from 1970-01-01, a Thursday. `WeekStartIsMonday` and `StartOfWeek` state what it means for the week start |
| Dates.LocalDateStringShape | src/utils/history.ts:14-19 | For any valid date, the key is the year, a dash, the month as two digits, a dash and the day as two digits; the two-digit groups read back as the month and the day |
| Dates.WeekStartIsMonday | src/utils/history.ts:42-49 | Stepping back from weekday `day` by `day - 1` days, or by 6 on a Sunday, lands on a Monday at most six days back |
| Dates.StartOfWeek | src/utils/history.ts:42-49 | The start of the week is a Monday, at most six days back and not after the given date; a Sunday goes back six days |
| Dates.StartOfMonth | src/utils/history.ts:51-56 | The start of the month is in the same year and month, and no valid day of that month comes before it |
| Training.BodyAreaNamesDistinct | src/types/training.ts:1-7 | The six body-area literals are pairwise distinct, and none of them is `'all'` |
| Training.EquipmentNamesDistinct | src/types/training.ts:9-19 | The ten equipment-id literals are pairwise distinct |
| History.GroupLogsByDate | src/utils/history.ts:21-40 | There is one bucket per `date` that occurs and no other. Each bucket holds that day's logs in input order, and its duration and calorie totals (`calories ?? 0`) are the sums over them. Loop invariant: the buckets describe the logs read so far. |
| History.GroupingPartitions | src/utils/history.ts:24-37 | Every log is in the bucket of its own date and in no other. Every bucket's `date` is its key, and no bucket is empty. |
| History.GroupingConservesTotals | src/utils/history.ts:34-36 | The buckets' duration, calorie and log counts add up to the totals of the whole input |
| History.LogsForPeriod | src/utils/history.ts:58-67 | The logs whose `date` lies between the start and end keys, inclusive under string order, kept in input order |
| History.LogsForPeriodByDay | src/utils/history.ts:58-67 | For well-formed keys, a log is selected exactly when its day is on or after the start day and on or before the end day |
| History.LogsForPeriodEmpty | src/utils/history.ts:66 | A period whose start key is above its end key selects nothing |
| History.LogsForPeriodEmptyByDay | src/utils/history.ts:58-67 | A period that ends before it starts selects nothing |
| History.TodayLogs | src/utils/history.ts:77-80 | The logs dated today, in input order |
| History.TodayIsOneDayPeriod | src/utils/history.ts:77-80 | Today's logs are exactly the logs of the one-day period from today to today |
| History.WeekLogsByDay | src/utils/history.ts:69-71 | This week's logs run from this week's Monday through today. That Monday is at most six days back. |
| History.MonthLogsByDay | src/utils/history.ts:73-75 | This month's logs are those of the same year and month, dated no later than today |
| History.WeekLogs | src/utils/history.ts:69-71 | `getWeekLogs` with the clock reading passed in: a subsequence of the logs, holding each log dated from this week's Monday key through today's key as many times as the input does and no other. `WeekLogsByDay` restates this by calendar day |
| History.MonthLogs | src/utils/history.ts:73-75 | `getMonthLogs` with the clock reading passed in: a subsequence of the logs, holding each log dated from the key of the 1st of this month through today's key as many times as the input does and no other. `MonthLogsByDay` restates this by calendar day |
| History.CalculatePeriodSummary | src/utils/history.ts:82-89 | The count is the number of logs, and the logs are returned as given |
| History.SummaryOfNothing | src/utils/history.ts:82-89 | An empty period has all totals zero |
| History.SummaryAdditive | src/utils/history.ts:84-86 | The totals of two batches together are the sums of their separate totals |
| History.NullCaloriesCountAsZero | src/utils/history.ts:85 | A log with `calories: null` adds nothing to the calories. It still counts as a workout and still adds its duration. |
| History.SummaryNonNegative | src/utils/history.ts:84-85 | With non-negative durations and calories, the totals are non-negative |
| Streak.SortedDates | src/utils/history.ts:105 | Every `date` appears once, in strictly ascending string order |
| Streak.Insert | src/utils/history.ts:105 | Adding one date to a strictly sorted list keeps it strictly sorted, and its elements become the old ones plus that date |
| Streak.RoundDivIsNearest | src/utils/history.ts:117 | `Math.round(n / d)` is the integer nearest to `n / d`, with halves rounded up |
| Streak.DiffDays | src/utils/history.ts:117 | `diffDays` has a value exactly when both dates parse. A date that does not parse gives `NaN`, and `NaN` never equals 1. `DiffOfDayKeys` states its value on well-formed keys: the difference of their day numbers |
| Streak.DiffOfDayKeys | src/utils/history.ts:115-117 | When both keys are read as UTC midnight of their days, `diffDays` is the difference of their day numbers |
| Streak.RunLength | src/utils/history.ts:119-124 | The run of one-day steps ending at index `j` has length between 1 and `j + 1` |
| Streak.LongestRun | src/utils/history.ts:111-125 | Some run ending below `n` has this length, and no run ending below `n` is longer |
| Streak.RunLengthIsRun | src/utils/history.ts:115-124 | Where `diffDays` steps match day numbers, the run of one-day steps is the run of consecutive day numbers |
| Streak.ForwardPass | src/utils/history.ts:111-125 | The first loop leaves `bestStreak` at the longest run of one-day steps. Loop invariant: `currentCount` is the run ending at the previous date, and `bestStreak` is the longest run so far. |
| Streak.BackwardPass | src/utils/history.ts:129-147 | When the latest date is today's or yesterday's key, the second loop counts the run of one-day steps ending there, stopping at the first gap; otherwise the result is 0 |
| Streak.CalculateStreak | src/utils/history.ts:100-150 | `bestStreak` is the longest run of one-day steps among the sorted distinct dates. `currentStreak` is the run ending at the latest date when that date is today or yesterday, and 0 otherwise. With no logs, both are 0. |
| Streak.LiveRunByDay | src/utils/history.ts:127-133 | Comparing the latest key with today's and yesterday's keys is comparing its day with today and yesterday |
| Streak.BestStreakIsLongestRun | src/utils/history.ts:111-125 | `bestStreak` is the length of the longest run of consecutive calendar days with a workout: one such run exists and none is longer |
| Streak.CurrentStreakIsLiveRun | src/utils/history.ts:127-147 | When the latest workout day is today or yesterday, `currentStreak` is the length of the run of workout days ending there, and that run cannot be extended back; otherwise it is 0 |
| Streak.BestStreak | src/utils/history.ts:111-125 | `bestStreak` is 0 exactly when there are no dates, and never exceeds the number of distinct dates. `BestStreakIsLongestRun` states that it is the longest run of consecutive calendar days |
| Streak.CurrentStreak | src/utils/history.ts:127-147 | `currentStreak` is between 0 and the number of distinct dates, and it is positive only when the latest date is today's or yesterday's key. `CurrentStreakIsLiveRun` states that it is the run of consecutive days ending at that date |
| Streak.StreakBounds | src/utils/history.ts:100-150 | With no logs, both streaks are 0. Otherwise `bestStreak` is between 1 and the number of distinct dates. In all cases `0 <= currentStreak <= bestStreak`. |
| Streak.SameDatesSameStreaks | src/utils/history.ts:105 | Only the set of dates matters: logs with the same dates, in any number or order, give the same streaks |
| Streak.RepeatedDayChangesNothing | src/utils/history.ts:105 | A second workout on a day that already has one leaves the sorted dates, and so both streaks, unchanged |
| Streak.SortedIsUnique | src/utils/history.ts:105 | Two strictly sorted lists with the same elements are equal |
| Streak.SortedCardinality | src/utils/history.ts:105 | A strictly sorted list has as many elements as the set of its elements |
| Format.JsRemainder | src/utils/history.ts:154 | JavaScript's `%`: the quotient truncates toward zero, and the remainder takes the sign of the dividend |
| Format.FormatDuration | src/utils/history.ts:152-162 | `formatDuration`: at least two characters, ending in `m` exactly for a non-zero whole number of minutes and in `s` otherwise. `FormatDurationCases`, `FormatDurationRoundTrip` and `FormatDurationInjective` state the rest |
| Format.FormatDurationCases | src/utils/history.ts:152-162 | `"Ss"` under a minute, `"Mm"` on whole minutes, `"Mm Ss"` otherwise |
| Format.FormatDurationRoundTrip | src/utils/history.ts:152-162 | Reading a formatted duration back gives the same number of seconds |
| Format.FormatDurationInjective | src/utils/history.ts:152-162 | Two durations are shown alike exactly when they are equal |
| Format.FormatMinutesValue | src/utils/history.ts:164-167 | The text is a run of digits with no leading zero whose value `v` satisfies `60v <= s < 60(v+1)`: the whole number of minutes in `s`, as `${mins}` writes it |
| Format.FormatMinutes | src/utils/history.ts:164-167 | `formatMinutes`: the minutes rounded down, in decimal. `FormatMinutesValue` states that for a non-negative duration the text is the number of whole minutes |
| Format.MotivationalMessage | src/utils/history.ts:169-191 | `getMotivationalMessage` always returns one of the three messages. `MotivationByTier` and `MotivationMonotone` state which one |
| Format.MotivationByTier | src/utils/history.ts:169-191 | The fractional-minute thresholds 5 and 20, inclusive at 20, are the second thresholds 300 and 1200 |
| Format.MotivationMonotone | src/utils/history.ts:169-191 | A longer session never earns an earlier message, and two sessions get the same message exactly when they fall in the same tier |
| EquipmentCatalog.GetEquipmentById | src/data/equipment.ts:66-68 | A hit is a catalog entry with that id. There is a miss exactly when no entry has it. |
| EquipmentCatalog.CatalogShape | src/data/equipment.ts:3-64 | Ten entries, one per equipment id, in the order of the `EquipmentId` union: no id is missing and none is repeated |
| EquipmentCatalog.IconIsId | src/data/equipment.ts:3-64 | Every entry's icon name is its id |
| EquipmentCatalog.LookupFindsEntry | src/data/equipment.ts:66-68 | Looking up any equipment id finds the entry for that id |
| EquipmentCatalog.LookupOfUnknownId | src/data/equipment.ts:66-68 | A string that names no equipment id finds nothing |
| Exercises.GetExerciseById | src/data/exercises.ts:295-297 | A hit is the first catalog entry with that id. There is a miss exactly when no entry has it. |
| Exercises.CatalogShape | src/data/exercises.ts:17-293 | Eleven entries with pairwise distinct ids. Each has intensity 1 to 3, a positive default duration, a positive MET value and some equipment. |
| Exercises.LookupFindsEntry | src/data/exercises.ts:295-297 | Every catalog id finds its own entry |
| Exercises.ExercisesByBodyArea | src/data/exercises.ts:299-302 | `'all'` gives the whole catalog. Any other value gives exactly the entries of that body area, in catalog order. |
| Exercises.BodyAreasPartition | src/data/exercises.ts:299-302 | Each entry is listed under its own body area and under no other |
| Exercises.ExercisesByEquipment | src/data/exercises.ts:304-309 | An empty list gives the whole catalog. Otherwise the result is exactly the entries that use at least one listed id, in catalog order. |
| Exercises.MoreEquipmentMoreExercises | src/data/exercises.ts:304-309 | Adding ids to a non-empty list never drops an exercise |

## Left out

- Storage (`historyStorage.ts`, `profileStorage.ts`), the screens, `calories.ts` and `getGreeting` are not part of this model. `getGreeting` reads the clock's hour and nothing else.
- Time zones, daylight saving and time of day are not modelled. A `Date` is the civil date its local getters report.
- "Yesterday" is modelled as the calendar day before today. The app computes it as `Date.now() - 86400000`, which can differ from that around a daylight-saving change.
- `new Date(key)` is a parameter of the streak functions, a function from strings to a time in milliseconds or to `NaN`. ECMA-262 fixes its result only for strings in its Date Time String Format. The streak lemmas assume that it reads a `YYYY-MM-DD` key as UTC midnight of that day, as that format prescribes for date-only forms.
- `diffDays` divides whole milliseconds exactly. The floating-point division and its rounding are not modelled; they could differ from exact division only at a half-day boundary, which midnight-to-midnight differences never reach.
- Years outside 1000-9999 are not covered by the lemmas that relate keys to days. Such years give keys that are not `YYYY-MM-DD`.
- The streak lemmas require every log's `date` to be a well-formed key, and yesterday's year to have four digits.
- Streak.CalculateStreak: the `uniqueDates.length === 0` branch at line 107 is not modelled as a separate branch. It cannot be reached after the empty-input check, so the model shows `days` is non-empty instead.
- JavaScript's default `sort()` and the `>=` and `<=` tests of `getLogsForPeriod` compare strings by UTF-16 code units. The model compares Dafny characters, which are code points, so for arbitrary strings the two orders can differ: a character above U+FFFF sorts after one in U+E000-U+FFFF here, and before it in JavaScript. They agree on strings below U+10000, which includes the ASCII day keys.
- `calculateStreak` reads the clock twice, once for today's key and once, through `Date.now() - 86400000`, for yesterday's. If midnight passes between the two readings, `yesterday` equals `today`, and a streak that ended yesterday gets `currentStreak` 0. The model reads the clock once: yesterday is always the day before `today`.
- `getWeekLogs` and `getMonthLogs` also read the clock twice: once through the default argument of `getStartOfWeek` or `getStartOfMonth`, and once through the default `endDate` of `getLogsForPeriod`. If midnight passes between the two readings, the period starts on the old day's week or month and ends on the new day. Late on a Sunday, that takes in eight days, including the new Monday. Late on a month's last day, it takes in the 1st of the next month. `WeekLogs` and `MonthLogs` take one `today` per call, so `WeekLogsByDay` and `MonthLogsByDay` do not describe that case.
- `groupLogsByDate` tests `!grouped[log.date]` on a plain object. The model tests whether the key is in the map, so a `date` that names a property of `Object.prototype` is not modelled.
- `groupLogsByDate` returns a plain object. The model returns a `map`, so the insertion order of its keys is not modelled.
- Calories are whole tenths of a kilocalorie, the precision at which logs store them. Sums of fractional JavaScript numbers and their rounding are not modelled.
- Durations are whole seconds. `formatDuration` and `formatMinutes` of fractional or non-finite numbers are not modelled.
- `getMotivationalMessage` compares real minutes exactly. Floating-point rounding is not modelled.
- Emoji are single code points here, whereas JavaScript strings hold them as UTF-16 surrogate pairs.
- Exercises keep id, name, body area, equipment, intensity, default duration and MET. `description`, `coachingCues` and `media` are left out, since no modelled operation reads them.
- Exercises.MoreEquipmentMoreExercises is stated only for a non-empty starting list. Going from the empty list, which returns the whole catalog, to a non-empty one can drop entries.
- `getExercisesByEquipment` takes arbitrary strings. An id that names no equipment matches nothing, and the model keeps it as a string for that reason.
