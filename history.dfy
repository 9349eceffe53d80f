/** Workout-history aggregation of src/utils/history.ts: grouping logs by day,
    selecting the logs of a period, and period totals. */
module History {
  import opened Seqs
  import opened Dates
  import opened Training

  /** One completed workout (src/types/history.ts).

      `date` is the `YYYY-MM-DD` key of the local day on which the workout ended.
      Calories are kept in tenths of a kilocalorie, the precision they are
      rounded to when written, and `None` stands for `null`. */
  datatype ExerciseLog = ExerciseLog(
    id: string,
    exerciseId: string,
    exerciseName: string,
    bodyArea: BodyArea,
    date: string,
    timestamp: string,
    durationSeconds: int,
    caloriesTenths: Option<int>)

  /** All logs of one day. */
  datatype DailySummary = DailySummary(
    date: string,
    totalDurationSeconds: int,
    totalCalories: int,
    logs: seq<ExerciseLog>)

  /** Totals over the logs of a period. */
  datatype PeriodSummary = PeriodSummary(
    totalDurationSeconds: int,
    totalCalories: int,
    workoutCount: int,
    logs: seq<ExerciseLog>)

  function Duration(log: ExerciseLog): int
  {
    log.durationSeconds
  }

  /** `log.calories ?? 0`. */
  function CaloriesOrZero(log: ExerciseLog): int
  {
    match log.caloriesTenths
    case Some(c) => c
    case None => 0
  }

  function One(log: ExerciseLog): int
  {
    1
  }

  // ---------------------------------------------------------------------------
  // groupLogsByDate

  /** The test `log.date === key`. */
  function HasKey(key: string): ExerciseLog -> bool
  {
    (l: ExerciseLog) => l.date == key
  }

  /** The logs whose `date` string is `key`, in input order. */
  function LogsOn(logs: seq<ExerciseLog>, key: string): seq<ExerciseLog>
  {
    Filter(logs, HasKey(key))
  }

  /** The `date` strings that occur in `logs`. */
  function DateKeys(logs: seq<ExerciseLog>): set<string>
  {
    set i | 0 <= i < |logs| :: logs[i].date
  }

  /** The bucket `groupLogsByDate` builds for `key`. */
  function Bucket(logs: seq<ExerciseLog>, key: string): DailySummary
  {
    var on := LogsOn(logs, key);
    DailySummary(key, SumBy(on, Duration), SumBy(on, CaloriesOrZero), on)
  }

  /** `grouped` has a key for every `date` string of `logs` and no other, and each
      bucket holds that day's logs in input order with their totals. */
  ghost predicate IsGrouping(logs: seq<ExerciseLog>, grouped: map<string, DailySummary>)
  {
    grouped.Keys == DateKeys(logs) &&
    forall k :: k in grouped ==> grouped[k] == Bucket(logs, k)
  }

  /** `groupLogsByDate`: one pass over the logs, opening a bucket on the first
      log of a day and adding each log to its day's totals and list. */
  method GroupLogsByDate(logs: seq<ExerciseLog>) returns (grouped: map<string, DailySummary>)
    ensures IsGrouping(logs, grouped)
  {
    grouped := map[];
    for i := 0 to |logs|
      invariant IsGrouping(logs[..i], grouped)
    {
      var log := logs[i];
      var key := log.date;
      ghost var before := grouped;
      if key !in grouped {
        grouped := grouped[key := DailySummary(key, 0, 0, [])];
      }
      var b := grouped[key];
      grouped := grouped[key := DailySummary(
        b.date,
        b.totalDurationSeconds + log.durationSeconds,
        b.totalCalories + CaloriesOrZero(log),
        b.logs + [log])];
      if key !in before {
        Overwrite(before, key, DailySummary(key, 0, 0, []), grouped[key]);
      }
      GroupingNext(logs, i, before, grouped);
    }
    assert logs[..|logs|] == logs;
  }

  /** Writing a key twice leaves only the second value. */
  lemma Overwrite<K, V>(m: map<K, V>, k: K, first: V, second: V)
    ensures m[k := first][k := second] == m[k := second]
  {
  }

  /** The bucket of `key` in `grouped`, or a fresh empty one. */
  function Opened(grouped: map<string, DailySummary>, key: string): DailySummary
  {
    if key in grouped then grouped[key] else DailySummary(key, 0, 0, [])
  }

  /** A key that no log carries has an empty bucket. */
  lemma NoLogsOnAbsentKey(logs: seq<ExerciseLog>, key: string)
    requires key !in DateKeys(logs)
    ensures Bucket(logs, key) == DailySummary(key, 0, 0, [])
  {
    var on := LogsOn(logs, key);
    if on != [] {
      FilterMembers(logs, HasKey(key), on[0]);
      assert false;
    }
  }

  lemma DateKeysAppend(prefix: seq<ExerciseLog>, log: ExerciseLog)
    ensures DateKeys(prefix + [log]) == DateKeys(prefix) + {log.date}
  {
    var s := prefix + [log];
    forall k | k in DateKeys(s) ensures k in DateKeys(prefix) + {log.date} {
      var i :| 0 <= i < |s| && s[i].date == k;
      if i < |prefix| { assert s[i] == prefix[i]; }
    }
    forall k | k in DateKeys(prefix) ensures k in DateKeys(s) {
      var i :| 0 <= i < |prefix| && prefix[i].date == k;
      assert s[i] == prefix[i];
    }
    assert s[|prefix|].date == log.date;
  }

  /** Reading one more log changes only the bucket of its day: one more log, added to both totals. */
  lemma BucketAppend(prefix: seq<ExerciseLog>, log: ExerciseLog, k: string)
    ensures var b := Bucket(prefix, k);
      Bucket(prefix + [log], k) ==
        if k == log.date then
          DailySummary(k, b.totalDurationSeconds + log.durationSeconds,
                       b.totalCalories + CaloriesOrZero(log), b.logs + [log])
        else b
  {
    FilterAppend(prefix, log, HasKey(k));
    if k == log.date {
      var on := LogsOn(prefix, k);
      SumByAppend(on, log, Duration);
      SumByAppend(on, log, CaloriesOrZero);
      assert LogsOn(prefix + [log], k) == on + [log];
    } else {
      var on := LogsOn(prefix, k);
      assert on + [] == on;
      assert LogsOn(prefix + [log], k) == on;
    }
  }

  /** One iteration of `groupLogsByDate` turns the grouping of `logs[..i]` into the
      grouping of `logs[..i + 1]`. */
  lemma GroupingNext(logs: seq<ExerciseLog>, i: int, before: map<string, DailySummary>, grouped: map<string, DailySummary>)
    requires 0 <= i < |logs| && IsGrouping(logs[..i], before)
    requires var log := logs[i]; var b := Opened(before, log.date);
      grouped == before[log.date := DailySummary(b.date, b.totalDurationSeconds + log.durationSeconds,
                                                 b.totalCalories + CaloriesOrZero(log), b.logs + [log])]
    ensures IsGrouping(logs[..i + 1], grouped)
  {
    assert logs[..i + 1] == logs[..i] + [logs[i]];
    GroupingExtends(logs[..i], logs[i], before, grouped);
  }

  /** Reading `log` after `prefix` extends the grouping of `prefix` to `prefix + [log]`. */
  lemma GroupingExtends(prefix: seq<ExerciseLog>, log: ExerciseLog, before: map<string, DailySummary>,
                        grouped: map<string, DailySummary>)
    requires IsGrouping(prefix, before)
    requires var b := Opened(before, log.date);
      grouped == before[log.date := DailySummary(b.date, b.totalDurationSeconds + log.durationSeconds,
                                                 b.totalCalories + CaloriesOrZero(log), b.logs + [log])]
    ensures IsGrouping(prefix + [log], grouped)
  {
    DateKeysAppend(prefix, log);
    forall k | k in grouped ensures grouped[k] == Bucket(prefix + [log], k) {
      BucketNext(prefix, log, before, grouped, k);
    }
  }

  /** The bucket of one key after one more log is read. */
  lemma BucketNext(prefix: seq<ExerciseLog>, log: ExerciseLog, before: map<string, DailySummary>,
                   grouped: map<string, DailySummary>, k: string)
    requires IsGrouping(prefix, before)
    requires var b := Opened(before, log.date);
      grouped == before[log.date := DailySummary(b.date, b.totalDurationSeconds + log.durationSeconds,
                                                 b.totalCalories + CaloriesOrZero(log), b.logs + [log])]
    requires k in grouped
    ensures grouped[k] == Bucket(prefix + [log], k)
  {
    BucketAppend(prefix, log, k);
    if k != log.date {
      assert grouped[k] == before[k];
    } else if k !in before {
      NoLogsOnAbsentKey(prefix, k);
    }
  }

  /** Every log is in the bucket of its own day and in no other, and no bucket is empty. */
  lemma GroupingPartitions(logs: seq<ExerciseLog>, grouped: map<string, DailySummary>)
    requires IsGrouping(logs, grouped)
    ensures forall i :: 0 <= i < |logs| ==> logs[i].date in grouped && logs[i] in grouped[logs[i].date].logs
    ensures forall k, x :: k in grouped && x in grouped[k].logs ==> x in logs && x.date == k
    ensures forall k :: k in grouped ==> grouped[k].date == k && |grouped[k].logs| > 0
  {
    forall i | 0 <= i < |logs|
      ensures logs[i].date in grouped && logs[i] in grouped[logs[i].date].logs
    {
      assert logs[i].date in DateKeys(logs);
      FilterMembers(logs, HasKey(logs[i].date), logs[i]);
    }
    forall k, x | k in grouped && x in grouped[k].logs ensures x in logs && x.date == k {
      FilterMembers(logs, HasKey(k), x);
    }
    forall k | k in grouped ensures |grouped[k].logs| > 0 {
      var i :| 0 <= i < |logs| && logs[i].date == k;
      FilterMembers(logs, HasKey(k), logs[i]);
    }
  }

  predicate Distinct(ks: seq<string>)
  {
    forall i, j :: 0 <= i < j < |ks| ==> ks[i] != ks[j]
  }

  /** The sum of `f` over the logs of each key of `ks`. */
  function SumOverKeys(logs: seq<ExerciseLog>, ks: seq<string>, f: ExerciseLog -> int): int
  {
    if ks == [] then 0 else SumBy(LogsOn(logs, ks[0]), f) + SumOverKeys(logs, ks[1..], f)
  }

  lemma {:induction false} SumOverKeysAppend(logs: seq<ExerciseLog>, log: ExerciseLog, ks: seq<string>, f: ExerciseLog -> int)
    requires Distinct(ks)
    ensures SumOverKeys(logs + [log], ks, f) ==
            SumOverKeys(logs, ks, f) + (if log.date in ks then f(log) else 0)
  {
    if ks != [] {
      SumOverKeysAppend(logs, log, ks[1..], f);
      var k := ks[0];
      FilterAppend(logs, log, HasKey(k));
      var on := LogsOn(logs, k);
      if log.date == k {
        assert LogsOn(logs + [log], k) == on + [log];
        assert (on + [log])[..|on|] == on;
        assert log.date !in ks[1..] by {
          forall j | 0 <= j < |ks[1..]| ensures ks[1..][j] != k {
            assert ks[1..][j] == ks[j + 1];
          }
        }
      } else {
        assert LogsOn(logs + [log], k) == on;
        assert log.date in ks <==> log.date in ks[1..] by {
          assert ks == [k] + ks[1..];
        }
      }
    }
  }

  /** Splitting the logs by day and adding the per-day sums gives the overall sum. */
  lemma {:induction false} SumOverKeysConserves(logs: seq<ExerciseLog>, ks: seq<string>, f: ExerciseLog -> int)
    requires Distinct(ks)
    requires forall i :: 0 <= i < |logs| ==> logs[i].date in ks
    ensures SumOverKeys(logs, ks, f) == SumBy(logs, f)
    decreases |logs|
  {
    if logs == [] {
      ZeroOverKeys(ks, f);
    } else {
      var init, last := logs[..|logs| - 1], logs[|logs| - 1];
      assert logs == init + [last];
      SumOverKeysConserves(init, ks, f);
      SumOverKeysAppend(init, last, ks, f);
    }
  }

  lemma {:induction false} ZeroOverKeys(ks: seq<string>, f: ExerciseLog -> int)
    ensures SumOverKeys([], ks, f) == 0
  {
    if ks != [] {
      ZeroOverKeys(ks[1..], f);
    }
  }

  /** The sum of one field over the buckets named by `ks`. */
  function SumBuckets(grouped: map<string, DailySummary>, ks: seq<string>, field: DailySummary -> int): int
    requires forall i :: 0 <= i < |ks| ==> ks[i] in grouped
  {
    if ks == [] then 0 else field(grouped[ks[0]]) + SumBuckets(grouped, ks[1..], field)
  }

  lemma {:induction false} SumBucketsIsSumOverKeys(logs: seq<ExerciseLog>, grouped: map<string, DailySummary>,
                                                  ks: seq<string>, field: DailySummary -> int, f: ExerciseLog -> int)
    requires forall i :: 0 <= i < |ks| ==> ks[i] in grouped
    requires forall k :: k in grouped ==> field(grouped[k]) == SumBy(LogsOn(logs, k), f)
    ensures SumBuckets(grouped, ks, field) == SumOverKeys(logs, ks, f)
  {
    if ks != [] {
      SumBucketsIsSumOverKeys(logs, grouped, ks[1..], field, f);
    }
  }

  lemma {:induction false} SumByOne(s: seq<ExerciseLog>)
    ensures SumBy(s, One) == |s|
  {
    if s != [] {
      SumByOne(s[..|s| - 1]);
    }
  }

  /** The bucket totals add up to the totals of the whole input: durations,
      calories and the number of logs. `ks` lists the keys of the result once each. */
  lemma GroupingConservesTotals(logs: seq<ExerciseLog>, grouped: map<string, DailySummary>, ks: seq<string>)
    requires IsGrouping(logs, grouped)
    requires Distinct(ks) && (forall k :: k in grouped <==> k in ks)
    ensures SumBuckets(grouped, ks, (b: DailySummary) => b.totalDurationSeconds) ==
            CalculatePeriodSummary(logs).totalDurationSeconds
    ensures SumBuckets(grouped, ks, (b: DailySummary) => b.totalCalories) ==
            CalculatePeriodSummary(logs).totalCalories
    ensures SumBuckets(grouped, ks, (b: DailySummary) => |b.logs|) ==
            CalculatePeriodSummary(logs).workoutCount
  {
    assert forall i :: 0 <= i < |logs| ==> logs[i].date in ks by {
      forall i | 0 <= i < |logs| ensures logs[i].date in ks {
        assert logs[i].date in DateKeys(logs);
      }
    }
    SumBucketsIsSumOverKeys(logs, grouped, ks, (b: DailySummary) => b.totalDurationSeconds, Duration);
    SumOverKeysConserves(logs, ks, Duration);
    SumBucketsIsSumOverKeys(logs, grouped, ks, (b: DailySummary) => b.totalCalories, CaloriesOrZero);
    SumOverKeysConserves(logs, ks, CaloriesOrZero);
    forall k | k in grouped ensures |grouped[k].logs| == SumBy(LogsOn(logs, k), One) {
      SumByOne(LogsOn(logs, k));
    }
    SumBucketsIsSumOverKeys(logs, grouped, ks, (b: DailySummary) => |b.logs|, One);
    SumOverKeysConserves(logs, ks, One);
    SumByOne(logs);
  }

  // ---------------------------------------------------------------------------
  // Periods

  /** `log.date >= startKey && log.date <= endKey`, as JavaScript compares strings. */
  predicate InPeriod(log: ExerciseLog, startKey: string, endKey: string)
  {
    !LexLess(log.date, startKey) && !LexLess(endKey, log.date)
  }

  function InPeriodTest(startKey: string, endKey: string): ExerciseLog -> bool
  {
    (l: ExerciseLog) => InPeriod(l, startKey, endKey)
  }

  /** `getLogsForPeriod`: the logs whose key lies between the keys of `start` and `end`, inclusive. */
  function LogsForPeriod(logs: seq<ExerciseLog>, start: CivilDate, end: CivilDate): (r: seq<ExerciseLog>)
    ensures IsSubseq(r, logs)
    ensures forall x {:trigger multiset(r)[x]} ::
              multiset(r)[x] == if InPeriod(x, LocalDateString(start), LocalDateString(end)) then multiset(logs)[x] else 0
    ensures forall x :: x in r <==> x in logs && InPeriod(x, LocalDateString(start), LocalDateString(end))
  {
    var startKey, endKey := LocalDateString(start), LocalDateString(end);
    var r := Filter(logs, InPeriodTest(startKey, endKey));
    assert forall x :: x in r <==> x in logs && InPeriod(x, startKey, endKey) by {
      forall x ensures x in r <==> x in logs && InPeriod(x, startKey, endKey) {
        FilterMembers(logs, InPeriodTest(startKey, endKey), x);
      }
    }
    r
  }

  /** For well-formed keys the string test is the chronological one. */
  lemma LogsForPeriodByDay(logs: seq<ExerciseLog>, start: CivilDate, end: CivilDate, x: ExerciseLog)
    requires IsKeyDate(start) && IsKeyDate(end) && IsDayKey(x.date)
    ensures x in LogsForPeriod(logs, start, end) <==>
            x in logs && DayNumber(start) <= DayNumber(KeyDate(x.date)) <= DayNumber(end)
  {
    KeyRoundTrip(start);
    KeyRoundTrip(end);
    DayKeyOrder(x.date, LocalDateString(start));
    DayKeyOrder(LocalDateString(end), x.date);
  }

  /** A period whose start key is above its end key selects nothing. */
  lemma LogsForPeriodEmpty(logs: seq<ExerciseLog>, start: CivilDate, end: CivilDate)
    requires LexLess(LocalDateString(end), LocalDateString(start))
    ensures LogsForPeriod(logs, start, end) == []
  {
    var r := LogsForPeriod(logs, start, end);
    var s, e := LocalDateString(start), LocalDateString(end);
    if r != [] {
      var x := r[0];
      assert x in r;
      var k := x.date;
      LexLessTotal(k, s);
      LexLessTotal(e, k);
      if k != s && k != e {
        LexLessTransitive(e, s, k);
      }
      LexLessAsymmetric(e, s);
      assert false;
    }
  }

  /** For well-formed keys: a period that ends before it starts selects nothing. */
  lemma LogsForPeriodEmptyByDay(logs: seq<ExerciseLog>, start: CivilDate, end: CivilDate)
    requires IsKeyDate(start) && IsKeyDate(end) && DayNumber(end) < DayNumber(start)
    ensures LogsForPeriod(logs, start, end) == []
  {
    KeyOrder(end, start);
    LogsForPeriodEmpty(logs, start, end);
  }

  /** `getTodayLogs`: the logs whose key is today's key. */
  function TodayLogs(logs: seq<ExerciseLog>, today: CivilDate): (r: seq<ExerciseLog>)
    ensures IsSubseq(r, logs)
    ensures forall x {:trigger multiset(r)[x]} ::
              multiset(r)[x] == if x.date == LocalDateString(today) then multiset(logs)[x] else 0
  {
    Filter(logs, HasKey(LocalDateString(today)))
  }

  /** Today's logs are the one-day period from today to today. */
  lemma TodayIsOneDayPeriod(logs: seq<ExerciseLog>, today: CivilDate)
    ensures TodayLogs(logs, today) == LogsForPeriod(logs, today, today)
  {
    var key := LocalDateString(today);
    forall i | 0 <= i < |logs|
      ensures (logs[i].date == key) == InPeriod(logs[i], key, key)
    {
      LexLessTotal(logs[i].date, key);
      LexLessIrreflexive(key);
      LexLessAsymmetric(logs[i].date, key);
    }
    FilterCongruent(logs, HasKey(key), InPeriodTest(key, key));
  }

  /** `getWeekLogs`: from this week's Monday up to today. */
  function WeekLogs(logs: seq<ExerciseLog>, today: CivilDate): (r: seq<ExerciseLog>)
    requires Valid(today)
    ensures IsSubseq(r, logs)
    ensures forall x {:trigger multiset(r)[x]} ::
              multiset(r)[x] == if InPeriod(x, LocalDateString(StartOfWeek(today)), LocalDateString(today)) then multiset(logs)[x] else 0
  {
    LogsForPeriod(logs, StartOfWeek(today), today)
  }

  /** `getMonthLogs`: from the 1st of this month up to today. */
  function MonthLogs(logs: seq<ExerciseLog>, today: CivilDate): (r: seq<ExerciseLog>)
    requires Valid(today)
    ensures IsSubseq(r, logs)
    ensures forall x {:trigger multiset(r)[x]} ::
              multiset(r)[x] == if InPeriod(x, LocalDateString(StartOfMonth(today)), LocalDateString(today)) then multiset(logs)[x] else 0
  {
    LogsForPeriod(logs, StartOfMonth(today), today)
  }

  /** The week's logs are those dated from this week's Monday through today. */
  lemma WeekLogsByDay(logs: seq<ExerciseLog>, today: CivilDate, x: ExerciseLog)
    requires IsKeyDate(today) && IsKeyDate(StartOfWeek(today)) && IsDayKey(x.date)
    ensures x in WeekLogs(logs, today) <==>
            x in logs && DayNumber(StartOfWeek(today)) <= DayNumber(KeyDate(x.date)) <= DayNumber(today)
    ensures Weekday(StartOfWeek(today)) == 1 && DayNumber(today) - 6 <= DayNumber(StartOfWeek(today))
  {
    LogsForPeriodByDay(logs, StartOfWeek(today), today, x);
  }

  /** The month's logs are those of the same year and month dated no later than today. */
  lemma MonthLogsByDay(logs: seq<ExerciseLog>, today: CivilDate, x: ExerciseLog)
    requires IsKeyDate(today) && IsDayKey(x.date)
    ensures var d := KeyDate(x.date);
      x in MonthLogs(logs, today) <==>
      x in logs && d.year == today.year && d.month == today.month && d.day <= today.day
  {
    var first, d := StartOfMonth(today), KeyDate(x.date);
    LogsForPeriodByDay(logs, first, today, x);
    DayNumberOrder(first, d);
    DayNumberOrder(d, today);
  }

  // ---------------------------------------------------------------------------
  // calculatePeriodSummary

  /** `calculatePeriodSummary`: the logs, their number, and their duration and calorie totals. */
  function CalculatePeriodSummary(logs: seq<ExerciseLog>): (r: PeriodSummary)
    ensures r.workoutCount == |logs| && r.logs == logs
  {
    PeriodSummary(SumBy(logs, Duration), SumBy(logs, CaloriesOrZero), |logs|, logs)
  }

  /** No logs: all totals are zero. */
  lemma SummaryOfNothing()
    ensures CalculatePeriodSummary([]) == PeriodSummary(0, 0, 0, [])
  {
  }

  /** Totals are additive: the summary of two batches adds up their summaries. */
  lemma SummaryAdditive(a: seq<ExerciseLog>, b: seq<ExerciseLog>)
    ensures var sa, sb, s := CalculatePeriodSummary(a), CalculatePeriodSummary(b), CalculatePeriodSummary(a + b);
      && s.totalDurationSeconds == sa.totalDurationSeconds + sb.totalDurationSeconds
      && s.totalCalories == sa.totalCalories + sb.totalCalories
      && s.workoutCount == sa.workoutCount + sb.workoutCount
  {
    SumByConcat(a, b, Duration);
    SumByConcat(a, b, CaloriesOrZero);
  }

  /** A log without a calorie estimate adds nothing to the calories but still counts as a workout. */
  lemma NullCaloriesCountAsZero(logs: seq<ExerciseLog>, x: ExerciseLog)
    requires x.caloriesTenths.None?
    ensures CalculatePeriodSummary(logs + [x]).totalCalories == CalculatePeriodSummary(logs).totalCalories
    ensures CalculatePeriodSummary(logs + [x]).workoutCount == CalculatePeriodSummary(logs).workoutCount + 1
    ensures CalculatePeriodSummary(logs + [x]).totalDurationSeconds ==
            CalculatePeriodSummary(logs).totalDurationSeconds + x.durationSeconds
  {
    assert (logs + [x])[..|logs|] == logs;
  }

  /** With non-negative durations and calories every total is non-negative. */
  lemma SummaryNonNegative(logs: seq<ExerciseLog>)
    requires forall i :: 0 <= i < |logs| ==> logs[i].durationSeconds >= 0
    requires forall i :: 0 <= i < |logs| ==> logs[i].caloriesTenths.Some? ==> logs[i].caloriesTenths.value >= 0
    ensures CalculatePeriodSummary(logs).totalDurationSeconds >= 0
    ensures CalculatePeriodSummary(logs).totalCalories >= 0
  {
    SumByNonNegative(logs, Duration);
    SumByNonNegative(logs, CaloriesOrZero);
  }
}
