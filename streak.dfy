/** `calculateStreak` of src/utils/history.ts: the longest run of consecutive
    workout days, and the run that is still alive today. */
module Streak {
  import opened Seqs
  import opened Dates
  import opened History

  /** `{ currentStreak, bestStreak }` (src/types/history.ts). */
  datatype StreakData = StreakData(currentStreak: int, bestStreak: int)

  /** `Math.max`. */
  function Max(a: int, b: int): int
  {
    if a < b then b else a
  }

  // ---------------------------------------------------------------------------
  // The distinct day keys, sorted

  /** Increasing in JavaScript's string order, hence sorted and free of repeats. */
  predicate StrictlySorted(s: seq<string>)
  {
    forall i, j :: 0 <= i < j < |s| ==> LexLess(s[i], s[j])
  }

  /** Puts `x` into its place in a strictly sorted list, unless it is already there. */
  function Insert(x: string, s: seq<string>): (r: seq<string>)
    requires StrictlySorted(s)
    ensures StrictlySorted(r)
    ensures forall y :: y in r <==> y == x || y in s
  {
    if s == [] then [x]
    else if x == s[0] then s
    else if LexLess(x, s[0]) then
      assert forall j :: 0 <= j < |s| ==> LexLess(x, s[j]) by {
        forall j | 0 < j < |s| ensures LexLess(x, s[j]) {
          LexLessTransitive(x, s[0], s[j]);
        }
      }
      [x] + s
    else
      LexLessTotal(x, s[0]);
      var rest := Insert(x, s[1..]);
      assert forall y :: y in rest ==> LexLess(s[0], y) by {
        forall y | y in rest ensures LexLess(s[0], y) {
          if y != x {
            var j :| 0 <= j < |s[1..]| && s[1..][j] == y;
            assert s[j + 1] == y;
          }
        }
      }
      assert forall j :: 0 <= j < |rest| ==> LexLess(s[0], rest[j]) by {
        forall j | 0 <= j < |rest| ensures LexLess(s[0], rest[j]) {
          assert rest[j] in rest;
        }
      }
      assert forall y :: y in s <==> y == s[0] || y in s[1..] by {
        assert s == [s[0]] + s[1..];
      }
      [s[0]] + rest
  }

  /** `[...new Set(logs.map(log => log.date))].sort()`: every `date` once, in
      ascending string order. */
  function SortedDates(logs: seq<ExerciseLog>): (r: seq<string>)
    ensures StrictlySorted(r)
    ensures forall k :: k in r <==> k in DateKeys(logs)
  {
    if logs == [] then []
    else
      var init, last := logs[..|logs| - 1], logs[|logs| - 1];
      assert logs == init + [last];
      DateKeysAppend(init, last);
      Insert(last.date, SortedDates(init))
  }

  /** A strictly sorted list is determined by its elements. */
  lemma {:induction false} SortedIsUnique(s: seq<string>, t: seq<string>)
    requires StrictlySorted(s) && StrictlySorted(t)
    requires forall x :: x in s <==> x in t
    ensures s == t
    decreases |s|
  {
    if s != [] {
      assert s[0] in t;
      assert t != [];
      if s[0] != t[0] {
        assert t[0] in t;
        var k :| 0 <= k < |t| && t[k] == s[0];
        var m :| 0 <= m < |s| && s[m] == t[0];
        assert k > 0 && m > 0;
        LexLessAsymmetric(s[0], t[0]);
        assert false;
      }
      forall x ensures x in s[1..] <==> x in t[1..] {
        if x in s[1..] {
          var i :| 0 <= i < |s[1..]| && s[1..][i] == x;
          assert LexLess(s[0], s[i + 1]);
          LexLessIrreflexive(x);
          assert x in t && x != t[0];
          assert t == [t[0]] + t[1..];
        }
        if x in t[1..] {
          var i :| 0 <= i < |t[1..]| && t[1..][i] == x;
          assert LexLess(t[0], t[i + 1]);
          LexLessIrreflexive(x);
          assert x in s && x != s[0];
          assert s == [s[0]] + s[1..];
        }
      }
      SortedIsUnique(s[1..], t[1..]);
      assert s == [s[0]] + s[1..] && t == [t[0]] + t[1..];
    } else if t != [] {
      HeadIsMember(t);
      assert false;
    }
  }

  /** The first element of a non-empty list is one of its elements: the witness that
      `SortedIsUnique` uses to show that `t` is empty when `s` is. */
  lemma HeadIsMember(t: seq<string>)
    requires t != []
    ensures t[0] in t
  {
  }

  /** A list without repeats has as many elements as its set of elements. */
  lemma {:induction false} SortedCardinality(s: seq<string>)
    requires StrictlySorted(s)
    ensures |set x | x in s| == |s|
    decreases |s|
  {
    if s != [] {
      SortedCardinality(s[1..]);
      assert s[0] !in s[1..] by {
        if s[0] in s[1..] {
          var i :| 0 <= i < |s[1..]| && s[1..][i] == s[0];
          assert LexLess(s[0], s[i + 1]);
          LexLessIrreflexive(s[0]);
        }
      }
      assert (set x | x in s) == {s[0]} + (set x | x in s[1..]) by {
        assert s == [s[0]] + s[1..];
      }
    }
  }

  // ---------------------------------------------------------------------------
  // Day differences and runs

  /** Milliseconds in a day: `1000 * 60 * 60 * 24`. */
  const MsPerDay := 86400000

  /** `new Date(s).getTime()`: the time value, in milliseconds, that the engine's date
      parser gives a string, or `None` for `NaN`. ECMA-262 fixes the result only for
      strings in its Date Time String Format, so the parser is a parameter; see
      `ReadsDayKeys` for what it does on day keys. */
  type DateParser = string -> Option<int>

  /** `Math.round(n / d)` for `d > 0`; see `RoundDivIsNearest`. */
  function RoundDiv(n: int, d: int): int
    requires d > 0
  {
    (2 * n + d) / (2 * d)
  }

  /** `RoundDiv(n, d)` is the integer nearest to `n / d`, halves rounded up. */
  lemma RoundDivIsNearest(n: int, d: int)
    requires d > 0
    ensures var r := RoundDiv(n, d); 2 * d * r - d <= 2 * n < 2 * d * r + d
  {
  }

  /** `diffDays`: the difference of the two parsed times in whole days, rounded;
      `None` when either side is `NaN`, and then it is not 1. */
  function DiffDays(parse: DateParser, a: string, b: string): (r: Option<int>)
    ensures r.Some? <==> parse(a).Some? && parse(b).Some?
  {
    var ta, tb := parse(a), parse(b);
    if ta.Some? && tb.Some? then Some(RoundDiv(tb.value - ta.value, MsPerDay)) else None
  }

  /** A date-only string `YYYY-MM-DD` is read as UTC midnight of that day. */
  ghost predicate ReadsDayKeys(parse: DateParser)
  {
    forall s :: IsDayKey(s) ==> parse(s) == Some(MsPerDay * Num(s))
  }

  /** `parse` reads each of the keys `days` as UTC midnight of its day. */
  ghost predicate ReadsAll(parse: DateParser, days: seq<string>)
  {
    forall i :: 0 <= i < |days| ==> IsDayKey(days[i]) && parse(days[i]) == Some(MsPerDay * Num(days[i]))
  }

  /** A parser that reads every day key reads the day keys of any list of them. */
  lemma ReadsEach(parse: DateParser, days: seq<string>)
    requires ReadsDayKeys(parse)
    requires forall i :: 0 <= i < |days| ==> IsDayKey(days[i])
    ensures ReadsAll(parse, days)
  {
  }

  /** For keys read as UTC midnight, `diffDays` is the difference of their day numbers. */
  lemma DiffOfDayKeys(parse: DateParser, a: string, b: string)
    requires IsDayKey(a) && parse(a) == Some(MsPerDay * Num(a))
    requires IsDayKey(b) && parse(b) == Some(MsPerDay * Num(b))
    ensures DiffDays(parse, a, b) == Some(Num(b) - Num(a))
  {
    WholeDays(Num(b) - Num(a));
  }

  /** `diffDays` of two neighbouring keys of a list read as UTC midnight is the
      difference of their day numbers. */
  lemma DiffOfNeighbours(parse: DateParser, days: seq<string>, j: int)
    requires 0 < j < |days| && ReadsAll(parse, days)
    ensures DiffDays(parse, days[j - 1], days[j]) == Some(DayNumbers(days)[j] - DayNumbers(days)[j - 1])
  {
    var ns := DayNumbers(days);
    assert parse(days[j]) == Some(MsPerDay * ns[j]);
    assert parse(days[j - 1]) == Some(MsPerDay * ns[j - 1]);
    WholeDays(ns[j] - ns[j - 1]);
  }

  /** A whole number `k` of days of milliseconds rounds to `k` days. */
  lemma WholeDays(k: int)
    ensures RoundDiv(MsPerDay * k, MsPerDay) == k
  {
    assert 2 * (MsPerDay * k) + MsPerDay == (2 * MsPerDay) * k + MsPerDay;
  }

  /** The length of the run of one-day steps in `days` that ends at index `j`. */
  function RunLength(parse: DateParser, days: seq<string>, j: int): (r: int)
    requires 0 <= j < |days|
    ensures 1 <= r <= j + 1
  {
    if j == 0 || DiffDays(parse, days[j - 1], days[j]) != Some(1) then 1 else RunLength(parse, days, j - 1) + 1
  }

  /** One step of `RunLength`: a one-day gap extends the run, anything else starts a new one. */
  lemma RunLengthStep(parse: DateParser, days: seq<string>, j: int)
    requires 0 < j < |days|
    ensures RunLength(parse, days, j) == if DiffDays(parse, days[j - 1], days[j]) == Some(1) then RunLength(parse, days, j - 1) + 1 else 1
  {
  }

  /** The longest of the runs that end below index `n`. */
  function LongestRun(parse: DateParser, days: seq<string>, n: int): (r: int)
    requires 0 < n <= |days|
    ensures exists j :: 0 <= j < n && r == RunLength(parse, days, j)
    ensures forall j :: 0 <= j < n ==> RunLength(parse, days, j) <= r
  {
    if n == 1 then RunLength(parse, days, 0)
    else
      var longest, here := LongestRun(parse, days, n - 1), RunLength(parse, days, n - 1);
      if longest < here then
        assert 0 <= n - 1 < n && here == RunLength(parse, days, n - 1);
        here
      else
        longest
  }

  /** One step of `LongestRun`: the run ending at index `n` joins the comparison. */
  lemma LongestRunStep(parse: DateParser, days: seq<string>, n: int)
    requires 0 < n < |days|
    ensures LongestRun(parse, days, n + 1) == Max(LongestRun(parse, days, n), RunLength(parse, days, n))
  {
  }

  /** `bestStreak` for the sorted distinct days `days`. */
  function BestStreak(parse: DateParser, days: seq<string>): (r: int)
    ensures r == 0 <==> days == []
    ensures r <= |days|
  {
    if days == [] then 0 else LongestRun(parse, days, |days|)
  }

  /** `currentStreak` for the sorted distinct days `days`: the run that ends at the
      latest day, provided that day's key is `todayKey` or `yesterdayKey`, and 0 otherwise. */
  function LiveRunLength(parse: DateParser, days: seq<string>, todayKey: string, yesterdayKey: string): int
  {
    if days == [] then 0
    else
      var last := days[|days| - 1];
      if last == todayKey || last == yesterdayKey then RunLength(parse, days, |days| - 1) else 0
  }

  /** `currentStreak` with the keys of today and of the day before. */
  function CurrentStreak(parse: DateParser, days: seq<string>, today: CivilDate): (r: int)
    requires Valid(today)
    ensures 0 <= r <= |days|
    ensures r > 0 ==> days[|days| - 1] in {LocalDateString(today), LocalDateString(PrevDay(today))}
  {
    LiveRunLength(parse, days, LocalDateString(today), LocalDateString(PrevDay(today)))
  }

  /** `calculateStreak`, with the clock reading passed in as `today`. */
  method CalculateStreak(parse: DateParser, logs: seq<ExerciseLog>, today: CivilDate) returns (streak: StreakData)
    requires Valid(today)
    ensures var days := SortedDates(logs);
      streak == StreakData(CurrentStreak(parse, days, today), BestStreak(parse, days))
  {
    if |logs| == 0 {
      return StreakData(0, 0);
    }
    var days := SortedDates(logs);
    assert days != [] by {
      assert logs[0].date in DateKeys(logs);
    }
    var best := ForwardPass(parse, days);
    var todayKey := LocalDateString(today);
    var yesterdayKey := LocalDateString(PrevDay(today));
    var current := BackwardPass(parse, days, todayKey, yesterdayKey);
    return StreakData(current, best);
  }

  /** The first loop of `calculateStreak`: tracks the run ending at each day and the
      best run so far. */
  method ForwardPass(parse: DateParser, days: seq<string>) returns (best: int)
    requires days != []
    ensures best == BestStreak(parse, days)
  {
    var count := 1;
    best := 1;
    for i := 1 to |days|
      invariant count == RunLength(parse, days, i - 1)
      invariant best == LongestRun(parse, days, i)
    {
      RunLengthStep(parse, days, i);
      LongestRunStep(parse, days, i);
      if DiffDays(parse, days[i - 1], days[i]) == Some(1) {
        count := count + 1;
        best := Max(best, count);
      } else {
        count := 1;
      }
    }
  }

  /** The second part of `calculateStreak`: when the latest day is today or yesterday,
      walks back from it until the first gap. */
  method BackwardPass(parse: DateParser, days: seq<string>, todayKey: string, yesterdayKey: string) returns (current: int)
    requires days != []
    ensures current == LiveRunLength(parse, days, todayKey, yesterdayKey)
  {
    var last := days[|days| - 1];
    current := 0;
    if last == todayKey || last == yesterdayKey {
      current := 1;
      var i := |days| - 2;
      while i >= 0
        invariant -1 <= i <= |days| - 2
        invariant current + RunLength(parse, days, i + 1) - 1 == RunLength(parse, days, |days| - 1)
        decreases i + 1
      {
        RunLengthStep(parse, days, i + 1);
        if DiffDays(parse, days[i], days[i + 1]) == Some(1) {
          assert RunLength(parse, days, i + 1) == RunLength(parse, days, i) + 1;
          current := current + 1;
        } else {
          break;
        }
        i := i - 1;
      }
    }
  }

  // ---------------------------------------------------------------------------
  // Runs of day numbers

  /** `Run(ns, j)` is `RunLength` read on the day numbers `ns` of the days. */
  function Run(ns: seq<int>, j: int): (r: int)
    requires 0 <= j < |ns|
    ensures 1 <= r <= j + 1
  {
    if j == 0 || ns[j] - ns[j - 1] != 1 then 1 else Run(ns, j - 1) + 1
  }

  /** The `n` days ending on day number `e` are all in `days`. */
  ghost predicate HasRun(days: set<int>, e: int, n: int)
  {
    forall x :: e - n < x <= e ==> x in days
  }

  predicate Increasing(ns: seq<int>)
  {
    forall i, k :: 0 <= i < k < |ns| ==> ns[i] < ns[k]
  }

  /** The run ending at index `j` consists of the `Run(ns, j)` days up to `ns[j]`. */
  lemma {:induction false} RunIsConsecutive(ns: seq<int>, j: int)
    requires 0 <= j < |ns|
    ensures forall k :: j - Run(ns, j) < k <= j ==> ns[k] == ns[j] - (j - k)
  {
    if j > 0 && ns[j] - ns[j - 1] == 1 {
      RunIsConsecutive(ns, j - 1);
    }
  }

  /** Every day of the run ending at index `j` is one of the days. */
  lemma RunIsRun(ns: seq<int>, s: set<int>, j: int)
    requires 0 <= j < |ns|
    requires forall x :: x in s <==> x in ns
    ensures HasRun(s, ns[j], Run(ns, j))
  {
    RunIsConsecutive(ns, j);
    forall x | ns[j] - Run(ns, j) < x <= ns[j] ensures x in s {
      var k := j - (ns[j] - x);
      assert ns[k] == x;
    }
  }

  /** In increasing day numbers no run ending on `ns[j]` is longer than `Run(ns, j)`. */
  lemma {:induction false} RunIsMaximal(ns: seq<int>, s: set<int>, j: int, n: int)
    requires 0 <= j < |ns| && Increasing(ns)
    requires forall x :: x in s <==> x in ns
    requires HasRun(s, ns[j], n)
    ensures n <= Run(ns, j)
    decreases n
  {
    if n > 1 {
      assert ns[j] - 1 in s;
      var k :| 0 <= k < |ns| && ns[k] == ns[j] - 1;
      assert k <= j - 1;
      assert ns[k] <= ns[j - 1] < ns[j];
      assert HasRun(s, ns[j - 1], n - 1);
      RunIsMaximal(ns, s, j - 1, n - 1);
    }
  }

  /** The run ending at the last of increasing day numbers ends at the latest day and
      cannot be extended backwards. */
  lemma LatestRun(ns: seq<int>, s: set<int>)
    requires ns != [] && Increasing(ns)
    requires forall x :: x in s <==> x in ns
    ensures var latest, run := ns[|ns| - 1], Run(ns, |ns| - 1);
      && latest in s && (forall x :: x in s ==> x <= latest)
      && HasRun(s, latest, run) && latest - run !in s
  {
    var n := |ns|;
    var latest, run := ns[n - 1], Run(ns, n - 1);
    forall x | x in s ensures x <= latest {
      var j :| 0 <= j < n && ns[j] == x;
      assert j == n - 1 || ns[j] < ns[n - 1];
    }
    RunIsRun(ns, s, n - 1);
    if latest - run in s {
      assert HasRun(s, latest, run + 1);
      RunIsMaximal(ns, s, n - 1, run + 1);
    }
  }

  // ---------------------------------------------------------------------------
  // What the streaks mean, for well-formed day keys

  predicate AllDayKeys(logs: seq<ExerciseLog>)
  {
    forall i :: 0 <= i < |logs| ==> IsDayKey(logs[i].date)
  }

  /** The day numbers of the days with at least one workout. */
  ghost function WorkoutDays(logs: seq<ExerciseLog>): set<int>
  {
    set i | 0 <= i < |logs| && IsDayKey(logs[i].date) :: Num(logs[i].date)
  }

  /** The day number of a well-formed key. */
  function Num(s: string): int
    requires IsDayKey(s)
  {
    DayNumber(KeyDate(s))
  }

  /** The day numbers of a list of well-formed keys. */
  ghost function DayNumbers(days: seq<string>): (ns: seq<int>)
    requires forall i :: 0 <= i < |days| ==> IsDayKey(days[i])
    ensures |ns| == |days|
    ensures forall i :: 0 <= i < |days| ==> ns[i] == Num(days[i])
  {
    seq(|days|, i requires 0 <= i < |days| && IsDayKey(days[i]) => Num(days[i]))
  }

  /** `ns` are day numbers of `days` as far as `diffDays` can tell: each step between
      neighbouring keys is the step between their numbers. */
  ghost predicate StepsMatch(parse: DateParser, days: seq<string>, ns: seq<int>)
  {
    |ns| == |days| &&
    forall i :: 0 < i < |days| ==> DiffDays(parse, days[i - 1], days[i]) == Some(ns[i] - ns[i - 1])
  }

  /** Keys read as UTC midnight step by the differences of their day numbers. */
  lemma NeighbourSteps(parse: DateParser, days: seq<string>)
    requires ReadsAll(parse, days)
    ensures StepsMatch(parse, days, DayNumbers(days))
  {
    forall i | 0 < i < |days|
      ensures DiffDays(parse, days[i - 1], days[i]) == Some(DayNumbers(days)[i] - DayNumbers(days)[i - 1])
    {
      DiffOfNeighbours(parse, days, i);
    }
  }

  /** Where the steps match, a run of one-day steps is a run of consecutive day numbers. */
  lemma {:induction false} RunLengthIsRun(parse: DateParser, days: seq<string>, ns: seq<int>, j: int)
    requires 0 <= j < |days| && StepsMatch(parse, days, ns)
    ensures RunLength(parse, days, j) == Run(ns, j)
  {
    if j > 0 {
      RunLengthIsRun(parse, days, ns, j - 1);
    }
  }

  /** The sorted distinct keys of well-formed logs are well-formed. */
  lemma SortedDatesWellFormed(logs: seq<ExerciseLog>)
    requires AllDayKeys(logs)
    ensures forall i :: 0 <= i < |SortedDates(logs)| ==> IsDayKey(SortedDates(logs)[i])
  {
    var days := SortedDates(logs);
    forall i | 0 <= i < |days| ensures IsDayKey(days[i]) {
      assert days[i] in DateKeys(logs);
    }
  }

  /** Keys in increasing string order have increasing day numbers. */
  lemma SortedKeysIncrease(days: seq<string>)
    requires StrictlySorted(days)
    requires forall i :: 0 <= i < |days| ==> IsDayKey(days[i])
    ensures Increasing(DayNumbers(days))
  {
    var ns := DayNumbers(days);
    forall i, k | 0 <= i < k < |ns| ensures ns[i] < ns[k] {
      DayKeyOrder(days[i], days[k]);
    }
  }

  /** A workout day is the day number of one of the sorted keys. */
  lemma WorkoutDayIsSorted(logs: seq<ExerciseLog>, days: seq<string>, x: int)
    requires AllDayKeys(logs)
    requires forall k :: k in days <==> k in DateKeys(logs)
    requires forall i :: 0 <= i < |days| ==> IsDayKey(days[i])
    requires x in WorkoutDays(logs)
    ensures x in DayNumbers(days)
  {
    var i :| 0 <= i < |logs| && IsDayKey(logs[i].date) && Num(logs[i].date) == x;
    assert logs[i].date in DateKeys(logs);
    var j :| 0 <= j < |days| && days[j] == logs[i].date;
    assert DayNumbers(days)[j] == x;
  }

  /** The day number of a sorted key is a workout day. */
  lemma SortedIsWorkoutDay(logs: seq<ExerciseLog>, days: seq<string>, j: int)
    requires forall k :: k in days <==> k in DateKeys(logs)
    requires 0 <= j < |days| && IsDayKey(days[j])
    ensures Num(days[j]) in WorkoutDays(logs)
  {
    assert days[j] in DateKeys(logs);
    var i :| 0 <= i < |logs| && logs[i].date == days[j];
  }

  /** The sorted distinct keys of well-formed logs are well-formed, in calendar order,
      and their day numbers are the workout days. */
  lemma SortedDatesAreWorkoutDays(logs: seq<ExerciseLog>)
    requires AllDayKeys(logs)
    ensures logs != [] ==> SortedDates(logs) != []
    ensures forall i :: 0 <= i < |SortedDates(logs)| ==> IsDayKey(SortedDates(logs)[i])
    ensures Increasing(DayNumbers(SortedDates(logs)))
    ensures forall x :: x in WorkoutDays(logs) <==> x in DayNumbers(SortedDates(logs))
  {
    var days := SortedDates(logs);
    if logs != [] {
      assert logs[0].date in DateKeys(logs);
    }
    SortedDatesWellFormed(logs);
    SortedKeysIncrease(days);
    var ns := DayNumbers(days);
    forall x ensures x in WorkoutDays(logs) <==> x in ns {
      if x in WorkoutDays(logs) {
        WorkoutDayIsSorted(logs, days, x);
      }
      if x in ns {
        var j :| 0 <= j < |days| && ns[j] == x;
        SortedIsWorkoutDay(logs, days, j);
      }
    }
  }

  /** `bestStreak` is the length of the longest run of consecutive calendar days with
      a workout: some run has that length and no run is longer. */
  lemma BestStreakIsLongestRun(parse: DateParser, logs: seq<ExerciseLog>)
    requires ReadsDayKeys(parse) && AllDayKeys(logs)
    ensures var s, best := WorkoutDays(logs), BestStreak(parse, SortedDates(logs));
      && (logs != [] ==> exists e :: e in s && HasRun(s, e, best))
      && (forall e, n :: HasRun(s, e, n) ==> n <= best)
  {
    var s, days := WorkoutDays(logs), SortedDates(logs);
    SortedDatesAreWorkoutDays(logs);
    ReadsEach(parse, days);
    NeighbourSteps(parse, days);
    var ns := DayNumbers(days);
    var best := BestStreak(parse, days);
    if logs != [] {
      assert logs[0].date in DateKeys(logs);
      var j :| 0 <= j < |days| && best == RunLength(parse, days, j);
      RunLengthIsRun(parse, days, ns, j);
      RunIsRun(ns, s, j);
      assert ns[j] in s;
    }
    forall e, n | HasRun(s, e, n) ensures n <= best {
      if n > 0 {
        assert e in s;
        var j :| 0 <= j < |ns| && ns[j] == e;
        RunIsMaximal(ns, s, j, n);
        RunLengthIsRun(parse, days, ns, j);
      }
    }
  }

  /** Without logs both streaks are 0; otherwise `1 <= bestStreak <=` the number of
      distinct dates, and `currentStreak <= bestStreak`. */
  lemma StreakBounds(parse: DateParser, logs: seq<ExerciseLog>, today: CivilDate)
    requires Valid(today)
    ensures var days := SortedDates(logs);
      var best, current := BestStreak(parse, days), CurrentStreak(parse, days, today);
      && (logs == [] ==> best == 0 && current == 0)
      && (logs != [] ==> 1 <= best <= |DateKeys(logs)|)
      && 0 <= current <= best
  {
    var days := SortedDates(logs);
    if logs != [] {
      assert logs[0].date in DateKeys(logs);
      SortedCardinality(days);
      assert (set x | x in days) == DateKeys(logs);
    }
  }

  /** Only the set of dates matters: logs with the same dates, whatever their number
      and order, have the same sorted dates and hence the same streaks. */
  lemma SameDatesSameStreaks(parse: DateParser, a: seq<ExerciseLog>, b: seq<ExerciseLog>, today: CivilDate)
    requires Valid(today)
    requires DateKeys(a) == DateKeys(b)
    ensures SortedDates(a) == SortedDates(b)
    ensures BestStreak(parse, SortedDates(a)) == BestStreak(parse, SortedDates(b))
    ensures CurrentStreak(parse, SortedDates(a), today) == CurrentStreak(parse, SortedDates(b), today)
  {
    SortedIsUnique(SortedDates(a), SortedDates(b));
  }

  /** A second workout on a day that already has one changes neither streak. */
  lemma RepeatedDayChangesNothing(parse: DateParser, logs: seq<ExerciseLog>, x: ExerciseLog, today: CivilDate)
    requires Valid(today)
    requires x.date in DateKeys(logs)
    ensures SortedDates(logs + [x]) == SortedDates(logs)
    ensures BestStreak(parse, SortedDates(logs + [x])) == BestStreak(parse, SortedDates(logs))
    ensures CurrentStreak(parse, SortedDates(logs + [x]), today) == CurrentStreak(parse, SortedDates(logs), today)
  {
    DateKeysAppend(logs, x);
    SameDatesSameStreaks(parse, logs + [x], logs, today);
  }

  /** `currentStreak` counts the run of workout days ending at the latest one, and only
      when that latest day is today or yesterday; otherwise it is 0. */
  lemma CurrentStreakIsLiveRun(parse: DateParser, logs: seq<ExerciseLog>, today: CivilDate)
    requires ReadsDayKeys(parse) && AllDayKeys(logs) && logs != []
    requires IsKeyDate(today) && IsKeyDate(PrevDay(today))
    ensures exists e :: IsLatest(WorkoutDays(logs), e)
    ensures forall e :: IsLatest(WorkoutDays(logs), e) ==>
      LiveRunAt(WorkoutDays(logs), e, CurrentStreak(parse, SortedDates(logs), today), DayNumber(today))
  {
    SortedDatesAreWorkoutDays(logs);
    var days := SortedDates(logs);
    ReadsEach(parse, days);
    NeighbourSteps(parse, days);
    LiveRunByDay(parse, days, today);
    LiveRunOfRuns(parse, days, DayNumbers(days), WorkoutDays(logs), DayNumber(today), CurrentStreak(parse, days, today));
  }

  /** The current streak on day numbers `ns` that match the steps of `days`. */
  lemma LiveRunOfRuns(parse: DateParser, days: seq<string>, ns: seq<int>, s: set<int>, t: int, current: int)
    requires days != [] && StepsMatch(parse, days, ns) && Increasing(ns)
    requires forall x :: x in s <==> x in ns
    requires current == if ns[|days| - 1] == t || ns[|days| - 1] == t - 1 then RunLength(parse, days, |days| - 1) else 0
    ensures exists e :: IsLatest(s, e)
    ensures forall e :: IsLatest(s, e) ==> LiveRunAt(s, e, current, t)
  {
    RunLengthIsRun(parse, days, ns, |days| - 1);
    LiveRun(ns, s, current, t);
  }

  /** `e` is the latest of the days `s`. */
  ghost predicate IsLatest(s: set<int>, e: int)
  {
    e in s && forall x :: x in s ==> x <= e
  }

  /** With `e` the latest day and `t` today: when `e` is today or yesterday, `current`
      is the length of the run of days ending at `e` that cannot be extended back;
      otherwise `current` is 0. */
  ghost predicate LiveRunAt(s: set<int>, e: int, current: int, t: int)
  {
    if e == t || e == t - 1 then HasRun(s, e, current) && e - current !in s else current == 0
  }

  /** The today-or-yesterday test, read on day numbers: `currentStreak` is the run
      ending at the latest day when that day is today or yesterday, and 0 otherwise. */
  lemma LiveRunByDay(parse: DateParser, days: seq<string>, today: CivilDate)
    requires days != [] && forall i :: 0 <= i < |days| ==> IsDayKey(days[i])
    requires IsKeyDate(today) && IsKeyDate(PrevDay(today))
    ensures var e, t := DayNumbers(days)[|days| - 1], DayNumber(today);
      CurrentStreak(parse, days, today) ==
        if e == t || e == t - 1 then RunLength(parse, days, |days| - 1) else 0
  {
    TodayKeys(today);
    AnchorKeys(days[|days| - 1], LocalDateString(today), LocalDateString(PrevDay(today)), DayNumber(today));
  }

  /** A well-formed key equals today's or yesterday's key exactly when its day is today
      or yesterday. */
  lemma AnchorKeys(last: string, todayKey: string, yesterdayKey: string, t: int)
    requires IsDayKey(last)
    requires IsDayKey(todayKey) && Num(todayKey) == t
    requires IsDayKey(yesterdayKey) && Num(yesterdayKey) == t - 1
    ensures (last == todayKey || last == yesterdayKey) <==> (Num(last) == t || Num(last) == t - 1)
  {
    DayKeyOrder(last, todayKey);
    DayKeyOrder(last, yesterdayKey);
  }

  /** The keys of today and yesterday are well-formed and name those two days. */
  lemma TodayKeys(today: CivilDate)
    requires IsKeyDate(today) && IsKeyDate(PrevDay(today))
    ensures IsDayKey(LocalDateString(today)) && Num(LocalDateString(today)) == DayNumber(today)
    ensures IsDayKey(LocalDateString(PrevDay(today)))
    ensures Num(LocalDateString(PrevDay(today))) == DayNumber(today) - 1
  {
    KeyRoundTrip(today);
    KeyRoundTrip(PrevDay(today));
  }

  /** The current streak, on day numbers: `current` is the run ending at the latest day
      `e` when `e` is day `t` or the day before, and 0 otherwise. */
  lemma LiveRun(ns: seq<int>, s: set<int>, current: int, t: int)
    requires ns != [] && Increasing(ns)
    requires forall x :: x in s <==> x in ns
    requires current == if ns[|ns| - 1] == t || ns[|ns| - 1] == t - 1 then Run(ns, |ns| - 1) else 0
    ensures exists e :: IsLatest(s, e)
    ensures forall e :: IsLatest(s, e) ==> LiveRunAt(s, e, current, t)
  {
    LatestRun(ns, s);
    var latest := ns[|ns| - 1];
    assert IsLatest(s, latest);
    forall e | IsLatest(s, e) ensures e == latest {
      assert e <= latest && latest <= e;
    }
  }
}
