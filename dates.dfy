/** Local-calendar day arithmetic behind src/utils/history.ts.

    A JavaScript `Date` is replaced by the civil date (year, month, day) that its
    local-time getters report; time of day and time zones are not modelled.
    `DayNumber` counts days since 1970-01-01 in the proleptic Gregorian calendar,
    which is what `new Date("YYYY-MM-DD").getTime() / 86400000` yields for a
    day key, since such a string is parsed as UTC midnight. */
module Dates {

  datatype CivilDate = CivilDate(year: int, month: int, day: int)

  predicate IsLeapYear(y: int)
  {
    y % 4 == 0 && (y % 100 != 0 || y % 400 == 0)
  }

  function DaysInMonth(y: int, m: int): int
  {
    if m == 2 then (if IsLeapYear(y) then 29 else 28)
    else if m == 4 || m == 6 || m == 9 || m == 11 then 30
    else 31
  }

  function DaysInYear(y: int): int
  {
    if IsLeapYear(y) then 366 else 365
  }

  /** A date that exists in the calendar. */
  predicate Valid(d: CivilDate)
  {
    1 <= d.month <= 12 && 1 <= d.day <= DaysInMonth(d.year, d.month)
  }

  /** A date whose day key has the `YYYY-MM-DD` shape: a valid date with a four-digit year. */
  predicate IsKeyDate(d: CivilDate)
  {
    Valid(d) && 1000 <= d.year <= 9999
  }

  // ---------------------------------------------------------------------------
  // Day numbers

  /** Leap years among 1..n for n >= 0 (floor division extends it to all n). */
  function LeapsThrough(n: int): int
  {
    n / 4 - n / 100 + n / 400
  }

  /** Days from 1970-01-01 to January 1st of year `y`. */
  function DaysBeforeYear(y: int): int
  {
    365 * (y - 1970) + LeapsThrough(y - 1) - LeapsThrough(1969)
  }

  /** Days from January 1st to the 1st of month `m` in year `y`. */
  function DaysBeforeMonth(y: int, m: int): int
    requires 1 <= m <= 12
  {
    var leap := if IsLeapYear(y) && m > 2 then 1 else 0;
    [0, 31, 59, 90, 120, 151, 181, 212, 243, 273, 304, 334][m - 1] + leap
  }

  /** Days since 1970-01-01 (negative before it). */
  function DayNumber(d: CivilDate): int
    requires Valid(d)
  {
    DaysBeforeYear(d.year) + DaysBeforeMonth(d.year, d.month) + d.day - 1
  }

  lemma LeapDivisions(y: int)
    ensures y / 4 - (y - 1) / 4 == if y % 4 == 0 then 1 else 0
    ensures y / 100 - (y - 1) / 100 == if y % 100 == 0 then 1 else 0
    ensures y / 400 - (y - 1) / 400 == if y % 400 == 0 then 1 else 0
  {
  }

  lemma DivisibilityChain(y: int)
    ensures y % 400 == 0 ==> y % 100 == 0
    ensures y % 100 == 0 ==> y % 4 == 0
  {
    if y % 400 == 0 {
      assert y % 100 == 0 by {
        var k := y / 400;
        assert y == 100 * (4 * k);
      }
    }
    if y % 100 == 0 {
      assert y % 4 == 0 by {
        var k := y / 100;
        assert y == 4 * (25 * k);
      }
    }
  }

  lemma LeapsThroughStep(y: int)
    ensures LeapsThrough(y) - LeapsThrough(y - 1) == if IsLeapYear(y) then 1 else 0
  {
    LeapDivisions(y);
    DivisibilityChain(y);
  }

  lemma DaysBeforeNextYear(y: int)
    ensures DaysBeforeYear(y + 1) == DaysBeforeYear(y) + DaysInYear(y)
  {
    LeapsThroughStep(y);
  }

  lemma {:induction false} DaysBeforeYearMonotone(y: int, y': int)
    requires y < y'
    ensures DaysBeforeYear(y) + DaysInYear(y) <= DaysBeforeYear(y')
    decreases y' - y
  {
    DaysBeforeNextYear(y);
    if y + 1 < y' {
      DaysBeforeYearMonotone(y + 1, y');
    }
  }

  lemma DaysBeforeMonthStep(y: int, m: int)
    requires 1 <= m < 12
    ensures DaysBeforeMonth(y, m + 1) == DaysBeforeMonth(y, m) + DaysInMonth(y, m)
  {
  }

  lemma {:induction false} DaysBeforeMonthMonotone(y: int, m: int, m': int)
    requires 1 <= m < m' <= 12
    ensures DaysBeforeMonth(y, m) + DaysInMonth(y, m) <= DaysBeforeMonth(y, m')
    decreases m' - m
  {
    DaysBeforeMonthStep(y, m);
    if m + 1 < m' {
      DaysBeforeMonthMonotone(y, m + 1, m');
    }
  }

  lemma LastMonthEndsYear(y: int)
    ensures DaysBeforeMonth(y, 12) + DaysInMonth(y, 12) == DaysInYear(y)
  {
  }

  /** Calendar order: by year, then month, then day. */
  predicate CalendarBefore(a: CivilDate, b: CivilDate)
  {
    a.year < b.year ||
    (a.year == b.year && (a.month < b.month || (a.month == b.month && a.day < b.day)))
  }

  lemma DayNumberBelowNextYear(d: CivilDate)
    requires Valid(d)
    ensures DayNumber(d) < DaysBeforeYear(d.year) + DaysInYear(d.year)
  {
    LastMonthEndsYear(d.year);
    if d.month < 12 {
      DaysBeforeMonthMonotone(d.year, d.month, 12);
    }
  }

  lemma CalendarBeforeMeansSmallerDayNumber(a: CivilDate, b: CivilDate)
    requires Valid(a) && Valid(b) && CalendarBefore(a, b)
    ensures DayNumber(a) < DayNumber(b)
  {
    if a.year < b.year {
      DayNumberBelowNextYear(a);
      DaysBeforeYearMonotone(a.year, b.year);
    } else if a.month < b.month {
      DaysBeforeMonthMonotone(a.year, a.month, b.month);
    }
  }

  /** Day numbers order valid dates exactly as the calendar does. */
  lemma DayNumberOrder(a: CivilDate, b: CivilDate)
    requires Valid(a) && Valid(b)
    ensures DayNumber(a) < DayNumber(b) <==> CalendarBefore(a, b)
    ensures DayNumber(a) == DayNumber(b) <==> a == b
  {
    if CalendarBefore(a, b) {
      CalendarBeforeMeansSmallerDayNumber(a, b);
    } else if CalendarBefore(b, a) {
      CalendarBeforeMeansSmallerDayNumber(b, a);
    }
  }

  // ---------------------------------------------------------------------------
  // Calendar steps

  /** The calendar day before `d`. */
  function PrevDay(d: CivilDate): (r: CivilDate)
    requires Valid(d)
    ensures Valid(r) && DayNumber(r) == DayNumber(d) - 1
  {
    if d.day > 1 then CivilDate(d.year, d.month, d.day - 1)
    else if d.month > 1 then
      EndOfPreviousMonth(d);
      CivilDate(d.year, d.month - 1, DaysInMonth(d.year, d.month - 1))
    else
      EndOfPreviousYear(d);
      CivilDate(d.year - 1, 12, 31)
  }

  /** The day before the 1st of a month other than January is the last of the month before. */
  lemma EndOfPreviousMonth(d: CivilDate)
    requires Valid(d) && d.day == 1 && d.month > 1
    ensures var r := CivilDate(d.year, d.month - 1, DaysInMonth(d.year, d.month - 1));
      Valid(r) && DayNumber(r) == DayNumber(d) - 1
  {
    DaysBeforeMonthStep(d.year, d.month - 1);
  }

  /** The day before January 1st is December 31st of the year before. */
  lemma EndOfPreviousYear(d: CivilDate)
    requires Valid(d) && d.day == 1 && d.month == 1
    ensures var r := CivilDate(d.year - 1, 12, 31);
      Valid(r) && DayNumber(r) == DayNumber(d) - 1
  {
    DaysBeforeNextYear(d.year - 1);
    LastMonthEndsYear(d.year - 1);
  }

  /** Two valid dates are one day apart exactly when the first is the day before the second. */
  lemma ConsecutiveDays(a: CivilDate, b: CivilDate)
    requires Valid(a) && Valid(b)
    ensures DayNumber(b) - DayNumber(a) == 1 <==> a == PrevDay(b)
  {
    DayNumberOrder(a, PrevDay(b));
  }

  /** The date `k` days before `d`. */
  function DaysBack(d: CivilDate, k: nat): (r: CivilDate)
    requires Valid(d)
    ensures Valid(r) && DayNumber(r) == DayNumber(d) - k
    decreases k
  {
    if k == 0 then d else DaysBack(PrevDay(d), k - 1)
  }

  /** `Date.prototype.getDay`: 0 is Sunday, 1 is Monday, ..., 6 is Saturday (1970-01-01 was a Thursday). */
  function Weekday(d: CivilDate): (r: int)
    requires Valid(d)
    ensures 0 <= r <= 6
  {
    (DayNumber(d) + 4) % 7
  }

  /** How many days `getStartOfWeek` steps back from weekday `day` (0 is Sunday). */
  function MondayBack(day: int): nat
    requires 0 <= day < 7
  {
    if day == 0 then 6 else day - 1
  }

  /** Stepping back `MondayBack` days from day number `n` lands on a Monday. */
  lemma MondayOffset(n: int)
    ensures var back := MondayBack((n + 4) % 7); back <= 6 && (n - back + 4) % 7 == 1
  {
    var day, q := (n + 4) % 7, (n + 4) / 7;
    assert n + 4 == 7 * q + day;
    if day == 0 {
      Residue(q - 1, 1, n - MondayBack(day) + 4);
    } else {
      Residue(q, 1, n - MondayBack(day) + 4);
    }
  }

  /** `7q + r` leaves remainder `r` modulo 7. */
  lemma Residue(q: int, r: int, x: int)
    requires 0 <= r < 7 && x == 7 * q + r
    ensures x % 7 == r
  {
  }

  /** `getStartOfWeek`: step back to Monday; a Sunday goes back six days. */
  function StartOfWeek(d: CivilDate): (r: CivilDate)
    requires Valid(d)
    ensures Valid(r) && Weekday(r) == 1
    ensures DayNumber(d) - 6 <= DayNumber(r) <= DayNumber(d)
  {
    WeekStartIsMonday(d);
    DaysBack(d, MondayBack(Weekday(d)))
  }

  /** Stepping back `MondayBack` days from a valid date lands on a Monday of the same week. */
  lemma WeekStartIsMonday(d: CivilDate)
    requires Valid(d)
    ensures var r := DaysBack(d, MondayBack(Weekday(d)));
      Valid(r) && Weekday(r) == 1 && DayNumber(d) - 6 <= DayNumber(r) <= DayNumber(d)
  {
    var back := MondayBack(Weekday(d));
    MondayOffset(DayNumber(d));
    ShiftedWeekday(d, DaysBack(d, back), back);
  }

  /** A date `back` days before `d` has the weekday of `DayNumber(d) - back`. */
  lemma ShiftedWeekday(d: CivilDate, r: CivilDate, back: int)
    requires Valid(d) && Valid(r) && DayNumber(r) == DayNumber(d) - back
    ensures Weekday(r) == (DayNumber(d) - back + 4) % 7
  {
    var n, m := DayNumber(d), DayNumber(r);
    assert m + 4 == n - back + 4;
  }

  /** `getStartOfMonth`: the 1st of the same month. */
  function StartOfMonth(d: CivilDate): (r: CivilDate)
    requires Valid(d)
    ensures Valid(r) && r.year == d.year && r.month == d.month
    ensures forall e :: Valid(e) && e.year == d.year && e.month == d.month ==> DayNumber(r) <= DayNumber(e)
  {
    CivilDate(d.year, d.month, 1)
  }

  // ---------------------------------------------------------------------------
  // Day keys

  function DigitChar(n: int): char
    requires 0 <= n <= 9
  {
    (48 + n) as char
  }

  predicate IsDigit(c: char)
  {
    '0' <= c <= '9'
  }

  function DigitValue(c: char): int
  {
    c as int - 48
  }

  /** `String(n)` for a non-negative integer: its decimal digits, without leading zeros. */
  function NatToString(n: nat): string
  {
    if n < 10 then [DigitChar(n)] else NatToString(n / 10) + [DigitChar(n % 10)]
  }

  /** `String(n)` for an integer. */
  function IntToString(n: int): string
  {
    if n < 0 then "-" + NatToString(-n) else NatToString(n)
  }

  /** `s.padStart(2, '0')`. */
  function PadStart2(s: string): string
  {
    if |s| >= 2 then s else seq(2 - |s|, _ => '0') + s
  }

  /** `getLocalDateString`: `${year}-${MM}-${DD}` with month and day padded to two digits. */
  function LocalDateString(d: CivilDate): string
  {
    IntToString(d.year) + "-" + PadStart2(IntToString(d.month)) + "-" + PadStart2(IntToString(d.day))
  }

  /** The number a string of decimal digits denotes. */
  function DecimalValue(s: string): int
  {
    if s == [] then 0 else DecimalValue(s[..|s| - 1]) * 10 + DigitValue(s[|s| - 1])
  }

  predicate AllDigits(s: string)
  {
    forall i :: 0 <= i < |s| ==> IsDigit(s[i])
  }

  /** `NatToString` is read back by `DecimalValue`. */
  lemma {:induction false} NatToStringValue(n: nat)
    ensures AllDigits(NatToString(n)) && DecimalValue(NatToString(n)) == n
    ensures |NatToString(n)| >= 1 && (n >= 10 ==> NatToString(n)[0] != '0')
  {
    if n >= 10 {
      NatToStringValue(n / 10);
      var s := NatToString(n);
      assert s[..|s| - 1] == NatToString(n / 10);
    }
  }

  function Pow10(w: nat): nat
  {
    if w == 0 then 1 else 10 * Pow10(w - 1)
  }

  /** The last `w` decimal digits of `n`, zero-padded. */
  function Digits(n: nat, w: nat): (r: string)
    ensures |r| == w
  {
    if w == 0 then [] else Digits(n / 10, w - 1) + [DigitChar(n % 10)]
  }

  lemma {:induction false} NatToStringIsDigits(n: nat, w: nat)
    requires w >= 1 && Pow10(w - 1) <= n < Pow10(w)
    ensures NatToString(n) == Digits(n, w)
  {
    if w > 1 {
      NatToStringIsDigits(n / 10, w - 1);
    }
  }

  lemma PadStart2IsDigits(n: int)
    requires 0 <= n < 100
    ensures PadStart2(IntToString(n)) == Digits(n, 2)
  {
    if n < 10 {
      assert Digits(n, 2) == Digits(0, 1) + [DigitChar(n)];
    } else {
      NatToStringIsDigits(n, 2);
    }
  }

  lemma {:induction false} DigitsValue(n: nat, w: nat)
    requires n < Pow10(w)
    ensures AllDigits(Digits(n, w)) && DecimalValue(Digits(n, w)) == n
  {
    if w > 0 {
      DigitsValue(n / 10, w - 1);
      var s := Digits(n, w);
      assert s[..|s| - 1] == Digits(n / 10, w - 1);
    }
  }

  /** A four-digit-year key is the year, month and day as fixed-width digit groups. */
  lemma KeyDigits(d: CivilDate)
    requires IsKeyDate(d)
    ensures LocalDateString(d) == Digits(d.year, 4) + "-" + Digits(d.month, 2) + "-" + Digits(d.day, 2)
  {
    assert Pow10(4) == 10000 && Pow10(3) == 1000 by {
      assert Pow10(1) == 10 && Pow10(2) == 100;
    }
    NatToStringIsDigits(d.year, 4);
    PadStart2IsDigits(d.month);
    PadStart2IsDigits(d.day);
  }

  /** `getLocalDateString` of a valid date: the year, a dash, two digits for the month,
      a dash and two digits for the day, and each part reads back as its field. */
  lemma LocalDateStringShape(d: CivilDate)
    requires Valid(d)
    ensures var m, dd := Digits(d.month, 2), Digits(d.day, 2);
      && LocalDateString(d) == IntToString(d.year) + "-" + m + "-" + dd
      && AllDigits(m) && DecimalValue(m) == d.month
      && AllDigits(dd) && DecimalValue(dd) == d.day
  {
    assert Pow10(2) == 100;
    PadStart2IsDigits(d.month);
    PadStart2IsDigits(d.day);
    DigitsValue(d.month, 2);
    DigitsValue(d.day, 2);
  }

  /** Digit strings are their own fixed-width rendering. */
  lemma {:induction false} DigitsOfValue(t: string)
    requires AllDigits(t)
    ensures 0 <= DecimalValue(t)
    ensures Digits(DecimalValue(t), |t|) == t
    decreases |t|
  {
    if t != [] {
      var init, c := t[..|t| - 1], t[|t| - 1];
      assert AllDigits(init) by {
        forall i | 0 <= i < |init| ensures IsDigit(init[i]) { assert init[i] == t[i]; }
      }
      DigitsOfValue(init);
      var v := DecimalValue(t);
      assert v == DecimalValue(init) * 10 + DigitValue(c) && 0 <= DigitValue(c) <= 9;
      assert v / 10 == DecimalValue(init) && v % 10 == DigitValue(c);
      assert DigitChar(DigitValue(c)) == c;
      assert t == init + [c];
    }
  }

  /** The `YYYY-MM-DD` shape: ten characters, dashes at positions 4 and 7, digits elsewhere. */
  predicate IsDashedShape(s: string)
  {
    |s| == 10 && s[4] == '-' && s[7] == '-' &&
    AllDigits(s[..4]) && AllDigits(s[5..7]) && AllDigits(s[8..])
  }

  /** The year, month and day a ten-character key spells out. */
  function KeyDate(s: string): CivilDate
    requires |s| == 10
  {
    CivilDate(DecimalValue(s[..4]), DecimalValue(s[5..7]), DecimalValue(s[8..]))
  }

  /** A well-formed day key: the `YYYY-MM-DD` shape, naming a date that exists. */
  predicate IsDayKey(s: string)
  {
    IsDashedShape(s) && IsKeyDate(KeyDate(s))
  }

  /** Every four-digit-year date has a well-formed key that reads back as that date. */
  lemma KeyRoundTrip(d: CivilDate)
    requires IsKeyDate(d)
    ensures IsDayKey(LocalDateString(d)) && KeyDate(LocalDateString(d)) == d
  {
    KeyDigits(d);
    assert Pow10(4) == 10000 && Pow10(2) == 100 by {
      assert Pow10(1) == 10 && Pow10(3) == 1000;
    }
    DigitsValue(d.year, 4);
    DigitsValue(d.month, 2);
    DigitsValue(d.day, 2);
    JoinedParts(Digits(d.year, 4), Digits(d.month, 2), Digits(d.day, 2));
  }

  /** Three digit groups of widths 4, 2 and 2 joined by dashes, and their positions. */
  lemma JoinedParts(y: string, m: string, dd: string)
    requires |y| == 4 && |m| == 2 && |dd| == 2
    ensures var s := y + "-" + m + "-" + dd;
      |s| == 10 && s[4] == '-' && s[7] == '-' && s[..4] == y && s[5..7] == m && s[8..] == dd
  {
    var s := y + "-" + m + "-" + dd;
    assert s[..4] == y;
    assert s[5..7] == m;
    assert s[8..] == dd;
  }

  /** Every well-formed day key is the key of the date it names. */
  lemma DayKeyRoundTrip(s: string)
    requires IsDayKey(s)
    ensures LocalDateString(KeyDate(s)) == s
  {
    DigitsOfValue(s[..4]);
    DigitsOfValue(s[5..7]);
    DigitsOfValue(s[8..]);
    KeyDigits(KeyDate(s));
    DashedParts(s);
  }

  /** A dashed ten-character string is its three digit groups joined by dashes. */
  lemma DashedParts(s: string)
    requires |s| == 10 && s[4] == '-' && s[7] == '-'
    ensures s == s[..4] + "-" + s[5..7] + "-" + s[8..]
  {
  }

  // ---------------------------------------------------------------------------
  // String comparison

  /** JavaScript's `s < t` on strings, read as lexicographic order on Dafny characters.
      JavaScript compares UTF-16 code units; the two orders agree on characters below U+10000. */
  predicate LexLess(s: string, t: string)
  {
    if s == [] then t != []
    else if t == [] then false
    else if s[0] != t[0] then s[0] < t[0]
    else LexLess(s[1..], t[1..])
  }

  lemma {:induction false} LexLessIrreflexive(s: string)
    ensures !LexLess(s, s)
  {
    if s != [] {
      LexLessIrreflexive(s[1..]);
    }
  }

  lemma {:induction false} LexLessAsymmetric(s: string, t: string)
    ensures !(LexLess(s, t) && LexLess(t, s))
  {
    if s != [] && t != [] && s[0] == t[0] {
      LexLessAsymmetric(s[1..], t[1..]);
    }
  }

  /** Neither string is below the other only when they are equal. */
  lemma {:induction false} LexLessTotal(s: string, t: string)
    ensures s == t || LexLess(s, t) || LexLess(t, s)
  {
    if s != [] && t != [] && s[0] == t[0] {
      LexLessTotal(s[1..], t[1..]);
      if s[1..] == t[1..] {
        assert s == [s[0]] + s[1..] && t == [t[0]] + t[1..];
      }
    }
  }

  lemma {:induction false} LexLessTransitive(s: string, t: string, u: string)
    requires LexLess(s, t) && LexLess(t, u)
    ensures LexLess(s, u)
  {
    if s != [] && s[0] == t[0] && t[0] == u[0] {
      LexLessTransitive(s[1..], t[1..], u[1..]);
    }
  }

  /** Comparing equal-length prefixes first. */
  lemma {:induction false} LexLessPrefix(p: string, s: string, q: string, t: string)
    requires |p| == |q|
    ensures LexLess(p + s, q + t) <==> LexLess(p, q) || (p == q && LexLess(s, t))
  {
    if p == [] {
      assert p + s == s && q + t == t;
    } else {
      assert (p + s)[0] == p[0] && (q + t)[0] == q[0];
      assert (p + s)[1..] == p[1..] + s && (q + t)[1..] == q[1..] + t;
      LexLessPrefix(p[1..], s, q[1..], t);
      if p[0] == q[0] {
        assert p == q <==> p[1..] == q[1..] by {
          assert p == [p[0]] + p[1..] && q == [q[0]] + q[1..];
        }
      }
    }
  }

  /** Fixed-width digit strings compare as the numbers they denote. */
  lemma {:induction false} DigitsOrder(a: nat, b: nat, w: nat)
    requires a < Pow10(w) && b < Pow10(w)
    ensures LexLess(Digits(a, w), Digits(b, w)) <==> a < b
    ensures Digits(a, w) == Digits(b, w) <==> a == b
  {
    if w > 0 {
      DigitsOrder(a / 10, b / 10, w - 1);
      var ca, cb := [DigitChar(a % 10)], [DigitChar(b % 10)];
      LexLessPrefix(Digits(a / 10, w - 1), ca, Digits(b / 10, w - 1), cb);
      assert LexLess(ca, cb) <==> a % 10 < b % 10 by {
        assert ca[1..] == [] && cb[1..] == [];
      }
      if a != b {
        if a < b {
          assert LexLess(Digits(a, w), Digits(b, w));
          LexLessIrreflexive(Digits(a, w));
        } else {
          DigitsOrder(b / 10, a / 10, w - 1);
          LexLessPrefix(Digits(b / 10, w - 1), cb, Digits(a / 10, w - 1), ca);
          assert LexLess(Digits(b, w), Digits(a, w));
          LexLessIrreflexive(Digits(a, w));
        }
      }
    }
  }

  /** Strings of the shape `y-m-d` with equal-width year and month parts compare part by part. */
  lemma DashedOrder(ya: string, ma: string, da: string, yb: string, mb: string, db: string)
    requires |ya| == |yb| && |ma| == |mb|
    ensures LexLess(ya + "-" + ma + "-" + da, yb + "-" + mb + "-" + db) <==>
      LexLess(ya, yb) || (ya == yb && (LexLess(ma, mb) || (ma == mb && LexLess(da, db))))
  {
    var ta, tb := "-" + ma + "-" + da, "-" + mb + "-" + db;
    assert ya + "-" + ma + "-" + da == ya + ta && yb + "-" + mb + "-" + db == yb + tb;
    LexLessPrefix(ya, ta, yb, tb);
    assert ta == "-" + (ma + ("-" + da)) && tb == "-" + (mb + ("-" + db));
    LexLessPrefix("-", ma + ("-" + da), "-", mb + ("-" + db));
    LexLessIrreflexive("-");
    LexLessPrefix(ma, "-" + da, mb, "-" + db);
    LexLessPrefix("-", da, "-", db);
  }

  lemma DashedEquality(ya: string, ma: string, da: string, yb: string, mb: string, db: string)
    requires |ya| == |yb| && |ma| == |mb|
    ensures ya + "-" + ma + "-" + da == yb + "-" + mb + "-" + db <==> ya == yb && ma == mb && da == db
  {
    var sa, sb := ya + "-" + ma + "-" + da, yb + "-" + mb + "-" + db;
    if sa == sb {
      var n, m := |ya|, |ma|;
      assert ya == sa[..n] && yb == sb[..n];
      assert ma == sa[n + 1..n + 1 + m] && mb == sb[n + 1..n + 1 + m];
      assert da == sa[n + m + 2..] && db == sb[n + m + 2..];
    }
  }

  /** Comparing day keys as strings is comparing the days: what `getLogsForPeriod`
      and the sort in `calculateStreak` rely on. */
  lemma KeyOrder(a: CivilDate, b: CivilDate)
    requires IsKeyDate(a) && IsKeyDate(b)
    ensures LexLess(LocalDateString(a), LocalDateString(b)) <==> DayNumber(a) < DayNumber(b)
    ensures LocalDateString(a) == LocalDateString(b) <==> a == b
  {
    KeyDigits(a);
    KeyDigits(b);
    DayNumberOrder(a, b);
    assert Pow10(4) == 10000 && Pow10(2) == 100 by {
      assert Pow10(1) == 10 && Pow10(3) == 1000;
    }
    DigitsOrder(a.year, b.year, 4);
    DigitsOrder(a.month, b.month, 2);
    DigitsOrder(a.day, b.day, 2);
    DashedOrder(Digits(a.year, 4), Digits(a.month, 2), Digits(a.day, 2),
                Digits(b.year, 4), Digits(b.month, 2), Digits(b.day, 2));
    DashedEquality(Digits(a.year, 4), Digits(a.month, 2), Digits(a.day, 2),
                   Digits(b.year, 4), Digits(b.month, 2), Digits(b.day, 2));
  }

  /** Well-formed day keys compare as strings exactly as their days compare. */
  lemma DayKeyOrder(s: string, t: string)
    requires IsDayKey(s) && IsDayKey(t)
    ensures LexLess(s, t) <==> DayNumber(KeyDate(s)) < DayNumber(KeyDate(t))
    ensures s == t <==> DayNumber(KeyDate(s)) == DayNumber(KeyDate(t))
  {
    DayKeyRoundTrip(s);
    DayKeyRoundTrip(t);
    KeyOrder(KeyDate(s), KeyDate(t));
    DayNumberOrder(KeyDate(s), KeyDate(t));
  }
}
