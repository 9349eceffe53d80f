/** Display helpers of src/utils/history.ts: `formatDuration`, `formatMinutes` and
    `getMotivationalMessage`. Durations are whole seconds. */
module Format {
  import opened Seqs
  import opened Dates

  /** JavaScript's `a % b` for `b > 0`: the remainder takes the sign of `a`
      (Dafny's `%` never returns a negative value). */
  function JsRemainder(a: int, b: int): (r: int)
    requires b > 0
    ensures a == b * (if a >= 0 then a / b else -((-a) / b)) + r
    ensures a >= 0 ==> 0 <= r < b
    ensures a < 0 ==> -b < r <= 0
  {
    if a >= 0 then a % b else -((-a) % b)
  }

  // ---------------------------------------------------------------------------
  // formatDuration

  /** `formatDuration`: `"Ss"` under a minute, `"Mm"` on whole minutes, `"Mm Ss"` otherwise,
      with `M = Math.floor(seconds / 60)` and `S = seconds % 60`. */
  function FormatDuration(seconds: int): (r: string)
    ensures |r| >= 2
    ensures r[|r| - 1] == if seconds != 0 && JsRemainder(seconds, 60) == 0 then 'm' else 's'
  {
    var mins := seconds / 60;
    var secs := JsRemainder(seconds, 60);
    if mins == 0 then IntToString(secs) + "s"
    else if secs == 0 then IntToString(mins) + "m"
    else IntToString(mins) + "m " + IntToString(secs) + "s"
  }

  /** The three shapes, stated on the duration itself. */
  lemma FormatDurationCases(s: nat)
    ensures s < 60 ==> FormatDuration(s) == NatToString(s) + "s"
    ensures s >= 60 && s % 60 == 0 ==> FormatDuration(s) == NatToString(s / 60) + "m"
    ensures s >= 60 && s % 60 != 0 ==>
      FormatDuration(s) == NatToString(s / 60) + "m " + NatToString(s % 60) + "s"
  {
  }

  /** Length of the longest prefix of `t` made of decimal digits. */
  function DigitRun(t: string): (n: nat)
    ensures n <= |t| && AllDigits(t[..n])
    ensures n < |t| ==> !IsDigit(t[n])
  {
    if t == [] || !IsDigit(t[0]) then 0
    else
      var n := 1 + DigitRun(t[1..]);
      assert forall i :: 1 <= i < n ==> t[..n][i] == t[1..][..n - 1][i - 1];
      n
  }

  lemma {:induction false} DigitRunOfNumber(d: string, rest: string)
    requires AllDigits(d)
    requires rest == [] || !IsDigit(rest[0])
    ensures DigitRun(d + rest) == |d|
    decreases |d|
  {
    if d != [] {
      assert (d + rest)[1..] == d[1..] + rest;
      DigitRunOfNumber(d[1..], rest);
    } else {
      assert d + rest == rest;
    }
  }

  /** Reads a duration back from the text `formatDuration` shows: a number followed by
      `s`, by `m`, or by `m `, a second number and `s`. */
  function ParseDuration(t: string): Option<int>
  {
    var i := DigitRun(t);
    if i == 0 then None else ParseUnit(DecimalValue(t[..i]), t[i..])
  }

  /** What follows the leading number `n`. */
  function ParseUnit(n: int, rest: string): Option<int>
  {
    if rest == "s" then Some(n)
    else if rest == "m" then Some(60 * n)
    else if |rest| > 2 && rest[..2] == "m " then ParseSecondsAfter(n, rest[2..])
    else None
  }

  /** The seconds after `n` minutes. */
  function ParseSecondsAfter(n: int, tail: string): Option<int>
  {
    var j := DigitRun(tail);
    if j > 0 && tail[j..] == "s" then Some(60 * n + DecimalValue(tail[..j])) else None
  }

  /** Reading a number written by `NatToString` followed by a non-digit. */
  lemma ReadNumber(n: nat, rest: string)
    requires rest == [] || !IsDigit(rest[0])
    ensures var t := NatToString(n) + rest; var i := DigitRun(t);
      i == |NatToString(n)| > 0 && DecimalValue(t[..i]) == n && t[i..] == rest
  {
    NatToStringValue(n);
    DigitRunOfNumber(NatToString(n), rest);
    var t := NatToString(n) + rest;
    assert t[..|NatToString(n)|] == NatToString(n);
    assert t[|NatToString(n)|..] == rest;
  }

  lemma ParseSeconds(n: nat)
    ensures ParseDuration(NatToString(n) + "s") == Some(n)
  {
    ReadNumber(n, "s");
  }

  lemma ParseMinutes(n: nat)
    ensures ParseDuration(NatToString(n) + "m") == Some(60 * n)
  {
    ReadNumber(n, "m");
  }

  lemma ParseMinutesAndSeconds(m: nat, n: nat)
    ensures ParseDuration(NatToString(m) + "m " + NatToString(n) + "s") == Some(60 * m + n)
  {
    var tail := NatToString(n) + "s";
    var rest := "m " + tail;
    ReadNumber(m, rest);
    ConcatAssociates(NatToString(m), "m ", NatToString(n), "s");
    ReadNumber(n, "s");
    assert ParseSecondsAfter(m, tail) == Some(60 * m + n);
    assert |rest| > 2 && rest[..2] == "m " && rest[2..] == tail;
    assert rest != "s" && rest != "m";
    assert ParseUnit(m, rest) == Some(60 * m + n);
  }

  lemma ConcatAssociates(a: string, b: string, c: string, d: string)
    ensures a + b + c + d == a + (b + (c + d))
  {
  }

  /** A formatted duration reads back as that duration, so distinct durations are
      shown differently. */
  lemma FormatDurationRoundTrip(s: nat)
    ensures ParseDuration(FormatDuration(s)) == Some(s)
  {
    FormatDurationCases(s);
    if s < 60 {
      ParseSeconds(s);
    } else if s % 60 == 0 {
      ParseMinutes(s / 60);
    } else {
      ParseMinutesAndSeconds(s / 60, s % 60);
    }
  }

  lemma FormatDurationInjective(a: nat, b: nat)
    ensures FormatDuration(a) == FormatDuration(b) <==> a == b
  {
    FormatDurationRoundTrip(a);
    FormatDurationRoundTrip(b);
  }

  // ---------------------------------------------------------------------------
  // formatMinutes

  /** `formatMinutes`: the whole minutes, rounded down. */
  function FormatMinutes(seconds: int): string
  {
    IntToString(seconds / 60)
  }

  /** For a non-negative duration the text is the number of whole minutes it contains,
      written without leading zeros. */
  lemma FormatMinutesValue(s: nat)
    ensures var r := FormatMinutes(s);
      AllDigits(r) && (|r| == 1 || r[0] != '0') && 60 * DecimalValue(r) <= s < 60 * (DecimalValue(r) + 1)
  {
    NatToStringValue(s / 60);
  }

  // ---------------------------------------------------------------------------
  // getMotivationalMessage

  datatype Motivation = Motivation(message: string, emoji: string)

  /** The three messages, from the shortest sessions to the longest. */
  const Motivations: seq<Motivation> := [
    Motivation("Small steps still count. You showed up!", "\U{1F4AA}"),
    Motivation("Great job, your consistency is building strength!", "✨"),
    Motivation("Powerful session! You're rewriting your story!", "\U{1F525}")
  ]

  /** `getMotivationalMessage`: chosen by the length in (fractional) minutes. */
  function MotivationalMessage(durationSeconds: int): (r: Motivation)
    ensures r in Motivations
  {
    var mins := durationSeconds as real / 60.0;
    if mins < 5.0 then Motivations[0]
    else if mins <= 20.0 then Motivations[1]
    else Motivations[2]
  }

  /** Which message a duration earns, on whole seconds: under 5 minutes, up to and
      including 20 minutes, or longer. */
  function Tier(durationSeconds: int): (r: nat)
    ensures r < 3
  {
    if durationSeconds < 300 then 0 else if durationSeconds <= 1200 then 1 else 2
  }

  /** The fractional-minute thresholds are the second thresholds 300 and 1200. */
  lemma MotivationByTier(s: int)
    ensures MotivationalMessage(s) == Motivations[Tier(s)]
  {
    var mins := s as real / 60.0;
    assert mins < 5.0 <==> s < 300;
    assert mins <= 20.0 <==> s <= 1200;
  }

  /** A longer session never earns an earlier message, and the messages are distinct. */
  lemma MotivationMonotone(s: int, t: int)
    requires s <= t
    ensures Tier(s) <= Tier(t)
    ensures MotivationalMessage(s) == MotivationalMessage(t) <==> Tier(s) == Tier(t)
  {
    MotivationByTier(s);
    MotivationByTier(t);
    assert Motivations[0].emoji != Motivations[1].emoji;
    assert Motivations[1].emoji != Motivations[2].emoji;
    assert Motivations[0].emoji != Motivations[2].emoji;
  }
}
