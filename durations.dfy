/** Integer rounding and the human-readable duration text of src/tasks.rs:11-83. */
module Durations {
  import opened Decimal
  import opened Wrappers

  function Abs(x: int): nat {
    if x < 0 then -x else x
  }

  /** Rust's `/` on integers: the quotient truncated toward zero. Its
      magnitude is the floor of the magnitudes, its sign the sign of a / b. */
  function TruncDiv(a: int, b: int): (q: int)
    requires b != 0
    ensures Abs(q) == Abs(a) / Abs(b)
    ensures q == 0 || (q < 0 <==> (a < 0) != (b < 0))
  {
    NonNegativeQuotient(Abs(a), Abs(b));
    var m := Abs(a) / Abs(b);
    if (a < 0) == (b < 0) then m else -m
  }

  lemma NonNegativeQuotient(x: nat, y: int)
    requires y > 0
    ensures x / y >= 0
  {
  }

  /** (a + b / 2) / b rounds a / b to the nearest integer, halves up. */
  lemma NearestHalfUp(a: nat, b: int)
    requires b > 0
    ensures var q := (a + b / 2) / b; 2 * q * b <= 2 * a + b < 2 * q * b + 2 * b
  {
    var m := a + b / 2;
    var q, rem := m / b, m % b;
    assert m == q * b + rem && 0 <= rem < b;
    assert b - 1 <= 2 * (b / 2) <= b;
  }

  /** `rounded_div` as written: `(numerator + denominator / 2) / denominator`
      with Rust's truncating division. */
  function RoundedDivAsWritten(numerator: int, denominator: int): (r: int)
    requires denominator != 0
    ensures numerator >= 0 && denominator > 0 ==> r == (numerator + denominator / 2) / denominator
  {
    TruncDiv(numerator + TruncDiv(denominator, 2), denominator)
  }

  /** On a non-negative numerator and a positive denominator `rounded_div`
      rounds to the nearest integer, halves up. */
  lemma RoundedDivAsWrittenRounds(numerator: int, denominator: int)
    requires numerator >= 0 && denominator > 0
    ensures var r := RoundedDivAsWritten(numerator, denominator);
      2 * r * denominator <= 2 * numerator + denominator < 2 * r * denominator + 2 * denominator
  {
    NearestHalfUp(numerator, denominator);
  }

  /** The doc-comment examples whose operands are not negative hold as written. */
  lemma RoundedDivAsWrittenExamples()
    ensures RoundedDivAsWritten(3, 2) == 2
    ensures RoundedDivAsWritten(2, 3) == 1
    ensures RoundedDivAsWritten(1, 2) == 1
    ensures RoundedDivAsWritten(1, 3) == 0
  {
  }

  /** The formula as written does not round -1.5 to -2 nor -0.5 to -1, as the
      doc comment promises: it gives -1 and 0. */
  lemma RoundedDivAsWrittenNegativeExamples()
    ensures RoundedDivAsWritten(-3, 2) == -1
    ensures RoundedDivAsWritten(1, -2) == 0
  {
  }

  /** Division rounded to the nearest integer, halves away from zero: what the
      doc comment of `rounded_div` describes for every sign of the operands. */
  function RoundedDiv(numerator: int, denominator: int): int
    requires denominator != 0
  {
    var a, b := Abs(numerator), Abs(denominator);
    var q := (a + b / 2) / b;
    if (numerator < 0) == (denominator < 0) then q else -q
  }

  /** The magnitude of the corrected division is |n| / |d| rounded to the
      nearest integer, halves up (so halves go away from zero), and its sign
      is that of n / d. */
  lemma RoundedDivIsNearest(numerator: int, denominator: int)
    requires denominator != 0
    ensures var r := RoundedDiv(numerator, denominator);
      && 2 * Abs(r) * Abs(denominator) <= 2 * Abs(numerator) + Abs(denominator)
      && 2 * Abs(numerator) + Abs(denominator) < 2 * Abs(r) * Abs(denominator) + 2 * Abs(denominator)
      && (r == 0 || (r < 0 <==> (numerator < 0) != (denominator < 0)))
  {
    var a, b := Abs(numerator), Abs(denominator);
    NearestHalfUp(a, b);
    NonNegativeQuotient(a + b / 2, b);
  }

  /** On the operands the program passes (a non-negative numerator and a
      positive denominator) the corrected and the as-written formula agree. */
  lemma RoundedDivAgrees(numerator: int, denominator: int)
    requires numerator >= 0 && denominator > 0
    ensures RoundedDiv(numerator, denominator) == RoundedDivAsWritten(numerator, denominator)
  {
    assert TruncDiv(denominator, 2) == denominator / 2;
  }

  /** Every example of the doc comment holds of the corrected division, with
      the value its comment gives for 1 / -2 (the tuple itself says 1). */
  lemma RoundedDivDocumentedExamples()
    ensures RoundedDiv(3, 2) == 2 && RoundedDiv(2, 3) == 1
    ensures RoundedDiv(1, 2) == 1 && RoundedDiv(1, 3) == 0
    ensures RoundedDiv(-3, 2) == -2 && RoundedDiv(-2, -3) == 1
    ensures RoundedDiv(1, -2) == -1 && RoundedDiv(-1, 3) == 0
  {
  }

  /** The reading `human_duration` gives of a duration: which unit pair it
      prints and the two numbers. */
  datatype Reading =
    | Milliseconds(milliseconds: int)
    | Seconds(seconds: int)
    | MinutesSeconds(minutes: int, seconds: int)
    | HoursMinutes(hours: int, minutes: int)
    | DaysHours(days: int, hours: int)

  /** The reading of a duration of `ms` milliseconds, stated by whole-unit
      decomposition of the rounded number of seconds: under a second the
      milliseconds; otherwise seconds under a minute, minutes and seconds
      under an hour, hours and rounded minutes under a day, and days and
      rounded hours beyond. */
  function Describe(ms: int): Reading {
    if ms < 1000 then Milliseconds(ms)
    else
      var s := RoundedDiv(ms, 1000);
      if s < 60 then Seconds(s)
      else if s < 3600 then MinutesSeconds(s / 60, s % 60)
      else if s < 86400 then HoursMinutes(s / 3600, (s / 60) % 60 + RoundedDiv(s % 60, 60))
      else DaysHours(s / 86400, (s / 3600) % 24 + RoundedDiv((s / 60) % 60 + RoundedDiv(s % 60, 60), 60))
  }

  /** A number followed by its unit, as `format!("{} unit", n)` writes it. */
  function Phrase(n: int, unit: string): string {
    IntToDecimal(n) + " " + unit
  }

  /** The text `human_duration` formats for a reading. */
  function Render(r: Reading): string {
    match r
    case Milliseconds(ms) => Phrase(ms, "milliseconds")
    case Seconds(s) => Phrase(s, "seconds")
    case MinutesSeconds(m, s) => Phrase(m, "minutes") + " " + Phrase(s, "seconds")
    case HoursMinutes(h, m) => Phrase(h, "hours") + " " + Phrase(m, "minutes")
    case DaysHours(d, h) => Phrase(d, "days") + " " + Phrase(h, "hours")
  }

  /** A string without spaces. */
  predicate IsWord(w: string) {
    forall k :: 0 <= k < |w| ==> w[k] != ' '
  }

  /** The words of a text, split at every space. */
  function SplitWords(text: string): (words: seq<string>)
    ensures |words| >= 1
    decreases |text|
  {
    if text == [] then [[]]
    else
      var rest := SplitWords(text[1..]);
      if text[0] == ' ' then [[]] + rest else [[text[0]] + rest[0]] + rest[1..]
  }

  /** The reading a text of `human_duration` gives back: a number and a unit,
      or a number, a unit, a number and a smaller unit. */
  function ParseReading(text: string): Option<Reading> {
    var w := SplitWords(text);
    if |w| == 2 && ParseInt(w[0]).Some? then OneUnit(ParseInt(w[0]).value, w[1])
    else if |w| == 4 && ParseInt(w[0]).Some? && ParseInt(w[2]).Some? then
      TwoUnits(ParseInt(w[0]).value, w[1], ParseInt(w[2]).value, w[3])
    else None
  }

  function OneUnit(n: int, unit: string): Option<Reading> {
    if unit == "milliseconds" then Some(Milliseconds(n))
    else if unit == "seconds" then Some(Seconds(n))
    else None
  }

  function TwoUnits(a: int, larger: string, b: int, smaller: string): Option<Reading> {
    if larger == "minutes" && smaller == "seconds" then Some(MinutesSeconds(a, b))
    else if larger == "hours" && smaller == "minutes" then Some(HoursMinutes(a, b))
    else if larger == "days" && smaller == "hours" then Some(DaysHours(a, b))
    else None
  }

  lemma {:induction false} SplitWordsOfWord(w: string)
    requires IsWord(w)
    ensures SplitWords(w) == [w]
    decreases |w|
  {
    if w != [] {
      SplitWordsOfWord(w[1..]);
      assert [w[0]] + w[1..] == w;
    }
  }

  lemma {:induction false} SplitWordsAfterWord(w: string, rest: string)
    requires IsWord(w)
    ensures SplitWords(w + " " + rest) == [w] + SplitWords(rest)
    decreases |w|
  {
    var text := w + " " + rest;
    if w == [] {
      assert text[1..] == rest;
    } else {
      assert text[1..] == w[1..] + " " + rest;
      SplitWordsAfterWord(w[1..], rest);
      assert [w[0]] + w[1..] == w;
    }
  }

  lemma DecimalIsWord(i: int)
    ensures IsWord(IntToDecimal(i))
  {
    IntToDecimalChars(i);
  }

  lemma TwoWords(a: string, b: string)
    requires IsWord(a) && IsWord(b)
    ensures SplitWords(a + " " + b) == [a, b]
  {
    SplitWordsAfterWord(a, b);
    SplitWordsOfWord(b);
  }

  lemma FourWords(a: string, b: string, c: string, d: string)
    requires IsWord(a) && IsWord(b) && IsWord(c) && IsWord(d)
    ensures SplitWords(a + " " + b + " " + c + " " + d) == [a, b, c, d]
  {
    var cd := c + " " + d;
    var bcd := b + " " + cd;
    Regroup(a, b, c, d);
    SplitWordsAfterWord(a, bcd);
    SplitWordsAfterWord(b, cd);
    TwoWords(c, d);
  }

  lemma Regroup(a: string, b: string, c: string, d: string)
    ensures a + " " + b + " " + c + " " + d == a + " " + (b + " " + (c + " " + d))
  {
  }

  /** The text of a reading determines it: parsing it back gives the reading,
      so distinct readings are never rendered alike. */
  lemma RenderRoundTrip(r: Reading)
    ensures ParseReading(Render(r)) == Some(r)
  {
    match r
    case Milliseconds(n) => MillisecondsRoundTrip(n);
    case Seconds(n) => SecondsRoundTrip(n);
    case MinutesSeconds(a, b) => MinutesSecondsRoundTrip(a, b);
    case HoursMinutes(a, b) => HoursMinutesRoundTrip(a, b);
    case DaysHours(a, b) => DaysHoursRoundTrip(a, b);
  }

  lemma MillisecondsRoundTrip(n: int)
    ensures ParseReading(Phrase(n, "milliseconds")) == Some(Milliseconds(n))
  {
    OneUnitRoundTrip(n, "milliseconds");
  }

  lemma SecondsRoundTrip(n: int)
    ensures ParseReading(Phrase(n, "seconds")) == Some(Seconds(n))
  {
    OneUnitRoundTrip(n, "seconds");
  }

  lemma MinutesSecondsRoundTrip(a: int, b: int)
    ensures ParseReading(Phrase(a, "minutes") + " " + Phrase(b, "seconds")) == Some(MinutesSeconds(a, b))
  {
    TwoUnitsRoundTrip(a, "minutes", b, "seconds");
  }

  lemma HoursMinutesRoundTrip(a: int, b: int)
    ensures ParseReading(Phrase(a, "hours") + " " + Phrase(b, "minutes")) == Some(HoursMinutes(a, b))
  {
    TwoUnitsRoundTrip(a, "hours", b, "minutes");
  }

  lemma DaysHoursRoundTrip(a: int, b: int)
    ensures ParseReading(Phrase(a, "days") + " " + Phrase(b, "hours")) == Some(DaysHours(a, b))
  {
    TwoUnitsRoundTrip(a, "days", b, "hours");
  }

  lemma OneUnitRoundTrip(n: int, unit: string)
    requires IsWord(unit)
    ensures ParseReading(Phrase(n, unit)) == OneUnit(n, unit)
  {
    DecimalIsWord(n);
    ParseIntRoundTrip(n);
    TwoWords(IntToDecimal(n), unit);
  }

  lemma TwoUnitsRoundTrip(a: int, larger: string, b: int, smaller: string)
    requires IsWord(larger) && IsWord(smaller)
    ensures ParseReading(Phrase(a, larger) + " " + Phrase(b, smaller)) == TwoUnits(a, larger, b, smaller)
  {
    DecimalIsWord(a);
    DecimalIsWord(b);
    ParseIntRoundTrip(a);
    ParseIntRoundTrip(b);
    FourWords(IntToDecimal(a), larger, IntToDecimal(b), smaller);
    PhrasePair(a, larger, b, smaller);
  }

  lemma PhrasePair(a: int, larger: string, b: int, smaller: string)
    ensures Phrase(a, larger) + " " + Phrase(b, smaller)
         == IntToDecimal(a) + " " + larger + " " + IntToDecimal(b) + " " + smaller
  {
  }

  /** Whole-unit decomposition of a number of seconds. */
  lemma UnitSplit(s: int)
    requires s >= 0
    ensures (s / 60) / 60 == s / 3600 && (s / 3600) / 24 == s / 86400
    ensures s - (s / 60) * 60 == s % 60
    ensures s / 60 - (s / 3600) * 60 == (s / 60) % 60
    ensures s / 3600 - (s / 86400) * 24 == (s / 3600) % 24
  {
  }

  /** `human_duration`: the locals `seconds`, `minutes` and `hours` are
      reassigned step by step, as in the source, with `rounded_div` as
      written. Every division here has a non-negative numerator and a
      positive denominator, where Rust's `/` and Dafny's agree and the
      as-written rounding equals the corrected one (`RoundedDivAgrees`). */
  method HumanDuration(milli: int) returns (text: string)
    ensures text == Render(Describe(milli))
  {
    if milli < 1000 {
      return Phrase(milli, "milliseconds");
    }

    var seconds := RoundedDivAsWritten(milli, 1000);
    RoundedDivAgrees(milli, 1000);
    if seconds < 60 {
      return Phrase(seconds, "seconds");
    }

    RoundedDivIsNearest(milli, 1000);
    ghost var s := seconds;
    UnitSplit(s);
    var minutes := seconds / 60;
    seconds := seconds - minutes * 60;
    assert minutes == s / 60 && seconds == s % 60;
    if minutes < 60 {
      assert Describe(milli) == MinutesSeconds(minutes, seconds);
      return Phrase(minutes, "minutes") + " " + Phrase(seconds, "seconds");
    }

    var hours := minutes / 60;
    RoundedDivAgrees(seconds, 60);
    minutes := minutes - hours * 60 + RoundedDivAsWritten(seconds, 60);
    assert hours == s / 3600 && minutes == (s / 60) % 60 + RoundedDiv(s % 60, 60);
    if hours < 24 {
      assert Describe(milli) == HoursMinutes(hours, minutes);
      return Phrase(hours, "hours") + " " + Phrase(minutes, "minutes");
    }

    var days := hours / 24;
    RoundedDivAgrees(minutes, 60);
    hours := hours - days * 24 + RoundedDivAsWritten(minutes, 60);
    assert Describe(milli) == DaysHours(days, hours);
    return Phrase(days, "days") + " " + Phrase(hours, "hours");
  }

  /** What each reading means: a reading of whole units adds back up to the
      duration rounded to its smaller unit (seconds, minutes, or hours rounded
      from rounded minutes), the larger unit is below its own threshold, and
      the smaller one stays below 60 seconds, at most 60 minutes or at most
      24 hours: rounding may carry the smaller unit up to a full larger one. */
  lemma DescribeMeaning(ms: int)
    ensures Describe(ms).Milliseconds? <==> ms < 1000
    ensures Describe(ms).Milliseconds? ==> Describe(ms).milliseconds == ms
    ensures ms >= 1000 ==>
      var s := RoundedDiv(ms, 1000);
      match Describe(ms)
      case Milliseconds(_) => false
      case Seconds(x) => x == s && 1 <= x < 60
      case MinutesSeconds(m, x) => 60 * m + x == s && 1 <= m < 60 && 0 <= x < 60
      case HoursMinutes(h, m) => 60 * h + m == RoundedDiv(s, 60) && 1 <= h < 24 && 0 <= m <= 60
      case DaysHours(d, h) => 24 * d + h == RoundedDiv(RoundedDiv(s, 60), 60) && 1 <= d && 0 <= h <= 24
  {
    if ms >= 1000 {
      RoundedDivIsNearest(ms, 1000);
      var s := RoundedDiv(ms, 1000);
      if 60 <= s < 3600 {
        UnitSplit(s);
      } else if 3600 <= s < 86400 {
        HoursMinutesMeaning(s);
      } else if 86400 <= s {
        DaysHoursMeaning(s);
      }
    }
  }

  /** On non-negative numbers, rounding to minutes is a linear expression. */
  lemma RoundedDivBySixty(n: int)
    requires n >= 0
    ensures RoundedDiv(n, 60) == (n + 30) / 60
  {
  }

  lemma HoursMinutesMeaning(s: int)
    requires 3600 <= s < 86400
    ensures var m := (s / 60) % 60 + RoundedDiv(s % 60, 60);
      60 * (s / 3600) + m == RoundedDiv(s, 60) && 1 <= s / 3600 < 24 && 0 <= m <= 60
  {
    UnitSplit(s);
    RoundedDivBySixty(s % 60);
    RoundedDivBySixty(s);
  }

  lemma DaysHoursMeaning(s: int)
    requires 86400 <= s
    ensures var m := (s / 60) % 60 + RoundedDiv(s % 60, 60);
      var h := (s / 3600) % 24 + RoundedDiv(m, 60);
      24 * (s / 86400) + h == RoundedDiv(RoundedDiv(s, 60), 60) && 1 <= s / 86400 && 0 <= h <= 24
  {
    UnitSplit(s);
    var m := (s / 60) % 60 + RoundedDiv(s % 60, 60);
    RoundedDivBySixty(s % 60);
    RoundedDivBySixty(s);
    RoundedDivBySixty(m);
    RoundedDivBySixty(RoundedDiv(s, 60));
  }

  /** The carry is reachable: 1 h 59 min 30 s reads "1 hours 60 minutes" and
      1 d 23 h 59 min 30 s reads "1 days 24 hours". */
  lemma DescribeCarriesToFullUnit()
    ensures Describe(7170000) == HoursMinutes(1, 60)
    ensures Describe(172770000) == DaysHours(1, 24)
  {
    CarryToSixtyMinutes();
    CarryToTwentyFourHours();
  }

  lemma CarryToSixtyMinutes()
    ensures Describe(7170000) == HoursMinutes(1, 60)
  {
    assert RoundedDiv(7170000, 1000) == 7170;
    assert RoundedDiv(30, 60) == 1;
  }

  lemma CarryToTwentyFourHours()
    ensures Describe(172770000) == DaysHours(1, 24)
  {
    assert RoundedDiv(172770000, 1000) == 172770;
    assert RoundedDiv(30, 60) == 1 && RoundedDiv(60, 60) == 1;
  }

  /** The examples of the doc comment of `human_duration`; 173 hours is
      622800000 milliseconds. */
  lemma HumanDurationExamples()
    ensures Render(Describe(947)) == "947 milliseconds"
    ensures Render(Describe(1947)) == "2 seconds"
    ensures Render(Describe(57000)) == "57 seconds"
    ensures Render(Describe(157000)) == "2 minutes 37 seconds"
    ensures Render(Describe(4734000)) == "1 hours 19 minutes"
    ensures Render(Describe(92750000)) == "1 days 2 hours"
    ensures Render(Describe(622800000)) == "7 days 5 hours"
  {
    ExampleOf947();
    ExampleOf1947();
    ExampleOf57000();
    ExampleOf157000();
    ExampleOf4734000();
    ExampleOf92750000();
    ExampleOf622800000();
  }

  lemma ExampleOf947()
    ensures Render(Describe(947)) == "947 milliseconds"
  {
    DecimalOf947();
  }

  lemma ExampleOf1947()
    ensures Render(Describe(1947)) == "2 seconds"
  {
  }

  lemma ExampleOf57000()
    ensures Render(Describe(57000)) == "57 seconds"
  {
  }

  lemma ExampleOf157000()
    ensures Render(Describe(157000)) == "2 minutes 37 seconds"
  {
    ReadingOf157000();
    assert NatToDecimal(37) == "37";
  }

  lemma ExampleOf4734000()
    ensures Render(Describe(4734000)) == "1 hours 19 minutes"
  {
    ReadingOf4734000();
  }

  lemma ExampleOf92750000()
    ensures Render(Describe(92750000)) == "1 days 2 hours"
  {
    ReadingOf92750000();
  }

  lemma ExampleOf622800000()
    ensures Render(Describe(622800000)) == "7 days 5 hours"
  {
    ReadingOf622800000();
  }

  // The readings of the documented examples, one equation per lemma.

  lemma ReadingOf157000()
    ensures Describe(157000) == MinutesSeconds(2, 37)
  {}

  lemma ReadingOf4734000()
    ensures Describe(4734000) == HoursMinutes(1, 19)
  {
    assert RoundedDiv(4734000, 1000) == 4734;
    assert RoundedDiv(54, 60) == 1;
  }

  lemma ReadingOf92750000()
    ensures Describe(92750000) == DaysHours(1, 2)
  {
    assert RoundedDiv(92750000, 1000) == 92750;
    assert RoundedDiv(50, 60) == 1 && RoundedDiv(46, 60) == 1;
  }

  lemma ReadingOf622800000()
    ensures Describe(622800000) == DaysHours(7, 5)
  {
    assert RoundedDiv(622800000, 1000) == 622800;
    assert RoundedDiv(0, 60) == 0;
  }

  lemma DecimalOf947()
    ensures IntToDecimal(947) == "947"
  {
    assert NatToDecimal(947) == "947";
  }
}
