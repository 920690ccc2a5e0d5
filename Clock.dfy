/**
  Clock times as the parser handles them: the `HH:MM` shape its regexes capture, the local
  `time_to_minutes` helper of `is_duplicate_lesson`, and `calculate_end_time`, which reads a
  time with `strptime("%H:%M")`, adds minutes and writes it back with `strftime("%H:%M")`.
*/
module Clock {
  import opened Options
  import opened Text

  const MinutesPerDay: nat := 1440

  /** The text `\d{2}:\d{2}` matches: two digits, a colon, two digits (no range check). */
  predicate IsClockText(s: string) {
    |s| == 5 && IsDigit(s[0]) && IsDigit(s[1]) && s[2] == ':' && IsDigit(s[3]) && IsDigit(s[4])
  }

  /**
    The reference reading of `h, m = time_str.split(':')` followed by `int(h)`, `int(m)`:
    digits, one colon, digits. (Digits after the first colon leave no room for a second one,
    so the split has exactly two parts; see `ReadableTimeSplits`.)
  */
  predicate IsReadableTime(s: string) {
    var i := IndexOf(s, ':');
    i < |s| && IsDigits(s[..i]) && IsDigits(s[i + 1..])
  }

  /** The reference value of a readable time: `int(h) * 60 + int(m)`. */
  function ReadableTimeValue(s: string): nat
    requires IsReadableTime(s)
  {
    var i := IndexOf(s, ':');
    DigitsValue(s[..i]) * 60 + DigitsValue(s[i + 1..])
  }

  /** `IsReadableTime` and `ReadableTimeValue` read `s` exactly as `s.split(':')` cuts it. */
  lemma ReadableTimeSplits(s: string)
    ensures IsReadableTime(s) <==> var parts := Split(s, ':'); |parts| == 2 && IsDigits(parts[0]) && IsDigits(parts[1])
    ensures IsReadableTime(s) ==> var parts := Split(s, ':'); ReadableTimeValue(s) == DigitsValue(parts[0]) * 60 + DigitsValue(parts[1])
  {
    var i := IndexOf(s, ':');
    if i < |s| {
      var rest := s[i + 1..];
      if IsDigits(rest) {
        assert IndexOf(rest, ':') == |rest|;
        assert Split(s, ':') == [s[..i], rest];
      } else {
        assert Split(s, ':') == [s[..i]] + Split(rest, ':');
      }
    }
  }

  /** Reads digits up to the end of `s`, continuing the number `acc`; None at a non-digit. */
  function ReadDigits(s: string, acc: nat): Option<nat>
  {
    if s == [] then Some(acc)
    else if IsDigit(s[0]) then ReadDigits(s[1..], acc * 10 + DigitValue(s[0]))
    else None
  }

  /** Reads hour digits (worth `acc` so far), a colon and at least one minute digit. */
  function ReadTime(s: string, acc: nat): Option<nat>
  {
    if s == [] then None
    else if IsDigit(s[0]) then ReadTime(s[1..], acc * 10 + DigitValue(s[0]))
    else if s[0] == ':' && |s| > 1 then
      match ReadDigits(s[1..], 0)
      case Some(m) => Some(acc * 60 + m)
      case None => None
    else None
  }

  /**
    `time_to_minutes(time_str)`, read left to right: the minutes since midnight, or None where
    the source raises ValueError (no colon, a second colon, an empty or non-digit part).
  */
  function TimeToMinutes(s: string): Option<nat>
  {
    if |s| > 0 && IsDigit(s[0]) then ReadTime(s, 0) else None
  }

  lemma {:induction false} ReadDigitsValue(s: string, acc: nat)
    ensures ReadDigits(s, acc) == if AllDigits(s) then Some(DigitsFrom(s, acc)) else None
    decreases |s|
  {
    if s != [] {
      assert AllDigits(s) <==> IsDigit(s[0]) && AllDigits(s[1..]) by {
        if IsDigit(s[0]) && AllDigits(s[1..]) {
          forall k | 0 <= k < |s| ensures IsDigit(s[k]) {
            if k > 0 { assert s[k] == s[1..][k - 1]; }
          }
        }
      }
      if IsDigit(s[0]) { ReadDigitsValue(s[1..], acc * 10 + DigitValue(s[0])); }
    }
  }

  lemma {:induction false} ReadTimeValue(s: string, acc: nat)
    ensures var i := IndexOf(s, ':');
            ReadTime(s, acc) ==
              if i < |s| && AllDigits(s[..i]) && IsDigits(s[i + 1..])
              then Some(DigitsFrom(s[..i], acc) * 60 + DigitsValue(s[i + 1..]))
              else None
    decreases |s|
  {
    if s != [] {
      var i := IndexOf(s, ':');
      if IsDigit(s[0]) {
        var t := s[1..];
        ReadTimeValue(t, acc * 10 + DigitValue(s[0]));
        assert i == IndexOf(t, ':') + 1;
        assert s[..i] == [s[0]] + t[..i - 1];
        if i < |s| { assert s[i + 1..] == t[i..]; }
        var h, u := s[..i], t[..i - 1];
        assert AllDigits(h) <==> AllDigits(u) by {
          if AllDigits(u) {
            forall k | 0 <= k < |h| ensures IsDigit(h[k]) {
              if k > 0 { assert h[k] == u[k - 1]; }
            }
          }
          if AllDigits(h) {
            forall k | 0 <= k < |u| ensures IsDigit(u[k]) {
              assert u[k] == h[k + 1];
            }
          }
        }
        assert s[..i][1..] == t[..i - 1];
      } else if s[0] == ':' {
        assert i == 0;
        assert s[..i] == [];
        ReadDigitsValue(s[1..], 0);
      }
    }
  }

  /** The left-to-right reader agrees with the reference reading of the `split(':')`. */
  lemma TimeToMinutesReadsSplit(s: string)
    ensures TimeToMinutes(s).Some? <==> IsReadableTime(s)
    ensures IsReadableTime(s) ==> TimeToMinutes(s) == Some(ReadableTimeValue(s))
  {
    ReadTimeValue(s, 0);
  }

  lemma DigitPairValue(s: string)
    requires |s| == 2 && AllDigits(s)
    ensures DigitsValue(s) == DigitValue(s[0]) * 10 + DigitValue(s[1])
  {
    assert s[1..][1..] == [];
    assert DigitsFrom(s, 0) == DigitsFrom(s[1..], DigitValue(s[0]));
  }

  lemma SingleDigitValue(s: string)
    requires |s| == 1 && AllDigits(s)
    ensures DigitsValue(s) == DigitValue(s[0])
  {
    assert s[1..] == [];
    assert DigitsFrom(s, 0) == DigitsFrom(s[1..], DigitValue(s[0]));
  }

  /** A `\d{2}:\d{2}` text splits at its colon into its two digit pairs. */
  lemma SplitClockText(s: string)
    requires IsClockText(s)
    ensures IndexOf(s, ':') == 2
    ensures Split(s, ':') == [s[..2], s[3..]]
  {
    assert IndexOf(s, ':') == 2;
    assert IndexOf(s[3..], ':') == 2;
  }

  /** Every `\d{2}:\d{2}` text is readable by `time_to_minutes`, as hours * 60 + minutes. */
  lemma ClockTextMinutes(s: string)
    requires IsClockText(s)
    ensures TimeToMinutes(s) == Some((DigitValue(s[0]) * 10 + DigitValue(s[1])) * 60 + DigitValue(s[3]) * 10 + DigitValue(s[4]))
  {
    SplitClockText(s);
    TimeToMinutesReadsSplit(s);
    DigitPairValue(s[..2]);
    DigitPairValue(s[3..]);
  }

  /** `%H` in `strptime`: the regex `2[0-3]|[0-1]\d|\d`. */
  predicate IsHourText(h: string) {
    (|h| == 1 && IsDigit(h[0]))
    || (|h| == 2 && (('0' <= h[0] <= '1' && IsDigit(h[1])) || (h[0] == '2' && '0' <= h[1] <= '3')))
  }

  /** `%M` in `strptime`: the regex `[0-5]\d|\d`. */
  predicate IsMinuteText(m: string) {
    (|m| == 1 && IsDigit(m[0])) || (|m| == 2 && '0' <= m[0] <= '5' && IsDigit(m[1]))
  }

  lemma HourMinuteBounds(h: string, m: string)
    requires IsHourText(h) && IsMinuteText(m)
    ensures AllDigits(h) && DigitsValue(h) < 24
    ensures AllDigits(m) && DigitsValue(m) < 60
  {
    if |h| == 1 { SingleDigitValue(h); } else { DigitPairValue(h); }
    if |m| == 1 { SingleDigitValue(m); } else { DigitPairValue(m); }
  }

  /**
    `datetime.strptime(s, "%H:%M")`, as minutes since midnight, or None where it raises
    ValueError. The format regex must consume the whole string; since neither `%H` nor `%M`
    matches a colon, that is: exactly one colon, an hour text before it, a minute text after it.
  */
  function ParseClock(s: string): (r: Option<nat>)
    ensures r.Some? ==> r.value < MinutesPerDay
  {
    var parts := Split(s, ':');
    if |parts| == 2 && IsHourText(parts[0]) && IsMinuteText(parts[1]) then
      HourMinuteBounds(parts[0], parts[1]);
      Some(DigitsValue(parts[0]) * 60 + DigitsValue(parts[1]))
    else
      None
  }

  /** `strftime("%H:%M")` of a time of day: zero-padded hours and minutes. */
  function FormatClock(t: nat): (s: string)
    requires t < MinutesPerDay
    ensures IsClockText(s)
  {
    var h, m := t / 60, t % 60;
    [DigitChar(h / 10), DigitChar(h % 10), ':', DigitChar(m / 10), DigitChar(m % 10)]
  }

  /** Formatting a time of day and parsing it back gives the same time, by either reader. */
  lemma FormatClockRoundTrip(t: nat)
    requires t < MinutesPerDay
    ensures ParseClock(FormatClock(t)) == Some(t)
    ensures TimeToMinutes(FormatClock(t)) == Some(t)
  {
    var s := FormatClock(t);
    SplitClockText(s);
    ClockTextMinutes(s);
    DigitPairValue(s[..2]);
    DigitPairValue(s[3..]);
  }

  /** A zero-padded time that `strptime` accepts is exactly what `strftime` writes for it. */
  lemma ParseClockInverse(s: string)
    requires IsClockText(s) && ParseClock(s).Some?
    ensures FormatClock(ParseClock(s).value) == s
  {
    SplitClockText(s);
    DigitPairValue(s[..2]);
    DigitPairValue(s[3..]);
    var a, b, c, d := DigitValue(s[0]), DigitValue(s[1]), DigitValue(s[3]), DigitValue(s[4]);
    assert ParseClock(s).value == (a * 10 + b) * 60 + c * 10 + d;
    assert c < 6;
    FormatDigits(a, b, c, d);
    DigitCharValue(s[0]);
    DigitCharValue(s[1]);
    DigitCharValue(s[3]);
    DigitCharValue(s[4]);
    assert s == [s[0], s[1], ':', s[3], s[4]];
  }

  /** `strftime` writes the four digits of a time back one by one. */
  lemma FormatDigits(a: nat, b: nat, c: nat, d: nat)
    requires a < 10 && b < 10 && c < 6 && d < 10 && (a * 10 + b) * 60 + c * 10 + d < MinutesPerDay
    ensures FormatClock((a * 10 + b) * 60 + c * 10 + d) == [DigitChar(a), DigitChar(b), ':', DigitChar(c), DigitChar(d)]
  {
    var h, m := a * 10 + b, c * 10 + d;
    assert (h * 60 + m) / 60 == h && (h * 60 + m) % 60 == m;
    assert h / 10 == a && h % 10 == b && m / 10 == c && m % 10 == d;
  }

  lemma DigitCharValue(c: char)
    requires IsDigit(c)
    ensures DigitChar(DigitValue(c)) == c
  {
  }

  /**
    `calculate_end_time(start_time, duration_minutes)`: the clock time `duration` minutes after
    `start`, wrapping past midnight; `"12:00"` when `start` is not a `%H:%M` time.
  */
  function CalculateEndTime(start: string, duration: int): (r: string)
    ensures IsClockText(r) && TimeToMinutes(r).Some?
    ensures ParseClock(start).Some? ==>
              ParseClock(r) == Some((ParseClock(start).value + duration) % MinutesPerDay)
              && TimeToMinutes(r) == Some((ParseClock(start).value + duration) % MinutesPerDay)
    ensures ParseClock(start).None? ==> r == "12:00"
  {
    match ParseClock(start)
    case Some(t) =>
      FormatClockRoundTrip((t + duration) % MinutesPerDay);
      FormatClock((t + duration) % MinutesPerDay)
    case None =>
      ClockTextMinutes("12:00");
      "12:00"
  }

  lemma ModAddMod(x: int, b: int)
    ensures (x % MinutesPerDay + b) % MinutesPerDay == (x + b) % MinutesPerDay
  {
    var q := x / MinutesPerDay;
    assert x == q * MinutesPerDay + x % MinutesPerDay;
  }

  /** Adding `a` and then `b` minutes to a readable start is adding `a + b` minutes. */
  lemma CalculateEndTimeCompose(start: string, a: int, b: int)
    requires ParseClock(start).Some?
    ensures CalculateEndTime(CalculateEndTime(start, a), b) == CalculateEndTime(start, a + b)
  {
    var t := ParseClock(start).value;
    var mid := CalculateEndTime(start, a);
    ModAddMod(t + a, b);
    assert ParseClock(mid) == Some((t + a) % MinutesPerDay);
  }

  /** The lesson length the parser assumes when only a start time is known. */
  const DefaultDuration: int := 90

  /** `calculate_end_time("08:00", 90)` is `"09:30"`. */
  lemma EndTimeOfMorningLesson()
    ensures CalculateEndTime("08:00", DefaultDuration) == "09:30"
  {
    var s := "08:00";
    SplitClockText(s);
    DigitPairValue(s[..2]);
    DigitPairValue(s[3..]);
    assert ParseClock(s) == Some(480);
    assert DigitChar(0) == '0' && DigitChar(9) == '9' && DigitChar(3) == '3';
    assert FormatClock(570) == "09:30";
  }

  /** A lesson starting at 23:00 ends at 00:30: the time wraps past midnight. */
  lemma EndTimeWrapsAtMidnight()
    ensures CalculateEndTime("23:00", DefaultDuration) == "00:30"
  {
    var s := "23:00";
    SplitClockText(s);
    DigitPairValue(s[..2]);
    DigitPairValue(s[3..]);
    assert ParseClock(s) == Some(1380);
    assert (1380 + DefaultDuration) % MinutesPerDay == 30;
    assert DigitChar(0) == '0' && DigitChar(3) == '3';
    assert FormatClock(30) == "00:30";
  }

  /** `"99:99"` has the captured shape but is no clock time: the fallback `"12:00"` is returned. */
  lemma EndTimeOfNonClock()
    ensures CalculateEndTime("99:99", DefaultDuration) == "12:00"
  {
    SplitClockText("99:99");
  }
}
