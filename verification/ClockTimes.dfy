// Clock times as they are typed in.
module ClockTimes {
  import opened Prelude
  import opened Text
  import opened CivilDates

  function Value(c: char): int {
    c as int - '0' as int
  }

  /** time.Parse("15:04", s) in minutes: one or two digits of hour, two of minute. */
  function ParseClock(s: string): Option<int> {
    if |s| == 5 && s[2] == ':' && IsDigit(s[0]) && IsDigit(s[1]) && IsDigit(s[3]) && IsDigit(s[4])
       && Value(s[0]) * 10 + Value(s[1]) < 24 && Value(s[3]) < 6
    then Some((Value(s[0]) * 10 + Value(s[1])) * 60 + Value(s[3]) * 10 + Value(s[4]))
    else if |s| == 4 && s[1] == ':' && IsDigit(s[0]) && IsDigit(s[2]) && IsDigit(s[3]) && Value(s[2]) < 6
    then Some(Value(s[0]) * 60 + Value(s[2]) * 10 + Value(s[3]))
    else None
  }

  /** The text writes the time of `h` hours and `m` minutes, the hour in one digit or two. */
  predicate Writes(s: string, h: int, m: int)
    requires 0 <= h < 24 && 0 <= m < 60
  {
    s == TwoDigits(h) + ":" + TwoDigits(m) || (h < 10 && s == [Digit(h)] + ":" + TwoDigits(m))
  }

  lemma WrittenIsParsed(s: string, h: int, m: int)
    requires 0 <= h < 24 && 0 <= m < 60 && Writes(s, h, m)
    ensures ParseClock(s) == Some(h * 60 + m)
  {
    if |s| == 5 {
      assert s[0] == Digit(h / 10) && s[1] == Digit(h % 10) && s[2] == ':' && s[3] == Digit(m / 10)
          && s[4] == Digit(m % 10);
    } else {
      assert s[0] == Digit(h) && s[1] == ':' && s[2] == Digit(m / 10) && s[3] == Digit(m % 10);
    }
  }

  lemma ParsedIsWritten(s: string) returns (h: int, m: int)
    requires ParseClock(s).Some?
    ensures 0 <= h < 24 && 0 <= m < 60 && Writes(s, h, m) && ParseClock(s) == Some(h * 60 + m)
  {
    if |s| == 5 {
      h, m := Value(s[0]) * 10 + Value(s[1]), Value(s[3]) * 10 + Value(s[4]);
      assert s == [s[0], s[1]] + ":" + [s[3], s[4]];
      assert TwoDigits(h) == [s[0], s[1]] && TwoDigits(m) == [s[3], s[4]];
    } else {
      h, m := Value(s[0]), Value(s[2]) * 10 + Value(s[3]);
      assert s == [s[0]] + ":" + [s[2], s[3]];
      assert TwoDigits(m) == [s[2], s[3]];
    }
  }

  /** A text is read as a clock time exactly when it writes one. */
  lemma ParseClockExactly(s: string, t: int)
    ensures ParseClock(s) == Some(t) <==>
              exists h, m | 0 <= h < 24 && 0 <= m < 60 :: t == h * 60 + m && Writes(s, h, m)
  {
    if ParseClock(s).Some? {
      var h, m := ParsedIsWritten(s);
    }
    if h, m :| 0 <= h < 24 && 0 <= m < 60 && t == h * 60 + m && Writes(s, h, m) {
      WrittenIsParsed(s, h, m);
    }
  }
}
