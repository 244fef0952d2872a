// The Gregorian calendar as the rule texts write it: YYYYMMDD strings whose order is the order of days.
module CivilDates {
  import opened Prelude
  import opened Text

  datatype Date = Date(year: int, month: int, day: int)

  predicate Leap(year: int) {
    year % 4 == 0 && (year % 100 != 0 || year % 400 == 0)
  }

  function DaysIn(year: int, month: int): int {
    if month == 2 then (if Leap(year) then 29 else 28)
    else if month in {4, 6, 9, 11} then 30
    else 31
  }

  /** A date of a four-digit year. */
  predicate Valid(date: Date) {
    0 <= date.year <= 9999 && 1 <= date.month <= 12 && 1 <= date.day <= DaysIn(date.year, date.month)
  }

  function DaysBeforeMonth(year: int, month: int): int
    decreases month
  {
    if month <= 1 then 0 else DaysBeforeMonth(year, month - 1) + DaysIn(year, month - 1)
  }

  function DaysBeforeYear(year: int): int {
    365 * (year - 1) + (year - 1) / 4 - (year - 1) / 100 + (year - 1) / 400
  }

  /** Days since Thursday 1 January 1970. */
  function DayNumber(date: Date): int {
    DaysBeforeYear(date.year) + DaysBeforeMonth(date.year, date.month) + date.day - 1 - 719162
  }

  /** The day before, as time.Time's AddDate(0, 0, -1). */
  function Previous(date: Date): Date {
    if date.day > 1 then date.(day := date.day - 1)
    else if date.month > 1 then Date(date.year, date.month - 1, DaysIn(date.year, date.month - 1))
    else Date(date.year - 1, 12, 31)
  }

  predicate Before(a: Date, b: Date) {
    || a.year < b.year
    || (a.year == b.year && (a.month < b.month || (a.month == b.month && a.day < b.day)))
  }

  lemma YearLength(year: int)
    ensures DaysBeforeMonth(year, 13) == if Leap(year) then 366 else 365
  {
    assert DaysBeforeMonth(year, 4) == DaysIn(year, 2) + 62;
    assert DaysBeforeMonth(year, 7) == DaysIn(year, 2) + 153;
    assert DaysBeforeMonth(year, 10) == DaysIn(year, 2) + 245;
    assert DaysBeforeMonth(year, 13) == DaysIn(year, 2) + 337;
  }

  lemma NextYear(year: int)
    ensures DaysBeforeYear(year + 1) == DaysBeforeYear(year) + DaysBeforeMonth(year, 13)
  {
    YearLength(year);
    QuotientStep(year, 4);
    QuotientStep(year, 100);
    QuotientStep(year, 400);
    assert year % 400 == 0 ==> year % 100 == 0;
    assert year % 100 == 0 ==> year % 4 == 0;
  }

  lemma QuotientStep(n: int, k: int)
    requires k in {4, 100, 400}
    ensures n / k - (n - 1) / k == if n % k == 0 then 1 else 0
  {
  }

  lemma MonthsGrow(year: int, a: int, b: int)
    requires 1 <= a < b
    ensures DaysBeforeMonth(year, a) + DaysIn(year, a) <= DaysBeforeMonth(year, b)
    decreases b
  {
    if a < b - 1 {
      MonthsGrow(year, a, b - 1);
    }
  }

  lemma YearsGrow(a: int, b: int)
    requires a <= b
    ensures DaysBeforeYear(a) <= DaysBeforeYear(b)
    decreases b - a
  {
    if a < b {
      YearsGrow(a, b - 1);
      NextYear(b - 1);
      YearLength(b - 1);
    }
  }

  lemma BeforeIsEarlier(a: Date, b: Date)
    requires Valid(a) && Valid(b) && Before(a, b)
    ensures DayNumber(a) < DayNumber(b)
  {
    if a.year < b.year {
      NextYear(a.year);
      MonthsGrow(a.year, a.month, 13);
      YearsGrow(a.year + 1, b.year);
      if 1 < b.month {
        MonthsGrow(b.year, 1, b.month);
      }
    } else if a.month < b.month {
      MonthsGrow(a.year, a.month, b.month);
    }
  }

  lemma PreviousIsOneLess(date: Date)
    requires Valid(date)
    ensures DayNumber(Previous(date)) == DayNumber(date) - 1
    ensures date != Date(0, 1, 1) ==> Valid(Previous(date))
  {
    if date.day == 1 && date.month == 1 {
      NextYear(date.year - 1);
    }
  }

  // ----- YYYYMMDD

  function Digit(n: int): char
    requires 0 <= n <= 9
  {
    '0' + n as char
  }

  function TwoDigits(n: int): (s: string)
    requires 0 <= n <= 99
    ensures |s| == 2
  {
    [Digit(n / 10), Digit(n % 10)]
  }

  function FourDigits(n: int): (s: string)
    requires 0 <= n <= 9999
    ensures |s| == 4
  {
    TwoDigits(n / 100) + TwoDigits(n % 100)
  }

  /** Format("20060102"). */
  function Compact(date: Date): (s: string)
    requires Valid(date)
    ensures |s| == 8
  {
    FourDigits(date.year) + TwoDigits(date.month) + TwoDigits(date.day)
  }

  lemma OneDigitOrder(a: int, b: int)
    requires 0 <= a <= 9 && 0 <= b <= 9
    ensures Less([Digit(a)], [Digit(b)]) <==> a < b
    ensures Digit(a) == Digit(b) <==> a == b
  {
  }

  lemma TwoDigitsOrder(a: int, b: int)
    requires 0 <= a <= 99 && 0 <= b <= 99
    ensures Less(TwoDigits(a), TwoDigits(b)) <==> a < b
    ensures TwoDigits(a) == TwoDigits(b) <==> a == b
  {
    OneDigitOrder(a / 10, b / 10);
    OneDigitOrder(a % 10, b % 10);
    LessConcat([Digit(a / 10)], [Digit(a % 10)], [Digit(b / 10)], [Digit(b % 10)]);
    assert TwoDigits(a)[0] == Digit(a / 10) && TwoDigits(b)[0] == Digit(b / 10);
    assert TwoDigits(a)[1] == Digit(a % 10) && TwoDigits(b)[1] == Digit(b % 10);
  }

  lemma FourDigitsOrder(a: int, b: int)
    requires 0 <= a <= 9999 && 0 <= b <= 9999
    ensures Less(FourDigits(a), FourDigits(b)) <==> a < b
    ensures FourDigits(a) == FourDigits(b) <==> a == b
  {
    LessConcat(TwoDigits(a / 100), TwoDigits(a % 100), TwoDigits(b / 100), TwoDigits(b % 100));
    TwoDigitsOrder(a / 100, b / 100);
    TwoDigitsOrder(a % 100, b % 100);
    assert FourDigits(a)[..2] == TwoDigits(a / 100) && FourDigits(a)[2..] == TwoDigits(a % 100);
    assert FourDigits(b)[..2] == TwoDigits(b / 100) && FourDigits(b)[2..] == TwoDigits(b % 100);
  }

  /** The order of 8-digit date strings is the order of the days they name. */
  lemma CompactOrder(a: Date, b: Date)
    requires Valid(a) && Valid(b)
    ensures Less(Compact(a), Compact(b)) <==> DayNumber(a) < DayNumber(b)
  {
    var (ya, ma, da) := (FourDigits(a.year), TwoDigits(a.month), TwoDigits(a.day));
    var (yb, mb, db) := (FourDigits(b.year), TwoDigits(b.month), TwoDigits(b.day));
    LessConcat(ya + ma, da, yb + mb, db);
    LessConcat(ya, ma, yb, mb);
    FourDigitsOrder(a.year, b.year);
    TwoDigitsOrder(a.month, b.month);
    TwoDigitsOrder(a.day, b.day);
    assert (ya + ma)[..4] == ya && (ya + ma)[4..] == ma && (yb + mb)[..4] == yb && (yb + mb)[4..] == mb;
    if Before(a, b) {
      BeforeIsEarlier(a, b);
    } else if Before(b, a) {
      BeforeIsEarlier(b, a);
    }
  }

  lemma CompactIsDigits(date: Date)
    requires Valid(date)
    ensures forall i | 0 <= i < 8 :: IsDigit(Compact(date)[i])
  {
    assert forall n | 0 <= n <= 9 :: IsDigit(Digit(n));
    assert forall n | 0 <= n <= 99 :: forall i | 0 <= i < 2 :: IsDigit(TwoDigits(n)[i]);
  }

  function Numeral(s: string): int {
    if s == "" then 0 else Numeral(s[..|s| - 1]) * 10 + (s[|s| - 1] as int - '0' as int)
  }

  /** time.Parse("2006-01-02", s). */
  function ParseIso(s: string): (date: Option<Date>)
    ensures date.Some? ==> 0 <= date.value.year <= 9999 && 1 <= date.value.month <= 12
                           && 1 <= date.value.day <= DaysIn(date.value.year, date.value.month)
  {
    if |s| != 10 || s[4] != '-' || s[7] != '-' then None
    else if exists i | 0 <= i < 10 :: i != 4 && i != 7 && !IsDigit(s[i]) then None
    else
      var date := Date(Numeral(s[..4]), Numeral(s[5..7]), Numeral(s[8..]));
      NumeralBound(s[..4]);
      if 1 <= date.month <= 12 && 1 <= date.day <= DaysIn(date.year, date.month) then Some(date) else None
  }

  lemma NumeralBound(s: string)
    requires |s| == 4 && forall i | 0 <= i < 4 :: IsDigit(s[i])
    ensures 0 <= Numeral(s) <= 9999
  {
    assert s[..3][..2] == s[..2] && s[..2][..1] == s[..1] && s[..1][..0] == "";
    assert 0 <= Numeral(s[..1]) <= 9;
    assert 0 <= Numeral(s[..2]) <= 99;
    assert 0 <= Numeral(s[..3]) <= 999;
  }

  // ----- what ParseIso reads

  /** Format("2006-01-02"). */
  function Iso(date: Date): (s: string)
    requires Valid(date)
    ensures |s| == 10
  {
    FourDigits(date.year) + "-" + TwoDigits(date.month) + "-" + TwoDigits(date.day)
  }

  predicate AreDigits(s: string) {
    forall i | 0 <= i < |s| :: IsDigit(s[i])
  }

  lemma TwoNumeral(s: string)
    requires |s| == 2 && AreDigits(s)
    ensures 0 <= Numeral(s) <= 99 && TwoDigits(Numeral(s)) == s
  {
    assert s[..1][..0] == "" && s[..1][0] == s[0];
    assert Numeral(s[..1]) == s[0] as int - '0' as int;
    assert Numeral(s) == (s[0] as int - '0' as int) * 10 + (s[1] as int - '0' as int);
  }

  lemma NumeralTwo(n: int)
    requires 0 <= n <= 99
    ensures AreDigits(TwoDigits(n)) && Numeral(TwoDigits(n)) == n
  {
    TwoNumeral(TwoDigits(n));
    TwoDigitsOrder(Numeral(TwoDigits(n)), n);
  }

  lemma FourNumeral(s: string)
    requires |s| == 4 && AreDigits(s)
    ensures 0 <= Numeral(s) <= 9999 && FourDigits(Numeral(s)) == s
  {
    var (a, b) := (s[..2], s[2..]);
    TwoNumeral(a);
    TwoNumeral(b);
    NumeralOfHalves(s);
    Hundreds(Numeral(a), Numeral(b));
    assert s == a + b;
  }

  lemma Hundreds(a: int, b: int)
    requires 0 <= a <= 99 && 0 <= b <= 99
    ensures 0 <= a * 100 + b <= 9999 && (a * 100 + b) / 100 == a && (a * 100 + b) % 100 == b
  {
  }

  lemma NumeralOfHalves(s: string)
    requires |s| == 4
    ensures Numeral(s) == Numeral(s[..2]) * 100 + Numeral(s[2..])
  {
    var b := s[2..];
    assert s[..3][..2] == s[..2];
    assert b[..1][..0] == "";
    assert Numeral(b[..1]) == s[2] as int - '0' as int;
    assert Numeral(b) == Numeral(b[..1]) * 10 + (s[3] as int - '0' as int);
    assert Numeral(s[..3]) == Numeral(s[..2]) * 10 + (s[2] as int - '0' as int);
  }

  lemma NumeralFour(n: int)
    requires 0 <= n <= 9999
    ensures AreDigits(FourDigits(n)) && Numeral(FourDigits(n)) == n
  {
    NumeralTwo(n / 100);
    NumeralTwo(n % 100);
    FourNumeral(FourDigits(n));
    FourDigitsOrder(Numeral(FourDigits(n)), n);
  }

  /** A text is read as a date exactly when it is that date, written out. */
  lemma ParseIsoExactly(s: string, date: Date)
    ensures ParseIso(s) == Some(date) <==> Valid(date) && s == Iso(date)
  {
    if Valid(date) && s == Iso(date) {
      NumeralFour(date.year);
      NumeralTwo(date.month);
      NumeralTwo(date.day);
      assert s[..4] == FourDigits(date.year) && s[5..7] == TwoDigits(date.month) && s[8..] == TwoDigits(date.day);
      assert forall i | 0 <= i < 10 && i != 4 && i != 7 ::
          s[i] == if i < 4 then s[..4][i] else if i < 7 then s[5..7][i - 5] else s[8..][i - 8];
    }
    if ParseIso(s) == Some(date) {
      assert AreDigits(s[..4]) && AreDigits(s[5..7]) && AreDigits(s[8..]);
      FourNumeral(s[..4]);
      TwoNumeral(s[5..7]);
      TwoNumeral(s[8..]);
      assert s == s[..4] + "-" + s[5..7] + "-" + s[8..];
    }
  }
}
