/**
 * The part of System.DateTime the program uses, at a resolution of whole seconds.  A DateTime
 * is the number of seconds since 0001-01-01T00:00:00 (DateTime.MinValue) in the proleptic
 * Gregorian calendar; the last representable second is 9999-12-31T23:59:59.
 */
module Calendar {
  import opened Wrappers

  const SecondsPerDay := 86400
  /** The number of days from 0001-01-01 up to 10000-01-01. */
  const DaysInRange := 3652059
  const MaxSeconds := DaysInRange * SecondsPerDay - 1

  predicate InRange(t: int)
  {
    0 <= t <= MaxSeconds
  }

  /** A date and time of day, field by field. */
  datatype Civil = Civil(year: int, month: int, day: int, hour: int, minute: int, second: int)

  predicate IsLeapYear(y: int)
  {
    y % 4 == 0 && (y % 100 != 0 || y % 400 == 0)
  }

  function DaysInYear(y: int): int
  {
    if IsLeapYear(y) then 366 else 365
  }

  function DaysInMonth(y: int, m: int): int
    requires 1 <= m <= 12
  {
    if m == 2 then (if IsLeapYear(y) then 29 else 28)
    else if m == 4 || m == 6 || m == 9 || m == 11 then 30
    else 31
  }

  /** The days of year `y` that lie before the first of month `m` (m == 13 gives the whole year). */
  function DaysBeforeMonth(y: int, m: int): int
    requires 1 <= m <= 13
  {
    var common := [0, 31, 59, 90, 120, 151, 181, 212, 243, 273, 304, 334, 365][m - 1];
    if m > 2 && IsLeapYear(y) then common + 1 else common
  }

  /** The days from 0001-01-01 up to the first of January of year `y`. */
  function DaysBeforeYear(y: int): int
    requires y >= 1
  {
    var p := y - 1;
    365 * p + p / 4 - p / 100 + p / 400
  }

  predicate ValidCivil(c: Civil)
  {
    && 1 <= c.year <= 9999
    && 1 <= c.month <= 12
    && 1 <= c.day <= DaysInMonth(c.year, c.month)
    && 0 <= c.hour < 24 && 0 <= c.minute < 60 && 0 <= c.second < 60
  }

  lemma MonthStep(y: int, m: int)
    requires 1 <= m <= 12
    ensures DaysBeforeMonth(y, m + 1) == DaysBeforeMonth(y, m) + DaysInMonth(y, m)
    ensures DaysBeforeMonth(y, 13) == DaysInYear(y)
  {
  }

  lemma NextYear(y: int)
    requires y >= 1
    ensures DaysBeforeYear(y + 1) == DaysBeforeYear(y) + DaysInYear(y)
  {
    var p := y - 1;
    assert y / 4 - p / 4 == (if y % 4 == 0 then 1 else 0);
    assert y / 100 - p / 100 == (if y % 100 == 0 then 1 else 0);
    assert y / 400 - p / 400 == (if y % 400 == 0 then 1 else 0);
  }

  /** Later years start later: every year in between adds at least 365 days. */
  lemma {:induction false} YearsAreOrdered(y1: int, y2: int)
    requires 1 <= y1 <= y2
    ensures DaysBeforeYear(y1) + 365 * (y2 - y1) <= DaysBeforeYear(y2)
    decreases y2 - y1
  {
    if y1 < y2 {
      YearsAreOrdered(y1, y2 - 1);
      NextYear(y2 - 1);
    }
  }

  /** The number of the day `c` falls on, counting 0001-01-01 as day 0. */
  function DayNumber(c: Civil): (n: int)
    requires ValidCivil(c)
    ensures 0 <= n < DaysInRange
  {
    MonthStep(c.year, c.month);
    NextYear(c.year);
    YearsAreOrdered(c.year + 1, 10000);
    assert DaysBeforeMonth(c.year, c.month + 1) <= DaysInYear(c.year) by {
      if c.month < 12 { MonthsAreOrdered(c.year, c.month + 1, 13); }
    }
    DaysBeforeYear(c.year) + DaysBeforeMonth(c.year, c.month) + c.day - 1
  }

  lemma MonthsAreOrdered(y: int, m1: int, m2: int)
    requires 1 <= m1 <= m2 <= 13
    ensures DaysBeforeMonth(y, m1) + 28 * (m2 - m1) <= DaysBeforeMonth(y, m2)
  {
  }

  /** The DateTime of a civil date and time. */
  function ToSeconds(c: Civil): (t: int)
    requires ValidCivil(c)
    ensures InRange(t)
  {
    DayNumber(c) * SecondsPerDay + c.hour * 3600 + c.minute * 60 + c.second
  }

  /** The days before year 400a + 100b + 4c + d + 1, counted cycle by cycle. */
  lemma DaysBeforeYearByCycles(a: int, b: int, c: int, d: int)
    requires a >= 0 && 0 <= b <= 3 && 0 <= c <= 24 && 0 <= d <= 3
    ensures DaysBeforeYear(400 * a + 100 * b + 4 * c + d + 1) == 146097 * a + 36524 * b + 1461 * c + 365 * d
  {
    var p := 400 * a + 100 * b + 4 * c + d;
    assert p / 4 == 100 * a + 25 * b + c;
    assert p / 100 == 4 * a + b;
    assert p / 400 == a;
  }

  /** The fourth year of a four-year cycle is a leap year, unless it closes a century that is not the last of its 400 years. */
  lemma LeapDayOfCycle(q400: int, q100: int, q4: int)
    requires q400 >= 0 && 0 <= q100 <= 3 && 0 <= q4 <= 24 && (q4 == 24 ==> q100 == 3)
    ensures IsLeapYear(400 * q400 + 100 * q100 + 4 * q4 + 4)
  {
    var year := 400 * q400 + 100 * q100 + 4 * q4 + 4;
    assert year / 4 == 100 * q400 + 25 * q100 + q4 + 1;
    assert year % 4 == 0;
    if q4 == 24 {
      assert year / 400 == q400 + 1;
      assert year % 400 == 0;
    } else {
      assert year / 100 == 4 * q400 + q100;
      assert year % 100 == 4 * (q4 + 1);
    }
  }

  /** The year day `n` falls in, and the number of the day within that year (from 0). */
  function YearOfDay(n: int): (r: (int, int))
    requires 0 <= n < DaysInRange
    ensures 1 <= r.0 <= 9999 && 0 <= r.1 < DaysInYear(r.0)
    ensures DaysBeforeYear(r.0) + r.1 == n
  {
    var q400, r400 := n / 146097, n % 146097;
    var q100 := if r400 / 36524 == 4 then 3 else r400 / 36524;
    var r100 := r400 - 36524 * q100;
    var q4, r4 := r100 / 1461, r100 % 1461;
    var q1 := if r4 / 365 == 4 then 3 else r4 / 365;
    var year := 400 * q400 + 100 * q100 + 4 * q4 + q1 + 1;
    var doy := r4 - 365 * q1;
    DaysBeforeYearByCycles(q400, q100, q4, q1);
    assert doy < DaysInYear(year) by {
      if doy >= 365 {
        assert q1 == 3 && r4 == 1460;
        assert q4 == 24 ==> q100 == 3;
        LeapDayOfCycle(q400, q100, q4);
      }
    }
    assert year <= 9999 by {
      if year > 9999 {
        YearsAreOrdered(10000, year);
      }
    }
    (year, doy)
  }

  function FindMonth(y: int, doy: int, m: int): (r: int)
    requires 1 <= m <= 12 && 0 <= doy < DaysBeforeMonth(y, m + 1)
    ensures 1 <= r <= m && DaysBeforeMonth(y, r) <= doy < DaysBeforeMonth(y, r + 1)
    decreases m
  {
    if m == 1 || DaysBeforeMonth(y, m) <= doy then m else FindMonth(y, doy, m - 1)
  }

  /** The civil date and time of a DateTime. */
  function FromSeconds(t: int): (c: Civil)
    requires InRange(t)
    ensures ValidCivil(c) && ToSeconds(c) == t
  {
    var days, sod := t / SecondsPerDay, t % SecondsPerDay;
    var yd := YearOfDay(days);
    var y, doy := yd.0, yd.1;
    MonthStep(y, 12);
    var m := FindMonth(y, doy, 12);
    MonthStep(y, m);
    var c := Civil(y, m, doy - DaysBeforeMonth(y, m) + 1, sod / 3600, sod % 3600 / 60, sod % 60);
    assert ValidCivil(c);
    assert DayNumber(c) == days;
    TimeOfDay(sod);
    c
  }

  lemma TimeOfDay(sod: int)
    requires 0 <= sod < SecondsPerDay
    ensures sod / 3600 < 24 && sod / 3600 * 3600 + sod % 3600 / 60 * 60 + sod % 60 == sod
  {
  }

  /** Within a year, the month and day are determined by the day of the year. */
  lemma MonthDayUnique(y: int, m1: int, d1: int, m2: int, d2: int)
    requires 1 <= m1 <= 12 && 1 <= d1 <= DaysInMonth(y, m1)
    requires 1 <= m2 <= 12 && 1 <= d2 <= DaysInMonth(y, m2)
    requires DaysBeforeMonth(y, m1) + d1 == DaysBeforeMonth(y, m2) + d2
    ensures m1 == m2 && d1 == d2
  {
    MonthStep(y, m1);
    MonthStep(y, m2);
    if m1 < m2 {
      MonthsAreOrdered(y, m1 + 1, m2);
    } else if m2 < m1 {
      MonthsAreOrdered(y, m2 + 1, m1);
    }
  }

  lemma DaySecondUnique(n1: int, s1: int, n2: int, s2: int)
    requires 0 <= s1 < SecondsPerDay && 0 <= s2 < SecondsPerDay
    requires n1 * SecondsPerDay + s1 == n2 * SecondsPerDay + s2
    ensures n1 == n2 && s1 == s2
  {
  }

  lemma ClockUnique(h1: int, m1: int, x1: int, h2: int, m2: int, x2: int)
    requires 0 <= m1 < 60 && 0 <= x1 < 60 && 0 <= m2 < 60 && 0 <= x2 < 60
    requires h1 * 3600 + m1 * 60 + x1 == h2 * 3600 + m2 * 60 + x2
    ensures h1 == h2 && m1 == m2 && x1 == x2
  {
  }

  /** A day number splits into a year and a day within that year in only one way. */
  lemma YearUnique(y1: int, d1: int, y2: int, d2: int)
    requires 1 <= y1 && 0 <= d1 < DaysInYear(y1)
    requires 1 <= y2 && 0 <= d2 < DaysInYear(y2)
    requires DaysBeforeYear(y1) + d1 == DaysBeforeYear(y2) + d2
    ensures y1 == y2
  {
    if y1 < y2 {
      NextYear(y1);
      YearsAreOrdered(y1 + 1, y2);
    } else if y2 < y1 {
      NextYear(y2);
      YearsAreOrdered(y2 + 1, y1);
    }
  }

  /** Different civil dates and times are different DateTimes. */
  lemma ToSecondsInjective(c1: Civil, c2: Civil)
    requires ValidCivil(c1) && ValidCivil(c2)
    requires ToSeconds(c1) == ToSeconds(c2)
    ensures c1 == c2
  {
    DaySecondUnique(DayNumber(c1), c1.hour * 3600 + c1.minute * 60 + c1.second,
                    DayNumber(c2), c2.hour * 3600 + c2.minute * 60 + c2.second);
    ClockUnique(c1.hour, c1.minute, c1.second, c2.hour, c2.minute, c2.second);
    var y1, y2 := c1.year, c2.year;
    MonthStep(y1, c1.month);
    MonthStep(y2, c2.month);
    MonthsAreOrdered(y1, c1.month + 1, 13);
    MonthsAreOrdered(y2, c2.month + 1, 13);
    YearUnique(y1, DaysBeforeMonth(y1, c1.month) + c1.day - 1, y2, DaysBeforeMonth(y2, c2.month) + c2.day - 1);
    MonthDayUnique(y1, c1.month, c1.day, c2.month, c2.day);
  }

  /** Converting a valid civil date and time to a DateTime and back loses nothing. */
  lemma FromToSeconds(c: Civil)
    requires ValidCivil(c)
    ensures FromSeconds(ToSeconds(c)) == c
  {
    ToSecondsInjective(FromSeconds(ToSeconds(c)), c);
  }

  // ----- Text form -----

  predicate IsDigit(ch: char)
  {
    '0' <= ch <= '9'
  }

  predicate AllDigits(s: string)
  {
    forall i :: 0 <= i < |s| ==> IsDigit(s[i])
  }

  function Digit(d: int): (ch: char)
    requires 0 <= d <= 9
    ensures IsDigit(ch) && DigitOf(ch) == d
  {
    ('0' as int + d) as char
  }

  function DigitOf(ch: char): int
  {
    ch as int - '0' as int
  }

  /** The value of a string of decimal digits. */
  function DigitsValue(s: string): (n: nat)
    requires AllDigits(s)
  {
    if s == [] then 0 else 10 * DigitsValue(s[..|s| - 1]) + DigitOf(s[|s| - 1])
  }

  /** `n` written with exactly two digits (format "MM", "dd", "HH", "mm", "ss"). */
  function Pad2(n: int): string
    requires 0 <= n < 100
  {
    [Digit(n / 10), Digit(n % 10)]
  }

  /** `n` written with exactly four digits (format "yyyy"). */
  function Pad4(n: int): string
    requires 0 <= n < 10000
  {
    Pad2(n / 100) + Pad2(n % 100)
  }

  lemma DigitsValue2(s: string)
    requires |s| == 2 && AllDigits(s)
    ensures DigitsValue(s) == 10 * DigitOf(s[0]) + DigitOf(s[1])
  {
    var s1 := s[..1];
    assert s1[..0] == [];
    assert DigitsValue(s1) == 10 * DigitsValue(s1[..0]) + DigitOf(s1[0]);
  }

  lemma DigitsValue4(s: string)
    requires |s| == 4 && AllDigits(s)
    ensures DigitsValue(s) == 100 * DigitsValue(s[..2]) + DigitsValue(s[2..])
  {
    var s3 := s[..3];
    assert s3[..2] == s[..2];
    assert DigitsValue(s3) == 10 * DigitsValue(s[..2]) + DigitOf(s[2]);
    DigitsValue2(s[2..]);
  }

  lemma Pad2Value(n: int)
    requires 0 <= n < 100
    ensures AllDigits(Pad2(n)) && DigitsValue(Pad2(n)) == n
  {
    DigitsValue2(Pad2(n));
  }

  lemma Pad4Value(n: int)
    requires 0 <= n < 10000
    ensures AllDigits(Pad4(n)) && DigitsValue(Pad4(n)) == n
  {
    var s := Pad4(n);
    Pad2Value(n / 100);
    Pad2Value(n % 100);
    assert s[..2] == Pad2(n / 100) && s[2..] == Pad2(n % 100);
    DigitsValue4(s);
  }

  lemma PadDigits2(s: string)
    requires |s| == 2 && AllDigits(s)
    ensures DigitsValue(s) < 100 && Pad2(DigitsValue(s)) == s
  {
    DigitsValue2(s);
  }

  lemma PadDigits4(s: string)
    requires |s| == 4 && AllDigits(s)
    ensures DigitsValue(s) < 10000 && Pad4(DigitsValue(s)) == s
  {
    DigitsValue4(s);
    PadDigits2(s[..2]);
    PadDigits2(s[2..]);
    var n, hi, lo := DigitsValue(s), DigitsValue(s[..2]), DigitsValue(s[2..]);
    assert n / 100 == hi && n % 100 == lo;
    assert s == s[..2] + s[2..];
  }

  /** Format "yyyy-MM-dd": the year, month and day of `t` in decimal, separated by '-'. */
  function FormatDate(t: int): (r: string)
    requires InRange(t)
    ensures |r| == 10 && r[4] == '-' && r[7] == '-'
    ensures AllDigits(r[0..4]) && AllDigits(r[5..7]) && AllDigits(r[8..10])
    ensures var c := FromSeconds(t);
            DigitsValue(r[0..4]) == c.year && DigitsValue(r[5..7]) == c.month && DigitsValue(r[8..10]) == c.day
  {
    var c := FromSeconds(t);
    Pad4Value(c.year);
    Pad2Value(c.month);
    Pad2Value(c.day);
    var r := Pad4(c.year) + "-" + Pad2(c.month) + "-" + Pad2(c.day);
    assert r[0..4] == Pad4(c.year) && r[5..7] == Pad2(c.month) && r[8..10] == Pad2(c.day);
    r
  }

  /** Format "HH:mm:ss": the hour, minute and second of `t` in decimal, separated by ':'. */
  function FormatTime(t: int): (r: string)
    requires InRange(t)
    ensures |r| == 8 && r[2] == ':' && r[5] == ':'
    ensures AllDigits(r[0..2]) && AllDigits(r[3..5]) && AllDigits(r[6..8])
    ensures var c := FromSeconds(t);
            DigitsValue(r[0..2]) == c.hour && DigitsValue(r[3..5]) == c.minute && DigitsValue(r[6..8]) == c.second
  {
    var c := FromSeconds(t);
    Pad2Value(c.hour);
    Pad2Value(c.minute);
    Pad2Value(c.second);
    var r := Pad2(c.hour) + ":" + Pad2(c.minute) + ":" + Pad2(c.second);
    assert r[0..2] == Pad2(c.hour) && r[3..5] == Pad2(c.minute) && r[6..8] == Pad2(c.second);
    r
  }

  /** Format "yyyy-MM-ddTHH:mm:ss", the one shape `Parse` accepts: it holds exactly the fields of `t`. */
  function FormatIso(t: int): (r: string)
    requires InRange(t)
    ensures HasTimestampShape(r) && Fields(r) == FromSeconds(t)
  {
    var date, time := FormatDate(t), FormatTime(t);
    var r := date + "T" + time;
    assert r[0..4] == date[0..4] && r[5..7] == date[5..7] && r[8..10] == date[8..10];
    assert r[11..13] == time[0..2] && r[14..16] == time[3..5] && r[17..19] == time[6..8];
    r
  }

  /** Text of the shape yyyy-MM-ddTHH:mm:ss, digits where the fields are. */
  predicate HasTimestampShape(s: string)
  {
    && |s| == 19
    && s[4] == '-' && s[7] == '-' && s[10] == 'T' && s[13] == ':' && s[16] == ':'
    && AllDigits(s[0..4]) && AllDigits(s[5..7]) && AllDigits(s[8..10])
    && AllDigits(s[11..13]) && AllDigits(s[14..16]) && AllDigits(s[17..19])
  }

  /** The fields written in a text of timestamp shape. */
  function Fields(s: string): Civil
    requires HasTimestampShape(s)
  {
    Civil(DigitsValue(s[0..4]), DigitsValue(s[5..7]), DigitsValue(s[8..10]),
          DigitsValue(s[11..13]), DigitsValue(s[14..16]), DigitsValue(s[17..19]))
  }

  /**
   * `DateTime.Parse` restricted to the exact shape yyyy-MM-ddTHH:mm:ss: the DateTime written, or
   * None where .NET would throw a FormatException (wrong shape, or no such date or time).
   */
  function Parse(s: string): (r: Option<int>)
    ensures r.Some? ==> InRange(r.value)
  {
    if HasTimestampShape(s) && ValidCivil(Fields(s)) then Some(ToSeconds(Fields(s))) else None
  }

  /** Every DateTime, formatted, parses back to itself. */
  lemma ParseFormat(t: int)
    requires InRange(t)
    ensures Parse(FormatIso(t)) == Some(t)
  {
    assert Fields(FormatIso(t)) == FromSeconds(t);
  }

  /** Only the canonical text parses: whatever parses is the formatting of its DateTime. */
  lemma FormatParse(s: string)
    requires Parse(s).Some?
    ensures FormatIso(Parse(s).value) == s
  {
    var c := Fields(s);
    var t := ToSeconds(c);
    assert Parse(s).value == t;
    FromToSeconds(c);
    DateFieldsWritten(s, t);
    TimeFieldsWritten(s, t);
    assert s == s[0..10] + "T" + s[11..19];
  }

  /** The date of the instant whose fields a text of timestamp shape holds is that text's first ten characters. */
  lemma DateFieldsWritten(s: string, t: int)
    requires HasTimestampShape(s) && InRange(t) && FromSeconds(t) == Fields(s)
    ensures FormatDate(t) == s[0..10]
  {
    PadDigits4(s[0..4]);
    PadDigits2(s[5..7]);
    PadDigits2(s[8..10]);
    assert s[0..10] == s[0..4] + "-" + s[5..7] + "-" + s[8..10];
  }

  /** Likewise the time of day is the text's last eight characters. */
  lemma TimeFieldsWritten(s: string, t: int)
    requires HasTimestampShape(s) && InRange(t) && FromSeconds(t) == Fields(s)
    ensures FormatTime(t) == s[11..19]
  {
    PadDigits2(s[11..13]);
    PadDigits2(s[14..16]);
    PadDigits2(s[17..19]);
    assert s[11..19] == s[11..13] + ":" + s[14..16] + ":" + s[17..19];
  }

  /** A text of timestamp shape has its one 'T' at index 10. */
  lemma OnlyTAtTen(s: string)
    requires HasTimestampShape(s)
    ensures forall i :: 0 <= i < |s| && s[i] == 'T' ==> i == 10
  {
    forall i | 0 <= i < |s| && i != 10
      ensures s[i] != 'T'
    {
      if i < 4 { assert s[0..4][i] == s[i]; }
      else if 4 < i < 7 { assert s[5..7][i - 5] == s[i]; }
      else if 7 < i < 10 { assert s[8..10][i - 8] == s[i]; }
      else if 10 < i < 13 { assert s[11..13][i - 11] == s[i]; }
      else if 13 < i < 16 { assert s[14..16][i - 14] == s[i]; }
      else if 16 < i { assert s[17..19][i - 17] == s[i]; }
    }
  }

  /**
   * A date and a time joined by 'T' that parse together are exactly the "yyyy-MM-dd" and the
   * "HH:mm:ss" renderings of the instant they parse to.
   */
  lemma ParsedParts(date: string, time: string)
    requires Parse(date + "T" + time).Some?
    ensures var t := Parse(date + "T" + time).value;
            FormatDate(t) == date && FormatTime(t) == time
  {
    var s := date + "T" + time;
    var t := Parse(s).value;
    OnlyTAtTen(s);
    assert s[|date|] == 'T';
    assert |date| == 10;
    assert FromSeconds(t) == Fields(s) by { FromToSeconds(Fields(s)); }
    DateFieldsWritten(s, t);
    TimeFieldsWritten(s, t);
    assert s[0..10] == date && s[11..19] == time;
  }

  /** `DateTime.AddSeconds`-style arithmetic: ArgumentOutOfRangeException outside the representable range. */
  function AddSeconds(t: int, delta: int): (r: Result<int>)
    ensures r.Ok? <==> InRange(t + delta)
    ensures r.Ok? ==> r.value == t + delta
  {
    if InRange(t + delta) then Ok(t + delta) else Err(OutOfRange("DateTime"))
  }
}
