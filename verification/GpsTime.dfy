/** GPS time stamps: the field-wise order and difference, and the calendar that says how many
    seconds really separate two of them.  Years count from 2000, earlier ones are negative; seconds
    have a real fraction. */
module GpsTime {

  datatype GPSTime = GPSTime(year: int, month: int, day: int, hour: int, min: int, sec: int, frac: real)

  /** operator<: field by field. */
  predicate Less(a: GPSTime, b: GPSTime) {
    || a.year < b.year
    || (a.year == b.year && a.month < b.month)
    || (a.year == b.year && a.month == b.month && a.day < b.day)
    || (a.year == b.year && a.month == b.month && a.day == b.day && a.hour < b.hour)
    || (a.year == b.year && a.month == b.month && a.day == b.day && a.hour == b.hour && a.min < b.min)
    || (a.year == b.year && a.month == b.month && a.day == b.day && a.hour == b.hour && a.min == b.min
        && a.sec < b.sec)
    || (a.year == b.year && a.month == b.month && a.day == b.day && a.hour == b.hour && a.min == b.min
        && a.sec == b.sec && a.frac < b.frac)
  }

  /** operator-: a number built from the field differences, each field worth a hundred of the next. */
  function Minus(a: GPSTime, b: GPSTime): real {
    if a.year == b.year && a.month == b.month && a.day == b.day && a.hour == b.hour && a.min == b.min
       && a.sec == b.sec
    then a.frac - b.frac
    else (a.year - b.year) as real * 1.0e10 + (a.month - b.month) as real * 1.0e8
         + (a.day - b.day) as real * 1.0e6 + (a.hour - b.hour) as real * 1.0e4
         + (a.min - b.min) as real * 1.0e2 + (a.sec - b.sec) as real + a.frac - b.frac
  }

  /** The difference is that of two decimal numerals, year to seconds with two digits a field, and of
      the fractions. */
  lemma MinusExact(a: GPSTime, b: GPSTime)
    ensures Minus(a, b) ==
      (a.sec + 100 * (a.min + 100 * (a.hour + 100 * (a.day + 100 * (a.month + 100 * a.year))))
       - (b.sec + 100 * (b.min + 100 * (b.hour + 100 * (b.day + 100 * (b.month + 100 * b.year)))))) as real
      + (a.frac - b.frac)
  {
    assert (a.year - b.year) as real * 1.0e10 == ((a.year - b.year) * 10000000000) as real;
    assert (a.month - b.month) as real * 1.0e8 == ((a.month - b.month) * 100000000) as real;
    assert (a.day - b.day) as real * 1.0e6 == ((a.day - b.day) * 1000000) as real;
    assert (a.hour - b.hour) as real * 1.0e4 == ((a.hour - b.hour) * 10000) as real;
    assert (a.min - b.min) as real * 1.0e2 == ((a.min - b.min) * 100) as real;
  }

  // ---- The calendar ----

  predicate Leap(year: int) {
    var y := 2000 + year;
    (y % 4 == 0 && y % 100 != 0) || y % 400 == 0
  }

  function YearDays(year: int): (d: nat)
    ensures 365 <= d <= 366
  {
    if Leap(year) then 366 else 365
  }

  function MonthDays(year: int, month: int): (d: nat)
    ensures 28 <= d <= 31
  {
    if month == 2 then (if Leap(year) then 29 else 28)
    else if month == 4 || month == 6 || month == 9 || month == 11 then 30
    else 31
  }

  /** Days from the start of 2000 to the start of a year. */
  function DaysToYear(year: int): int
    decreases if year < 0 then -year else year
  {
    if year == 0 then 0
    else if year > 0 then DaysToYear(year - 1) + YearDays(year - 1)
    else DaysToYear(year + 1) - YearDays(year)
  }

  /** Days from the start of a year to the start of one of its months. */
  function DaysToMonth(year: int, month: int): nat
    requires 1 <= month <= 13
    decreases month
  {
    if month == 1 then 0 else DaysToMonth(year, month - 1) + MonthDays(year, month - 1)
  }

  predicate Valid(t: GPSTime) {
    && 1 <= t.month <= 12 && 1 <= t.day <= MonthDays(t.year, t.month)
    && 0 <= t.hour < 24 && 0 <= t.min < 60 && 0 <= t.sec < 60 && 0.0 <= t.frac < 1.0
  }

  function Days(t: GPSTime): int
    requires 1 <= t.month <= 12
  {
    DaysToYear(t.year) + DaysToMonth(t.year, t.month) + t.day - 1
  }

  /** Whole seconds since the start of 2000: mktime, in a zone without daylight saving, up to a
      constant. */
  function Epoch(t: GPSTime): int
    requires 1 <= t.month <= 12
  {
    86400 * Days(t) + 3600 * t.hour + 60 * t.min + t.sec
  }

  /** The instant a time stamp stands for, in seconds. */
  function Instant(t: GPSTime): real
    requires 1 <= t.month <= 12
  {
    Epoch(t) as real + t.frac
  }

  lemma YearLength(year: int)
    ensures DaysToMonth(year, 13) == YearDays(year)
  {
    assert DaysToMonth(year, 3) == 31 + MonthDays(year, 2);
    assert DaysToMonth(year, 6) == DaysToMonth(year, 3) + 92;
    assert DaysToMonth(year, 9) == DaysToMonth(year, 6) + 92;
    assert DaysToMonth(year, 12) == DaysToMonth(year, 9) + 91;
  }

  lemma {:induction false} MonthGap(year: int, m: int, n: int)
    requires 1 <= m < n <= 13
    ensures DaysToMonth(year, m) + MonthDays(year, m) <= DaysToMonth(year, n) <= DaysToMonth(year, m) + 31 * (n - m)
    decreases n
  {
    if m < n - 1 { MonthGap(year, m, n - 1); }
  }

  lemma {:induction false} YearGap(y: int, z: int)
    requires y < z
    ensures DaysToYear(y) + YearDays(y) <= DaysToYear(z) <= DaysToYear(y) + 366 * (z - y)
    decreases z - y
  {
    NextYear(z - 1);
    if y < z - 1 { YearGap(y, z - 1); }
  }

  lemma NextYear(y: int)
    ensures DaysToYear(y + 1) == DaysToYear(y) + YearDays(y)
  {
  }

  /** The days before a year by the Gregorian rule for leap years: one in four, but of the hundredth
      years only every fourth. */
  function GregorianDays(y: int): int {
    365 * y + (y + 3) / 4 - (y + 99) / 100 + (y + 399) / 400
  }

  lemma {:induction false} YearFormula(year: int)
    ensures DaysToYear(year) == GregorianDays(2000 + year) - 730485
    decreases if year < 0 then -year else year
  {
    hide YearDays, GregorianDays;
    if year > 0 {
      YearFormula(year - 1);
      NextYearDays(year - 1);
    } else if year < 0 {
      YearFormula(year + 1);
      NextYearDays(year);
    } else {
      assert GregorianDays(2000) == 730485 by { DaysBefore2000(); }
    }
  }

  lemma DaysBefore2000()
    ensures GregorianDays(2000) == 730485
  {
  }

  lemma NextYearDays(year: int)
    ensures GregorianDays(2000 + year + 1) == GregorianDays(2000 + year) + YearDays(year)
  {
    var y := 2000 + year;
    EveryFourth(y);
    EveryHundredth(y);
    EveryFourHundredth(y);
    HundredthIsFourth(y);
    FourHundredthIsHundredth(y);
  }

  lemma EveryFourth(y: int)
    ensures (y + 4) / 4 - (y + 3) / 4 == if y % 4 == 0 then 1 else 0
  {
  }

  lemma EveryHundredth(y: int)
    ensures (y + 100) / 100 - (y + 99) / 100 == if y % 100 == 0 then 1 else 0
  {
  }

  lemma EveryFourHundredth(y: int)
    ensures (y + 400) / 400 - (y + 399) / 400 == if y % 400 == 0 then 1 else 0
  {
  }

  lemma HundredthIsFourth(y: int)
    ensures y % 100 == 0 ==> y % 4 == 0
  {
  }

  lemma FourHundredthIsHundredth(y: int)
    ensures y % 400 == 0 ==> y % 100 == 0
  {
  }

  lemma MonthFormula(year: int, month: int)
    requires 1 <= month <= 12
    ensures DaysToMonth(year, month) == [0, 31, 59, 90, 120, 151, 181, 212, 243, 273, 304, 334][month - 1]
                                        + if month > 2 then YearDays(year) - 365 else 0
  {
    hide DaysToMonth, YearDays;
    MonthStarts(year);
  }

  lemma MonthLength(year: int, month: int)
    requires 1 <= month <= 12
    ensures MonthDays(year, month) == [31, YearDays(year) - 337, 31, 30, 31, 30, 31, 31, 30, 31, 30, 31][month - 1]
  {
  }

  lemma MonthStarts(year: int)
    ensures var l := YearDays(year) - 365;
      && DaysToMonth(year, 1) == 0 && DaysToMonth(year, 2) == 31 && DaysToMonth(year, 3) == 59 + l
      && DaysToMonth(year, 4) == 90 + l && DaysToMonth(year, 5) == 120 + l && DaysToMonth(year, 6) == 151 + l
      && DaysToMonth(year, 7) == 181 + l && DaysToMonth(year, 8) == 212 + l && DaysToMonth(year, 9) == 243 + l
      && DaysToMonth(year, 10) == 273 + l && DaysToMonth(year, 11) == 304 + l && DaysToMonth(year, 12) == 334 + l
  {
    assert DaysToMonth(year, 3) == 31 + MonthDays(year, 2);
    assert DaysToMonth(year, 5) == DaysToMonth(year, 3) + 61;
    assert DaysToMonth(year, 7) == DaysToMonth(year, 5) + 61;
    assert DaysToMonth(year, 9) == DaysToMonth(year, 7) + 62;
    assert DaysToMonth(year, 11) == DaysToMonth(year, 9) + 61;
    assert DaysToMonth(year, 12) == DaysToMonth(year, 11) + 30;
  }

  /** Which time stamps there are, and the instant of each in seconds since the start of 2000. */
  lemma CalendarExact(t: GPSTime)
    requires 1 <= t.month <= 12
    ensures var y := 2000 + t.year;
      var leap := if (y % 4 == 0 && y % 100 != 0) || y % 400 == 0 then 1 else 0;
      && (Valid(t) <==>
            (1 <= t.day <= [31, 28 + leap, 31, 30, 31, 30, 31, 31, 30, 31, 30, 31][t.month - 1]
             && 0 <= t.hour <= 23 && 0 <= t.min <= 59 && 0 <= t.sec <= 59 && 0.0 <= t.frac < 1.0))
      && Instant(t) == t.frac
           + (t.sec + 60 * (t.min + 60 * (t.hour + 24 * (t.day - 1
              + [0, 31, 59, 90, 120, 151, 181, 212, 243, 273, 304, 334][t.month - 1] + (if t.month > 2 then leap else 0)
              + 365 * y + (y + 3) / 4 - (y + 99) / 100 + (y + 399) / 400 - 730485)))) as real
  {
    hide DaysToYear, DaysToMonth;
    YearFormula(t.year);
    MonthFormula(t.year, t.month);
    MonthLength(t.year, t.month);
  }

  /** The date part of the code's difference. */
  function DateValue(t: GPSTime): int {
    10000 * t.year + 100 * t.month + t.day
  }

  predicate DateBefore(a: GPSTime, b: GPSTime) {
    a.year < b.year || (a.year == b.year && (a.month < b.month || (a.month == b.month && a.day < b.day)))
  }

  /** Between an earlier and a later date the code counts at least as many days as the calendar, and
      the calendar at least one. */
  lemma DateGap(a: GPSTime, b: GPSTime)
    requires Valid(a) && Valid(b) && DateBefore(a, b)
    ensures 1 <= Days(b) - Days(a) <= DateValue(b) - DateValue(a)
  {
    if a.year < b.year {
      YearGap(a.year, b.year);
      YearLength(a.year);
      MonthGap(a.year, a.month, 13);
      if b.month > 1 { MonthGap(b.year, 1, b.month); }
      DayBound(a);
      assert DaysToMonth(b.year, b.month) <= 31 * (b.month - 1);
    } else if a.month < b.month {
      MonthGap(a.year, a.month, b.month);
    }
  }

  lemma DayBound(a: GPSTime)
    requires Valid(a)
    ensures DaysToMonth(a.year, a.month) >= 28 * (a.month - 1)
  {
    MonthsAtLeast(a.year, a.month);
  }

  lemma {:induction false} MonthsAtLeast(year: int, m: int)
    requires 1 <= m <= 13
    ensures DaysToMonth(year, m) >= 28 * (m - 1)
    decreases m
  {
    if m > 1 { MonthsAtLeast(year, m - 1); }
  }

  predicate SameMinute(a: GPSTime, b: GPSTime) {
    a.year == b.year && a.month == b.month && a.day == b.day && a.hour == b.hour && a.min == b.min
  }

  /** How much the code's difference exceeds the elapsed time. */
  function Excess(later: GPSTime, earlier: GPSTime): real
    requires Valid(later) && Valid(earlier)
  {
    Minus(later, earlier) - (Instant(later) - Instant(earlier))
  }

  lemma ExcessFormula(b: GPSTime, a: GPSTime)
    requires Valid(a) && Valid(b)
    ensures Excess(b, a) == (1000000 * (DateValue(b) - DateValue(a)) - 86400 * (Days(b) - Days(a))
                             + 6400 * (b.hour - a.hour) + 40 * (b.min - a.min)) as real
  {
    assert (b.year - a.year) as real * 1.0e10 + (b.month - a.month) as real * 1.0e8 + (b.day - a.day) as real * 1.0e6
        == (1000000 * (DateValue(b) - DateValue(a))) as real;
  }

  /** The difference never understates the seconds between an earlier and a later time stamp, and is
      exact only within one minute. */
  lemma NeverUnderstates(b: GPSTime, a: GPSTime)
    requires Valid(a) && Valid(b) && Less(a, b)
    ensures Excess(b, a) >= 0.0
    ensures Excess(b, a) == 0.0 <==> SameMinute(a, b)
    ensures !SameMinute(a, b) ==> Excess(b, a) >= 40.0
    ensures Instant(a) < Instant(b)
  {
    ExcessFormula(b, a);
    if DateBefore(a, b) {
      DateGap(a, b);
    } else {
      assert Days(a) == Days(b) && DateValue(a) == DateValue(b);
    }
  }

  lemma LessTotal(a: GPSTime, b: GPSTime)
    ensures Less(a, b) || Less(b, a) || a == b
    ensures !(Less(a, b) && Less(b, a)) && !Less(a, a)
  {
  }

  lemma LessTransitive(a: GPSTime, b: GPSTime, c: GPSTime)
    requires Less(a, b) || a == b
    requires Less(b, c) || b == c
    ensures Less(a, c) || a == c
    ensures Less(a, b) || Less(b, c) ==> Less(a, c)
  {
  }

  lemma MinusOpposite(a: GPSTime, b: GPSTime)
    ensures Minus(a, b) == -Minus(b, a)
  {
  }

  /** On calendar times the field-wise order is the order of instants, the sign of the difference
      agrees with it, and different time stamps are different instants. */
  lemma OrderAgrees(a: GPSTime, b: GPSTime)
    requires Valid(a) && Valid(b)
    ensures Less(a, b) <==> Instant(a) < Instant(b)
    ensures Less(a, b) <==> Minus(a, b) < 0.0
    ensures a == b <==> Instant(a) == Instant(b)
    ensures a == b <==> Minus(a, b) == 0.0
  {
    LessTotal(a, b);
    MinusOpposite(a, b);
    if Less(a, b) { NeverUnderstates(b, a); }
    if Less(b, a) { NeverUnderstates(a, b); }
  }

  /** The difference is the elapsed time exactly for two time stamps in the same minute. */
  lemma ExactWithinMinute(a: GPSTime, b: GPSTime)
    requires Valid(a) && Valid(b)
    ensures Minus(a, b) == Instant(a) - Instant(b) <==> SameMinute(a, b)
  {
    LessTotal(a, b);
    MinusOpposite(a, b);
    if Less(a, b) { NeverUnderstates(b, a); }
    if Less(b, a) { NeverUnderstates(a, b); }
  }

  /** A difference from 0 up to 40 is exact: the two lie in the same minute. */
  lemma SmallDifferenceExact(a: GPSTime, b: GPSTime)
    requires Valid(a) && Valid(b) && 0.0 <= Minus(a, b) <= 40.0
    ensures SameMinute(a, b) && Minus(a, b) == Instant(a) - Instant(b)
  {
    OrderAgrees(a, b);
    ExactWithinMinute(a, b);
    if Less(b, a) { NeverUnderstates(a, b); }
  }

  lemma SameMinuteBack(a: GPSTime, b: GPSTime)
    ensures SameMinute(a, b) <==> SameMinute(b, a)
  {
  }

  // ---- From seconds back to fields ----

  function YearFrom(days: int, y: int): (r: (int, nat))
    ensures r.1 < YearDays(r.0) && DaysToYear(y) + days == DaysToYear(r.0) + r.1
    decreases days < 0, if days < 0 then -days else days
  {
    if days < 0 then
      NextYear(y - 1);
      YearFrom(days + YearDays(y - 1), y - 1)
    else if days < YearDays(y) then (y, days)
    else
      NextYear(y);
      YearFrom(days - YearDays(y), y + 1)
  }

  lemma NextMonth(year: int, m: nat)
    requires 1 <= m <= 12
    ensures DaysToMonth(year, m + 1) == DaysToMonth(year, m) + MonthDays(year, m)
  {
  }

  function MonthFrom(year: int, days: nat, m: nat): (r: (nat, nat))
    requires 1 <= m <= 12 && DaysToMonth(year, m) + days < DaysToMonth(year, 13)
    ensures m <= r.0 <= 12 && r.1 < MonthDays(year, r.0) && DaysToMonth(year, m) + days == DaysToMonth(year, r.0) + r.1
    decreases 12 - m
  {
    if days < MonthDays(year, m) then (m, days)
    else
      NextMonth(year, m);
      MonthFrom(year, days - MonthDays(year, m), m + 1)
  }

  /** The start of a day. */
  function FromDays(days: int): (t: GPSTime)
    ensures Valid(t) && Days(t) == days && t.hour == t.min == t.sec == 0 && t.frac == 0.0
  {
    var (y, d) := YearFrom(days, 0);
    YearLength(y);
    var (m, rest) := MonthFrom(y, d, 1);
    GPSTime(y, m, rest + 1, 0, 0, 0, 0.0)
  }

  /** localtime: the fields of a number of whole seconds since the start of 2000. */
  function FromEpoch(n: int, frac: real): (t: GPSTime)
    requires 0.0 <= frac < 1.0
    ensures Valid(t) && Epoch(t) == n && t.frac == frac
  {
    var day := n / 86400;
    var hour := (n - 86400 * day) / 3600;
    var min := (n - 86400 * day - 3600 * hour) / 60;
    FromDays(day).(hour := hour, min := min, sec := n - 86400 * day - 3600 * hour - 60 * min, frac := frac)
  }

  /** The time stamp of an instant. */
  function FromInstant(x: real): (t: GPSTime)
    ensures Valid(t) && Instant(t) == x
  {
    FromEpoch(x.Floor, x - x.Floor as real)
  }

  /** Conversion towards zero. */
  function Truncated(x: real): int {
    if x >= 0.0 then x.Floor else -((-x).Floor)
  }

  /** AddActPointSec, with the carry of GPSTimeCarrtOneSecond when the fraction leaves [0, 1). */
  method AddActPointSec(time: GPSTime, seconds: real) returns (r: GPSTime)
    requires Valid(time)
    ensures Valid(r) && Instant(r) == Instant(time) + seconds
    ensures r == FromInstant(Instant(time) + seconds)
  {
    r := time.(frac := time.frac + seconds);
    if r.frac >= 1.0 || r.frac < 0.0 {
      r := CarryOneSecond(r);
    }
    OrderAgrees(r, FromInstant(Instant(time) + seconds));
  }

  method CarryOneSecond(time: GPSTime) returns (r: GPSTime)
    requires Valid(time.(frac := 0.0))
    ensures Valid(r) && Instant(r) == Instant(time)
  {
    var ft := Epoch(time);
    var frac := time.frac;
    if frac >= 1.0 {
      var dSeconds := Truncated(frac);
      frac := frac - Truncated(frac) as real;
      r := FromEpoch(ft + dSeconds, frac);
    } else if frac < 0.0 {
      var dSeconds := Truncated(frac) - 1;
      frac := frac - Truncated(frac) as real + 1.0;
      if frac == 1.0 {
        frac := 0.0;
        dSeconds := dSeconds + 1;
      }
      r := FromEpoch(ft + dSeconds, frac);
    } else {
      r := time;
    }
  }
}
