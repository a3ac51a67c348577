/** Calendar arithmetic: Julian day numbers and broken-down times (`time_support.c`). */
module JulianDates {
  import opened Bytes

  const SECS_PER_DAY: int := 24 * 60 * 60

  /** C division, which truncates toward zero. */
  function Quot(a: int, b: int): int
    requires b > 0
  {
    if a >= 0 then a / b else -((-a) / b)
  }

  function Rem(a: int, b: int): int
    requires b > 0
  {
    a - b * Quot(a, b)
  }

  datatype Date = Date(y: int, m: int, d: int)

  function DateToJulian(y: int, m: int, d: int): int {
    Quot(1461 * (y + 4800 + Quot(m - 14, 12)), 4)
      + Quot(367 * (m - 2 - 12 * Quot(m - 14, 12)), 12)
      - Quot(3 * Quot(y + 4900 + Quot(m - 14, 12), 100), 4) + d - 32075
  }

  function JulianToDate(jd: nat): Date {
    var l0 := jd + 68569;
    var n := 4 * l0 / 146097;
    var l1 := l0 - (146097 * n + 3) / 4;
    var i := 4000 * (l1 + 1) / 1461001;
    var l2 := l1 - 1461 * i / 4 + 31;
    var j := 80 * l2 / 2447;
    var l3 := j / 11;
    Date(100 * (n - 49) + i + l3, j + 2 - 12 * l3, l2 - 2447 * j / 80)
  }

  // ---- the three stages: century, year, month ----

  lemma CenturyStage(l0: nat, n: nat, l1: int)
    requires n == 4 * l0 / 146097 && l1 == l0 - (146097 * n + 3) / 4
    ensures 0 <= l1 <= 36524
    ensures (146097 * n + 3) / 4 == 36525 * n - 3 * n / 4
  {
  }

  lemma YearStage(l1: nat, i: int)
    requires l1 <= 36524 && i == 4000 * (l1 + 1) / 1461001
    ensures 0 <= i <= 99 && 0 <= l1 - 1461 * i / 4 <= 365
  {
  }

  lemma MonthFits(j: int)
    requires 1 <= j <= 12
    ensures 2447 * j / 80 == 367 * j / 12
  {
  }

  lemma MonthStage(l2: int, j: int)
    requires 31 <= l2 <= 396 && j == 80 * l2 / 2447
    ensures 1 <= j <= 12
    ensures 1 <= l2 - 2447 * j / 80 <= 31
    ensures j in {2, 4, 7, 9} ==> l2 - 2447 * j / 80 <= 30
    ensures j == 12 ==> l2 - 2447 * j / 80 == l2 - 367
  {
  }

  predicate Leap(y: int) {
    y % 4 == 0 && (y % 100 != 0 || y % 400 == 0)
  }

  function DaysInMonth(y: int, m: int): int
    requires 1 <= m <= 12
  {
    if m == 2 then if Leap(y) then 29 else 28
    else if m == 4 || m == 6 || m == 9 || m == 11 then 30
    else 31
  }

  predicate IsDate(y: int, m: int, d: int) {
    1 <= m <= 12 && 1 <= d <= DaysInMonth(y, m)
  }

  /** A year counted from March has a 366th day only if its February is in a leap year. */
  lemma LeapDay(l0: nat, n: nat, l1: int, i: int)
    requires n == 4 * l0 / 146097 && l1 == l0 - (146097 * n + 3) / 4 && 0 <= l1 <= 36524
    requires i == 4000 * (l1 + 1) / 1461001 && 0 <= i <= 99 && l1 - 1461 * i / 4 == 365
    ensures i % 4 == 3 && (i == 99 ==> n % 4 == 0)
  {
    if i == 99 {
      assert l1 == 36524;
      assert 4 * l0 <= 146097 * n + 146096;
    }
  }

  lemma LeapYear(n: nat, i: int)
    requires 0 <= i <= 99 && i % 4 == 3 && (i == 99 ==> n % 4 == 0)
    ensures Leap(100 * (n - 49) + i + 1)
  {
    var y := 100 * (n - 49) + i + 1;
    assert y == 4 * (25 * (n - 49) + (i + 1) / 4);
    if i == 99 {
      assert n == 4 * (n / 4);
      assert y == 400 * (n / 4 - 12);
    } else {
      ModUnique(y, 100, n - 49, i + 1);
    }
  }

  lemma MonthBack(j: int)
    requires 1 <= j <= 12
    ensures var l3 := j / 11;
            var m := j + 2 - 12 * l3;
            1 <= m <= 12 && Quot(m - 14, 12) == -l3 && m - 2 - 12 * Quot(m - 14, 12) == j
  {
  }

  /** `date_to_julian` in terms of the century `n`, the year `i` in it and the month `j`, both counted from March. */
  lemma Composed(n: nat, i: int, j: int, d: int)
    requires n >= 1 && 0 <= i <= 99 && 1 <= j <= 12
    ensures var l3 := j / 11;
            DateToJulian(100 * (n - 49) + i + l3, j + 2 - 12 * l3, d) ==
              36525 * n - 3 * n / 4 + 1461 * i / 4 + 367 * j / 12 + d - 31 - 68569
  {
    MonthBack(j);
    var y' := 100 * (n - 1) + i;
    assert (y' + 100) / 100 == n;
    assert 1461 * y' / 4 == 36525 * (n - 1) + 1461 * i / 4;
  }

  lemma Stages(jd: nat, n: nat, l1: int, i: int, l2: int, j: int)
    requires n == 4 * (jd + 68569) / 146097 && l1 == jd + 68569 - (146097 * n + 3) / 4
    requires i == 4000 * (l1 + 1) / 1461001 && l2 == l1 - 1461 * i / 4 + 31 && j == 80 * l2 / 2447
    ensures JulianToDate(jd) == Date(100 * (n - 49) + i + j / 11, j + 2 - 12 * (j / 11), l2 - 2447 * j / 80)
  {
  }

  /** Every day number is that of a date of the Gregorian calendar, which `julian_to_date` finds. */
  lemma DateUndone(jd: nat)
    ensures var t := JulianToDate(jd); IsDate(t.y, t.m, t.d) && DateToJulian(t.y, t.m, t.d) == jd
  {
    var l0 := jd + 68569;
    var n := 4 * l0 / 146097;
    var l1 := l0 - (146097 * n + 3) / 4;
    CenturyStage(l0, n, l1);
    var i := 4000 * (l1 + 1) / 1461001;
    YearStage(l1, i);
    var l2 := l1 - 1461 * i / 4 + 31;
    var j := 80 * l2 / 2447;
    MonthStage(l2, j);
    MonthFits(j);
    MonthBack(j);
    Stages(jd, n, l1, i, l2, j);
    Composed(n, i, j, l2 - 2447 * j / 80);
    LastDay(l0, n, l1, i, l2, j);
    DayFits(100 * (n - 49) + i + j / 11, j, l2);
  }

  lemma LastDay(l0: nat, n: nat, l1: int, i: int, l2: int, j: int)
    requires n == 4 * l0 / 146097 && l1 == l0 - (146097 * n + 3) / 4 && 0 <= l1 <= 36524
    requires i == 4000 * (l1 + 1) / 1461001 && 0 <= i <= 99 && l2 == l1 - 1461 * i / 4 + 31 && j == 80 * l2 / 2447
    ensures l2 == 396 ==> Leap(100 * (n - 49) + i + j / 11)
  {
    if l2 == 396 {
      LeapDay(l0, n, l1, i);
      LeapYear(n, i);
    }
  }

  lemma DayFits(y: int, j: int, l2: int)
    requires 31 <= l2 <= 396 && j == 80 * l2 / 2447 && (l2 == 396 ==> Leap(y))
    ensures IsDate(y, j + 2 - 12 * (j / 11), l2 - 2447 * j / 80)
  {
    MonthStage(l2, j);
  }

  // ---- and the other way round ----

  /** A day of month `j` lies before the next month, and only a leap year has a 366th day. */
  lemma DayOfYear(n: nat, i: int, j: int, d: int)
    requires n >= 1 && 0 <= i <= 99 && 1 <= j <= 12
    requires var l3 := j / 11; IsDate(100 * (n - 49) + i + l3, j + 2 - 12 * l3, d)
    ensures 2447 * j <= 80 * (2447 * j / 80 + d) < 2447 * (j + 1)
    ensures 0 <= 2447 * j / 80 + d - 31 <= 365
    ensures 2447 * j / 80 + d - 31 == 365 ==> Leap(100 * (n - 48) + (i - 99))
  {
    var l3 := j / 11;
    var m, y := j + 2 - 12 * l3, 100 * (n - 49) + i + l3;
    if j == 12 {
      assert m == 2 && d <= 29;
    } else {
      assert d <= DaysInMonth(y, m) <= 31;
    }
  }

  lemma LeapCentury(n: int, i: int)
    requires 0 <= i <= 99 && Leap(100 * (n - 48) + (i - 99))
    ensures i % 4 == 3 && (i == 99 ==> n % 4 == 0)
  {
  }

  lemma YearBack(i: int, e: int)
    requires 0 <= i <= 99 && 0 <= e <= 365 && (e == 365 ==> i % 4 == 3)
    ensures 4000 * (1461 * i / 4 + e + 1) / 1461001 == i
  {
  }

  lemma CenturyBack(n: nat, l1: int)
    requires 0 <= l1 <= 36524 && (l1 == 36524 ==> n % 4 == 0)
    ensures 4 * (36525 * n - 3 * n / 4 + l1) / 146097 == n
  {
  }

  lemma UndoneFromMarch(n: nat, i: int, j: int, d: int, jd: nat)
    requires n >= 1 && 0 <= i <= 99 && 1 <= j <= 12
    requires var l3 := j / 11; IsDate(100 * (n - 49) + i + l3, j + 2 - 12 * l3, d)
    requires jd == 36525 * n - 3 * n / 4 + 1461 * i / 4 + 367 * j / 12 + d - 31 - 68569
    ensures JulianToDate(jd) == Date(100 * (n - 49) + i + j / 11, j + 2 - 12 * (j / 11), d)
  {
    DayOfYear(n, i, j, d);
    MonthFits(j);
    var e := 2447 * j / 80 + d - 31;
    var l1 := 1461 * i / 4 + e;
    if e == 365 {
      LeapCentury(n, i);
    }
    YearBack(i, e);
    CenturyBack(n, l1);
    Stages(jd, n, l1, i, e + 31, j);
  }

  lemma MonthPart(m: int)
    requires 1 <= m <= 12
    ensures -1 <= Quot(m - 14, 12) <= 0 && Quot(367 * (m - 2 - 12 * Quot(m - 14, 12)), 12) <= 367
  {
  }

  lemma YearPart(a: int)
    requires a <= 86
    ensures Quot(1461 * a, 4) - Quot(3 * Quot(a + 100, 100), 4) <= 31411
  {
    if a <= -100 {
      assert Quot(1461 * a, 4) <= 365 * a;
      assert Quot(a + 100, 100) >= a + 100;
      assert Quot(3 * Quot(a + 100, 100), 4) >= 3 * (a + 100);
    }
  }

  /** Before the year -4713 there is no day number. */
  lemma TooEarly(y: int, m: int, d: int)
    requires IsDate(y, m, d) && y < -4713
    ensures DateToJulian(y, m, d) < 0
  {
    MonthPart(m);
    YearPart(y + 4800 + Quot(m - 14, 12));
  }

  /** `julian_to_date` undoes `date_to_julian` on every date of the Gregorian calendar with a day number. */
  lemma JulianUndone(y: int, m: int, d: int)
    requires IsDate(y, m, d) && DateToJulian(y, m, d) >= 0
    ensures JulianToDate(DateToJulian(y, m, d)) == Date(y, m, d)
  {
    if y < -4713 { TooEarly(y, m, d); }
    var l3 := if m <= 2 then 1 else 0;
    var j, y' := m - 2 + 12 * l3, y + 4800 - l3;
    var n, i := y' / 100 + 1, y' % 100;
    assert j / 11 == l3 && y == 100 * (n - 49) + i + l3;
    Composed(n, i, j, d);
    UndoneFromMarch(n, i, j, d, DateToJulian(y, m, d));
  }

  // ---- broken-down times ----

  /** `struct tm`: years since 1900, months since January. */
  datatype Time = Time(year: int, mon: int, mday: int, hour: int, minute: int, second: int)

  function DaySeconds(t: Time): int {
    t.hour * 3600 + t.minute * 60 + t.second
  }

  /** The ranges the C standard gives the clock fields; a leap second may be 60. */
  predicate ClockOk(t: Time) {
    0 <= t.hour <= 23 && 0 <= t.minute <= 59 && 0 <= t.second <= 60
  }

  /** The day number and second of day a time plus an offset falls on. */
  function JulianAdj(t: Time, offDay: int, offsetSec: int): Option<(nat, int)> {
    var days := Quot(offsetSec, SECS_PER_DAY);
    var hms := offsetSec - days * SECS_PER_DAY + DaySeconds(t);
    var carry := if hms >= SECS_PER_DAY then 1 else if hms < 0 then -1 else 0;
    var jd := DateToJulian(t.year + 1900, t.mon + 1, t.mday) + days + offDay + carry;
    if jd < 0 then None else Some((jd, hms - carry * SECS_PER_DAY))
  }

  function FromJulian(jd: nat, sec: int): Option<Time> {
    var date := JulianToDate(jd);
    if date.y < 1900 || date.y > 9999 then None
    else Some(Time(date.y - 1900, date.m - 1, date.d, Quot(sec, 3600), Rem(Quot(sec, 60), 60), Rem(sec, 60)))
  }

  function GmtimeAdj(t: Time, offDay: int, offsetSec: int): Option<Time> {
    var j := JulianAdj(t, offDay, offsetSec);
    if j.None? then None else FromJulian(j.value.0, j.value.1)
  }

  /** The same span with days and seconds both positive or both negative. */
  function Aligned(day: int, sec: int): (r: (int, int))
    ensures r.0 * SECS_PER_DAY + r.1 == day * SECS_PER_DAY + sec
    ensures -SECS_PER_DAY < sec < SECS_PER_DAY ==> OneSign(r.0, r.1)
  {
    if day > 0 && sec < 0 then (day - 1, sec + SECS_PER_DAY)
    else if day < 0 && sec > 0 then (day + 1, sec - SECS_PER_DAY)
    else (day, sec)
  }

  predicate OneSign(day: int, sec: int) {
    -SECS_PER_DAY < sec < SECS_PER_DAY && !(day > 0 && sec < 0) && !(day < 0 && sec > 0)
  }

  function Between(f: Option<(nat, int)>, t: Option<(nat, int)>): Option<(int, int)> {
    if f.None? || t.None? then None else Some(Aligned(t.value.0 - f.value.0, t.value.1 - f.value.1))
  }

  function GmtimeDiff(from: Time, to: Time): Option<(int, int)> {
    Between(JulianAdj(from, 0, 0), JulianAdj(to, 0, 0))
  }

  /** `j` is the day number and second of the instant `a`, or none when that is before day zero. */
  predicate Splits(j: Option<(nat, int)>, a: int) {
    if j.None? then a < 0 else 0 <= j.value.1 < SECS_PER_DAY && j.value.0 * SECS_PER_DAY + j.value.1 == a
  }

  lemma BetweenMeans(f: Option<(nat, int)>, t: Option<(nat, int)>, a: int, b: int)
    requires Splits(f, a) && Splits(t, b)
    ensures Between(f, t).Some? <==> a >= 0 && b >= 0
    ensures Between(f, t).Some? ==>
      var (day, sec) := Between(f, t).value; day * SECS_PER_DAY + sec == b - a && OneSign(day, sec)
  {
  }

  /** The instant a time denotes, in seconds since day number zero. */
  function Instant(t: Time): int {
    DateToJulian(t.year + 1900, t.mon + 1, t.mday) * SECS_PER_DAY + DaySeconds(t)
  }

  lemma AdjInstant(t: Time, offDay: int, offsetSec: int)
    requires ClockOk(t)
    ensures Splits(JulianAdj(t, offDay, offsetSec), Instant(t) + offDay * SECS_PER_DAY + offsetSec)
  {
  }

  lemma SplitSeconds(sec: int)
    requires 0 <= sec < SECS_PER_DAY
    ensures var t := Time(0, 0, 0, Quot(sec, 3600), Rem(Quot(sec, 60), 60), Rem(sec, 60));
            ClockOk(t) && DaySeconds(t) == sec
  {
  }

  /** A successful adjustment moves the instant by exactly the offset. */
  lemma AdjMoves(t: Time, offDay: int, offsetSec: int)
    requires ClockOk(t) && GmtimeAdj(t, offDay, offsetSec).Some?
    ensures var u := GmtimeAdj(t, offDay, offsetSec).value;
            ClockOk(u) && 0 <= Instant(u) == Instant(t) + offDay * SECS_PER_DAY + offsetSec
  {
    AdjInstant(t, offDay, offsetSec);
    var j := JulianAdj(t, offDay, offsetSec).value;
    FromJulianMeans(j.0, j.1);
  }

  /**
   * The date of the new day decides: the adjustment succeeds exactly if its year is from
   * 1900 to 9999, and the time then shows that date and the time of day.
   */
  lemma AdjSucceedsExactly(t: Time, offDay: int, offsetSec: int, y: int, m: int, d: int, sec: int)
    requires ClockOk(t) && IsDate(y, m, d) && 0 <= sec < SECS_PER_DAY && DateToJulian(y, m, d) >= 0
    requires DateToJulian(y, m, d) * SECS_PER_DAY + sec == Instant(t) + offDay * SECS_PER_DAY + offsetSec
    ensures GmtimeAdj(t, offDay, offsetSec) ==
              if 1900 <= y <= 9999 then Some(Time(y - 1900, m - 1, d, sec / 3600, sec / 60 % 60, sec % 60)) else None
  {
    AdjInstant(t, offDay, offsetSec);
    JulianUndone(y, m, d);
    SameSplit(JulianAdj(t, offDay, offsetSec), DateToJulian(y, m, d), sec);
  }

  lemma SameSplit(j: Option<(nat, int)>, jd: nat, sec: int)
    requires 0 <= sec < SECS_PER_DAY && Splits(j, jd * SECS_PER_DAY + sec)
    ensures j == Some((jd, sec))
  {
    var a := jd * SECS_PER_DAY + sec;
    ModUnique(a, SECS_PER_DAY, jd, sec);
    if j.Some? { ModUnique(a, SECS_PER_DAY, j.value.0, j.value.1); }
  }

  lemma FromJulianMeans(jd: nat, sec: int)
    requires 0 <= sec < SECS_PER_DAY && FromJulian(jd, sec).Some?
    ensures var u := FromJulian(jd, sec).value; ClockOk(u) && Instant(u) == jd * SECS_PER_DAY + sec
  {
    DateUndone(jd);
    Rejoined(JulianToDate(jd), jd, sec);
  }

  /** A day number and a second of day, written as a time. */
  lemma Rejoined(date: Date, jd: nat, sec: int)
    requires DateToJulian(date.y, date.m, date.d) == jd && 0 <= sec < SECS_PER_DAY
    ensures var u := Time(date.y - 1900, date.m - 1, date.d, Quot(sec, 3600), Rem(Quot(sec, 60), 60), Rem(sec, 60));
            ClockOk(u) && Instant(u) == jd * SECS_PER_DAY + sec
  {
    SplitSeconds(sec);
  }

  /** The difference of two times is their instants' difference, in days and seconds of one sign. */
  lemma DiffMeans(from: Time, to: Time)
    requires ClockOk(from) && ClockOk(to)
    ensures GmtimeDiff(from, to).Some? <==> Instant(from) >= 0 && Instant(to) >= 0
    ensures GmtimeDiff(from, to).Some? ==>
      var (day, sec) := GmtimeDiff(from, to).value;
      day * SECS_PER_DAY + sec == Instant(to) - Instant(from) && OneSign(day, sec)
  {
    AdjInstant(from, 0, 0);
    AdjInstant(to, 0, 0);
    BetweenMeans(JulianAdj(from, 0, 0), JulianAdj(to, 0, 0), Instant(from), Instant(to));
  }

  /**
   * Whenever the adjustment succeeds, the difference from the old to the new time is
   * exactly the offset that was asked for; it is refused only for an old time before
   * day number zero.
   */
  lemma DiffUndoesAdj(t: Time, offDay: int, offsetSec: int)
    requires ClockOk(t) && GmtimeAdj(t, offDay, offsetSec).Some?
    ensures var r := GmtimeDiff(t, GmtimeAdj(t, offDay, offsetSec).value);
            if Instant(t) < 0 then r.None?
            else
              && r.Some?
              && var (day, sec) := r.value;
                 day * SECS_PER_DAY + sec == offDay * SECS_PER_DAY + offsetSec && OneSign(day, sec)
  {
    AdjMoves(t, offDay, offsetSec);
    DiffMeans(t, GmtimeAdj(t, offDay, offsetSec).value);
  }

  lemma NewYear2000()
    ensures JulianToDate(2451545) == Date(2000, 1, 1)
  {
    Stages(2451545, 68, 36465, 99, 337, 11);
  }

  lemma EarlyDay()
    ensures DateToJulian(-4799, 3, 1) == -31679
  {
  }

  /** At midnight only the day number counts. */
  lemma AtMidnight(t: Time, y: int, m: int, k: int, offDay: int)
    requires t.hour == t.minute == t.second == 0 && y == t.year + 1900 && m == t.mon + 1 && DateToJulian(y, m, t.mday) == k
    ensures JulianAdj(t, offDay, 0) == if k + offDay < 0 then None else Some((k + offDay, 0))
  {
  }

  lemma FromMidnight(t: Time, offDay: int, jd: nat, date: Date)
    requires JulianAdj(t, offDay, 0) == Some((jd, 0)) && JulianToDate(jd) == date && 1900 <= date.y <= 9999
    ensures GmtimeAdj(t, offDay, 0) == Some(Time(date.y - 1900, date.m - 1, date.d, 0, 0, 0))
  {
  }

  /** A time before day number zero is moved to a day of the calendar, and the difference is refused. */
  lemma RefusedFrom(t: Time, k: int, offDay: int, date: Date)
    requires t.hour == t.minute == t.second == 0 && DateToJulian(t.year + 1900, t.mon + 1, t.mday) == k < 0 <= k + offDay
    requires JulianToDate(k + offDay) == date && 1900 <= date.y <= 9999
    ensures var u := Time(date.y - 1900, date.m - 1, date.d, 0, 0, 0);
            GmtimeAdj(t, offDay, 0) == Some(u) && GmtimeDiff(t, u) == None
  {
    AtMidnight(t, t.year + 1900, t.mon + 1, k, offDay);
    AtMidnight(t, t.year + 1900, t.mon + 1, k, 0);
    FromMidnight(t, offDay, k + offDay, date);
  }

  /** So it is from the first of March of the year -4799 to the first day of the year 2000. */
  lemma DiffRefused()
    ensures var t, u := Time(-6699, 2, 1, 0, 0, 0), Time(100, 0, 1, 0, 0, 0);
            GmtimeAdj(t, 2483224, 0) == Some(u) && GmtimeDiff(t, u) == None
  {
    EarlyDay();
    NewYear2000();
    RefusedFrom(Time(-6699, 2, 1, 0, 0, 0), -31679, 2483224, Date(2000, 1, 1));
  }

  // ---- the step-by-step code ----

  /** Though the product of days and seconds is an `int`, the seconds left over come out right. */
  lemma WrapsBack(a: int, b: int)
    requires -0x8000_0000 <= a - b <= INT_MAX
    ensures ToInt32(a - ToInt32(b)) == a - b
  {
    var k := b / TWO_32 + (if b % TWO_32 > INT_MAX then 1 else 0);
    assert ToInt32(b) == b - k * TWO_32;
    var r := if a - b >= 0 then a - b else a - b + TWO_32;
    ModUnique(a - ToInt32(b), TWO_32, if a - b >= 0 then k else k - 1, r);
  }

  method ConvertJulian(jd: nat) returns (y: int, m: int, d: int)
    ensures Date(y, m, d) == JulianToDate(jd)
  {
    var l := jd + 68569;
    var n := 4 * l / 146097;
    l := l - (146097 * n + 3) / 4;
    var i := 4000 * (l + 1) / 1461001;
    l := l - 1461 * i / 4 + 31;
    var j := 80 * l / 2447;
    d := l - 2447 * j / 80;
    l := j / 11;
    m := j + 2 - 12 * l;
    y := 100 * (n - 49) + i + l;
  }

  class Tm {
    var year: int
    var mon: int
    var mday: int
    var hour: int
    var minute: int
    var second: int

    function Get(): Time
      reads this
    {
      Time(year, mon, mday, hour, minute, second)
    }

    method Adjusted(offDay: int, offsetSec: int) returns (r: Option<(nat, int)>)
      ensures r == JulianAdj(Get(), offDay, offsetSec)
    {
      var day := Quot(offsetSec, SECS_PER_DAY);
      WrapsBack(offsetSec, day * SECS_PER_DAY);
      var hms: int := ToInt32(offsetSec - ToInt32(day * SECS_PER_DAY));
      assert hms == offsetSec - day * SECS_PER_DAY;
      day := day + offDay;
      hms := hms + hour * 3600 + minute * 60 + second;
      if hms >= SECS_PER_DAY {
        day := day + 1;
        hms := hms - SECS_PER_DAY;
      } else if hms < 0 {
        day := day - 1;
        hms := hms + SECS_PER_DAY;
      }
      var jd := DateToJulian(year + 1900, mon + 1, mday) + day;
      if jd < 0 {
        return None;
      }
      return Some((jd, hms));
    }

    /** `OPENSSL_gmtime_adj`: updates the time in place, or leaves it alone and reports failure. */
    method Adjust(offDay: int, offsetSec: int) returns (ok: bool)
      modifies this
      ensures ok == GmtimeAdj(old(Get()), offDay, offsetSec).Some?
      ensures Get() == if ok then GmtimeAdj(old(Get()), offDay, offsetSec).value else old(Get())
    {
      var j := Adjusted(offDay, offsetSec);
      if j.None? {
        return false;
      }
      var y, m, d := ConvertJulian(j.value.0);
      if y < 1900 || y > 9999 {
        return false;
      }
      var sec := j.value.1;
      year, mon, mday := y - 1900, m - 1, d;
      hour, minute, second := Quot(sec, 3600), Rem(Quot(sec, 60), 60), Rem(sec, 60);
      return true;
    }

    /** `OPENSSL_gmtime_diff`. */
    method DifferenceTo(to: Tm) returns (r: Option<(int, int)>)
      ensures r == GmtimeDiff(Get(), to.Get())
    {
      var f := Adjusted(0, 0);
      var t := to.Adjusted(0, 0);
      if f.None? || t.None? {
        return None;
      }
      var day, sec := t.value.0 as int - f.value.0, t.value.1 - f.value.1;
      if day > 0 && sec < 0 {
        day, sec := day - 1, sec + SECS_PER_DAY;
      }
      if day < 0 && sec > 0 {
        day, sec := day + 1, sec - SECS_PER_DAY;
      }
      return Some((day, sec));
    }
  }
}
