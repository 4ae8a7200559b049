// Broken-down local time at a fixed offset from UTC, as far as the scheduler looks at it.

module LocalTime {
  const DAY := 86400
  const WEEK := 604800

  /** The members of `struct tm` that a time specification can constrain. */
  datatype Tm = Tm(sec: int, min: int, hour: int, wday: int, mday: int)

  /** The fields of the instant `t` in a zone `offset` seconds east of UTC; day 0 was a Thursday. */
  function Fields(t: int, offset: int): (tm: Tm)
    ensures 0 <= tm.sec < 60 && 0 <= tm.min < 60 && 0 <= tm.hour < 24 && 0 <= tm.wday < 7
    ensures 1 <= tm.mday <= 31
  {
    var u := t + offset;
    Tm(u % 60, u / 60 % 60, u / 3600 % 24, (u / DAY + 4) % 7, MonthDay(u / DAY))
  }

  // ---- Calendar days -------------------------------------------------------------------------

  predicate IsLeap(y: int) {
    y % 4 == 0 && (y % 100 != 0 || y % 400 == 0)
  }

  /** The day number of 1 January of year `y`: section 4.16 of XBD, IEEE Std 1003.1-2017. */
  function YearStart(y: int): int {
    365 * (y - 1970) + (y - 1969) / 4 - (y - 1901) / 100 + (y - 1601) / 400
  }

  function YearLength(y: int): int {
    if IsLeap(y) then 366 else 365
  }

  lemma QuarterNext(y: int)
    ensures (y - 1968) / 4 == (y - 1969) / 4 + if y % 4 == 0 then 1 else 0
  {
  }

  lemma CenturyNext(y: int)
    ensures (y - 1900) / 100 == (y - 1901) / 100 + if y % 100 == 0 then 1 else 0
  {
  }

  lemma FourCenturyNext(y: int)
    ensures (y - 1600) / 400 == (y - 1601) / 400 + if y % 400 == 0 then 1 else 0
  {
  }

  lemma LeapNesting(y: int)
    ensures y % 400 == 0 ==> y % 100 == 0
    ensures y % 100 == 0 ==> y % 4 == 0
  {
  }

  /** Consecutive years start a year length apart: the closed formula and the leap rule agree. */
  lemma YearStartNext(y: int)
    ensures YearStart(y + 1) == YearStart(y) + YearLength(y)
  {
    var a, b, c, d, e, f :=
      (y - 1968) / 4, (y - 1969) / 4, (y - 1900) / 100, (y - 1901) / 100, (y - 1600) / 400, (y - 1601) / 400;
    assert YearStart(y + 1) == 365 * (y - 1969) + a - c + e;
    assert YearStart(y) == 365 * (y - 1970) + b - d + f;
    assert a - b - (c - d) + (e - f) == if IsLeap(y) then 1 else 0 by {
      QuarterNext(y);
      CenturyNext(y);
      FourCenturyNext(y);
      LeapNesting(y);
    }
  }

  /** The year that holds day number `day`, searched from the year `y`. */
  function YearOf(day: int, y: int): (r: int)
    ensures YearStart(r) <= day < YearStart(r) + YearLength(r)
    decreases if day < YearStart(y) then YearStart(y) - day else day - YearStart(y), day < YearStart(y)
  {
    YearStartNext(y);
    YearStartNext(y - 1);
    if YearStart(y) <= day < YearStart(y + 1) then y
    else if day < YearStart(y) then
      (if YearStart(y - 1) <= day then y - 1 else YearOf(day, y - 1))
    else YearOf(day, y + 1)
  }

  function MonthLength(m: int, leap: bool): (n: int)
    ensures 28 <= n <= 31
  {
    if m == 2 then (if leap then 29 else 28)
    else if m == 4 || m == 6 || m == 9 || m == 11 then 30
    else 31
  }

  /** Days of the year before the first of month `m`. */
  function DaysBefore(m: int, leap: bool): int
    requires 1 <= m <= 13
  {
    if m == 1 then 0 else DaysBefore(m - 1, leap) + MonthLength(m - 1, leap)
  }

  lemma YearTotal(leap: bool)
    ensures DaysBefore(13, leap) == if leap then 366 else 365
  {
    assert DaysBefore(2, leap) == 31;
    assert DaysBefore(3, leap) == if leap then 60 else 59;
    assert DaysBefore(4, leap) == DaysBefore(3, leap) + 31;
    assert DaysBefore(5, leap) == DaysBefore(4, leap) + 30;
    assert DaysBefore(6, leap) == DaysBefore(5, leap) + 31;
    assert DaysBefore(7, leap) == DaysBefore(6, leap) + 30;
    assert DaysBefore(8, leap) == DaysBefore(7, leap) + 31;
    assert DaysBefore(9, leap) == DaysBefore(8, leap) + 31;
    assert DaysBefore(10, leap) == DaysBefore(9, leap) + 30;
    assert DaysBefore(11, leap) == DaysBefore(10, leap) + 31;
    assert DaysBefore(12, leap) == DaysBefore(11, leap) + 30;
  }

  /** The day of the month, counting from 1, of the day `yday` days after the first of month `m`. */
  function DayInMonth(yday: int, m: int, leap: bool): (d: int)
    requires 1 <= m <= 12
    requires 0 <= yday < DaysBefore(13, leap) - DaysBefore(m, leap)
    ensures 1 <= d <= 31
    decreases 13 - m
  {
    if yday < MonthLength(m, leap) then yday + 1
    else DayInMonth(yday - MonthLength(m, leap), m + 1, leap)
  }

  /** tm_mday of day number `day`. */
  function MonthDay(day: int): (d: int)
    ensures 1 <= d <= 31
  {
    var y := YearOf(day, 1970);
    YearTotal(IsLeap(y));
    DayInMonth(day - YearStart(y), 1, IsLeap(y))
  }

  /** The day number of a calendar date. */
  function DayNumber(y: int, m: int, d: int): int
    requires 1 <= m <= 12
  {
    YearStart(y) + DaysBefore(m, IsLeap(y)) + d - 1
  }

  lemma {:induction false} YearStartMonotone(y: int, z: int)
    requires y < z
    ensures YearStart(y) + YearLength(y) <= YearStart(z)
    decreases z - y
  {
    YearStartNext(y);
    if y + 1 < z {
      YearStartMonotone(y + 1, z);
    }
  }

  lemma {:induction false} DaysBeforeMonotone(m: int, n: int, leap: bool)
    requires 1 <= m <= n <= 13
    ensures DaysBefore(m, leap) <= DaysBefore(n, leap)
    decreases n - m
  {
    if m < n {
      DaysBeforeMonotone(m, n - 1, leap);
    }
  }

  lemma {:induction false} DayInMonthOf(k: int, m: int, d: int, leap: bool)
    requires 1 <= k <= m <= 12 && 1 <= d <= MonthLength(m, leap)
    requires DaysBefore(m + 1, leap) <= DaysBefore(13, leap)
    requires DaysBefore(k, leap) <= DaysBefore(m, leap)
    ensures DayInMonth(DaysBefore(m, leap) + d - 1 - DaysBefore(k, leap), k, leap) == d
    decreases m - k
  {
    if k < m {
      DaysBeforeMonotone(k + 1, m, leap);
      assert DaysBefore(k + 1, leap) == DaysBefore(k, leap) + MonthLength(k, leap);
      DayInMonthOf(k + 1, m, d, leap);
    }
  }

  /** The year of a day is the only one that holds it. */
  lemma YearOfDate(day: int, y: int)
    requires YearStart(y) <= day < YearStart(y) + YearLength(y)
    ensures YearOf(day, 1970) == y
  {
    var r := YearOf(day, 1970);
    if r < y {
      YearStartMonotone(r, y);
    } else if y < r {
      YearStartMonotone(y, r);
    }
  }

  lemma DayInYear(y: int, m: int, d: int)
    requires 1 <= m <= 12 && 1 <= d <= MonthLength(m, IsLeap(y))
    ensures DaysBefore(m, IsLeap(y)) >= 0 && DaysBefore(m + 1, IsLeap(y)) <= YearLength(y)
    ensures YearStart(y) <= DayNumber(y, m, d) < YearStart(y) + YearLength(y)
  {
    YearTotal(IsLeap(y));
    DaysBeforeMonotone(1, m, IsLeap(y));
    DaysBeforeMonotone(m + 1, 13, IsLeap(y));
  }

  lemma MonthDayIs(day: int)
    ensures var y := YearOf(day, 1970);
            0 <= day - YearStart(y) < DaysBefore(13, IsLeap(y))
            && MonthDay(day) == DayInMonth(day - YearStart(y), 1, IsLeap(y))
  {
    YearTotal(IsLeap(YearOf(day, 1970)));
  }

  /** `MonthDay` inverts the calendar: it recovers the day of the month of every date. */
  lemma MonthDayOfDate(y: int, m: int, d: int)
    requires 1 <= m <= 12 && 1 <= d <= MonthLength(m, IsLeap(y))
    ensures MonthDay(DayNumber(y, m, d)) == d
  {
    DayInYear(y, m, d);
    YearTotal(IsLeap(y));
    YearOfDate(DayNumber(y, m, d), y);
    MonthDayIs(DayNumber(y, m, d));
    DayInMonthOf(1, m, d, IsLeap(y));
  }

  // ---- Dates and times -----------------------------------------------------------------------

  predicate ValidDate(y: int, m: int, d: int) {
    1 <= m <= 12 && 1 <= d <= MonthLength(m, IsLeap(y))
  }

  predicate ValidTime(h: int, min: int, s: int) {
    0 <= h < 24 && 0 <= min < 60 && 0 <= s < 60
  }

  /** The instant of a date and time of day in a zone `offset` seconds east of UTC. */
  function Instant(y: int, m: int, d: int, h: int, min: int, s: int, offset: int): int
    requires 1 <= m <= 12
  {
    DayNumber(y, m, d) * 86400 + h * 3600 + min * 60 + s - offset
  }

  function MonthShift(m: int): int
    requires 1 <= m <= 12
  {
    [0, 3, 2, 5, 0, 3, 5, 1, 4, 6, 2, 4][m - 1]
  }

  /** The weekday of a date, Sunday 0, by Sakamoto's congruence, which knows of no day numbers. */
  function Weekday(y: int, m: int, d: int): (w: int)
    requires 1 <= m <= 12
    ensures 0 <= w < 7
  {
    var z := if m < 3 then y - 1 else y;
    (z + z / 4 - z / 100 + z / 400 + MonthShift(m) + d) % 7
  }

  lemma QuarterOf(y: int)
    ensures (y - 1969) / 4 == (y - 1) / 4 - 492
    ensures y / 4 == (y - 1) / 4 + if y % 4 == 0 then 1 else 0
  {
  }

  lemma CenturyOf(y: int)
    ensures (y - 1901) / 100 == (y - 1) / 100 - 19
    ensures y / 100 == (y - 1) / 100 + if y % 100 == 0 then 1 else 0
  {
  }

  lemma FourCenturyOf(y: int)
    ensures (y - 1601) / 400 == (y - 1) / 400 - 4
    ensures y / 400 == (y - 1) / 400 + if y % 400 == 0 then 1 else 0
  {
  }

  /** Both year formulas over the same quotients of the year before. */
  lemma YearFormulas(y: int)
    ensures var q := (y - 1) / 4 - (y - 1) / 100 + (y - 1) / 400;
            && YearStart(y) == 365 * (y - 1970) + q - 477
            && y / 4 - y / 100 + y / 400 == q + if IsLeap(y) then 1 else 0
  {
    QuarterOf(y);
    CenturyOf(y);
    FourCenturyOf(y);
    LeapNesting(y);
  }

  lemma MonthTable(m: int, leap: bool)
    requires 1 <= m <= 12
    ensures (DaysBefore(m, leap) - MonthShift(m) - if m < 3 then 0 else if leap then 2 else 1) % 7 == 0
  {
    YearTotal(leap);
    assert DaysBefore(2, leap) == 31;
    assert DaysBefore(3, leap) == if leap then 60 else 59;
    assert DaysBefore(4, leap) == DaysBefore(3, leap) + 31;
    assert DaysBefore(5, leap) == DaysBefore(4, leap) + 30;
    assert DaysBefore(6, leap) == DaysBefore(5, leap) + 31;
    assert DaysBefore(7, leap) == DaysBefore(6, leap) + 30;
    assert DaysBefore(8, leap) == DaysBefore(7, leap) + 31;
    assert DaysBefore(9, leap) == DaysBefore(8, leap) + 31;
    assert DaysBefore(10, leap) == DaysBefore(9, leap) + 30;
    assert DaysBefore(11, leap) == DaysBefore(10, leap) + 31;
    assert DaysBefore(12, leap) == DaysBefore(11, leap) + 30;
  }

  lemma SevensApart(a: int, b: int, q: int)
    requires a == b + 7 * q
    ensures a % 7 == b % 7
  {
  }

  /** Day numbers and the congruence agree on the weekday of every date; so day 0 is in 1970, and a Thursday. */
  lemma WeekdayOfDate(y: int, m: int, d: int)
    requires 1 <= m <= 12
    ensures (DayNumber(y, m, d) + 4) % 7 == Weekday(y, m, d) && DayNumber(1970, 1, 1) == 0
  {
    var leap, z := IsLeap(y), if m < 3 then y - 1 else y;
    var shift := DaysBefore(m, leap) - MonthShift(m) - if m < 3 then 0 else if leap then 2 else 1;
    YearFormulas(y);
    MonthTable(m, leap);
    var a, b := DayNumber(y, m, d) + 4, z + z / 4 - z / 100 + z / 400 + MonthShift(m) + d;
    assert a - b == 364 * y - 719523 + shift;
    SevensApart(a, b, 52 * y - 102789 + shift / 7);
  }

  lemma AtLeastOnce(n: int, q: int)
    requires n > 0
    ensures (q >= 1 ==> n * q >= n) && (q <= -1 ==> n * q <= -n)
  {
  }

  lemma Quotient(u: int, n: int, x: int, r: int)
    requires n > 0 && u == n * x + r && 0 <= r < n
    ensures u / n == x && u % n == r
  {
    var q := u / n - x;
    assert n * q == n * (u / n) - n * x;
    AtLeastOnce(n, q);
  }

  lemma TimeOfDay(k: int, h: int, min: int, s: int)
    requires ValidTime(h, min, s)
    ensures var u := k * 86400 + h * 3600 + min * 60 + s;
            u / DAY == k && u % 60 == s && u / 60 % 60 == min && u / 3600 % 24 == h
  {
    var u := k * 86400 + h * 3600 + min * 60 + s;
    Quotient(u, DAY, k, h * 3600 + min * 60 + s);
    Quotient(u, 3600, 24 * k + h, min * 60 + s);
    Quotient(24 * k + h, 24, k, h);
    Quotient(u, 60, (24 * k + h) * 60 + min, s);
    Quotient((24 * k + h) * 60 + min, 60, 24 * k + h, min);
  }

  lemma FieldsByDay(day: int, h: int, min: int, s: int, offset: int)
    requires ValidTime(h, min, s)
    ensures Fields(day * 86400 + h * 3600 + min * 60 + s - offset, offset)
            == Tm(s, min, h, (day + 4) % 7, MonthDay(day))
  {
    TimeOfDay(day, h, min, s);
  }

  /** The fields of the instant of a date and time are that date and time. */
  lemma FieldsOfDate(y: int, m: int, d: int, h: int, min: int, s: int, offset: int)
    requires ValidDate(y, m, d) && ValidTime(h, min, s)
    ensures Fields(Instant(y, m, d, h, min, s, offset), offset) == Tm(s, min, h, Weekday(y, m, d), d)
  {
    var day := DayNumber(y, m, d);
    FieldsByDay(day, h, min, s, offset);
    assert (day + 4) % 7 == Weekday(y, m, d) by {
      WeekdayOfDate(y, m, d);
    }
    assert MonthDay(day) == d by {
      MonthDayOfDate(y, m, d);
    }
  }

  lemma {:induction false} MonthOfYearDay(yday: int, k: int, leap: bool) returns (m: int, d: int)
    requires 1 <= k <= 12 && DaysBefore(k, leap) <= yday < DaysBefore(13, leap)
    ensures k <= m <= 12 && 1 <= d <= MonthLength(m, leap) && yday == DaysBefore(m, leap) + d - 1
    decreases 13 - k
  {
    if yday < DaysBefore(k + 1, leap) {
      m, d := k, yday - DaysBefore(k, leap) + 1;
    } else {
      m, d := MonthOfYearDay(yday, k + 1, leap);
    }
  }

  lemma PartsOfDay(rest: int)
    requires 0 <= rest < 86400
    ensures ValidTime(rest / 3600, rest / 60 % 60, rest % 60)
    ensures rest / 3600 * 3600 + rest / 60 % 60 * 60 + rest % 60 == rest
  {
    assert rest / 60 / 60 == rest / 3600;
  }

  lemma DayOfYear(day: int)
    ensures var y := YearOf(day, 1970); 0 <= day - YearStart(y) < DaysBefore(13, IsLeap(y))
  {
    YearTotal(IsLeap(YearOf(day, 1970)));
  }

  /** Every instant is that of some date and time. */
  lemma EveryInstantHasDate(t: int, offset: int) returns (y: int, m: int, d: int, h: int, min: int, s: int)
    ensures ValidDate(y, m, d) && ValidTime(h, min, s) && t == Instant(y, m, d, h, min, s, offset)
  {
    var day, rest := (t + offset) / 86400, (t + offset) % 86400;
    y := YearOf(day, 1970);
    DayOfYear(day);
    m, d := MonthOfYearDay(day - YearStart(y), 1, IsLeap(y));
    h, min, s := rest / 3600, rest / 60 % 60, rest % 60;
    PartsOfDay(rest);
    assert DayNumber(y, m, d) == day;
  }
}
