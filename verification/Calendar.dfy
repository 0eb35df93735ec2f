/** UTC calendar arithmetic on time values, after ECMA-262 section 21.4.1.

  A time value is a number of milliseconds since 1 January 1970 UTC.  A month is
  named by its index `12 * year + month`, with months counted from 0, so that
  calendar-month arithmetic is addition on month indices.
*/
module Calendar {
  const MS_PER_DAY := 86_400_000
  const EPOCH_MONTH := 12 * 1970
  const MAX_DAY := 100_000_000
  const MAX_TIME := MS_PER_DAY * MAX_DAY

  function DayFromYear(y: int): int {
    365 * (y - 1970) + (y - 1969) / 4 - (y - 1901) / 100 + (y - 1601) / 400
  }

  predicate IsLeap(y: int) {
    y % 4 == 0 && (y % 100 != 0 || y % 400 == 0)
  }

  function DaysInMonth(m: int, leap: bool): int
    requires 0 <= m < 12
  {
    if m == 1 then (if leap then 29 else 28)
    else if m == 3 || m == 5 || m == 8 || m == 10 then 30
    else 31
  }

  function MonthLength(mi: int): (n: int)
    ensures 28 <= n <= 31
  {
    DaysInMonth(mi % 12, IsLeap(mi / 12))
  }

  /** The day number of the first day of a month, counted month by month from the epoch. */
  function MonthStart(mi: int): int
    decreases if mi < EPOCH_MONTH then EPOCH_MONTH - mi else mi - EPOCH_MONTH
  {
    if mi == EPOCH_MONTH then 0
    else if mi > EPOCH_MONTH then MonthStart(mi - 1) + MonthLength(mi - 1)
    else MonthStart(mi + 1) - MonthLength(mi)
  }

  /** Consecutive months abut: the calendar leaves no day out and repeats none. */
  lemma MonthsAbut(mi: int)
    ensures MonthStart(mi + 1) == MonthStart(mi) + MonthLength(mi)
  {
  }

  lemma YearLength(y: int)
    ensures DayFromYear(y + 1) == DayFromYear(y) + if IsLeap(y) then 366 else 365
  {
    FourYears(y);
    HundredYears(y);
    FourHundredYears(y);
  }

  lemma Century(x: int, q: int, r: int)
    requires 0 <= r < 100 && x == 100 * q + r
    ensures x / 100 == q
  {
  }

  lemma FourCenturies(x: int, q: int, r: int)
    requires 0 <= r < 400 && x == 400 * q + r
    ensures x / 400 == q
  {
  }

  lemma FourYears(y: int)
    ensures (y - 1968) / 4 == (y - 1969) / 4 + if y % 4 == 0 then 1 else 0
  {
  }

  lemma CenturyStep(y: int, k: int, r: int)
    requires 0 <= r < 100 && y == 100 * k + r
    ensures (y - 1900) / 100 == (y - 1901) / 100 + if r == 0 then 1 else 0
  {
    Century(y - 1900, k - 19, r);
    if r == 0 {
      Century(y - 1901, k - 20, 99);
    } else {
      Century(y - 1901, k - 19, r - 1);
    }
  }

  lemma FourCenturyStep(y: int, k: int, r: int)
    requires 0 <= r < 400 && y == 400 * k + r
    ensures (y - 1600) / 400 == (y - 1601) / 400 + if r == 0 then 1 else 0
  {
    FourCenturies(y - 1600, k - 4, r);
    if r == 0 {
      FourCenturies(y - 1601, k - 5, 399);
    } else {
      FourCenturies(y - 1601, k - 4, r - 1);
    }
  }

  lemma MultipleOfFour(y: int, k: int)
    requires y == 100 * k
    ensures y % 4 == 0
  {
    assert y == 4 * (25 * k);
  }

  lemma MultipleOfHundred(y: int, k: int)
    requires y == 400 * k
    ensures y % 100 == 0
  {
    assert y == 100 * (4 * k);
  }

  lemma HundredYears(y: int)
    ensures (y - 1900) / 100 == (y - 1901) / 100 + if y % 100 == 0 then 1 else 0
    ensures y % 100 == 0 ==> y % 4 == 0
  {
    CenturyStep(y, y / 100, y % 100);
    if y % 100 == 0 {
      MultipleOfFour(y, y / 100);
    }
  }

  lemma FourHundredYears(y: int)
    ensures (y - 1600) / 400 == (y - 1601) / 400 + if y % 400 == 0 then 1 else 0
    ensures y % 400 == 0 ==> y % 100 == 0
  {
    FourCenturyStep(y, y / 400, y % 400);
    if y % 400 == 0 {
      MultipleOfHundred(y, y / 400);
    }
  }

  /** Twelve months make the year that ECMA-262 counts. */
  lemma YearOfMonths(y: int)
    ensures MonthStart(12 * y + 12) == MonthStart(12 * y) + if IsLeap(y) then 366 else 365
  {
    hide MonthStart;
    Quarter(y, 0);
    Quarter(y, 1);
    Quarter(y, 2);
    Quarter(y, 3);
  }

  lemma Quarter(y: int, q: int)
    requires 0 <= q < 4
    ensures MonthStart(12 * y + 3 * (q + 1)) ==
            MonthStart(12 * y + 3 * q) + if q == 0 then (if IsLeap(y) then 91 else 90) else if q == 1 then 91 else 92
  {
    var mi := 12 * y + 3 * q;
    MonthsAbut(mi);
    MonthsAbut(mi + 1);
    MonthsAbut(mi + 2);
    assert mi / 12 == y && mi % 12 == 3 * q;
    assert (mi + 1) / 12 == y && (mi + 1) % 12 == 3 * q + 1;
    assert (mi + 2) / 12 == y && (mi + 2) % 12 == 3 * q + 2;
  }

  /** Counting months agrees with the closed form of ECMA-262, for every year. */
  lemma {:induction false} YearStart(y: int)
    ensures MonthStart(12 * y) == DayFromYear(y)
    decreases if y < 1970 then 1970 - y else y - 1970
  {
    if y > 1970 {
      hide MonthStart, IsLeap, DayFromYear;
      YearStart(y - 1);
      YearOfMonths(y - 1);
      YearLength(y - 1);
    } else if y < 1970 {
      hide MonthStart, IsLeap, DayFromYear;
      YearStart(y + 1);
      YearOfMonths(y);
      YearLength(y);
    }
  }

  lemma {:induction false} MonthSpan(mi: int, n: nat)
    ensures 28 * n <= MonthStart(mi + n) - MonthStart(mi) <= 31 * n
    decreases n
  {
    if n > 0 {
      MonthSpan(mi, n - 1);
      MonthsAbut(mi + n - 1);
    }
  }

  lemma MonthStartMonotone(a: int, b: int)
    requires a <= b
    ensures MonthStart(a) + 28 * (b - a) <= MonthStart(b)
  {
    MonthSpan(a, b - a);
  }

  function MonthFrom(day: int, mi: int): (r: int)
    requires MonthStart(mi) <= day
    ensures mi <= r && MonthStart(r) <= day < MonthStart(r + 1)
    decreases day - MonthStart(mi)
  {
    MonthsAbut(mi);
    if day < MonthStart(mi + 1) then mi else MonthFrom(day, mi + 1)
  }

  /** A month to start the search from: going back n months goes back n days or more. */
  lemma EarlyMonth(day: int)
    ensures MonthStart(if day >= 0 then EPOCH_MONTH else EPOCH_MONTH + day) <= day
  {
    if day < 0 {
      MonthStartMonotone(EPOCH_MONTH + day, EPOCH_MONTH);
    }
  }

  /** The month a day lies in. */
  function MonthOfDay(day: int): (mi: int)
    ensures MonthStart(mi) <= day < MonthStart(mi + 1)
  {
    var mi := if day >= 0 then EPOCH_MONTH else EPOCH_MONTH + day;
    EarlyMonth(day);
    MonthFrom(day, mi)
  }

  lemma MonthOfDayUnique(day: int, mi: int)
    requires MonthStart(mi) <= day < MonthStart(mi + 1)
    ensures MonthOfDay(day) == mi
  {
    var r := MonthOfDay(day);
    if r < mi {
      MonthStartMonotone(r + 1, mi);
    } else if mi < r {
      MonthStartMonotone(mi + 1, r);
    }
  }

  lemma MonthOfDayMonotone(d: int, e: int)
    requires d <= e
    ensures MonthOfDay(d) <= MonthOfDay(e)
  {
    if MonthOfDay(e) < MonthOfDay(d) {
      MonthStartMonotone(MonthOfDay(e) + 1, MonthOfDay(d));
    }
  }

  function Day(t: int): int { t / MS_PER_DAY }

  function TimeWithinDay(t: int): int { t % MS_PER_DAY }

  function MonthOf(t: int): int { MonthOfDay(Day(t)) }

  function UtcFullYear(t: int): int { MonthOf(t) / 12 }

  function UtcMonth(t: int): int { MonthOf(t) % 12 }

  function UtcDate(t: int): (d: int)
    ensures 1 <= d <= MonthLength(MonthOf(t))
  {
    MonthsAbut(MonthOf(t));
    Day(t) - MonthStart(MonthOf(t)) + 1
  }

  function MakeDay(year: int, month: int, date: int): int {
    MonthStart(12 * year + month) + date - 1
  }

  function MakeDate(day: int, time: int): int {
    day * MS_PER_DAY + time
  }

  /** `Date.UTC(year, month, date)` before clipping: years 0 to 99 mean 1900 to 1999. */
  function DateUtc(year: int, month: int, date: int): int {
    MakeDate(MakeDay(if 0 <= year <= 99 then 1900 + year else year, month, date), 0)
  }

  /** The first instant of a month. */
  function MonthInstant(mi: int): int { MonthStart(mi) * MS_PER_DAY }

  lemma MonthOfBounds(t: int)
    ensures MonthInstant(MonthOf(t)) <= t < MonthInstant(MonthOf(t) + 1)
  {
    var d, mi := Day(t), MonthOf(t);
    assert MonthStart(mi) <= d && d + 1 <= MonthStart(mi + 1);
    assert d * MS_PER_DAY <= t < (d + 1) * MS_PER_DAY;
  }

  lemma MonthOfUnique(t: int, mi: int)
    requires MonthInstant(mi) <= t < MonthInstant(mi + 1)
    ensures MonthOf(t) == mi
  {
    assert MonthStart(mi) <= Day(t) < MonthStart(mi + 1);
    MonthOfDayUnique(Day(t), mi);
  }

  lemma MonthOfMonotone(s: int, t: int)
    requires s <= t
    ensures MonthOf(s) <= MonthOf(t)
  {
    assert Day(s) <= Day(t);
    MonthOfDayMonotone(Day(s), Day(t));
  }

  lemma MonthInstantMonotone(a: int, b: int)
    requires a <= b
    ensures MonthInstant(a) <= MonthInstant(b)
    ensures a < b ==> MonthInstant(a) < MonthInstant(b)
  {
    MonthStartMonotone(a, b);
  }

  /** Taking a time value apart by month, date and time of day, and back. */
  lemma DateParts(t: int)
    ensures t == MakeDate(MonthStart(MonthOf(t)) + UtcDate(t) - 1, TimeWithinDay(t))
    ensures 0 <= TimeWithinDay(t) < MS_PER_DAY
  {
  }

  lemma PartsOfDate(mi: int, date: int, time: int)
    requires 1 <= date <= MonthLength(mi) && 0 <= time < MS_PER_DAY
    ensures var t := MakeDate(MonthStart(mi) + date - 1, time);
            MonthOf(t) == mi && UtcDate(t) == date && TimeWithinDay(t) == time
  {
    var t := MakeDate(MonthStart(mi) + date - 1, time);
    assert Day(t) == MonthStart(mi) + date - 1;
    MonthsAbut(mi);
    MonthOfDayUnique(Day(t), mi);
  }
}
