// Calendar dates as struct tm counts them, and mktime as normalisation in the Gregorian calendar, without
// time zones or daylight saving.

module Gregorian {

  predicate IsLeap(y: int) {
    y % 4 == 0 && (y % 100 != 0 || y % 400 == 0)
  }

  /** How many of the years 0, 1, ... before y are multiples of k. */
  function MultiplesBelow(y: int, k: int): int
    requires k > 0
  {
    (y + k - 1) / k
  }

  /** Days from 1 January of year 0 to 1 January of year y. */
  function YearStart(y: int): int {
    365 * y + MultiplesBelow(y, 4) - MultiplesBelow(y, 100) + MultiplesBelow(y, 400)
  }

  function MonthLength(y: int, m: nat): (n: nat)
    requires m < 12
    ensures 28 <= n <= 31 && (m == 0 || m == 11 ==> n == 31)
  {
    if m == 1 then (if IsLeap(y) then 29 else 28)
    else if m == 3 || m == 5 || m == 8 || m == 10 then 30
    else 31
  }

  /** Days of year y before month m. */
  function MonthStart(y: int, m: nat): nat
    requires m <= 12
  {
    [0, 31, 59, 90, 120, 151, 181, 212, 243, 273, 304, 334, 365][m] + if m > 1 && IsLeap(y) then 1 else 0
  }

  lemma NextMonth(y: int, m: nat)
    requires m < 12
    ensures MonthStart(y, m + 1) == MonthStart(y, m) + MonthLength(y, m)
    ensures MonthStart(y, 0) == 0
  {
  }

  function DayNumber(y: int, m: nat, d: int): int
    requires m < 12
  {
    YearStart(y) + MonthStart(y, m) + d - 1
  }

  lemma NextYear(y: int)
    ensures YearStart(y + 1) == YearStart(y) + MonthStart(y, 12)
  {
    hide MultiplesBelow;
    OneMore(y, 4);
    OneMore(y, 100);
    OneMore(y, 400);
    Divisors(y);
  }

  lemma Divisors(y: int)
    ensures y % 400 == 0 ==> y % 100 == 0
    ensures y % 100 == 0 ==> y % 4 == 0
  {
  }

  lemma OneMore(y: int, k: int)
    requires k > 0
    ensures MultiplesBelow(y + 1, k) == MultiplesBelow(y, k) + if y % k == 0 then 1 else 0
  {
    var q, r := y / k, y % k;
    assert y == k * q + r;
    assert k * (q + 1) == k * q + k;
    Division(y + k, k, q + 1, r);
    if r == 0 {
      Division(y + k - 1, k, q, k - 1);
    } else {
      Division(y + k - 1, k, q + 1, r - 1);
    }
  }

  lemma Division(x: int, k: int, q: int, r: int)
    requires 0 <= r < k && x == k * q + r
    ensures x / k == q && x % k == r
  {
    var d := x / k - q;
    assert k * d == k * (x / k) - k * q;
    assert x == k * (x / k) + x % k;
    assert d >= 1 ==> k * d >= k;
    assert d <= -1 ==> k * d <= -k;
  }

  lemma {:induction false} YearsInOrder(x: int, y: int)
    requires x <= y
    ensures YearStart(x) <= YearStart(y)
    decreases y - x
  {
    if x < y {
      NextYear(x);
      YearsInOrder(x + 1, y);
    }
  }

  lemma {:induction false} MonthsInOrder(y: int, l: nat, m: nat)
    requires l <= m <= 12
    ensures MonthStart(y, l) <= MonthStart(y, m)
  {
    if l < m {
      MonthsInOrder(y, l, m - 1);
    }
  }

  /** The fields of a struct tm that mktime reads; year counts from 1900, mon from 0. */
  datatype Moment = Moment(year: int, mon: int, mday: int, hour: int, min: int, sec: int)

  const EPOCH := 719528

  predicate Normal(m: Moment) {
    && 0 <= m.mon < 12 && 1 <= m.mday <= MonthLength(1900 + m.year, m.mon)
    && 0 <= m.hour < 24 && 0 <= m.min < 60 && 0 <= m.sec < 60
  }

  /** Days since 1 January 1970. */
  function Day(m: Moment): int
    requires 0 <= m.mon < 12
  {
    DayNumber(1900 + m.year, m.mon, m.mday) - EPOCH
  }

  /** Seconds since the beginning of 1970. */
  function Stamp(m: Moment): int
    requires 0 <= m.mon < 12
  {
    ((Day(m) * 24 + m.hour) * 60 + m.min) * 60 + m.sec
  }

  /** tm_wday; 1 January 1970 was a Thursday. */
  function Weekday(m: Moment): (w: nat)
    requires 0 <= m.mon < 12
    ensures w < 7
  {
    (Day(m) + 4) % 7
  }

  lemma KnownYears()
    ensures YearStart(1970) == 719528 && YearStart(2000) == 730485 && YearStart(2100) == 767010
    ensures IsLeap(2000) && IsLeap(2024) && !IsLeap(2023) && !IsLeap(2100)
  {
  }

  lemma KnownMonths(y: int, m: nat)
    requires m < 12
    ensures MonthLength(y, m) ==
            (if IsLeap(y) then [31, 29, 31, 30, 31, 30, 31, 31, 30, 31, 30, 31]
             else [31, 28, 31, 30, 31, 30, 31, 31, 30, 31, 30, 31])[m]
  {
  }

  /** Some days as they are known, around the end of February in two centuries, */
  lemma KnownDays()
    ensures Day(Moment(70, 0, 1, 0, 0, 0)) == 0
    ensures Day(Moment(100, 1, 29, 0, 0, 0)) == 11016 && Day(Moment(100, 2, 1, 0, 0, 0)) == 11017
    ensures Day(Moment(200, 1, 28, 0, 0, 0)) == 47540 && Day(Moment(200, 2, 1, 0, 0, 0)) == 47541
  {
    hide YearStart, IsLeap;
    KnownYears();
  }

  /** with their days of the week, a Thursday, a Wednesday and a Monday, and their seconds. */
  lemma KnownInstants(a: Moment, b: Moment, c: Moment)
    requires a == Moment(70, 0, 1, 0, 0, 0) && b == Moment(100, 2, 1, 0, 0, 0) && c == Moment(200, 2, 1, 0, 0, 0)
    ensures Weekday(a) == 4 && Stamp(a) == 0
    ensures Weekday(b) == 3 && Stamp(b) == 951868800
    ensures Weekday(c) == 1 && Stamp(c) == 4107542400
  {
    hide Day, Stamp, Weekday;
    KnownDays();
    Midnight(a);
    Midnight(b);
    Midnight(c);
  }

  lemma Midnight(m: Moment)
    requires 0 <= m.mon < 12 && m.hour == 0 && m.min == 0 && m.sec == 0
    ensures Stamp(m) == Day(m) * 86400 && Weekday(m) == (Day(m) + 4) % 7
  {
    hide Day;
  }

  /** Month m of year y with a day count that may lie outside the month, as year, month and day. */
  function Settle(y: int, m: nat, d: int): (r: Moment)
    requires m < 12
    ensures 0 <= r.mon < 12 && 1 <= r.mday <= MonthLength(1900 + r.year, r.mon)
    decreases if d < 1 then 100 - d else d
  {
    if d < 1 then
      if m == 0 then Settle(y - 1, 11, d + 31)
      else Settle(y, m - 1, d + MonthLength(1900 + y, m - 1))
    else if d > MonthLength(1900 + y, m) then
      if m == 11 then Settle(y + 1, 0, d - 31)
      else Settle(y, m + 1, d - MonthLength(1900 + y, m))
    else Moment(y, m, d, 0, 0, 0)
  }

  lemma {:induction false} SettleKeepsDay(y: int, m: nat, d: int)
    requires m < 12
    ensures var r := Settle(y, m, d);
            DayNumber(1900 + r.year, r.mon, r.mday) == DayNumber(1900 + y, m, d)
    decreases if d < 1 then 100 - d else d
  {
    hide YearStart, MonthStart, MonthLength, IsLeap;
    if d < 1 {
      if m == 0 {
        NextYear(1900 + y - 1);
        NextMonth(1900 + y - 1, 11);
        NextMonth(1900 + y, 0);
        SettleKeepsDay(y - 1, 11, d + 31);
      } else {
        NextMonth(1900 + y, m - 1);
        SettleKeepsDay(y, m - 1, d + MonthLength(1900 + y, m - 1));
      }
    } else if d > MonthLength(1900 + y, m) {
      if m == 11 {
        NextYear(1900 + y);
        NextMonth(1900 + y, 11);
        NextMonth(1900 + y + 1, 0);
        SettleKeepsDay(y + 1, 0, d - 31);
      } else {
        NextMonth(1900 + y, m);
        SettleKeepsDay(y, m + 1, d - MonthLength(1900 + y, m));
      }
    }
  }

  /** What mktime makes of the fields. */
  function Norm(m: Moment): (r: Moment)
    ensures Normal(r)
  {
    var min := m.min + m.sec / 60;
    var hour := m.hour + min / 60;
    var date := Settle(m.year + m.mon / 12, m.mon % 12, m.mday + hour / 24);
    date.(hour := hour % 24, min := min % 60, sec := m.sec % 60)
  }

  /** The same instant with the month inside its year. */
  function MonthsCarried(m: Moment): (r: Moment)
    ensures 0 <= r.mon < 12 && (0 <= m.mon < 12 ==> r == m)
  {
    m.(year := m.year + m.mon / 12, mon := m.mon % 12)
  }

  /** Normalisation does not move the instant, whatever the fields hold, */
  lemma NormKeepsStamp(m: Moment)
    ensures Stamp(Norm(m)) == Stamp(MonthsCarried(m))
  {
    hide YearStart, MonthStart, MonthLength;
    var min := m.min + m.sec / 60;
    var hour := m.hour + min / 60;
    SettleKeepsDay(m.year + m.mon / 12, m.mon % 12, m.mday + hour / 24);
  }

  /** and leaves a normal date alone; */
  lemma NormOfNormal(m: Moment)
    requires Normal(m)
    ensures Norm(m) == m
  {
    hide MonthLength;
  }

  /** A day of the month that is too large for its month lies early in the next. */
  lemma SettleNear(y: int, m: nat, d: int)
    requires m < 12 && 1 <= d <= 31
    ensures var r, n := Settle(y, m, d), MonthLength(1900 + y, m);
            && r.year == y
            && (d <= n ==> r.mon == m && r.mday == d)
            && (d > n ==> m < 11 && r.mon == m + 1 && r.mday == d - n)
  {
    hide MonthLength;
    var n := MonthLength(1900 + y, m);
    if d > n {
      assert Settle(y, m, d) == Settle(y, m + 1, d - n);
    }
  }

  /** The time of day settles by itself. */
  lemma NormClock(m: Moment)
    ensures 0 <= m.sec < 60 ==> Norm(m).sec == m.sec
    ensures 0 <= m.sec < 60 && 0 <= m.min < 60 ==> Norm(m).min == m.min
    ensures 0 <= m.sec < 60 && 0 <= m.min < 60 && 0 <= m.hour < 24 ==> Norm(m).hour == m.hour
  {
    hide Settle;
  }

  /** Only the date of a normal time of day needs settling. */
  lemma NormDate(m: Moment)
    requires 0 <= m.mon < 12 && 0 <= m.hour < 24 && 0 <= m.min < 60 && 0 <= m.sec < 60
    ensures Norm(m) == Settle(m.year, m.mon, m.mday).(hour := m.hour, min := m.min, sec := m.sec)
  {
    hide Settle;
  }

  /** The days of a normal date lie in its month, and its month in its year. */
  lemma WithinYear(m: Moment)
    requires Normal(m)
    ensures YearStart(1900 + m.year) <= Day(m) + EPOCH < YearStart(1900 + m.year + 1)
  {
    hide YearStart, MonthStart, MonthLength, IsLeap;
    NextMonth(1900 + m.year, m.mon);
    MonthsInOrder(1900 + m.year, m.mon + 1, 12);
    NextYear(1900 + m.year);
  }

  lemma ClockBelowDay(m: Moment)
    requires Normal(m)
    ensures Day(m) * 86400 <= Stamp(m) < Day(m) * 86400 + 86400
  {
  }

  /** Normal dates are ordered like the instants they stand for. */
  predicate Before(a: Moment, b: Moment) {
    a.year < b.year
    || (a.year == b.year && (a.mon < b.mon
    || (a.mon == b.mon && (a.mday < b.mday
    || (a.mday == b.mday && (a.hour < b.hour
    || (a.hour == b.hour && (a.min < b.min
    || (a.min == b.min && a.sec < b.sec)))))))))
  }

  lemma DaysInOrder(a: Moment, b: Moment)
    requires Normal(a) && Normal(b)
    requires a.year < b.year || (a.year == b.year && (a.mon < b.mon || (a.mon == b.mon && a.mday < b.mday)))
    ensures Day(a) < Day(b)
  {
    hide YearStart, MonthStart, MonthLength, IsLeap;
    WithinYear(a);
    WithinYear(b);
    NextMonth(1900 + a.year, a.mon);
    if a.year < b.year {
      YearsInOrder(1900 + a.year + 1, 1900 + b.year);
    } else if a.mon < b.mon {
      MonthsInOrder(1900 + a.year, a.mon + 1, b.mon);
    }
  }

  lemma StampsInOrder(a: Moment, b: Moment)
    requires Normal(a) && Normal(b) && Before(a, b)
    ensures Stamp(a) < Stamp(b)
  {
    ClockBelowDay(a);
    ClockBelowDay(b);
    if a.year == b.year && a.mon == b.mon && a.mday == b.mday {
    } else {
      DaysInOrder(a, b);
    }
  }

  /** so Norm(m) is the only normal date for its instant. */
  lemma OneDatePerInstant(a: Moment, b: Moment)
    requires Normal(a) && Normal(b)
    ensures Stamp(a) < Stamp(b) <==> Before(a, b)
    ensures Stamp(a) == Stamp(b) <==> a == b
  {
    if Before(a, b) {
      StampsInOrder(a, b);
    } else if Before(b, a) {
      StampsInOrder(b, a);
    }
  }

  lemma SameDays(a: Moment, b: Moment)
    requires 0 <= a.mon < 12 && a.year == b.year && a.mon == b.mon && a.mday == b.mday
    ensures Day(a) == Day(b)
  {
  }

  lemma SameDate(a: Moment, b: Moment)
    requires Normal(a) && Normal(b) && Day(a) == Day(b)
    ensures a.year == b.year && a.mon == b.mon && a.mday == b.mday
  {
    hide Day, Normal;
    if a.year < b.year || (a.year == b.year && (a.mon < b.mon || (a.mon == b.mon && a.mday < b.mday))) {
      DaysInOrder(a, b);
    } else if b.year < a.year || (a.year == b.year && (b.mon < a.mon || (a.mon == b.mon && b.mday < a.mday))) {
      DaysInOrder(b, a);
    }
  }

  lemma LaterDay(a: Moment, b: Moment)
    requires Normal(a) && Normal(b) && Day(a) < Day(b)
    ensures Before(a, b) && a.year <= b.year
  {
    hide Day, Normal;
    ClockBelowDay(a);
    ClockBelowDay(b);
    OneDatePerInstant(a, b);
  }

  /** The same day of the month comes again after four weeks at the earliest. */
  lemma SameDayApart(a: Moment, b: Moment)
    requires Normal(a) && Normal(b) && Day(a) < Day(b) && a.mday == b.mday
    ensures Day(b) - Day(a) >= 28
  {
    hide YearStart, MonthStart, MonthLength, IsLeap;
    LaterDay(a, b);
    var l := a.(mday := MonthLength(1900 + a.year, a.mon));
    var f := b.(mday := 1);
    DaysInOrder(l, f);
  }

  /** The next day at the same time of day. */
  lemma NextDay(m: Moment, k: nat)
    requires Normal(m)
    ensures var a := Norm(m.(mday := m.mday + k));
            && Day(a) == Day(m) + k && a.hour == m.hour && a.min == m.min && a.sec == m.sec
  {
    hide YearStart, MonthStart, MonthLength, Settle;
    var b := m.(mday := m.mday + k);
    NormClock(b);
    NormDate(b);
    SettleKeepsDay(b.year, b.mon, b.mday);
  }

  /** Within 366 days the year goes on by two at most. */
  lemma FewYearsOn(a: Moment, b: Moment)
    requires Normal(a) && Normal(b) && Day(b) <= Day(a) + 366
    ensures b.year <= a.year + 2
  {
    hide YearStart, MonthStart, MonthLength, IsLeap, Day;
    if b.year > a.year + 2 {
      WithinYear(a);
      WithinYear(b);
      YearAtLeast(1900 + a.year + 1);
      YearAtLeast(1900 + a.year + 2);
      YearsInOrder(1900 + a.year + 3, 1900 + b.year);
    }
  }

  lemma YearAtLeast(y: int)
    ensures YearStart(y) + 365 <= YearStart(y + 1) <= YearStart(y) + 366
  {
    hide YearStart;
    NextYear(y);
  }
}
