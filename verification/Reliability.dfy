// Which cron expressions find_next of include/dmcroncpp.h can be trusted with: for which of them what it finds is
// always right, and for which of them it always finds something.

module Reliability {
  import opened Gregorian
  import opened CronSearch

  // ----- what the search is for

  predicate TimeFits(cex: CronExpr, m: Moment)
    requires ValidExpr(cex) && Normal(m)
  {
    cex.seconds[m.sec] && cex.minutes[m.min] && cex.hours[m.hour]
  }

  /** No search of the time of day carries into the day. */
  predicate NoCarry(cex: CronExpr, m: Moment)
    requires ValidExpr(cex) && Normal(m)
  {
    HasBit(cex.seconds, m.sec) && HasBit(cex.minutes, m.min) && HasBit(cex.hours, m.hour)
  }

  /** The search for a day goes from m to r: to midnight of the first fitting day, or of the 366th day. */
  ghost predicate DayFound(cex: CronExpr, m: Moment, r: Moment)
    requires ValidExpr(cex) && Normal(m) && Normal(r)
  {
    && Day(m) < Day(r) <= Day(m) + 366 && NoneFits(cex, Day(m), Day(r))
    && (DayFits(cex, r) || Day(r) == Day(m) + 366)
    && r.hour == 0 && r.min == 0 && r.sec == 0
  }

  /**
   * find_next, started at m, ends at r without a nested search: second, minute and hour fit, and the search for a
   * day either stays or goes to a day of the same number, which find_next takes for unmoved.
   */
  ghost predicate Taken(cex: CronExpr, m: Moment, r: Moment)
    requires ValidExpr(cex)
  {
    && Normal(m) && Normal(r) && TimeFits(cex, m) && cex.months[r.mon]
    && if DayFits(cex, m) then r == m else r.mday == m.mday && DayFound(cex, m, r)
  }

  lemma SatisfiedIsTaken(cex: CronExpr, m: Moment)
    requires ValidExpr(cex) && Normal(m)
    ensures Satisfies(cex, m) ==> Taken(cex, m, m)
  {
  }

  /** What it is then worth. */
  lemma TakenSatisfies(cex: CronExpr, m: Moment, r: Moment)
    requires ValidExpr(cex) && Taken(cex, m, r) && r != m
    ensures Satisfies(cex, r) <==> DayFits(cex, r) && cex.seconds[0] && cex.minutes[0] && cex.hours[0]
  {
  }

  lemma OneDayFound(cex: CronExpr, m: Moment, q: Moment, r: Moment)
    requires ValidExpr(cex) && Normal(m) && Normal(q) && Normal(r)
    requires DayFound(cex, m, q) && DayFound(cex, m, r)
    ensures q == r
  {
    hide Day, MonthLength, DayFits;
    if Day(q) == Day(r) {
      SameDate(q, r);
    }
  }

  // ----- the calendar repeats itself after 400 years

  const CYCLE := 146097

  function Cycled(m: Moment, k: int): Moment {
    m.(year := m.year + 400 * k)
  }

  lemma AddMultiple(x: int, d: int, q: int, n: int)
    requires d > 0 && n == d * q
    ensures (x + n) / d == x / d + q && (x + n) % d == x % d
  {
    assert d * (x / d + q) == d * (x / d) + n;
    Division(x + n, d, x / d + q, x % d);
  }

  lemma CycleYear(y: int, k: int)
    ensures YearStart(y + 400 * k) == YearStart(y) + CYCLE * k && IsLeap(y + 400 * k) == IsLeap(y)
  {
    var n := 400 * k;
    AddMultiple(y + 3, 4, 100 * k, n);
    AddMultiple(y + 99, 100, 4 * k, n);
    AddMultiple(y + 399, 400, k, n);
    AddMultiple(y, 4, 100 * k, n);
    AddMultiple(y, 100, 4 * k, n);
    AddMultiple(y, 400, k, n);
  }

  lemma CycleDay(m: Moment, k: int)
    requires Normal(m)
    ensures Normal(Cycled(m, k)) && Day(Cycled(m, k)) == Day(m) + CYCLE * k && Weekday(Cycled(m, k)) == Weekday(m)
  {
    hide YearStart, MonthStart, MonthLength, Weekday;
    var y := 1900 + m.year;
    CycleYear(y, k);
    assert 1900 + Cycled(m, k).year == y + 400 * k;
    CycleMonth(y, k, m.mon);
    CycleWeek(m, Cycled(m, k), k);
  }

  lemma CycleMonth(y: int, k: int, mon: nat)
    requires mon < 12 && IsLeap(y + 400 * k) == IsLeap(y)
    ensures MonthLength(y + 400 * k, mon) == MonthLength(y, mon) && MonthStart(y + 400 * k, mon) == MonthStart(y, mon)
  {
    hide IsLeap;
  }

  lemma CycleWeek(a: Moment, b: Moment, k: int)
    requires 0 <= a.mon < 12 && 0 <= b.mon < 12 && Day(b) == Day(a) + CYCLE * k
    ensures Weekday(b) == Weekday(a)
  {
    hide Day;
    AddMultiple(Day(a) + 4, 7, 20871 * k, CYCLE * k);
  }

  lemma CycleNoneFits(cex: CronExpr, a: int, b: int, k: int)
    requires ValidExpr(cex) && NoneFits(cex, a, b)
    ensures NoneFits(cex, a + CYCLE * k, b + CYCLE * k)
  {
    hide Day, MonthLength, Weekday;
    forall d: Moment | Normal(d) && a + CYCLE * k <= Day(d) < b + CYCLE * k
      ensures !DayFits(cex, d)
    {
      CycleDay(d, -k);
    }
  }

  // ----- what makes an expression reliable

  /** From the unfit day of m the search goes to r, whose day has the same number and whose month is allowed. */
  ghost predicate Mistakable(cex: CronExpr, m: Moment, r: Moment)
    requires ValidExpr(cex)
  {
    && Normal(m) && Normal(r) && !DayFits(cex, m) && DayFound(cex, m, r)
    && r.mday == m.mday && cex.months[r.mon]
  }

  /** Midnight of that day is as good as any answer. */
  predicate Harmless(cex: CronExpr, r: Moment)
    requires ValidExpr(cex) && Normal(r)
  {
    DayFits(cex, r) && cex.seconds[0] && cex.minutes[0] && cex.hours[0]
  }

  /** It is so for every day from 2000 to 2399 that can be mistaken. */
  ghost predicate Reliable(cex: CronExpr)
    requires ValidExpr(cex)
  {
    forall m, r :: Mistakable(cex, m, r) && 100 <= m.year < 500 ==> Harmless(cex, r)
  }

  lemma CycleMistakable(cex: CronExpr, m: Moment, r: Moment, k: int)
    requires ValidExpr(cex) && Mistakable(cex, m, r)
    ensures Mistakable(cex, Cycled(m, k), Cycled(r, k)) && Normal(r) && Normal(Cycled(r, k))
    ensures DayFits(cex, Cycled(r, k)) == DayFits(cex, r)
  {
    hide Day, MonthLength, Weekday, NoneFits;
    CycleDay(m, k);
    CycleDay(r, k);
    CycleNoneFits(cex, Day(m), Day(r), k);
  }

  /** Then it is so of every day at all. */
  lemma ReliableForEver(cex: CronExpr, m: Moment, r: Moment)
    requires ValidExpr(cex) && Reliable(cex) && Mistakable(cex, m, r)
    ensures Harmless(cex, r)
  {
    hide DayFits, Mistakable;
    var k := -((m.year - 100) / 400);
    CycleMistakable(cex, m, r, k);
    assert Cycled(m, k).year == 100 + (m.year - 100) % 400;
    assert Harmless(cex, Cycled(r, k));
  }

  /** What a reliable expression takes for the answer satisfies it, */
  lemma TakenReliably(cex: CronExpr, m: Moment, r: Moment)
    requires ValidExpr(cex) && Reliable(cex) && Taken(cex, m, r)
    ensures Satisfies(cex, r)
  {
    hide DayFits, Day, NoneFits, MonthLength, Reliable;
    if !DayFits(cex, m) {
      ReliableForEver(cex, m, r);
    }
  }

  /** and one that is not reliable takes something for the answer that does not. */
  lemma SomethingTaken(cex: CronExpr) returns (m: Moment, r: Moment)
    requires ValidExpr(cex) && !Reliable(cex)
    ensures Normal(m) && Taken(cex, m, r) && r != m && !Satisfies(cex, r) && 100 <= m.year < 500
  {
    hide Day, MonthLength, DayFits, NoneFits;
    var d, q :| Mistakable(cex, d, q) && 100 <= d.year < 500 && !Harmless(cex, q);
    m := d.(sec := NextBit(cex.seconds, 0), min := NextBit(cex.minutes, 0), hour := NextBit(cex.hours, 0));
    r := q;
    SameCalendarDay(cex, d, m);
  }

  lemma SameCalendarDay(cex: CronExpr, a: Moment, b: Moment)
    requires ValidExpr(cex) && Normal(a) && Normal(b) && a.year == b.year && a.mon == b.mon && a.mday == b.mday
    ensures Day(a) == Day(b) && DayFits(cex, a) == DayFits(cex, b)
  {
  }

  /** With one day field open there is nothing to mistake. */
  lemma FreeIsReliable(cex: CronExpr)
    requires ValidExpr(cex) && DaysFree(cex)
    ensures Reliable(cex)
  {
    hide Day, MonthLength, DayFits, NoneFits, DaysFree;
    forall m, r | Mistakable(cex, m, r)
      ensures false
    {
      FreeDayFound(cex, m, r);
    }
  }

  // ----- which expressions always have an answer

  /** Some allowed day of some allowed month comes every year. */
  predicate Yearly(cex: CronExpr)
    requires ValidExpr(cex)
  {
    exists mon, d :: 0 <= mon < 12 && cex.months[mon] && 0 <= d < MonthLength(2001, mon) && cex.daysOfMonth[d]
  }

  /** The search for an answer never fails: it need not search for a month, or an allowed date comes soon enough. */
  predicate Unfailing(cex: CronExpr)
    requires ValidExpr(cex)
  {
    AllSet(cex.months) || (DaysFree(cex) && Yearly(cex))
  }

  /** If a day field is open and the month is long enough, its first fitting day is at most this one. */
  function FirstDayBy(cex: CronExpr): (d: nat)
    requires ValidExpr(cex)
    ensures 1 <= d <= 31
  {
    if AllSet(cex.daysOfMonth) then 7 else NextBit(cex.daysOfMonth, 0) + 1
  }

  /** An allowed month that has a fitting day every year. */
  predicate GoodMonth(cex: CronExpr, mon: int)
    requires ValidExpr(cex)
  {
    0 <= mon < 12 && cex.months[mon] && FirstDayBy(cex) <= MonthLength(2001, mon)
  }

  lemma YearlyGoodMonth(cex: CronExpr) returns (mon: nat)
    requires ValidExpr(cex) && Yearly(cex)
    ensures GoodMonth(cex, mon)
  {
    var g, d :| 0 <= g < 12 && cex.months[g] && 0 <= d < MonthLength(2001, g) && cex.daysOfMonth[d];
    mon := g;
  }

  /** A fitting day comes in what is left of the month, and early. */
  ghost predicate Soon(cex: CronExpr, m: Moment)
    requires ValidExpr(cex) && Normal(m)
  {
    && NoCarry(cex, m)
    && exists d ::
         m.mday <= d <= FirstDayBy(cex) && d <= MonthLength(1900 + m.year, m.mon) && DayFits(cex, m.(mday := d))
  }

  /** The year of the next good month, this one included. */
  ghost function GoodYear(cex: CronExpr, m: Moment): int
    requires ValidExpr(cex)
  {
    if exists mon :: m.mon <= mon && GoodMonth(cex, mon) then m.year else m.year + 1
  }

  /** So many days the search may go on before it comes to the month. */
  function Span(cex: CronExpr, m: Moment): nat
    requires ValidExpr(cex) && Normal(m)
  {
    if !NoCarry(cex, m) then 366 else if DayFits(cex, m) then 0 else 365
  }

  /** Until then the search stays within the year y. */
  ghost predicate InRange(cex: CronExpr, m: Moment, y: int)
    requires ValidExpr(cex) && Normal(m)
  {
    forall d: Moment :: Normal(d) && Day(m) <= Day(d) <= Day(m) + Span(cex, m) ==> d.year <= y
  }

  /** No search for a month, from m on, leads beyond the year y. */
  ghost predicate Within(cex: CronExpr, m: Moment, y: int)
    requires ValidExpr(cex) && Normal(m)
  {
    if Soon(cex, m) then GoodYear(cex, m) <= y else InRange(cex, m, y - 2)
  }

  lemma RangeOf(cex: CronExpr, m: Moment, y: int)
    requires ValidExpr(cex) && Normal(m) && m.year + 2 <= y
    ensures InRange(cex, m, y) && Within(cex, m, m.year + 4)
  {
    hide Day, MonthLength, Soon, GoodMonth;
    forall d: Moment | Normal(d) && Day(m) <= Day(d) <= Day(m) + Span(cex, m)
      ensures d.year <= m.year + 2
    {
      FewYearsOn(m, d);
    }
  }

  lemma RangeHolds(cex: CronExpr, m: Moment, d: Moment, y: int)
    requires ValidExpr(cex) && Normal(m) && Normal(d) && InRange(cex, m, y) && Day(m) <= Day(d) <= Day(m) + Span(cex, m)
    ensures d.year <= y
  {
  }

  /** What the searches of the time of day do to the day: nothing, or the first of them carries into the next. */
  predicate SameOrNextDay(cex: CronExpr, m: Moment, r: Moment)
    requires ValidExpr(cex) && Normal(m) && Normal(r)
  {
    || (Day(r) == Day(m) && (NoCarry(cex, m) ==> NoCarry(cex, r)))
    || (Day(r) == Day(m) + 1 && !NoCarry(cex, m) && NoCarry(cex, r))
  }

  /** The search goes on from m to r within whatever bounds it had. */
  ghost predicate KeepsWithin(cex: CronExpr, m: Moment, r: Moment)
    requires ValidExpr(cex) && Normal(m) && Normal(r)
  {
    && (forall y :: InRange(cex, m, y) ==> InRange(cex, r, y))
    && (forall y :: Within(cex, m, y) ==> Within(cex, r, y))
  }

  lemma RangeShrinks(cex: CronExpr, m: Moment, r: Moment, y: int)
    requires ValidExpr(cex) && Normal(m) && Normal(r) && InRange(cex, m, y)
    requires Day(m) <= Day(r) && Day(r) + Span(cex, r) <= Day(m) + Span(cex, m)
    ensures InRange(cex, r, y) && r.year <= y
  {
    hide Day, MonthLength, Span;
    assert 0 <= Span(cex, r);
    forall d: Moment | Normal(d) && Day(r) <= Day(d) <= Day(r) + Span(cex, r)
      ensures d.year <= y
    {
      RangeHolds(cex, m, d, y);
    }
    RangeHolds(cex, m, r, y);
  }

  lemma SoonFacts(cex: CronExpr, m: Moment)
    requires ValidExpr(cex) && Normal(m) && Soon(cex, m)
    ensures NoCarry(cex, m) && m.mday <= FirstDayBy(cex)
  {
  }

  lemma BitFrom(t: Bits, from: int, i: int)
    requires 0 <= from <= i < |t| && t[i]
    ensures HasBit(t, from)
  {
  }

  /** Soon, told by the day and the NoCarry of m alone. */
  lemma SoonByDay(cex: CronExpr, m: Moment, r: Moment)
    requires ValidExpr(cex) && Normal(m) && Normal(r) && Day(m) == Day(r) && Soon(cex, m) && NoCarry(cex, r)
    ensures Soon(cex, r) && GoodYear(cex, r) == GoodYear(cex, m)
  {
    hide Day, MonthLength, GoodMonth, NoCarry, FirstDayBy;
    SameDate(m, r);
    var d :| m.mday <= d <= FirstDayBy(cex) && d <= MonthLength(1900 + m.year, m.mon) && DayFits(cex, m.(mday := d));
    SameCalendarDay(cex, m.(mday := d), r.(mday := d));
  }

  lemma TimeTurnWithin(cex: CronExpr, m: Moment, r: Moment)
    requires ValidExpr(cex) && Normal(m) && Normal(r) && SameOrNextDay(cex, m, r)
    ensures KeepsWithin(cex, m, r)
  {
    hide Day, MonthLength, GoodMonth, NoCarry, FirstDayBy, InRange, Soon, DayFits;
    assert Day(r) + Span(cex, r) <= Day(m) + Span(cex, m) by {
      if Day(m) == Day(r) {
        FitsByDate(cex, m, r);
      }
    }
    forall y | InRange(cex, m, y)
      ensures InRange(cex, r, y) && r.year <= y
    {
      RangeShrinks(cex, m, r, y);
    }
    if Soon(cex, m) {
      SoonFacts(cex, m);
      SoonByDay(cex, m, r);
    }
  }

  lemma DayTurnWithin(cex: CronExpr, m: Moment, r: Moment)
    requires ValidExpr(cex) && DaysFree(cex) && Normal(m) && Normal(r) && NoCarry(cex, m) && NoCarry(cex, r)
    requires !DayFits(cex, m) && DayFits(cex, r) && Day(m) < Day(r) && NoneFits(cex, Day(m), Day(r))
    ensures KeepsWithin(cex, m, r)
  {
    hide Day, MonthLength, GoodMonth, NoCarry, FirstDayBy, InRange, Soon, DayFits, DaysFree;
    var goal := FittingDay(cex, m);
    forall y | InRange(cex, m, y)
      ensures InRange(cex, r, y) && r.year <= y
    {
      RangeShrinks(cex, m, r, y);
    }
    if Soon(cex, m) {
      FoundSoon(cex, m, r);
    }
  }

  lemma FoundSoon(cex: CronExpr, m: Moment, r: Moment)
    requires ValidExpr(cex) && Normal(m) && Normal(r) && Soon(cex, m) && NoCarry(cex, r)
    requires !DayFits(cex, m) && DayFits(cex, r) && Day(m) < Day(r) && NoneFits(cex, Day(m), Day(r))
    ensures Soon(cex, r) && GoodYear(cex, r) == GoodYear(cex, m)
  {
    hide YearStart, MonthStart, MonthLength, GoodMonth, NoCarry, FirstDayBy, DayFits;
    var d :| m.mday <= d <= FirstDayBy(cex) && d <= MonthLength(1900 + m.year, m.mon) && DayFits(cex, m.(mday := d));
    var q := m.(mday := d);
    assert Day(m) <= Day(q);
    InSameMonth(m, r, q);
    SameCalendarDay(cex, r, r.(mday := r.mday));
  }

  /** Between two days of one month lie only days of that month. */
  lemma InSameMonth(a: Moment, b: Moment, c: Moment)
    requires Normal(a) && Normal(b) && Normal(c) && a.year == c.year && a.mon == c.mon && Day(a) <= Day(b) <= Day(c)
    ensures b.year == a.year && b.mon == a.mon && a.mday <= b.mday <= c.mday
  {
    hide Day, MonthLength;
    if b.year < a.year || (b.year == a.year && (b.mon < a.mon || (b.mon == a.mon && b.mday < a.mday))) {
      DaysInOrder(b, a);
    } else if b.year > c.year || (b.year == c.year && (b.mon > c.mon || (b.mon == c.mon && b.mday > c.mday))) {
      DaysInOrder(c, b);
    }
  }

  /** v is the next allowed month; a day that it does not have leads into the month after it. */
  predicate MonthLands(cex: CronExpr, m: Moment, v: nat, r: Moment)
    requires ValidExpr(cex) && Normal(m) && v < 12
  {
    && (if HasBit(cex.months, m.mon) then v == NextBit(cex.months, m.mon) && r.year == m.year
        else v == NextBit(cex.months, 0) && r.year == m.year + 1)
    && (r.mon == v || (r.mon == v + 1 && MonthLength(1900 + r.year, v) < m.mday))
    && (r.mon == v ==> m.mday <= MonthLength(1900 + r.year, v) || v == 0)
  }

  /** From the first of a month that is long enough a fitting day comes soon. */
  lemma FirstIsSoon(cex: CronExpr, r: Moment)
    requires ValidExpr(cex) && DaysFree(cex) && Normal(r) && NoCarry(cex, r) && r.mday == 1
    requires FirstDayBy(cex) <= MonthLength(1900 + r.year, r.mon)
    ensures Soon(cex, r)
  {
    hide YearStart, MonthStart, NoCarry, Weekday;
    if AllSet(cex.daysOfMonth) {
      hide MonthLength;
      var goal := FittingWeekday(cex, r);
      InSameMonth(r, goal, r.(mday := 7));
      SameCalendarDay(cex, goal, r.(mday := goal.mday));
    } else {
      assert DayFits(cex, r.(mday := FirstDayBy(cex)));
    }
  }

  lemma LongEnough(cex: CronExpr, m: Moment, v: nat, r: Moment)
    requires ValidExpr(cex) && Normal(m) && Normal(r) && v < 12 && DayFits(cex, m) && MonthLands(cex, m, v, r)
    ensures FirstDayBy(cex) <= MonthLength(1900 + r.year, r.mon)
  {
    hide Weekday;
  }

  /** No good month is passed over. */
  lemma GoodYearAfter(cex: CronExpr, m: Moment, v: nat, r: Moment)
    requires ValidExpr(cex) && Normal(m) && Normal(r) && v < 12 && MonthLands(cex, m, v, r) && !cex.months[m.mon]
    requires Yearly(cex) && m.mday <= FirstDayBy(cex)
    ensures r.year <= GoodYear(cex, r) <= GoodYear(cex, m)
  {
    hide MonthLength, FirstDayBy, HasBit;
    var some := YearlyGoodMonth(cex);
    CommonLength(r.year, v);
    if g :| m.mon <= g && GoodMonth(cex, g) {
      BitFrom(cex.months, m.mon, g);
      assert v <= g;
      assert r.mon <= g;
    } else if r.year > m.year {
      assert v <= some;
      assert r.mon <= some;
    }
  }

  lemma CommonLength(year: int, mon: nat)
    requires mon < 12
    ensures MonthLength(2001, mon) <= MonthLength(1900 + year, mon)
  {
  }

  lemma MonthTurnWithin(cex: CronExpr, m: Moment, v: nat, r: Moment, y: int)
    requires ValidExpr(cex) && DaysFree(cex) && Yearly(cex) && Normal(m) && Normal(r) && v < 12
    requires NoCarry(cex, r) && r.mday == 1 && DayFits(cex, m) && !cex.months[m.mon] && MonthLands(cex, m, v, r)
    requires Within(cex, m, y)
    ensures Within(cex, r, y) && r.year <= y
  {
    hide Day, MonthLength, GoodMonth, NoCarry, FirstDayBy, InRange, Soon, DayFits, DaysFree, Yearly;
    LongEnough(cex, m, v, r);
    FirstIsSoon(cex, r);
    if Soon(cex, m) {
      SoonFacts(cex, m);
      GoodYearAfter(cex, m, v, r);
    } else {
      RangeHolds(cex, m, m, y - 2);
    }
  }

  /** Without such a day only 29 February can be asked for. */
  lemma OnlyLeapDays(cex: CronExpr, m: Moment)
    requires ValidExpr(cex) && !Yearly(cex) && Normal(m) && Satisfies(cex, m)
    ensures m.mon == 1 && m.mday == 29 && IsLeap(1900 + m.year)
  {
    hide Weekday;
    assert !(m.mday - 1 < MonthLength(2001, m.mon));
  }
}
