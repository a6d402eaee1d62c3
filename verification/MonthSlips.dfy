// For which expressions with an open day field the search of include/dmcroncpp.h for a month passes over days that the
// expression allows.

module MonthSlips {
  import opened Gregorian
  import opened CronSearch
  import opened Reliability
  import opened Leastness
  import opened NextInstant

  /** The search for a month ends on the first of one, and passes nothing over if it does not slip. */
  lemma NothingPassedOver(cex: CronExpr, m: Moment)
    requires ValidExpr(cex) && NeverSlips(cex) && Normal(m)
    ensures !PassesOver(cex, m)
  {
    hide Landing, MonthLength, Day, Weekday, Slips, NeverSlips, TimeFits, Before;
    if MonthOnly(cex, m) {
      var marked := [true, true, true, false, true, false, false];
      var r := NextMonthOf(cex, m);
      Lands(cex.months, m, Month, marked);
      var v := MonthLanding(cex, m, marked);
      if Slips(cex, m.mon, m.mday, 1900 + r.year) {
        SlipsInSomeYear(cex, m.mon, m.mday, 1900 + r.year);
      }
      MonthPasses(cex, m, v, r);
      PassedIsSkipped(cex, m, r);
    }
  }

  /** From m, whose day the month v of the year after it does not have, the search passes over what q asks for. */
  lemma SlipsPast(cex: CronExpr, m: Moment, q: Moment)
    requires ValidExpr(cex) && Normal(m) && MonthOnly(cex, m) && Normal(q) && Satisfies(cex, q)
    requires q.mon == MonthAfter(cex, m.mon) && q.year == m.year + if HasBit(cex.months, m.mon) then 0 else 1
    requires MonthLength(1900 + q.year, q.mon) < m.mday
    ensures PassesOver(cex, m)
  {
    hide Landing, MonthLength, Day, Weekday, DayFits, TimeFits;
    var marked := [true, true, true, false, true, false, false];
    var v := MonthLanding(cex, m, marked);
    assert v == q.mon;
    assert Before(m, q) && Before(q, NextMonthOf(cex, m));
  }

  lemma ElevenYears()
    ensures YearStart(2001) == 730851 && YearStart(2002) == 731216 && YearStart(2003) == 731581
    ensures YearStart(2004) == 731946 && YearStart(2005) == 732312 && YearStart(2006) == 732677
    ensures YearStart(2009) == 733773 && YearStart(2010) == 734138
    ensures IsLeap(2004) && !IsLeap(2001) && !IsLeap(2002) && !IsLeap(2003) && !IsLeap(2005) && !IsLeap(2006)
    ensures !IsLeap(2009) && !IsLeap(2010)
  {
  }

  /** How many days of the week later the years begin, and their months after February. */
  function WeekShift(mon: nat, k: nat): (year: int)
    requires k < 7
    ensures 101 <= year <= 110
  {
    if mon == 0 then [101, 102, 103, 104, 110, 105, 106][k] else [101, 102, 103, 109, 104, 105, 106][k]
  }

  lemma ShiftedDay(mon: nat, d: nat, k: nat)
    requires mon < 12 && mon != 1 && k < 7
    ensures (Day(Moment(WeekShift(mon, k), mon, d, 0, 0, 0)) - Day(Moment(101, mon, d, 0, 0, 0))) % 7 == k
  {
    hide YearStart, IsLeap;
    ElevenYears();
  }

  lemma WeekdayLater(x: int, y: int, w: nat)
    requires w < 7 && (y - x) % 7 == (w - (x + 4) % 7) % 7
    ensures (y + 4) % 7 == w
  {
  }

  /** Each day of a month but February falls on each day of the week in one of ten years. */
  lemma YearWithWeekday(mon: nat, d: nat, w: nat) returns (year: int)
    requires mon < 12 && mon != 1 && 1 <= d <= MonthLength(2001, mon) && w < 7
    ensures var m := Moment(year, mon, d, 0, 0, 0); Normal(m) && Weekday(m) == w && 101 <= year <= 110
  {
    hide Day, WeekShift, IsLeap;
    var x := Day(Moment(101, mon, d, 0, 0, 0));
    var k := (w - (x + 4) % 7) % 7;
    year := WeekShift(mon, k);
    ShiftedDay(mon, d, k);
    WeekdayLater(x, Day(Moment(year, mon, d, 0, 0, 0)), w);
  }

  /** The first time of day that the expression allows, on this date. */
  function AtFirst(cex: CronExpr, year: int, mon: int, mday: int): Moment
    requires ValidExpr(cex)
  {
    Moment(year, mon, mday, NextBit(cex.hours, 0), NextBit(cex.minutes, 0), NextBit(cex.seconds, 0))
  }

  lemma SlipNotFromFebruary(cex: CronExpr, mon: nat, d: nat, y: int)
    requires ValidExpr(cex) && Slips(cex, mon, d, y) && (y == 2000 || y == 2001)
    ensures mon != 1 && MonthLength(2001, mon) == MonthLength(2000, mon) >= 30 && d <= 31
    ensures var n := MonthLength(y, MonthAfter(cex, mon)); n == 28 || n == 29 || n == 30
  {
    var v := MonthAfter(cex, mon);
    assert v != mon;
  }

  /** If all days of the week are allowed, the years 2000 and 2001 show the slip. */
  lemma SlipOfDate(cex: CronExpr, mon: nat, d: nat, y: int) returns (m: Moment)
    requires ValidExpr(cex) && AllSet(cex.daysOfWeek) && Slips(cex, mon, d, y) && (y == 2000 || y == 2001)
    ensures Normal(m) && 70 <= m.year <= 200 && PassesOver(cex, m)
  {
    hide MonthLength, Day, PassesOver;
    var v := MonthAfter(cex, mon);
    SlipNotFromFebruary(cex, mon, d, y);
    var year := y - 1900 - if HasBit(cex.months, mon) then 0 else 1;
    m := AtFirst(cex, year, mon, d);
    assert MonthLength(1900 + year, mon) == MonthLength(2000, mon) by { NotFebruary(1900 + year, mon); }
    var e :| 0 <= e < MonthLength(y, v) && cex.daysOfMonth[e];
    var q := AtFirst(cex, y - 1900, v, e + 1);
    SlipsPast(cex, m, q);
  }

  lemma NotFebruary(y: int, mon: nat)
    requires mon < 12 && mon != 1
    ensures MonthLength(y, mon) == MonthLength(2000, mon)
  {
  }

  /** If all days of the month are, one of ten years does. */
  lemma SlipOfWeekday(cex: CronExpr, mon: nat, d: nat, y: int) returns (m: Moment)
    requires ValidExpr(cex) && AllSet(cex.daysOfMonth) && Slips(cex, mon, d, y) && (y == 2000 || y == 2001)
    ensures Normal(m) && 70 <= m.year <= 200 && PassesOver(cex, m)
  {
    hide MonthLength, Day, PassesOver, Weekday;
    var v := MonthAfter(cex, mon);
    SlipNotFromFebruary(cex, mon, d, y);
    var day := if d < 30 then 30 else d;
    var year := YearWithWeekday(mon, day, NextBit(cex.daysOfWeek, 0));
    m := AtFirst(cex, year, mon, day);
    NotFebruary(1900 + year, mon);
    SameCalendarDay(cex, m, Moment(year, mon, day, 0, 0, 0)) by { assert Normal(m); }
    var target := year + if HasBit(cex.months, mon) then 0 else 1;
    var q := FittingInMonth(cex, target, v);
    TooShort(v, d, y, 1900 + target);
    SlipsPast(cex, m, q);
  }

  /** A month that lacks day d in one year lacks it, or the thirtieth, in every year. */
  lemma TooShort(mon: nat, d: nat, y: int, z: int)
    requires mon < 12 && MonthLength(y, mon) < d <= 31
    ensures MonthLength(z, mon) < if d < 30 then 30 else d
  {
  }

  /** Some day in the first week of a month is an allowed day of the week. */
  lemma FittingInMonth(cex: CronExpr, year: int, mon: nat) returns (q: Moment)
    requires ValidExpr(cex) && AllSet(cex.daysOfMonth) && mon < 12
    ensures Normal(q) && q.year == year && q.mon == mon && DayFits(cex, q)
    ensures q == AtFirst(cex, year, mon, q.mday)
  {
    hide MonthLength, YearStart, MonthStart, DayFits;
    var first := Moment(year, mon, 1, 0, 0, 0);
    var goal := FittingWeekday(cex, first);
    InSameMonth(first, goal, Moment(year, mon, 7, 0, 0, 0));
    q := AtFirst(cex, year, mon, goal.mday);
    SameCalendarDay(cex, goal, q);
  }

  /** With an open day field the search for a month passes something over, at some instant, exactly if it can slip. */
  lemma SlipsExactly(cex: CronExpr)
    requires ValidExpr(cex) && DaysFree(cex)
    ensures NeverSlips(cex) <==> forall t :: !(InTime(t) && PassesOver(cex, ToTm(t)))
  {
    hide ToTm, Stamp, PassesOver, Slips, HasBit;
    if NeverSlips(cex) {
      forall t
        ensures !PassesOver(cex, ToTm(t))
      {
        NothingPassedOver(cex, ToTm(t));
      }
    } else {
      var mon, d :| 0 <= mon < 12 && 1 <= d <= 31 && (Slips(cex, mon, d, 2000) || Slips(cex, mon, d, 2001));
      var y := if Slips(cex, mon, d, 2000) then 2000 else 2001;
      var m;
      if AllSet(cex.daysOfWeek) {
        m := SlipOfDate(cex, mon, d, y);
      } else {
        m := SlipOfWeekday(cex, mon, d, y);
      }
      Asked(m);
      assert PassesOver(cex, ToTm(Stamp(m)));
    }
  }
}
