// Whether what find_next of include/dmcroncpp.h finds is the next instant that a cron expression allows, or whether it
// passes one over.

module Leastness {
  import opened Gregorian
  import opened CronSearch
  import opened Reliability

  /** No instant from a up to, but not including, b satisfies the expression. */
  ghost predicate Skips(cex: CronExpr, a: Moment, b: Moment)
    requires ValidExpr(cex)
  {
    forall x: Moment :: Normal(x) && (x == a || Before(a, x)) && Before(x, b) ==> !Satisfies(cex, x)
  }

  lemma SkipsOn(cex: CronExpr, a: Moment, b: Moment, c: Moment)
    requires ValidExpr(cex) && Skips(cex, a, b) && Skips(cex, b, c)
    ensures Skips(cex, a, c)
  {
    hide Satisfies;
  }

  lemma SkipsNothing(cex: CronExpr, a: Moment)
    requires ValidExpr(cex)
    ensures Skips(cex, a, a)
  {
    hide Satisfies;
  }

  predicate SameMinute(a: Moment, b: Moment) {
    a.year == b.year && a.mon == b.mon && a.mday == b.mday && a.hour == b.hour && a.min == b.min
  }

  /** From a to b the search passes over an instant it looks for at most in the minute of b. */
  ghost predicate Passes(cex: CronExpr, a: Moment, b: Moment)
    requires ValidExpr(cex)
  {
    forall x: Moment :: Normal(x) && (x == a || Before(a, x)) && Before(x, b) && Satisfies(cex, x) ==> SameMinute(x, b)
  }

  // ----- the search for one field

  function Hours(m: Moment): int
    requires 0 <= m.mon < 12
  {
    Day(m) * 24 + m.hour
  }

  function Minutes(m: Moment): int
    requires 0 <= m.mon < 12
    ensures Stamp(m) == Minutes(m) * 60 + m.sec
  {
    Hours(m) * 60 + m.min
  }

  lemma InHour(a: Moment, b: Moment)
    requires Normal(a) && Normal(b) && Hours(a) == Hours(b)
    ensures a.year == b.year && a.mon == b.mon && a.mday == b.mday && a.hour == b.hour
  {
    hide Day, MonthLength;
    SameDate(a, b);
  }

  lemma InMinute(a: Moment, b: Moment)
    requires Normal(a) && Normal(b) && Minutes(a) == Minutes(b)
    ensures SameMinute(a, b)
  {
    hide Hours, MonthLength;
    InHour(a, b);
  }

  lemma InOrder(a: Moment, b: Moment)
    requires Normal(a) && Normal(b) && (a == b || Before(a, b))
    ensures Day(a) <= Day(b) && Hours(a) <= Hours(b) && Minutes(a) <= Minutes(b) && Stamp(a) <= Stamp(b)
  {
    hide Day, MonthLength, Before;
    if a != b {
      StampsInOrder(a, b);
    }
  }

  /** Adding one to the field that a search carries into goes on by one of its units. */
  lemma CarryIsOne(m: Moment, field: Field)
    requires Normal(m) && Searched(field) && !field.Month?
    ensures var a := Norm(Added(m, NextOf(field), 1));
            && Normal(a) && (field.Second? ==> Minutes(a) == Minutes(m) + 1)
            && (field.Minute? ==> Hours(a) == Hours(m) + 1) && (field.HourOfDay? ==> Day(a) == Day(m) + 1)
  {
    hide Norm, YearStart, MonthStart, MonthLength;
    var b := Added(m, NextOf(field), 1);
    NormKeepsStamp(b);
    NormClock(b);
    assert Day(b) == Day(m) + if field.HourOfDay? then 1 else 0;
  }

  /** Where the search for a second, minute or hour ends. */
  lemma LandsAt(t: Bits, m: Moment, field: Field, marked: Bits)
    requires Normal(m) && MarksBelow(marked, field) && !field.Month?
    requires HasBit(t, 0) && |t| == Size(field) && !t[Get(m, field)]
    ensures var r, v := Landing(t, m, field, marked), Get(m, field);
            && Normal(r)
            && if HasBit(t, v) then r == Rounded(With(m, field, NextBit(t, v)), marked, 7)
               else r == Rounded(With(Norm(Added(m, NextOf(field), 1)), field, NextBit(t, 0)), marked, 7)
  {
    hide Norm, MonthLength, Carried, Rounded, Before;
    Lands(t, m, field, marked);
    if !HasBit(t, Get(m, field)) {
      CarriesTo(m, field, NextBit(t, 0));
    }
  }

  lemma MinutePasses(cex: CronExpr, m: Moment, marked: Bits)
    requires ValidExpr(cex) && Normal(m) && MarksBelow(marked, Minute) && !cex.minutes[m.min]
    ensures Passes(cex, m, Landing(cex.minutes, m, Minute, marked))
  {
    hide Norm, Landing, Day, MonthLength, Weekday;
    var r := Landing(cex.minutes, m, Minute, marked);
    LandsAt(cex.minutes, m, Minute, marked);
    if !HasBit(cex.minutes, m.min) {
      var a := Norm(Added(m, HourOfDay, 1));
      CarryIsOne(m, Minute);
      forall x: Moment | Normal(x) && (x == m || Before(m, x)) && Before(x, r) && Satisfies(cex, x)
        ensures SameMinute(x, r)
      {
        InOrder(m, x);
        InOrder(x, r);
        SameDays(a, r);
        if Hours(x) == Hours(m) {
          InHour(x, m);
          BitFrom(cex.minutes, m.min, x.min);
        } else {
          InHour(x, r);
        }
      }
    }
  }

  lemma HourPasses(cex: CronExpr, m: Moment, marked: Bits)
    requires ValidExpr(cex) && Normal(m) && MarksBelow(marked, HourOfDay) && marked[1] && !cex.hours[m.hour]
    ensures Passes(cex, m, Landing(cex.hours, m, HourOfDay, marked))
  {
    hide Norm, Landing, Day, MonthLength, Weekday;
    var r := Landing(cex.hours, m, HourOfDay, marked);
    LandsAt(cex.hours, m, HourOfDay, marked);
    if !HasBit(cex.hours, m.hour) {
      var a := Norm(Added(m, DayOfWeek, 1));
      CarryIsOne(m, HourOfDay);
      forall x: Moment | Normal(x) && (x == m || Before(m, x)) && Before(x, r) && Satisfies(cex, x)
        ensures SameMinute(x, r)
      {
        InOrder(m, x);
        InOrder(x, r);
        SameDays(a, r);
        if Day(x) == Day(m) {
          SameDate(x, m);
          BitFrom(cex.hours, m.hour, x.hour);
        } else {
          SameDate(x, r);
        }
      }
    }
  }

  lemma DayPasses(cex: CronExpr, m: Moment, r: Moment)
    requires ValidExpr(cex) && Normal(m) && Normal(r) && NoneFits(cex, Day(m), Day(r)) && r.hour == 0 && r.min == 0
    ensures Passes(cex, m, r)
  {
    hide Day, MonthLength, DayFits;
    forall x: Moment | Normal(x) && (x == m || Before(m, x)) && Before(x, r) && Satisfies(cex, x)
      ensures SameMinute(x, r)
    {
      InOrder(m, x);
      InOrder(x, r);
      SameDate(x, r);
    }
  }

  /** The next allowed month. */
  function MonthAfter(cex: CronExpr, mon: nat): (v: nat)
    requires ValidExpr(cex) && mon < 12
    ensures v < 12 && cex.months[v]
  {
    if HasBit(cex.months, mon) then NextBit(cex.months, mon) else NextBit(cex.months, 0)
  }

  /**
   * From day d of a month that is not allowed the search for the next allowed month, in year y, leads into the month
   * after it, because it has no day d; but it has an allowed day.
   */
  predicate Slips(cex: CronExpr, mon: nat, d: nat, y: int)
    requires ValidExpr(cex)
  {
    && mon < 12 && !cex.months[mon] && 1 <= d <= MonthLength(2000, mon) && cex.daysOfMonth[d - 1]
    && var n := MonthLength(y, MonthAfter(cex, mon));
       n < d && exists e :: 0 <= e < n && cex.daysOfMonth[e]
  }

  predicate NeverSlips(cex: CronExpr)
    requires ValidExpr(cex)
  {
    forall mon, d :: 0 <= mon < 12 && 1 <= d <= 31 ==> !Slips(cex, mon, d, 2000) && !Slips(cex, mon, d, 2001)
  }

  /** What holds of a leap year and of another holds of all. */
  lemma SlipsInSomeYear(cex: CronExpr, mon: nat, d: nat, y: int)
    requires ValidExpr(cex) && Slips(cex, mon, d, y)
    ensures !NeverSlips(cex)
  {
    var v := MonthAfter(cex, mon);
    assert MonthLength(y, v) == MonthLength(if IsLeap(y) then 2000 else 2001, v);
    assert Slips(cex, mon, d, if IsLeap(y) then 2000 else 2001);
  }

  lemma LongestMonth(y: int, mon: nat)
    requires mon < 12
    ensures MonthLength(y, mon) <= MonthLength(2000, mon)
  {
  }

  /** The first of the next allowed month, or of the month after it if that does no harm. */
  lemma MonthPasses(cex: CronExpr, m: Moment, v: nat, r: Moment)
    requires ValidExpr(cex) && Normal(m) && Normal(r) && v < 12 && MonthLands(cex, m, v, r) && !cex.months[m.mon]
    requires cex.daysOfMonth[m.mday - 1] && !Slips(cex, m.mon, m.mday, 1900 + r.year)
    requires r.mday == 1 && r.hour == 0 && r.min == 0
    ensures Passes(cex, m, r)
  {
    hide MonthLength;
    LongestMonth(1900 + m.year, m.mon);
    forall x: Moment | Normal(x) && (x == m || Before(m, x)) && Before(x, r) && Satisfies(cex, x)
      ensures SameMinute(x, r)
    {
      if x.year == m.year && m.mon <= x.mon {
        BitFrom(cex.months, m.mon, x.mon);
      }
      if x.year == r.year && x.mon == v {
        assert cex.daysOfMonth[x.mday - 1];
      }
    }
  }

  // ----- where an instant is passed over

  /** A search for a month, if there is one, passes no allowed day over. */
  ghost predicate Orderly(cex: CronExpr)
    requires ValidExpr(cex)
  {
    Reliable(cex) && (AllSet(cex.months) || (DaysFree(cex) && NeverSlips(cex)))
  }

  predicate NoneBelow(t: Bits, i: int) {
    forall j :: 0 <= j < i && j < |t| ==> !t[j]
  }

  /** The second of m does not fit, and a later one in its minute does, at n. */
  predicate Moved(cex: CronExpr, m: Moment, n: Moment)
    requires ValidExpr(cex) && Normal(m)
  {
    !cex.seconds[m.sec] && HasBit(cex.seconds, m.sec) && n == m.(sec := NextBit(cex.seconds, m.sec))
  }

  /** The fields below the given level of minute, hour, day and month are marked, but not the second. */
  function MarkedTo(level: nat): Bits {
    [false, level >= 1, level >= 2, false, level >= 3, false, false]
  }

  predicate FitsTo(cex: CronExpr, m: Moment, level: nat)
    requires ValidExpr(cex) && Normal(m)
  {
    && cex.seconds[m.sec] && (level >= 1 ==> cex.minutes[m.min]) && (level >= 2 ==> cex.hours[m.hour])
    && (level >= 3 ==> DayFits(cex, m))
  }

  /**
   * From n, whose second fits, the lowest other field that does not fit goes on to the next value that does, at r; the
   * fields below it are rounded down, except for the second.
   */
  ghost predicate Stop(cex: CronExpr, n: Moment, r: Moment)
    requires ValidExpr(cex) && Normal(n)
  {
    if !cex.minutes[n.min] then r == Landing(cex.minutes, n, Minute, MarkedTo(0))
    else if !cex.hours[n.hour] then r == Landing(cex.hours, n, HourOfDay, MarkedTo(1))
    else if !DayFits(cex, n) then
      && Normal(r) && Day(n) < Day(r) <= Day(n) + 366 && NoneFits(cex, Day(n), Day(r)) && DayFits(cex, r)
      && r.hour == 0 && r.min == 0 && r.sec == n.sec
    else !cex.months[n.mon] && r == Landing(cex.months, n, Month, MarkedTo(3))
  }

  /**
   * The second of m is not allowed, an earlier and a later one of its minute are, and with the later one the next
   * stop satisfies the expression.  The search ends there, though the earlier second of the same minute comes first.
   */
  ghost predicate Hasty(cex: CronExpr, m: Moment)
    requires ValidExpr(cex) && Normal(m)
  {
    && !NoneBelow(cex.seconds, m.sec)
    && exists n, r ::
         Moved(cex, m, n) && Normal(n) && Stop(cex, n, r) && Normal(r) && Satisfies(cex, r)
  }

  /** What a search from start comes to at m. */
  ghost predicate Sought(cex: CronExpr, start: Moment, m: Moment)
    requires ValidExpr(cex) && Normal(start)
  {
    if Hasty(cex, start) then
      (exists n :: Moved(cex, start, n) && Normal(n) && Stop(cex, n, m)) && Normal(m) && Satisfies(cex, m)
    else Skips(cex, start, m)
  }

  /** The same of a search that has come to now, with the fields up to the given level searched. */
  ghost predicate Passing(cex: CronExpr, start: Moment, now: Moment, marked: Bits, level: nat)
    requires ValidExpr(cex) && |marked| == 7
  {
    && Normal(start) && Normal(now)
    && if Satisfies(cex, now) then Sought(cex, start, now)
       else
         && Skips(cex, start, now) && FitsTo(cex, now, level) && (Hasty(cex, start) ==> Moved(cex, start, now))
         && if Moved(cex, start, now) then marked == MarkedTo(level)
            else marked[0] || NoneBelow(cex.seconds, now.sec)
  }

  lemma OneStop(cex: CronExpr, n: Moment, q: Moment, r: Moment)
    requires ValidExpr(cex) && Normal(n) && Stop(cex, n, q) && Stop(cex, n, r)
    ensures q == r
  {
    hide Landing, Day, MonthLength, DayFits;
    if cex.minutes[n.min] && cex.hours[n.hour] && !DayFits(cex, n) {
      if Day(q) == Day(r) {
        SameDate(q, r);
      }
    }
  }

  lemma HastyEndsAt(cex: CronExpr, start: Moment, n: Moment, r: Moment, m: Moment)
    requires ValidExpr(cex) && Normal(start) && Hasty(cex, start) && Moved(cex, start, n) && Stop(cex, n, r)
    requires Sought(cex, start, m)
    ensures m == r
  {
    hide Stop, Satisfies;
    OneStop(cex, n, r, m);
  }

  lemma NotHasty(cex: CronExpr, m: Moment)
    requires ValidExpr(cex) && Normal(m) && (cex.seconds[m.sec] || NoneBelow(cex.seconds, m.sec))
    ensures !Hasty(cex, m)
  {
  }

  /** The instant r that a nested search starts from is as good as where the search around it started. */
  ghost predicate Kept(cex: CronExpr, start: Moment, r: Moment)
    requires ValidExpr(cex)
  {
    Normal(start) && Normal(r) && !Hasty(cex, r) && Sought(cex, start, r)
  }

  /** Another instant of a minute that fits. */
  lemma MinuteSatisfies(cex: CronExpr, x: Moment, r: Moment)
    requires ValidExpr(cex) && Normal(x) && Normal(r) && Satisfies(cex, x) && SameMinute(x, r) && cex.seconds[r.sec]
    ensures Satisfies(cex, r)
  {
    hide DayFits, Day, MonthLength;
    SameCalendarDay(cex, x, r);
  }

  lemma PassedIsSkipped(cex: CronExpr, now: Moment, r: Moment)
    requires ValidExpr(cex) && Normal(r) && Passes(cex, now, r)
    requires NoneBelow(cex.seconds, r.sec) || (cex.seconds[r.sec] && !Satisfies(cex, r))
    ensures Skips(cex, now, r)
  {
    hide DayFits, Day, MonthLength, HasBit;
    forall x: Moment | Normal(x) && (x == now || Before(now, x)) && Before(x, r)
      ensures !Satisfies(cex, x)
    {
      if Satisfies(cex, x) && !NoneBelow(cex.seconds, r.sec) {
        MinuteSatisfies(cex, x, r);
      }
    }
  }

  /** If the next stop from n satisfies the expression, it is r. */
  ghost predicate StopsAt(cex: CronExpr, n: Moment, r: Moment)
    requires ValidExpr(cex) && Normal(n) && Normal(r)
  {
    && (Satisfies(cex, r) ==> Stop(cex, n, r))
    && forall q :: Stop(cex, n, q) && Normal(q) && Satisfies(cex, q) ==> q == r
  }

  lemma TurnIsKept(cex: CronExpr, start: Moment, now: Moment, r: Moment, marked: Bits, level: nat)
    requires ValidExpr(cex) && |marked| == 7 && Passing(cex, start, now, marked, level) && !Satisfies(cex, now)
    requires Normal(r) && Passes(cex, now, r) && r.sec == (if marked[0] then 0 else now.sec)
    requires Moved(cex, start, now) ==> StopsAt(cex, now, r)
    ensures Kept(cex, start, r)
  {
    hide Stop, DayFits, Day, MonthLength, HasBit;
    NotHasty(cex, r);
    if Hasty(cex, start) {
      var q :| Stop(cex, now, q) && Normal(q) && Satisfies(cex, q);
    } else {
      PassedIsSkipped(cex, now, r);
      SkipsOn(cex, start, now, r);
    }
  }

  lemma SecondPassing(cex: CronExpr, start: Moment)
    requires ValidExpr(cex) && Normal(start)
    ensures var none := seq(7, i => false);
            && MarksBelow(none, Second)
            && Passing(cex, start, Landing(cex.seconds, start, Second, none),
                     if cex.seconds[start.sec] then none[0 := true] else none, 0)
  {
    hide Landing, Norm, Day, MonthLength, DayFits, Stop;
    var none := seq(7, i => false);
    var r := Landing(cex.seconds, start, Second, none);
    if cex.seconds[start.sec] {
      NotHasty(cex, start);
      SkipsNothing(cex, start);
      LandsNowhere(cex.seconds, start, Second, none);
    } else if HasBit(cex.seconds, start.sec) {
      LandsAt(cex.seconds, start, Second, none);
      assert none == MarkedTo(0);
      assert Skips(cex, start, r);
      if Satisfies(cex, r) {
        AllFits(cex, r);
      }
    } else {
      LandsAt(cex.seconds, start, Second, none);
      SecondPasses(cex, start, none);
      PassedIsSkipped(cex, start, r);
    }
  }

  lemma LandsNowhere(t: Bits, m: Moment, field: Field, marked: Bits)
    requires MarksBelow(marked, field) && HasBit(t, 0) && 0 <= Get(m, field) < |t| && t[Get(m, field)]
    ensures Landing(t, m, field, marked) == m
  {
  }

  lemma AllFits(cex: CronExpr, n: Moment)
    requires ValidExpr(cex) && Normal(n) && Satisfies(cex, n)
    ensures forall r :: !Stop(cex, n, r)
  {
  }

  lemma SecondPasses(cex: CronExpr, m: Moment, marked: Bits)
    requires ValidExpr(cex) && Normal(m) && MarksBelow(marked, Second) && !cex.seconds[m.sec]
    requires !HasBit(cex.seconds, m.sec)
    ensures var r := Landing(cex.seconds, m, Second, marked);
            Normal(r) && Passes(cex, m, r) && r.sec == NextBit(cex.seconds, 0)
  {
    hide Norm, Landing, Day, Hours, MonthLength, Weekday;
    var r := Landing(cex.seconds, m, Second, marked);
    LandsAt(cex.seconds, m, Second, marked);
    var a := Norm(Added(m, Minute, 1));
    CarryIsOne(m, Second);
    forall x: Moment | Normal(x) && (x == m || Before(m, x)) && Before(x, r) && Satisfies(cex, x)
      ensures SameMinute(x, r)
    {
      InOrder(m, x);
      InOrder(x, r);
      SameHours(a, r);
      if Minutes(x) == Minutes(m) {
        InMinute(x, m);
        BitFrom(cex.seconds, m.sec, x.sec);
      } else {
        InMinute(x, r);
      }
    }
  }

  lemma SameHours(a: Moment, b: Moment)
    requires 0 <= a.mon < 12 && a.year == b.year && a.mon == b.mon && a.mday == b.mday && a.hour == b.hour
    ensures Hours(a) == Hours(b)
  {
  }

  lemma MinutePassing(cex: CronExpr, start: Moment, now: Moment, marked: Bits)
    requires ValidExpr(cex) && MarksBelow(marked, Minute) && Passing(cex, start, now, marked, 0)
    ensures if cex.minutes[now.min] then Passing(cex, start, now, marked[1 := true], 1)
            else Kept(cex, start, Landing(cex.minutes, now, Minute, marked))
  {
    hide Landing, Norm, Day, MonthLength, DayFits, Before;
    if cex.minutes[now.min] {
      assert marked == MarkedTo(0) ==> marked[1 := true] == MarkedTo(1);
    } else {
      Lands(cex.minutes, now, Minute, marked);
      MinutePasses(cex, now, marked);
      TurnIsKept(cex, start, now, Landing(cex.minutes, now, Minute, marked), marked, 0);
    }
  }

  lemma HourPassing(cex: CronExpr, start: Moment, now: Moment, marked: Bits)
    requires ValidExpr(cex) && MarksBelow(marked, HourOfDay) && Passing(cex, start, now, marked, 1)
    requires !Satisfies(cex, now) ==> marked[1]
    ensures if cex.hours[now.hour] then Passing(cex, start, now, marked[2 := true], 2)
            else Kept(cex, start, Landing(cex.hours, now, HourOfDay, marked))
  {
    hide Landing, Norm, Day, MonthLength, DayFits, Before;
    if cex.hours[now.hour] {
      assert marked == MarkedTo(1) ==> marked[2 := true] == MarkedTo(2);
    } else {
      Lands(cex.hours, now, HourOfDay, marked);
      HourPasses(cex, now, marked);
      TurnIsKept(cex, start, now, Landing(cex.hours, now, HourOfDay, marked), marked, 1);
    }
  }

  /** The day fits, or the search for it goes to r. */
  lemma DayPassing(cex: CronExpr, start: Moment, now: Moment, r: Moment, marked: Bits)
    requires ValidExpr(cex) && ClockMarks(marked) && Passing(cex, start, now, marked, 2)
    requires !Satisfies(cex, now) ==> marked[1] && marked[2]
    requires DayFits(cex, now) ==> r == now
    requires !DayFits(cex, now) ==> OtherDay(now, r, marked) && NoneFits(cex, Day(now), Day(r))
                                    && (DayFits(cex, r) || Day(r) == Day(now) + 366)
    ensures if DayFits(cex, now) then Passing(cex, start, r, marked[4 := true], 3) else Kept(cex, start, r)
  {
    hide Norm, Day, MonthLength, DayFits, Before;
    if DayFits(cex, now) {
      assert marked == MarkedTo(2) ==> marked[4 := true] == MarkedTo(3);
    } else {
      DayPasses(cex, now, r);
      if Moved(cex, start, now) {
        DayStopsAt(cex, now, r);
      }
      TurnIsKept(cex, start, now, r, marked, 2);
    }
  }

  lemma DayStopsAt(cex: CronExpr, n: Moment, r: Moment)
    requires ValidExpr(cex) && Normal(n) && Normal(r) && FitsTo(cex, n, 2) && !DayFits(cex, n)
    requires Day(n) < Day(r) <= Day(n) + 366 && NoneFits(cex, Day(n), Day(r)) && r.hour == 0 && r.min == 0
    requires r.sec == n.sec && (DayFits(cex, r) || Day(r) == Day(n) + 366)
    ensures StopsAt(cex, n, r)
  {
    hide Day, MonthLength, DayFits;
    forall q | Stop(cex, n, q) && Normal(q) && Satisfies(cex, q)
      ensures q == r
    {
      if Day(q) == Day(r) {
        SameDate(q, r);
      }
    }
  }

  /** A day taken for unmoved where no month is searched for. */
  lemma TakenPassing(cex: CronExpr, start: Moment, r: Moment, marked: Bits)
    requires ValidExpr(cex) && Kept(cex, start, r) && Satisfies(cex, r) && |marked| == 7
    ensures Passing(cex, start, r, marked, 3)
  {
  }

  /** The month fits, or the first of the next allowed one is the next stop. */
  lemma MonthPassing(cex: CronExpr, start: Moment, now: Moment, v: nat, r: Moment, marked: Bits)
    requires ValidExpr(cex) && NeverSlips(cex) && MarksBelow(marked, Month)
    requires Passing(cex, start, now, marked, 3) && !cex.months[now.mon] && v < 12 && MonthLands(cex, now, v, r)
    requires r == Landing(cex.months, now, Month, marked) && Normal(r) && r.mday == 1 && r.hour == 0 && r.min == 0
    requires marked[1] && marked[2] && marked[4]
    ensures Kept(cex, start, r)
  {
    hide Landing, Norm, Day, MonthLength, Before, Weekday, Slips, NeverSlips;
    Lands(cex.months, now, Month, marked);
    if Slips(cex, now.mon, now.mday, 1900 + r.year) {
      SlipsInSomeYear(cex, now.mon, now.mday, 1900 + r.year);
    }
    MonthPasses(cex, now, v, r);
    TurnIsKept(cex, start, now, r, marked, 3);
  }

  /** A nested search from r that comes to m. */
  lemma SoughtOn(cex: CronExpr, start: Moment, r: Moment, m: Moment)
    requires ValidExpr(cex) && Kept(cex, start, r) && Sought(cex, r, m) && (Satisfies(cex, r) ==> m == r)
    ensures Sought(cex, start, m)
  {
    hide Stop, Satisfies;
    if !Hasty(cex, start) {
      SkipsOn(cex, start, r, m);
    }
  }

  lemma NestedPassing(cex: CronExpr, start: Moment, m: Moment, marked: Bits, level: nat)
    requires ValidExpr(cex) && Normal(start) && Normal(m) && Sought(cex, start, m) && Satisfies(cex, m) && |marked| == 7
    ensures Passing(cex, start, m, marked, level)
  {
  }

  /** A hasty search passes over the first allowed second of the minute it ends in. */
  lemma HastyPassesOver(cex: CronExpr, start: Moment, m: Moment) returns (q: Moment)
    requires ValidExpr(cex) && Normal(start) && Hasty(cex, start) && Sought(cex, start, m)
    ensures Normal(m) && Normal(q) && Satisfies(cex, q) && Before(start, q) && Before(q, m)
  {
    hide Norm, Landing, Day, MonthLength, DayFits;
    var n := start.(sec := NextBit(cex.seconds, start.sec));
    StopIsLater(cex, n, m);
    q := m.(sec := NextBit(cex.seconds, 0));
    var i :| 0 <= i < start.sec && cex.seconds[i];
    assert q.sec < start.sec;
    MinuteSatisfies(cex, m, q);
  }

  lemma StopIsLater(cex: CronExpr, n: Moment, r: Moment)
    requires ValidExpr(cex) && Normal(n) && Normal(r) && Stop(cex, n, r)
    ensures Before(n, r) && r.sec == n.sec
  {
    hide Norm, Landing, Day, MonthLength, DayFits, Before;
    if !cex.minutes[n.min] {
      Lands(cex.minutes, n, Minute, MarkedTo(0));
    } else if !cex.hours[n.hour] {
      Lands(cex.hours, n, HourOfDay, MarkedTo(1));
    } else if !DayFits(cex, n) {
      LaterDay(n, r);
    } else {
      Lands(cex.months, n, Month, MarkedTo(3));
    }
  }

  /** A second after an instant that satisfies the expression no search is hasty. */
  lemma NotHastyAfter(cex: CronExpr, m: Moment, later: Moment)
    requires ValidExpr(cex) && Normal(m) && Normal(later) && Satisfies(cex, m) && Stamp(later) == Stamp(m) + 1
    ensures !Hasty(cex, m) && !Hasty(cex, later)
  {
    hide Hours, Day, MonthLength, DayFits, Satisfies, Hasty, Stamp;
    assert cex.seconds[m.sec] by { AllowedSecond(cex, m); }
    NotHasty(cex, m);
    if Minutes(later) == Minutes(m) {
      InMinute(later, m);
      if !cex.seconds[later.sec] && HasBit(cex.seconds, later.sec) {
        NotHastyIn(cex, m, later);
      } else {
        NotHastyWithout(cex, later);
      }
    } else {
      NotHasty(cex, later);
    }
  }

  lemma AllowedSecond(cex: CronExpr, m: Moment)
    requires ValidExpr(cex) && Normal(m) && Satisfies(cex, m)
    ensures cex.seconds[m.sec]
  {
  }

  lemma NotHastyWithout(cex: CronExpr, m: Moment)
    requires ValidExpr(cex) && Normal(m) && (cex.seconds[m.sec] || !HasBit(cex.seconds, m.sec))
    ensures !Hasty(cex, m)
  {
  }

  lemma NotHastyIn(cex: CronExpr, m: Moment, later: Moment)
    requires ValidExpr(cex) && Normal(m) && Normal(later) && Satisfies(cex, m) && SameMinute(m, later)
    requires !cex.seconds[later.sec] && HasBit(cex.seconds, later.sec)
    ensures !Hasty(cex, later)
  {
    hide Day, MonthLength, DayFits, Satisfies, Stop;
    var n := later.(sec := NextBit(cex.seconds, later.sec));
    MinuteSatisfies(cex, m, n);
    AllFits(cex, n);
  }

  /** Between two allowed seconds all are allowed. */
  predicate Gapless(t: Bits) {
    forall i, j, k :: 0 <= i < j < k < |t| && t[i] && t[k] ==> t[j]
  }

  /** With such seconds, a single one say, no search is hasty, */
  lemma GaplessIsNotHasty(cex: CronExpr, m: Moment)
    requires ValidExpr(cex) && Normal(m) && Gapless(cex.seconds)
    ensures !Hasty(cex, m)
  {
    hide Stop, Satisfies;
  }

  /** nor is it with an expression that restricts nothing but the seconds, which is also an orderly one. */
  lemma OnlySeconds(cex: CronExpr, m: Moment)
    requires ValidExpr(cex) && Normal(m) && AllSet(cex.minutes) && AllSet(cex.hours)
    requires AllSet(cex.daysOfMonth) && AllSet(cex.daysOfWeek) && AllSet(cex.months)
    ensures Orderly(cex) && !Hasty(cex, m) && (Satisfies(cex, m) <==> cex.seconds[m.sec])
  {
    hide Day, MonthLength, Reliable, HasBit;
    FreeIsReliable(cex);
  }
}
