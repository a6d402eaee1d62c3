// find_next and cron_next of include/dmcroncpp.h on all fields together: why they end, what a valid answer is worth
// and where they go wrong.

module NextInstant {
  import opened Gregorian
  import opened CronSearch
  import opened Reliability
  import opened Leastness

  // ----- how far the next fitting day is

  ghost predicate FitsOn(cex: CronExpr, day: int)
    requires ValidExpr(cex)
  {
    exists d: Moment :: Normal(d) && Day(d) == day && DayFits(cex, d)
  }

  ghost predicate FirstFit(cex: CronExpr, day: int, k: nat)
    requires ValidExpr(cex)
  {
    NoneFits(cex, day, day + k) && FitsOn(cex, day + k)
  }

  lemma {:induction false} FirstFitExists(cex: CronExpr, day: int, n: nat)
    requires ValidExpr(cex) && FitsOn(cex, day + n)
    ensures exists k: nat :: k <= n && FirstFit(cex, day, k)
    decreases n
  {
    hide Day, DayFits, Normal;
    if FitsOn(cex, day) {
      assert FirstFit(cex, day, 0);
    } else {
      FirstFitExists(cex, day + 1, n - 1);
      var k: nat :| k <= n - 1 && FirstFit(cex, day + 1, k);
      assert NoneFits(cex, day, day + 1 + k);
      assert FirstFit(cex, day, k + 1);
    }
  }

  lemma OneFirstFit(cex: CronExpr, day: int, k: nat, l: nat)
    requires ValidExpr(cex) && FirstFit(cex, day, k) && FirstFit(cex, day, l)
    ensures k == l
  {
    hide Day, DayFits, Normal;
  }

  lemma FitExists(cex: CronExpr, m: Moment)
    requires ValidExpr(cex) && Normal(m)
    ensures exists k: nat :: k <= 1098 && FirstFit(cex, Day(m), k)
  {
    hide Day, DayFits, MonthLength, FirstFit;
    var goal := SomeFittingDay(cex, m);
    FirstFitExists(cex, Day(m), Day(goal) - Day(m));
  }

  ghost function DaysToFit(cex: CronExpr, m: Moment): (k: nat)
    requires ValidExpr(cex) && Normal(m)
    ensures k <= 1098 && FirstFit(cex, Day(m), k)
  {
    FitExists(cex, m);
    var k: nat :| k <= 1098 && FirstFit(cex, Day(m), k);
    k
  }

  lemma SameDaySameFit(cex: CronExpr, a: Moment, b: Moment)
    requires ValidExpr(cex) && Normal(a) && Normal(b) && a.year == b.year && a.mon == b.mon && a.mday == b.mday
    ensures DayFits(cex, a) == DayFits(cex, b) && DaysToFit(cex, a) == DaysToFit(cex, b)
  {
    hide DayFits, FirstFit;
    assert Day(a) == Day(b);
    FitsByDate(cex, a, b);
    OneFirstFit(cex, Day(a), DaysToFit(cex, a), DaysToFit(cex, b));
  }

  /** A day search that gives up is 366 days nearer to a fitting day. */
  lemma NearerToFit(cex: CronExpr, m: Moment, r: Moment)
    requires ValidExpr(cex) && Normal(m) && Normal(r) && Day(r) == Day(m) + 366
    requires NoneFits(cex, Day(m), Day(r))
    ensures DaysToFit(cex, r) == DaysToFit(cex, m) - 366
  {
    hide Day, DayFits, MonthLength;
    var k := DaysToFit(cex, m);
    assert k >= 366;
    assert FirstFit(cex, Day(r), k - 366);
    OneFirstFit(cex, Day(r), DaysToFit(cex, r), k - 366);
  }

  // ----- why the search ends

  /** The first instant after the years in which a month may be searched for. */
  function Limit(dot: int): int {
    (YearStart(1900 + dot + CRON_MAX_YEARS_DIFF + 1) - EPOCH) * 86400
  }

  /** Seconds left before the limit. */
  function Left(dot: int, m: Moment): nat
    requires Normal(m)
  {
    if Stamp(m) < Limit(dot) then Limit(dot) - Stamp(m) else 0
  }

  predicate MinuteSettled(cex: CronExpr, m: Moment)
    requires ValidExpr(cex) && Normal(m)
  {
    HasBit(cex.seconds, m.sec) && cex.minutes[m.min]
  }

  predicate HourSettled(cex: CronExpr, m: Moment)
    requires ValidExpr(cex) && Normal(m)
  {
    HasBit(cex.seconds, m.sec) && HasBit(cex.minutes, m.min) && cex.hours[m.hour]
  }

  /** How many searches for a day are to come. */
  ghost function DaySearches(cex: CronExpr, m: Moment): (n: nat)
    requires ValidExpr(cex) && Normal(m)
    ensures n <= 5
  {
    if !NoCarry(cex, m) then 5
    else if DayFits(cex, m) then 0
    else 1 + DaysToFit(cex, m) / 366
  }

  /** Weighs the fields below the month that do not fit or that lower fields can still carry into. */
  ghost function Unsettled(cex: CronExpr, m: Moment): (n: nat)
    requires ValidExpr(cex) && Normal(m)
    ensures n <= 23
  {
    4 * DaySearches(cex, m) + (if HourSettled(cex, m) then 0 else 2) + (if MinuteSettled(cex, m) then 0 else 1)
  }

  /** Bounds how many nested searches there can be. */
  ghost function Measure(cex: CronExpr, dot: int, m: Moment): nat
    requires ValidExpr(cex) && Normal(m)
  {
    24 * Left(dot, m) + Unsettled(cex, m)
  }

  /** Bounds the years a search from m can come to. */
  ghost function Cap(cex: CronExpr, dot: int, m: Moment): int
    requires ValidExpr(cex) && Normal(m)
  {
    if m.year <= dot + CRON_MAX_YEARS_DIFF then dot + 160
    else m.year + 6 * (1 + Unsettled(cex, m)) + if HasBit(cex.seconds, m.sec) then 0 else 2
  }

  /** From m to r the search stays within its years if a day field is open. */
  ghost predicate Keeps(cex: CronExpr, dot: int, m: Moment, r: Moment)
    requires ValidExpr(cex) && Normal(m) && Normal(r)
  {
    DaysFree(cex) ==>
      && (InRange(cex, m, dot + 6) ==> InRange(cex, r, dot + 6))
      && (Yearly(cex) && Within(cex, m, dot + CRON_MAX_YEARS_DIFF) ==> Within(cex, r, dot + CRON_MAX_YEARS_DIFF))
  }

  /** A search from start can go on from m: m is not earlier and nothing is further away. */
  ghost predicate Onward(cex: CronExpr, dot: int, start: Moment, m: Moment)
    requires ValidExpr(cex)
  {
    && Normal(start) && Normal(m) && start.year <= m.year && (m == start || Before(start, m))
    && Measure(cex, dot, m) <= Measure(cex, dot, start) && Cap(cex, dot, m) <= Cap(cex, dot, start)
    && Keeps(cex, dot, start, m)
  }

  /** A nested search from m is due, and has less to do. */
  ghost predicate Turn(cex: CronExpr, dot: int, start: Moment, m: Moment)
    requires ValidExpr(cex)
  {
    && Onward(cex, dot, start, m) && Before(start, m) && Measure(cex, dot, m) < Measure(cex, dot, start)
    && forall r :: !Taken(cex, start, r)
  }

  lemma BeforeAgain(a: Moment, b: Moment, c: Moment)
    requires (a == b || Before(a, b)) && Before(b, c)
    ensures Before(a, c)
  {
  }

  lemma OnwardAgain(cex: CronExpr, dot: int, a: Moment, b: Moment, c: Moment)
    requires ValidExpr(cex) && Onward(cex, dot, a, b) && Onward(cex, dot, b, c)
    ensures Onward(cex, dot, a, c) && (Before(a, b) ==> Before(a, c))
  {
    hide Normal, Before, Measure, Cap, InRange, Within;
    if b != c {
      BeforeAgain(a, b, c);
    }
  }

  /** What is settled outweighs what comes undone, */
  lemma LessUnsettled(cex: CronExpr, dot: int, m: Moment, r: Moment)
    requires ValidExpr(cex) && Normal(m) && Normal(r) && Before(m, r) && m.year <= r.year <= m.year + 2
    requires Unsettled(cex, r) < Unsettled(cex, m) && HasBit(cex.seconds, r.sec) && Keeps(cex, dot, m, r)
    ensures Onward(cex, dot, m, r) && Measure(cex, dot, r) < Measure(cex, dot, m)
  {
    hide YearStart, Day, MonthLength, Stamp, Before, Unsettled, HasBit, Keeps;
    StampsInOrder(m, r);
  }

  /** and so does time before the limit. */
  lemma LessLeft(cex: CronExpr, dot: int, m: Moment, r: Moment)
    requires ValidExpr(cex) && Normal(m) && Normal(r) && Before(m, r) && m.year <= r.year <= dot + CRON_MAX_YEARS_DIFF
    requires Keeps(cex, dot, m, r)
    ensures Onward(cex, dot, m, r) && Measure(cex, dot, r) < Measure(cex, dot, m)
  {
    hide YearStart, Day, MonthLength, Stamp, Before, Unsettled, HasBit, Keeps;
    StampsInOrder(m, r);
    BelowYear(r, dot + CRON_MAX_YEARS_DIFF + 1);
  }

  lemma BelowYear(r: Moment, year: int)
    requires Normal(r) && r.year < year
    ensures Stamp(r) < (YearStart(1900 + year) - EPOCH) * 86400
  {
    hide YearStart, Day, MonthLength;
    WithinYear(r);
    ClockBelowDay(r);
    YearsInOrder(1900 + r.year + 1, 1900 + year);
  }

  lemma CarryDay(m: Moment, field: Field)
    requires Normal(m) && Searched(field) && !field.Month?
    ensures var a := Norm(Added(m, NextOf(field), 1));
            && Normal(a) && Day(m) <= Day(a) <= Day(m) + 1
            && (Day(a) > Day(m) && !field.HourOfDay? ==> a.hour == 0)
            && (Day(a) > Day(m) && field.Second? ==> a.min == 0)
  {
    hide Norm, YearStart, MonthStart, MonthLength;
    var b := Added(m, NextOf(field), 1);
    NormKeepsStamp(b);
    ClockBelowDay(m);
    ClockBelowDay(Norm(b));
    assert Day(b) == Day(m) + if field.HourOfDay? then 1 else 0;
  }

  /** A search of the time of day leaves the day alone, or carries into the beginning of the next. */
  lemma LandsInDay(t: Bits, m: Moment, field: Field, marked: Bits)
    requires Normal(m) && MarksBelow(marked, field) && !field.Month?
    requires HasBit(t, 0) && |t| == Size(field) && !t[Get(m, field)]
    ensures var r := Landing(t, m, field, marked);
            && Normal(r)
            && (HasBit(t, Get(m, field)) ==>
                  && Day(r) == Day(m) && (!field.HourOfDay? ==> r.hour == m.hour) && (field.Second? ==> r.min == m.min))
            && (!HasBit(t, Get(m, field)) ==>
                  && Day(m) <= Day(r) <= Day(m) + 1
                  && (Day(r) > Day(m) && !field.HourOfDay? ==> r.hour == 0)
                  && (Day(r) > Day(m) && field.Second? ==> r.min == 0))
  {
    hide Norm, MonthLength, Day, Carried;
    var value := Get(m, field);
    Lands(t, m, field, marked);
    var r := Landing(t, m, field, marked);
    if HasBit(t, value) {
      SameDays(m, r);
    } else {
      CarriesTo(m, field, NextBit(t, 0));
      CarryDay(m, field);
      SameDays(Norm(Added(m, NextOf(field), 1)), r);
    }
  }

  /** The search for a second settles nothing and undoes nothing. */
  lemma SecondKeeps(cex: CronExpr, dot: int, m: Moment)
    requires ValidExpr(cex) && Normal(m) && !cex.seconds[m.sec]
    ensures var none := seq(7, i => false);
            var r := Landing(cex.seconds, m, Second, none);
            Onward(cex, dot, m, r) && cex.seconds[r.sec]
  {
    hide Landing, MonthLength, Stamp, Day, DayFits, Before, InRange, Within;
    var none := seq(7, i => false);
    var r := Landing(cex.seconds, m, Second, none);
    Lands(cex.seconds, m, Second, none);
    LandsInDay(cex.seconds, m, Second, none);
    TimeTurnWithin(cex, m, r);
    StampsInOrder(m, r);
    if HasBit(cex.seconds, m.sec) {
      SameDaySameFit(cex, m, r);
    }
  }

  lemma MinuteTurn(cex: CronExpr, dot: int, m: Moment, marked: Bits)
    requires ValidExpr(cex) && Normal(m) && HasBit(cex.seconds, m.sec) && MarksBelow(marked, Minute)
    requires !cex.minutes[m.min]
    ensures var r := Landing(cex.minutes, m, Minute, marked);
            Onward(cex, dot, m, r) && Before(m, r) && Measure(cex, dot, r) < Measure(cex, dot, m)
  {
    hide Landing, MonthLength, Day, DayFits, Before, Onward, Measure, InRange, Within;
    var r := Landing(cex.minutes, m, Minute, marked);
    Lands(cex.minutes, m, Minute, marked);
    LandsInDay(cex.minutes, m, Minute, marked);
    TimeTurnWithin(cex, m, r);
    if HasBit(cex.minutes, m.min) {
      SameDaySameFit(cex, m, r);
    }
    LessUnsettled(cex, dot, m, r);
  }

  lemma HourTurn(cex: CronExpr, dot: int, m: Moment, marked: Bits)
    requires ValidExpr(cex) && Normal(m) && HasBit(cex.seconds, m.sec) && HasBit(cex.minutes, m.min)
    requires MarksBelow(marked, HourOfDay) && !cex.hours[m.hour]
    ensures var r := Landing(cex.hours, m, HourOfDay, marked);
            Onward(cex, dot, m, r) && Before(m, r) && Measure(cex, dot, r) < Measure(cex, dot, m)
  {
    hide Landing, MonthLength, Day, DayFits, Before, Onward, Measure, InRange, Within;
    var r := Landing(cex.hours, m, HourOfDay, marked);
    Lands(cex.hours, m, HourOfDay, marked);
    LandsInDay(cex.hours, m, HourOfDay, marked);
    TimeTurnWithin(cex, m, r);
    if HasBit(cex.hours, m.hour) {
      SameDaySameFit(cex, m, r);
    }
    LessUnsettled(cex, dot, m, r);
  }

  lemma DayTurn(cex: CronExpr, dot: int, m: Moment, r: Moment, marked: Bits)
    requires ValidExpr(cex) && Normal(m) && Normal(r) && NoCarry(cex, m) && ClockMarks(marked)
    requires !DayFits(cex, m) && OtherDay(m, r, marked) && NoneFits(cex, Day(m), Day(r))
    requires DayFits(cex, r) || Day(r) == Day(m) + 366
    ensures Onward(cex, dot, m, r) && Before(m, r) && Measure(cex, dot, r) < Measure(cex, dot, m) && NoCarry(cex, r)
  {
    hide MonthLength, DayFits, Day, Before, Onward, Measure, NoneFits, DaysFree, InRange, Within;
    if DaysFree(cex) {
      FreeDayFound(cex, m, r);
      DayTurnWithin(cex, m, r);
    }
    if !DayFits(cex, r) {
      NearerToFit(cex, m, r);
    }
    LessUnsettled(cex, dot, m, r);
  }

  // ----- the stages of one search

  /** What a search that succeeds has found. */
  ghost predicate Found(cex: CronExpr, dot: int, start: Moment, m: Moment)
    requires ValidExpr(cex)
  {
    Onward(cex, dot, start, m) && NoCarry(cex, m) && (Reliable(cex) ==> Satisfies(cex, m))
  }

  /** No search for a month leads beyond the year limit, or there is none. */
  ghost predicate Answered(cex: CronExpr, dot: int, start: Moment)
    requires ValidExpr(cex) && Normal(start)
  {
    AllSet(cex.months) || (DaysFree(cex) && Yearly(cex) && Within(cex, start, dot + CRON_MAX_YEARS_DIFF))
  }

  /** The search from start threw at m. */
  ghost predicate FellOff(cex: CronExpr, dot: int, start: Moment, m: Moment)
    requires ValidExpr(cex) && Normal(start)
  {
    start.year < 70 || INT_MAX < m.year <= Cap(cex, dot, start)
  }

  /**
   * What fits so far if the expression is reliable: what has been searched, unless a day has been taken for unmoved;
   * and that is all right if its month fits.  Where no nested search has taken over everything is marked.
   */
  predicate SoFar(cex: CronExpr, now: Moment, marked: Bits, level: nat)
    requires ValidExpr(cex) && Normal(now)
  {
    && |marked| == 7
    && (level < 3 ==>
          && cex.seconds[now.sec] && (level >= 1 ==> cex.minutes[now.min]) && (level >= 2 ==> cex.hours[now.hour]))
    && (level >= 3 && cex.months[now.mon] ==> Satisfies(cex, now))
    && (!Satisfies(cex, now) ==>
          (level >= 1 ==> marked[1]) && (level >= 2 ==> marked[2]) && (level >= 3 ==> marked[4]))
  }

  /**
   * How far a search from start has come: it has led to `now`; the fields up to the given level, of minute, hour and
   * day, have been searched, and those that had not moved are marked.
   */
  ghost predicate Stage(cex: CronExpr, dot: int, start: Moment, now: Moment, marked: Bits, level: nat)
    requires ValidExpr(cex)
  {
    && Onward(cex, dot, start, now) && HasBit(cex.seconds, now.sec)
    && (level >= 1 ==> HasBit(cex.minutes, now.min))
    && (level >= 2 ==> HasBit(cex.hours, now.hour))
    && (Reliable(cex) ==> SoFar(cex, now, marked, level))
    && (DaysFree(cex) && level >= 3 ==> DayFits(cex, now))
    && Marks(marked) && (marked[1] ==> level >= 1) && (marked[2] ==> level >= 2) && (marked[4] ==> level >= 3)
    && if level < 3
       then TimeFits(cex, start) ==>
              now == start && marked[0] && (level >= 1 ==> marked[1]) && (level >= 2 ==> marked[2])
       else forall r :: Taken(cex, start, r) ==> r == now
  }

  lemma OnwardFromHere(cex: CronExpr, dot: int, m: Moment)
    requires ValidExpr(cex) && Normal(m)
    ensures Onward(cex, dot, m, m)
  {
  }

  lemma TurnTaken(cex: CronExpr, dot: int, start: Moment, now: Moment, r: Moment)
    requires ValidExpr(cex) && Onward(cex, dot, start, now) && Onward(cex, dot, now, r) && Before(now, r)
    requires Measure(cex, dot, r) < Measure(cex, dot, now)
    requires forall x :: !Taken(cex, start, x)
    ensures Turn(cex, dot, start, r)
  {
    hide Before, Measure, Cap, Taken, Normal;
    OnwardAgain(cex, dot, start, now, r);
    BeforeAgain(start, now, r);
  }

  lemma NotTaken(cex: CronExpr, start: Moment)
    requires ValidExpr(cex) && Normal(start) && !TimeFits(cex, start)
    ensures forall r :: !Taken(cex, start, r)
  {
  }

  lemma SecondStage(cex: CronExpr, dot: int, start: Moment)
    requires ValidExpr(cex) && Normal(start)
    ensures var none := seq(7, i => false);
            && MarksBelow(none, Second)
            && Stage(cex, dot, start, Landing(cex.seconds, start, Second, none),
                     if cex.seconds[start.sec] then none[0 := true] else none, 0)
  {
    hide Onward, MonthLength;
    if cex.seconds[start.sec] {
      OnwardFromHere(cex, dot, start);
    } else {
      hide Landing;
      SecondKeeps(cex, dot, start);
      assert Normal(Landing(cex.seconds, start, Second, seq(7, i => false)));
    }
  }

  /** The minute fits, or a nested search is due. */
  lemma MinuteStage(cex: CronExpr, dot: int, start: Moment, now: Moment, marked: Bits)
    requires ValidExpr(cex) && Stage(cex, dot, start, now, marked, 0)
    ensures MarksBelow(marked, Minute)
    ensures var r := Landing(cex.minutes, now, Minute, marked);
            if cex.minutes[now.min] then Stage(cex, dot, start, r, marked[1 := true], 1)
            else Turn(cex, dot, start, r) && !TimeFits(cex, start)
  {
    hide Landing, MonthLength, Measure, Cap, Keeps, Before, Taken, Reliable, DaysFree;
    if cex.minutes[now.min] {
      Stays(cex.minutes, now, Minute, marked);
    } else {
      MinuteTurn(cex, dot, now, marked);
      NotTaken(cex, start);
      TurnTaken(cex, dot, start, now, Landing(cex.minutes, now, Minute, marked));
    }
  }

  lemma Stays(t: Bits, m: Moment, field: Field, marked: Bits)
    requires MarksBelow(marked, field) && HasBit(t, 0) && 0 <= Get(m, field) < |t| && t[Get(m, field)]
    ensures Landing(t, m, field, marked) == m
  {
  }

  lemma HourStage(cex: CronExpr, dot: int, start: Moment, now: Moment, marked: Bits)
    requires ValidExpr(cex) && Stage(cex, dot, start, now, marked, 1)
    ensures MarksBelow(marked, HourOfDay)
    ensures var r := Landing(cex.hours, now, HourOfDay, marked);
            if cex.hours[now.hour] then Stage(cex, dot, start, r, marked[2 := true], 2)
            else Turn(cex, dot, start, r) && !TimeFits(cex, start)
  {
    hide Landing, MonthLength, Measure, Cap, Keeps, Before, Taken, Reliable, DaysFree;
    if cex.hours[now.hour] {
      Stays(cex.hours, now, HourOfDay, marked);
    } else {
      HourTurn(cex, dot, now, marked);
      NotTaken(cex, start);
      TurnTaken(cex, dot, start, now, Landing(cex.hours, now, HourOfDay, marked));
    }
  }

  /** A nested search has taken over. */
  lemma NestedStage(cex: CronExpr, dot: int, start: Moment, was: Moment, r: Moment, now: Moment, marked: Bits,
                    level: nat)
    requires ValidExpr(cex) && Stage(cex, dot, start, was, marked, level) && level <= 2
    requires Turn(cex, dot, start, r) && Found(cex, dot, r, now) && (level <= 1 ==> !TimeFits(cex, start))
    ensures Stage(cex, dot, start, now, marked, level + 1)
  {
    hide Measure, Cap, Before, Taken, Onward, DaysFree, Reliable, DayFits;
    OnwardAgain(cex, dot, start, r, now);
    if DaysFree(cex) {
      FreeIsReliable(cex);
    }
    assert Normal(now) by { Ends(cex, dot, start, now); }
  }

  lemma Ends(cex: CronExpr, dot: int, start: Moment, m: Moment)
    requires ValidExpr(cex) && Onward(cex, dot, start, m)
    ensures Normal(start) && Normal(m)
  {
  }

  /** The search for a day moves from now to r. */
  ghost predicate DaySearched(cex: CronExpr, now: Moment, r: Moment, marked: Bits)
    requires ValidExpr(cex) && ClockMarks(marked) && Normal(now)
  {
    && Normal(r)
    && if DayFits(cex, now) then r == now
       else OtherDay(now, r, marked) && NoneFits(cex, Day(now), Day(r))
            && (DayFits(cex, r) || Day(r) == Day(now) + 366)
            && (DaysFree(cex) ==> DayFits(cex, r) && r.mday != now.mday)
  }

  lemma DayStage(cex: CronExpr, dot: int, start: Moment, now: Moment, r: Moment, marked: Bits)
    requires ValidExpr(cex) && Stage(cex, dot, start, now, marked, 2)
    requires DaySearched(cex, now, r, marked)
    ensures if now.mday == r.mday then Stage(cex, dot, start, r, marked[4 := true], 3) else Turn(cex, dot, start, r)
  {
    hide MonthLength, Measure, Cap, Keeps, Before, Day, DayFits, DaysFree, Reliable, NoneFits;
    if DayFits(cex, now) {
      OnwardFromHere(cex, dot, now);
    } else {
      DayTurn(cex, dot, now, r, marked);
      TakenIsFound(cex, dot, start, now, r, marked);
      if now.mday == r.mday {
        OnwardAgain(cex, dot, start, now, r);
        if Reliable(cex) {
          TakenSoFar(cex, now, r, marked);
        }
      } else {
        TurnTaken(cex, dot, start, now, r);
      }
    }
  }

  /** A day taken for unmoved is all right if its month fits. */
  lemma TakenSoFar(cex: CronExpr, now: Moment, r: Moment, marked: Bits)
    requires ValidExpr(cex) && Reliable(cex) && Normal(now) && ClockMarks(marked) && SoFar(cex, now, marked, 2)
    requires DaySearched(cex, now, r, marked) && !DayFits(cex, now) && now.mday == r.mday
    ensures SoFar(cex, r, marked[4 := true], 3)
  {
    hide MonthLength, Before, Day, DayFits, DaysFree, Reliable, NoneFits, HasBit;
    if cex.months[r.mon] {
      var q := r.(sec := 0);
      SameCalendarDay(cex, r, q);
      ReliableForEver(cex, now, q);
    }
  }

  lemma TakenIsFound(cex: CronExpr, dot: int, start: Moment, now: Moment, r: Moment, marked: Bits)
    requires ValidExpr(cex) && Stage(cex, dot, start, now, marked, 2)
    requires DaySearched(cex, now, r, marked) && !DayFits(cex, now)
    ensures forall x :: Taken(cex, start, x) ==> x == r && now.mday == r.mday
  {
    hide MonthLength, Measure, Cap, Before, Day, DayFits, NoneFits, Onward, HasBit;
    forall x | Taken(cex, start, x)
      ensures x == r && now.mday == r.mday
    {
      OneDayFound(cex, start, x, r);
    }
  }

  /** From a day that fits, with everything marked, the search for a month leads to the first of one. */
  lemma MonthLanding(cex: CronExpr, m: Moment, marked: Bits) returns (v: nat)
    requires ValidExpr(cex) && Normal(m) && MarksBelow(marked, Month) && !cex.months[m.mon]
    requires marked[1] && marked[2] && marked[4]
    ensures var r := Landing(cex.months, m, Month, marked);
            && v < 12 && Normal(r) && r.mday == 1 && r.hour == 0 && r.min == 0 && (r.sec == 0 || r.sec == m.sec)
            && MonthLands(cex, m, v, r)
  {
    hide Norm, Settle, MonthLength;
    var r := Landing(cex.months, m, Month, marked);
    Lands(cex.months, m, Month, marked);
    if HasBit(cex.months, m.mon) {
      v := NextBit(cex.months, m.mon);
      NormDate(With(m, Month, v));
      SettleNear(m.year, v, m.mday);
    } else {
      v := NextBit(cex.months, 0);
      YearCarried(m);
      hide Carried;
      var c := Carried(m, Month);
      NormDate(With(c, Month, v));
      SettleNear(c.year, v, c.mday);
    }
  }

  /** A year on, in January, on the same day of the month, except that 29 February turns into 1 March first. */
  lemma YearCarried(m: Moment)
    requires Normal(m)
    ensures var c := Carried(m, Month);
            && c == Moment(m.year + 1, 0, c.mday, m.hour, m.min, m.sec)
            && (c.mday == m.mday || (m.mon == 1 && c.mday == 1))
  {
    hide Norm, Settle;
    NormDate(Added(m, Year, 1));
    SettleNear(m.year + 1, m.mon, m.mday);
    var a := Norm(Added(m, Year, 1));
    hide MonthLength;
    NormDate(With(a, Month, 0));
    SettleNear(a.year, 0, a.mday);
  }

  lemma MonthKeeps(cex: CronExpr, dot: int, m: Moment, marked: Bits)
    requires ValidExpr(cex) && DaysFree(cex) && Normal(m) && MarksBelow(marked, Month) && !cex.months[m.mon]
    requires marked[1] && marked[2] && marked[4] && NoCarry(cex, m) && DayFits(cex, m)
    ensures var r, last := Landing(cex.months, m, Month, marked), dot + CRON_MAX_YEARS_DIFF;
            && Normal(r)
            && (Yearly(cex) && Within(cex, m, last) ==> Within(cex, r, last) && r.year <= last)
  {
    hide Landing, MonthLength, Day, DaysFree, DayFits, Within, Yearly, MonthLands, HasBit;
    var r := Landing(cex.months, m, Month, marked);
    var v := MonthLanding(cex, m, marked);
    if Yearly(cex) && Within(cex, m, dot + CRON_MAX_YEARS_DIFF) {
      MonthTurnWithin(cex, m, v, r, dot + CRON_MAX_YEARS_DIFF);
    }
  }

  lemma MonthWithin(cex: CronExpr, dot: int, start: Moment, m: Moment, r: Moment)
    requires ValidExpr(cex) && Onward(cex, dot, start, m) && Normal(r)
    requires var last := dot + CRON_MAX_YEARS_DIFF;
             DaysFree(cex) && Yearly(cex) && Within(cex, m, last) ==> Within(cex, r, last) && r.year <= last
    ensures var last := dot + CRON_MAX_YEARS_DIFF;
            && (DaysFree(cex) && Yearly(cex) && Within(cex, start, last) ==> r.year <= last)
            && (r.year <= last ==> Keeps(cex, dot, m, r))
  {
    hide Within, Yearly, DaysFree, Measure, Cap, Day, MonthLength;
    if r.year <= dot + CRON_MAX_YEARS_DIFF {
      RangeOf(cex, r, dot + 6);
    }
  }

  /** The month fits, or it is searched for; within the years allowed a nested search is due. */
  lemma MonthStage(cex: CronExpr, dot: int, start: Moment, now: Moment, marked: Bits)
    requires ValidExpr(cex) && Stage(cex, dot, start, now, marked, 3)
    ensures MarksBelow(marked, Month)
    ensures var r := Landing(cex.months, now, Month, marked);
            if cex.months[now.mon]
            then r == now && Found(cex, dot, start, r) && forall x :: Taken(cex, start, x) ==> x == r
            else && Reached(start, r) && (forall x :: !Taken(cex, start, x))
                 && (r.year <= dot + CRON_MAX_YEARS_DIFF ==> Turn(cex, dot, start, r))
                 && (Answered(cex, dot, start) ==> r.year <= dot + CRON_MAX_YEARS_DIFF)
  {
    hide Landing, MonthLength, Before, Measure, Cap, Keeps, Day, DaysFree, DayFits, Reliable, Within, InRange, Yearly;
    if cex.months[now.mon] {
      Stays(cex.months, now, Month, marked);
    } else {
      var r := Landing(cex.months, now, Month, marked);
      Lands(cex.months, now, Month, marked);
      BeforeAgain(start, now, r);
      if DaysFree(cex) {
        FreeIsReliable(cex);
        MonthKeeps(cex, dot, now, marked);
      }
      MonthWithin(cex, dot, start, now, r);
      if r.year <= dot + CRON_MAX_YEARS_DIFF {
        LessLeft(cex, dot, now, r);
        TurnTaken(cex, dot, start, now, r);
      }
    }
  }

  // ----- what it passes over

  /** What a search in an orderly expression has passed over, with the fields up to the given level searched. */
  ghost predicate Sighted(cex: CronExpr, start: Moment, now: Moment, marked: Bits, level: nat)
    requires ValidExpr(cex)
  {
    |marked| == 7 && (Orderly(cex) ==> Passing(cex, start, now, marked, level))
  }

  /** A nested search is to start from r. */
  ghost predicate Heads(cex: CronExpr, start: Moment, r: Moment)
    requires ValidExpr(cex)
  {
    Orderly(cex) ==> Kept(cex, start, r)
  }

  /** What the whole search comes to.  It gives up only beyond the year limit. */
  ghost predicate Sights(cex: CronExpr, dot: int, start: Moment, m: Moment, res: bool)
    requires ValidExpr(cex) && Normal(start)
  {
    && (Orderly(cex) ==> Sought(cex, start, m) && (Hasty(cex, start) && dot == start.year ==> res))
    && (!res ==> dot + CRON_MAX_YEARS_DIFF < m.year)
  }

  /** Nothing but the month of m does not fit. */
  predicate MonthOnly(cex: CronExpr, m: Moment)
    requires ValidExpr(cex) && Normal(m)
  {
    TimeFits(cex, m) && DayFits(cex, m) && !cex.months[m.mon]
  }

  /** Where the search for a month then leads. */
  function NextMonthOf(cex: CronExpr, m: Moment): Moment
    requires ValidExpr(cex) && Normal(m)
  {
    Landing(cex.months, m, Month, [true, true, true, false, true, false, false])
  }

  /** That leads past an instant that satisfies the expression. */
  ghost predicate PassesOver(cex: CronExpr, m: Moment)
    requires ValidExpr(cex) && Normal(m)
  {
    && MonthOnly(cex, m)
    && exists q: Moment :: Normal(q) && Satisfies(cex, q) && Before(m, q) && Before(q, NextMonthOf(cex, m))
  }

  lemma AllMarked(cex: CronExpr, dot: int, start: Moment, now: Moment, marked: Bits)
    requires ValidExpr(cex) && Normal(start) && Stage(cex, dot, start, now, marked, 2) && TimeFits(cex, start)
    ensures now == start && marked[4 := true] == [true, true, true, false, true, false, false]
  {
    hide Onward, HasBit, SoFar, Reliable;
  }

  lemma SecondSight(cex: CronExpr, start: Moment)
    requires ValidExpr(cex) && Normal(start)
    ensures var none := seq(7, i => false);
            && MarksBelow(none, Second)
            && Sighted(cex, start, Landing(cex.seconds, start, Second, none),
                       if cex.seconds[start.sec] then none[0 := true] else none, 0)
  {
    hide Landing, Passing, Orderly;
    SecondPassing(cex, start);
  }

  lemma MinuteSight(cex: CronExpr, dot: int, start: Moment, now: Moment, marked: Bits)
    requires ValidExpr(cex) && Stage(cex, dot, start, now, marked, 0) && Sighted(cex, start, now, marked, 0)
    ensures MarksBelow(marked, Minute)
    ensures var r := Landing(cex.minutes, now, Minute, marked);
            if cex.minutes[now.min] then Sighted(cex, start, r, marked[1 := true], 1) else Heads(cex, start, r)
  {
    hide Landing, MonthLength, Onward, Taken, Orderly, Passing, Kept, DayFits;
    assert Normal(now) by { Ends(cex, dot, start, now); }
    if cex.minutes[now.min] {
      Stays(cex.minutes, now, Minute, marked);
    }
    if Orderly(cex) {
      MinutePassing(cex, start, now, marked);
    }
  }

  lemma HourSight(cex: CronExpr, dot: int, start: Moment, now: Moment, marked: Bits)
    requires ValidExpr(cex) && Stage(cex, dot, start, now, marked, 1) && Sighted(cex, start, now, marked, 1)
    ensures MarksBelow(marked, HourOfDay)
    ensures var r := Landing(cex.hours, now, HourOfDay, marked);
            if cex.hours[now.hour] then Sighted(cex, start, r, marked[2 := true], 2) else Heads(cex, start, r)
  {
    hide Landing, MonthLength, Onward, Taken, Passing, Kept, Reliable, DayFits;
    assert Normal(now) by { Ends(cex, dot, start, now); }
    if cex.hours[now.hour] {
      Stays(cex.hours, now, HourOfDay, marked);
    }
    if Orderly(cex) {
      HourPassing(cex, start, now, marked);
    }
  }

  lemma DaySight(cex: CronExpr, dot: int, start: Moment, now: Moment, r: Moment, marked: Bits)
    requires ValidExpr(cex) && Stage(cex, dot, start, now, marked, 2) && Sighted(cex, start, now, marked, 2)
    requires DaySearched(cex, now, r, marked)
    ensures if now.mday == r.mday then Sighted(cex, start, r, marked[4 := true], 3) else Heads(cex, start, r)
  {
    hide Landing, MonthLength, Onward, Taken, Passing, Kept, Reliable, DayFits, Day, DaysFree, OtherDay, NoneFits;
    assert Normal(now) by { Ends(cex, dot, start, now); }
    if Orderly(cex) {
      DayPassing(cex, start, now, r, marked);
      if !DayFits(cex, now) && now.mday == r.mday {
        TakenSoFar(cex, now, r, marked);
        TakenPassing(cex, start, r, marked[4 := true]);
      }
    }
  }

  lemma MonthSight(cex: CronExpr, dot: int, start: Moment, now: Moment, marked: Bits)
    requires ValidExpr(cex) && Stage(cex, dot, start, now, marked, 3) && Sighted(cex, start, now, marked, 3)
    ensures MarksBelow(marked, Month)
    ensures var r := Landing(cex.months, now, Month, marked);
            && Normal(start) && (cex.months[now.mon] ==> Sights(cex, dot, start, r, true))
            && (!cex.months[now.mon] ==>
                  && Heads(cex, start, r) && Normal(r)
                  && (Orderly(cex) && Hasty(cex, start) && dot == start.year ==> r.year <= dot + CRON_MAX_YEARS_DIFF))
  {
    hide Landing, MonthLength, Onward, Taken, Kept, Reliable, DayFits, Day, DaysFree, Sought, Hasty;
    assert Normal(now) && Normal(start) by { Ends(cex, dot, start, now); }
    var r := Landing(cex.months, now, Month, marked);
    if cex.months[now.mon] {
      Stays(cex.months, now, Month, marked);
    } else {
      Lands(cex.months, now, Month, marked);
      if Orderly(cex) {
        var v := MonthLanding(cex, now, marked);
        MonthPassing(cex, start, now, v, r, marked);
      }
    }
  }

  /** What a nested search from r means. */
  lemma AfterSight(cex: CronExpr, dot: int, start: Moment, r: Moment, m: Moment, marked: Bits, level: nat, ok: bool,
                   res: bool)
    requires ValidExpr(cex) && Heads(cex, start, r) && Normal(start) && Normal(r) && |marked| == 7
    requires Outcome(cex, dot, r, m, ok, res) && ok && Sights(cex, dot, r, m, res)
    requires Satisfies(cex, r) ==> res && m == r
    ensures Sights(cex, dot, start, m, res)
    ensures res ==> Sighted(cex, start, m, marked, level + 1)
  {
    hide Passing, Onward, Reliable, Satisfies, NoCarry, Answered, Sought, Hasty;
    if Orderly(cex) {
      SoughtOn(cex, start, r, m);
      if Hasty(cex, start) {
        HastyStop(cex, start, r);
      }
      if res {
        NestedPassing(cex, start, m, marked, level + 1);
      }
    }
  }

  /** Where the search for a month gives up. */
  lemma HeadsToSights(cex: CronExpr, dot: int, start: Moment, r: Moment)
    requires ValidExpr(cex) && Normal(start) && Heads(cex, start, r)
    requires Orderly(cex) && Hasty(cex, start) && dot == start.year ==> r.year <= dot + CRON_MAX_YEARS_DIFF
    ensures r.year > dot + CRON_MAX_YEARS_DIFF ==> Sights(cex, dot, start, r, false)
  {
    hide Orderly, Hasty, Sought;
  }

  lemma HastyStop(cex: CronExpr, start: Moment, r: Moment)
    requires ValidExpr(cex) && Kept(cex, start, r) && Hasty(cex, start)
    ensures Satisfies(cex, r)
  {
  }

  /** The search has led from start to m, forwards. */
  predicate Reached(start: Moment, m: Moment) {
    Normal(m) && start.year <= m.year && (m == start || Before(start, m))
  }

  /**
   * What a search from start came to at m: it threw, at the edge of time, or it did not go back, and what it found,
   * if it found something, is worth what Found says; it finds something where Answered promises it.
   */
  ghost predicate Outcome(cex: CronExpr, dot: int, start: Moment, m: Moment, ok: bool, res: bool)
    requires ValidExpr(cex) && Normal(start)
  {
    if !ok then FellOff(cex, dot, start, m)
    else Reached(start, m) && (res ==> Found(cex, dot, start, m)) && (Answered(cex, dot, start) ==> res)
  }

  lemma LaterStill(cex: CronExpr, dot: int, start: Moment, m: Moment, r: Moment)
    requires ValidExpr(cex) && Turn(cex, dot, start, m) && Reached(m, r)
    ensures Reached(start, r)
  {
    hide Measure, Cap, Taken;
    if r != m {
      BeforeAgain(start, m, r);
    }
  }

  /** An operation that throws does so within two years, */
  lemma Fails(cex: CronExpr, dot: int, start: Moment, now: Moment, m: Moment)
    requires ValidExpr(cex) && Onward(cex, dot, start, now) && Overrun(now, m)
    ensures FellOff(cex, dot, start, m)
  {
    hide Measure, Unsettled, HasBit, MonthLength;
  }

  /** and a nested search within the bound of the outer one. */
  lemma FailsNested(cex: CronExpr, dot: int, start: Moment, now: Moment, m: Moment)
    requires ValidExpr(cex) && Onward(cex, dot, start, now) && FellOff(cex, dot, now, m)
    ensures FellOff(cex, dot, start, m)
  {
    hide Measure, Cap;
  }

  lemma StageMoment(cex: CronExpr, dot: int, start: Moment, now: Moment, marked: Bits, level: nat)
    requires ValidExpr(cex) && Stage(cex, dot, start, now, marked, level)
    ensures Onward(cex, dot, start, now) && Normal(now) && Marks(marked) && Reached(start, now)
    ensures level < 3 ==> ClockMarks(marked)
  {
    hide Measure, Cap, Taken;
  }

  lemma TurnMoment(cex: CronExpr, dot: int, start: Moment, m: Moment)
    requires ValidExpr(cex) && Turn(cex, dot, start, m)
    ensures Onward(cex, dot, start, m) && Normal(start) && Normal(m) && start.year <= m.year
    ensures Measure(cex, dot, m) < Measure(cex, dot, start)
    ensures forall r :: !Taken(cex, start, r)
  {
    hide Measure, Cap, Taken;
  }

  lemma AnsweredOn(cex: CronExpr, dot: int, start: Moment, m: Moment)
    requires ValidExpr(cex) && Onward(cex, dot, start, m) && Answered(cex, dot, start)
    ensures Answered(cex, dot, m)
  {
    hide Measure, Cap, AllSet, DaysFree, Yearly, Within, InRange;
  }

  /** What a nested search from r, where a turn has led, means to the search around it. */
  lemma AfterNested(cex: CronExpr, dot: int, start: Moment, now: Moment, r: Moment, m: Moment, marked: Bits, level: nat,
                    ok: bool, res: bool)
    requires ValidExpr(cex) && Stage(cex, dot, start, now, marked, level) && level <= 2
    requires Turn(cex, dot, start, r) && (level <= 1 ==> !TimeFits(cex, start))
    requires Normal(r) && Outcome(cex, dot, r, m, ok, res)
    ensures Normal(start) && (!ok || !res ==> Outcome(cex, dot, start, m, ok, res))
    ensures ok && res ==> Stage(cex, dot, start, m, marked, level + 1)
  {
    hide Measure, Cap, Taken, Turn, Stage, Found, FellOff, Onward, Reached, TimeFits, Answered;
    TurnMoment(cex, dot, start, r);
    if !ok {
      FailsNested(cex, dot, start, r, m);
    } else {
      LaterStill(cex, dot, start, r, m);
      if res {
        NestedStage(cex, dot, start, now, r, m, marked, level);
      } else if Answered(cex, dot, start) {
        AnsweredOn(cex, dot, start, r);
      }
    }
  }

  lemma AfterLast(cex: CronExpr, dot: int, start: Moment, r: Moment, m: Moment, ok: bool, res: bool)
    requires ValidExpr(cex) && Turn(cex, dot, start, r) && Normal(r) && Outcome(cex, dot, r, m, ok, res)
    ensures Normal(start) && Outcome(cex, dot, start, m, ok, res)
  {
    hide Measure, Cap, Taken, Turn, FellOff, Onward, Reached, Reliable, Satisfies, NoCarry, Answered;
    TurnMoment(cex, dot, start, r);
    if !ok {
      FailsNested(cex, dot, start, r, m);
    } else {
      LaterStill(cex, dot, start, r, m);
      if res {
        OnwardAgain(cex, dot, start, r, m);
      } else if Answered(cex, dot, start) {
        AnsweredOn(cex, dot, start, r);
      }
    }
  }

  lemma ReachedHere(m: Moment)
    requires Normal(m)
    ensures Reached(m, m)
  {
  }

  lemma ReachedYear(start: Moment, m: Moment)
    requires Reached(start, m)
    ensures Normal(m) && start.year <= m.year
  {
  }

  /**
   * find_next on all fields.  It only moves forwards, and it ends: a nested search starts later, and either settles
   * a field or is due within the year limit.  If the expression is reliable, what it finds satisfies it.
   */
  method FindNext(cex: CronExpr, date: Tm, dot: int) returns (ok: bool, res: bool)
    requires date.Tidy() && ValidExpr(cex) && -INT_MAX - 1 <= dot <= date.tm_year
    modifies date
    ensures ok ==> date.Tidy()
    ensures Outcome(cex, dot, old(date.Value()), date.Value(), ok, res)
    ensures ok ==> forall r :: Taken(cex, old(date.Value()), r) ==> res && date.Value() == r
    ensures ok && old(Satisfies(cex, date.Value())) ==> res && date.Value() == old(date.Value())
    ensures ok ==> Sights(cex, dot, old(date.Value()), date.Value(), res)
    ensures ok && old(MonthOnly(cex, date.Value())) ==> Reached(NextMonthOf(cex, old(date.Value())), date.Value())
    decreases Measure(cex, dot, date.Value()), 1
  {
    hide Measure, Cap, Landing, Before, Taken, TimeFits, Turn, Stage, Found, FellOff, Onward, Overrun, Weekday, Stamp,
         MonthLength, Representable, Reached, Answered, Sighted, Sights, Heads;
    TidyMoment(date);
    ghost var start := date.Value();
    SatisfiedIsTaken(cex, start);
    res := true;
    var marked, emptyList := seq(7, i => false), seq(7, i => false);

    var second := date.tm_sec;
    OnwardFromHere(cex, dot, start);
    SecondStage(cex, dot, start);
    SecondSight(cex, start);
    var updatedSecond, updatedMinute, updatedHour;
    ok, updatedSecond := FindNextField(cex.seconds, date, second, Second, Minute, emptyList);
    if !ok {
      Fails(cex, dot, start, start, date.Value());
      return;
    }
    if second == updatedSecond {
      marked := marked[0 := true];
    }

    var minute := date.tm_min;
    ghost var now := date.Value();
    StageMoment(cex, dot, start, now, marked, 0);
    MinuteStage(cex, dot, start, now, marked);
    MinuteSight(cex, dot, start, now, marked);
    ok, updatedMinute := FindNextField(cex.minutes, date, minute, Minute, HourOfDay, marked);
    if !ok {
      Fails(cex, dot, start, now, date.Value());
      return;
    }
    if minute == updatedMinute {
      marked := marked[1 := true];
    } else {
      ghost var r := date.Value();
      TurnMoment(cex, dot, start, r);
      ok, res := FindNext(cex, date, dot);
      AfterNested(cex, dot, start, now, r, date.Value(), marked, 0, ok, res);
      if ok {
        AfterSight(cex, dot, start, r, date.Value(), marked, 0, ok, res);
      }
      if !ok || !res {
        return;
      }
    }

    var hour := date.tm_hour;
    now := date.Value();
    StageMoment(cex, dot, start, now, marked, 1);
    HourStage(cex, dot, start, now, marked);
    HourSight(cex, dot, start, now, marked);
    ok, updatedHour := FindNextField(cex.hours, date, hour, HourOfDay, DayOfWeek, marked);
    if !ok {
      Fails(cex, dot, start, now, date.Value());
      return;
    }
    if hour == updatedHour {
      marked := marked[2 := true];
    } else {
      ghost var r := date.Value();
      TurnMoment(cex, dot, start, r);
      ok, res := FindNext(cex, date, dot);
      AfterNested(cex, dot, start, now, r, date.Value(), marked, 1, ok, res);
      if ok {
        AfterSight(cex, dot, start, r, date.Value(), marked, 1, ok, res);
      }
      if !ok || !res {
        return;
      }
    }

    ok, res := FindDayAndMonth(cex, date, dot, start, marked);
  }

  /** The second half of it. */
  method FindDayAndMonth(cex: CronExpr, date: Tm, dot: int, ghost start: Moment, marks: Bits)
    returns (ok: bool, res: bool)
    requires date.Tidy() && ValidExpr(cex) && -INT_MAX - 1 <= dot <= start.year
    requires Stage(cex, dot, start, date.Value(), marks, 2) && Sighted(cex, start, date.Value(), marks, 2)
    requires Normal(start)
    modifies date
    ensures ok ==> date.Tidy()
    ensures Outcome(cex, dot, start, date.Value(), ok, res)
    ensures ok ==> forall r :: Taken(cex, start, r) ==> res && date.Value() == r
    ensures ok ==> Sights(cex, dot, start, date.Value(), res)
    ensures ok && MonthOnly(cex, start) ==> Reached(NextMonthOf(cex, start), date.Value())
    decreases Measure(cex, dot, start), 0
  {
    hide Measure, Cap, Landing, Before, Taken, TimeFits, Turn, Stage, Found, FellOff, Onward, Overrun, Weekday, Stamp,
         MonthLength, Representable, Reached, Answered, OtherDay, NoneFits, DayFits, DaysFree, Day, Sighted, Sights,
         Heads;
    res := true;
    var marked := marks;
    var updatedDay, updatedMonth;
    var dayOfWeek, dayOfMonth := date.tm_wday, date.tm_mday;
    ghost var now := date.Value();
    StageMoment(cex, dot, start, now, marked, 2);
    ok, updatedDay := FindNextDay(date, cex, dayOfMonth, dayOfWeek, marked);
    if !ok {
      Fails(cex, dot, start, now, date.Value());
      return;
    }
    TidyMoment(date);
    DayStage(cex, dot, start, now, date.Value(), marked);
    DaySight(cex, dot, start, now, date.Value(), marked);
    if MonthOnly(cex, start) {
      AllMarked(cex, dot, start, now, marked);
    }
    if dayOfMonth == updatedDay {
      marked := marked[4 := true];
    } else {
      ghost var r := date.Value();
      TurnMoment(cex, dot, start, r);
      ok, res := FindNext(cex, date, dot);
      AfterNested(cex, dot, start, now, r, date.Value(), marked, 2, ok, res);
      if ok {
        AfterSight(cex, dot, start, r, date.Value(), marked, 2, ok, res);
      }
      if !ok || !res {
        return;
      }
    }

    var month := date.tm_mon;
    now := date.Value();
    StageMoment(cex, dot, start, now, marked, 3);
    MonthStage(cex, dot, start, now, marked);
    MonthSight(cex, dot, start, now, marked);
    ok, updatedMonth := FindNextField(cex.months, date, month, Month, Year, marked);
    if !ok {
      Fails(cex, dot, start, now, date.Value());
      return;
    }
    if month != updatedMonth {
      TidyMoment(date);
      ReachedYear(start, date.Value());
      HeadsToSights(cex, dot, start, date.Value());
      ReachedHere(date.Value());
      if (date.tm_year - dot) % SIZE_RANGE > CRON_MAX_YEARS_DIFF {
        return true, false;
      }
      ghost var r := date.Value();
      TurnMoment(cex, dot, start, r);
      ok, res := FindNext(cex, date, dot);
      AfterLast(cex, dot, start, r, date.Value(), ok, res);
      if ok {
        AfterSight(cex, dot, start, r, date.Value(), marked, 3, ok, res);
      }
    }
  }

  // ----- cron_next

  /** localtime, on a clock without time zone. */
  function ToTm(t: int): (m: Moment)
    ensures Normal(m)
  {
    Norm(Moment(70, 0, 1, 0, 0, t))
  }

  lemma InstantOf(t: int)
    ensures Stamp(ToTm(t)) == t
  {
    hide Norm;
    NormKeepsStamp(Moment(70, 0, 1, 0, 0, t));
  }

  lemma InstantBack(m: Moment)
    requires Normal(m)
    ensures ToTm(Stamp(m)) == m
  {
    hide ToTm, Stamp, MonthLength;
    InstantOf(Stamp(m));
    OneDatePerInstant(ToTm(Stamp(m)), m);
  }

  /** mktime on what the search left behind, which it leaves alone. */
  method TimeOf(date: Tm) returns (t: int)
    requires date.Tidy()
    modifies date
    ensures date.Tidy() && date.Value() == old(date.Value()) && t == Stamp(date.Value()) && t != INVALID_TIME
  {
    hide Norm, Stamp, Weekday;
    NormOfNormal(date.Value());
    t := date.ToTime();
  }

  lemma NoEarlier(a: Moment, b: Moment)
    requires Normal(a) && Normal(b) && Reached(a, b)
    ensures Stamp(a) <= Stamp(b)
  {
    hide Stamp, Before, Normal;
    if a != b {
      StampsInOrder(a, b);
    }
  }

  lemma OneSecondOn(m: Moment)
    requires Normal(m)
    ensures var r := Norm(Added(m, Second, 1));
            Normal(r) && Stamp(r) == Stamp(m) + 1 && m.year <= r.year <= m.year + 1
  {
    hide Norm, Day, MonthLength;
    var b := Added(m, Second, 1);
    assert Day(b) == Day(m) by { SameDays(m, b); }
    assert Stamp(b) == Stamp(m) + 1;
    NormKeepsStamp(b);
    var r := Norm(Added(m, Second, 1));
    OneDatePerInstant(m, r);
    hide Stamp;
    DaysMoved(m, r);
    NextYearAtMost(m, r);
  }

  lemma NextYearAtMost(a: Moment, b: Moment)
    requires Normal(a) && Normal(b) && Day(b) <= Day(a) + 1
    ensures b.year <= a.year + 1
  {
    hide YearStart, Day, MonthLength;
    if b.year > a.year + 1 {
      WithinYear(a);
      WithinYear(b);
      YearAtLeast(1900 + a.year + 1);
      YearsInOrder(1900 + a.year + 2, 1900 + b.year);
    }
  }

  /** The instant is from 1970 on and not in the last years that tm_year can hold. */
  predicate InTime(t: int) {
    0 <= t && ToTm(t).year + 170 <= INT_MAX
  }

  lemma SinceEpoch(t: int)
    requires 0 <= t
    ensures 70 <= ToTm(t).year
  {
    hide ToTm, Stamp;
    InstantOf(t);
    if ToTm(t).year < 70 {
      BelowYear(ToTm(t), 70);
    }
  }

  /** What a search that starts in the year it is limited by came to. */
  lemma SearchFacts(cex: CronExpr, start: Moment, m: Moment, ok: bool, res: bool)
    requires ValidExpr(cex) && Normal(start) && Outcome(cex, start.year, start, m, ok, res)
    ensures !ok ==> start.year < 70 || INT_MAX < start.year + 160
    ensures ok ==> Reached(start, m)
    ensures ok && res && Reliable(cex) ==> Normal(m) && Satisfies(cex, m)
    ensures ok && res && DaysFree(cex) ==> m.year <= start.year + 6
    ensures ok && Unfailing(cex) ==> res
  {
    hide Day, MonthLength, Before, Measure, AllSet, DaysFree, Yearly, Within, InRange, Reliable, Satisfies;
    RangeOf(cex, start, start.year + 6);
    if ok && res && DaysFree(cex) {
      RangeHolds(cex, m, m, start.year + 6);
    }
  }

  /** Asked at t, the search takes something for the answer that does not satisfy the expression. */
  ghost predicate Misleads(cex: CronExpr, t: int)
    requires ValidExpr(cex)
  {
    InTime(t) && exists r :: Taken(cex, ToTm(t), r) && r != ToTm(t) && !Satisfies(cex, r)
  }

  lemma Asked(m: Moment)
    requires Normal(m) && 70 <= m.year && m.year + 170 <= INT_MAX
    ensures InTime(Stamp(m)) && ToTm(Stamp(m)) == m
  {
    hide ToTm, Day, MonthLength;
    InstantBack(m);
    ClockBelowDay(m);
    WithinYear(m);
    YearsInOrder(1970, 1900 + m.year);
  }

  lemma NeverMisled(cex: CronExpr, t: int)
    requires ValidExpr(cex) && Reliable(cex)
    ensures !Misleads(cex, t)
  {
    hide Reliable, ToTm, DayFits, NoneFits, Day, MonthLength;
    forall r | Taken(cex, ToTm(t), r)
      ensures Satisfies(cex, r)
    {
      TakenReliably(cex, ToTm(t), r);
    }
  }

  /** An expression is reliable exactly if it never misleads. */
  lemma ReliableIsExact(cex: CronExpr)
    requires ValidExpr(cex)
    ensures Reliable(cex) <==> forall t :: !Misleads(cex, t)
  {
    hide Taken, Satisfies, Reliable, ToTm, Stamp;
    if Reliable(cex) {
      forall t
        ensures !Misleads(cex, t)
      {
        NeverMisled(cex, t);
      }
    } else {
      var m, r := SomethingTaken(cex);
      Asked(m);
      assert Misleads(cex, Stamp(m));
    }
  }

  /** next is the first instant after t that satisfies the expression. */
  ghost predicate IsNext(cex: CronExpr, t: int, next: int)
    requires ValidExpr(cex)
  {
    t < next && Satisfies(cex, ToTm(next)) && forall s :: t < s < next ==> !Satisfies(cex, ToTm(s))
  }

  /** None after t does, to the end of the fourth year on. */
  ghost predicate NoneSoon(cex: CronExpr, t: int)
    requires ValidExpr(cex)
  {
    forall s :: t < s && ToTm(s).year <= ToTm(t).year + 4 ==> !Satisfies(cex, ToTm(s))
  }

  /** The answer that cron_next should give. */
  ghost predicate Right(cex: CronExpr, t: int, next: int)
    requires ValidExpr(cex)
  {
    if next == INVALID_TIME then NoneSoon(cex, t) else IsNext(cex, t, next)
  }

  lemma SkipsInstants(cex: CronExpr, a: int, m: Moment, s: int)
    requires ValidExpr(cex) && Normal(m) && Skips(cex, ToTm(a), m) && a <= s < Stamp(m)
    ensures !Satisfies(cex, ToTm(s))
  {
    hide ToTm, Stamp, Satisfies, MonthLength;
    InstantOf(a);
    InstantOf(s);
    OneDatePerInstant(ToTm(a), ToTm(s));
    OneDatePerInstant(ToTm(s), m);
  }

  lemma SkipsYears(cex: CronExpr, a: int, m: Moment, year: int, s: int)
    requires ValidExpr(cex) && Normal(m) && Skips(cex, ToTm(a), m) && a <= s && ToTm(s).year <= year < m.year
    ensures !Satisfies(cex, ToTm(s))
  {
    hide ToTm, Stamp, Satisfies, MonthLength;
    InstantOf(a);
    InstantOf(s);
    OneDatePerInstant(ToTm(a), ToTm(s));
  }

  /** What a search from instant a, nothing between t and which fits, and which led to m, is worth as an answer at t. */
  lemma SearchIsRight(cex: CronExpr, t: int, a: int, m: Moment, found: bool)
    requires ValidExpr(cex) && Normal(m) && (a == t ==> found ==> m != ToTm(t)) && t <= a <= t + 1
    requires Skips(cex, ToTm(a), m) && (found ==> Satisfies(cex, m) && Reached(ToTm(a), m) && Stamp(m) != INVALID_TIME)
    requires !found ==> ToTm(a).year + CRON_MAX_YEARS_DIFF < m.year
    ensures Right(cex, t, if found then Stamp(m) else INVALID_TIME)
  {
    hide ToTm, Stamp, Satisfies, MonthLength, Reached, Skips;
    InstantOf(t);
    InstantOf(a);
    if found {
      InstantBack(m);
      NoEarlier(ToTm(a), m);
      OneDatePerInstant(ToTm(a), m);
      forall s | t < s < Stamp(m)
        ensures !Satisfies(cex, ToTm(s))
      {
        SkipsInstants(cex, a, m, s);
      }
    } else {
      if a > t {
        OneDatePerInstant(ToTm(t), ToTm(a));
      }
      forall s | t < s && ToTm(s).year <= ToTm(t).year + CRON_MAX_YEARS_DIFF
        ensures !Satisfies(cex, ToTm(s))
      {
        SkipsYears(cex, a, m, ToTm(t).year + CRON_MAX_YEARS_DIFF, s);
      }
    }
  }

  /** The first search of cron_next, if its answer stands. */
  lemma FirstAnswer(cex: CronExpr, t: int, m: Moment, found: bool)
    requires ValidExpr(cex) && Orderly(cex) && Normal(m) && (found ==> m != ToTm(t))
    requires Sights(cex, ToTm(t).year, ToTm(t), m, found)
    requires found ==> Satisfies(cex, m) && Reached(ToTm(t), m) && Stamp(m) != INVALID_TIME
    ensures Right(cex, t, if found then Stamp(m) else INVALID_TIME) <==> !Hasty(cex, ToTm(t))
    ensures Hasty(cex, ToTm(t)) ==> found && Sought(cex, ToTm(t), m)
  {
    hide ToTm, Stamp, Satisfies, MonthLength, Reached, Skips, Hasty, Stop, Orderly;
    if Hasty(cex, ToTm(t)) {
      var q := HastyPassesOver(cex, ToTm(t), m);
      InstantOf(t);
      InstantBack(q);
      OneDatePerInstant(ToTm(t), q);
      OneDatePerInstant(q, m);
      assert !IsNext(cex, t, Stamp(m));
    } else {
      SearchIsRight(cex, t, t, m, found);
    }
  }

  /** The second, one second later. */
  lemma SecondAnswer(cex: CronExpr, t: int, later: Moment, m: Moment, found: bool)
    requires ValidExpr(cex) && Orderly(cex) && Normal(later) && Normal(m) && Satisfies(cex, ToTm(t))
    requires Stamp(later) == t + 1 && Sights(cex, later.year, later, m, found)
    requires found ==> Satisfies(cex, m) && Reached(later, m) && Stamp(m) != INVALID_TIME
    ensures Right(cex, t, if found then Stamp(m) else INVALID_TIME) && !Hasty(cex, ToTm(t))
  {
    hide ToTm, Stamp, Satisfies, MonthLength, Reached, Skips, Hasty, Stop, Orderly;
    InstantOf(t);
    InstantBack(later);
    NotHastyAfter(cex, ToTm(t), later);
    SearchIsRight(cex, t, t + 1, m, found);
  }

  lemma MonthIsLater(cex: CronExpr, m: Moment, r: Moment)
    requires ValidExpr(cex) && Normal(m) && MonthOnly(cex, m) && Reached(NextMonthOf(cex, m), r)
    ensures m != r
  {
    hide Landing, Stamp, Day, MonthLength, DayFits, TimeFits;
    Lands(cex.months, m, Month, [true, true, true, false, true, false, false]);
  }

  /** What lies before the first of that month is not found. */
  lemma PassedOver(cex: CronExpr, t: int, m: Moment, found: bool)
    requires ValidExpr(cex) && MonthOnly(cex, ToTm(t)) && Normal(m) && Reached(NextMonthOf(cex, ToTm(t)), m)
    requires found ==> Stamp(m) != INVALID_TIME
    ensures PassesOver(cex, ToTm(t)) ==> !Right(cex, t, if found then Stamp(m) else INVALID_TIME)
  {
    hide ToTm, Landing, Stamp, Day, MonthLength, MonthOnly, Satisfies;
    if PassesOver(cex, ToTm(t)) {
      var start := ToTm(t);
      var q :| Normal(q) && Satisfies(cex, q) && Before(start, q) && Before(q, NextMonthOf(cex, start));
      InstantOf(t);
      InstantBack(q);
      StampsInOrder(start, q);
      StampsInOrder(q, m);
      MonthSoon(cex, start);
    }
  }

  lemma MonthSoon(cex: CronExpr, m: Moment)
    requires ValidExpr(cex) && Normal(m) && MonthOnly(cex, m)
    ensures Normal(NextMonthOf(cex, m)) && NextMonthOf(cex, m).year <= m.year + 2
  {
    hide Landing, Day, MonthLength, DayFits, TimeFits, Before;
    Lands(cex.months, m, Month, [true, true, true, false, true, false, false]);
  }

  lemma OrderlyIsReliable(cex: CronExpr)
    requires ValidExpr(cex)
    ensures Orderly(cex) ==> Reliable(cex)
  {
  }

  /**
   * cron_next: a valid answer is later than t and, if the expression is reliable, satisfies it.  It throws only at
   * the edge of time, and otherwise always has an answer if the expression is unfailing.  If the expression is orderly,
   * the answer is the next instant that satisfies it exactly if the search from t is not hasty.
   */
  method CronNext(cex: CronExpr, t: int) returns (ok: bool, next: int)
    requires ValidExpr(cex)
    ensures ok && next != INVALID_TIME ==> t < next && (Reliable(cex) ==> Satisfies(cex, ToTm(next)))
    ensures ok && next != INVALID_TIME && DaysFree(cex) ==> ToTm(next).year <= ToTm(t).year + 7
    ensures InTime(t) ==> ok && forall r :: Taken(cex, ToTm(t), r) && r != ToTm(t) ==> next == Stamp(r)
    ensures Misleads(cex, t) ==> ok && next != INVALID_TIME && !Satisfies(cex, ToTm(next))
    ensures InTime(t) && Unfailing(cex) ==> next != INVALID_TIME
    ensures InTime(t) && Satisfies(cex, ToTm(t)) ==> forall r :: Taken(cex, ToTm(t + 1), r) ==> next == Stamp(r)
    ensures InTime(t) && Orderly(cex) ==> (Right(cex, t, next) <==> !Hasty(cex, ToTm(t)))
    ensures InTime(t) && Orderly(cex) && Hasty(cex, ToTm(t)) ==> Sought(cex, ToTm(t), ToTm(next))
    ensures InTime(t) && MonthOnly(cex, ToTm(t)) && next != INVALID_TIME ==>
              Reached(NextMonthOf(cex, ToTm(t)), ToTm(next))
    ensures InTime(t) && PassesOver(cex, ToTm(t)) ==> !Right(cex, t, next)
  {
    hide Norm, Stamp, Weekday, Reached, Satisfies, DaysFree, ToTm, Representable, Added, Normal, Before, Taken;
    hide Reliable, Unfailing, Outcome, Sights, Right, Orderly, Hasty, Sought, MonthOnly, NextMonthOf;
    assert PassesOver(cex, ToTm(t)) ==> MonthOnly(cex, ToTm(t));
    hide PassesOver;
    var val := ToTm(t);
    InstantOf(t);
    if InTime(t) {
      SinceEpoch(t);
      Expressible(val);
    }
    next := INVALID_TIME;
    if !(-INT_MAX - 1 <= val.year <= INT_MAX) {
      return true, INVALID_TIME;
    }
    NormOfNormal(val);
    var dt := new Tm(val);
    var original := dt.ToTime();
    if INVALID_TIME == original {
      return true, INVALID_TIME;
    }
    var found;
    ok, found := FindNext(cex, dt, dt.tm_year);
    SearchFacts(cex, val, dt.Value(), ok, found);
    if !ok {
      return;
    }
    ghost var at := dt.Value();
    ReachedYear(val, at);
    OrderlyIsReliable(cex);
    if MonthOnly(cex, val) {
      MonthIsLater(cex, val, at);
    }
    if !found {
      if MonthOnly(cex, val) {
        PassedOver(cex, t, at, false);
      }
      if Orderly(cex) {
        FirstAnswer(cex, t, at, false);
      }
      return true, INVALID_TIME;
    }
    TidyMoment(dt);
    NoEarlier(val, at);
    InstantBack(at);
    OneDatePerInstant(val, at);
    var calculated := TimeOf(dt);
    if MonthOnly(cex, val) {
      PassedOver(cex, t, at, true);
    }
    if calculated == original {
      OneSecondOn(at);
      if InTime(t) {
        Expressible(Norm(Added(at, Second, 1)));
      }
      ok := dt.AddToField(Second, 1);
      if !ok {
        return;
      }
      ghost var later := dt.Value();
      TidyMoment(dt);
      InstantBack(later);
      ok, found := FindNext(cex, dt, dt.tm_year);
      SearchFacts(cex, later, dt.Value(), ok, found);
      if !ok {
        return;
      }
      ReachedYear(later, dt.Value());
      if Orderly(cex) {
        if found {
          TidyMoment(dt);
        }
        SecondAnswer(cex, t, later, dt.Value(), found);
      }
      if !found {
        return true, INVALID_TIME;
      }
      TidyMoment(dt);
      NoEarlier(later, dt.Value());
      InstantBack(dt.Value());
    } else if Orderly(cex) {
      FirstAnswer(cex, t, at, true);
    }
    next := TimeOf(dt);
  }

  lemma NoLeapDay(cex: CronExpr, r: Moment)
    requires ValidExpr(cex) && !Yearly(cex) && Normal(r)
    ensures Stamp(Moment(196, 2, 1, 0, 0, 0)) < Stamp(r) && Satisfies(cex, r) ==> r.year > 203
  {
    hide Day, Stamp, MonthLength, Yearly;
    OneDatePerInstant(Moment(196, 2, 1, 0, 0, 0), r);
    if Satisfies(cex, r) {
      OnlyLeapDays(cex, r);
    }
  }

  /** If a day field is open and no allowed date comes every year, there is no answer after 29 February 2096. */
  method NoAnswer(cex: CronExpr) returns (next: int)
    requires ValidExpr(cex) && DaysFree(cex) && !Yearly(cex)
    ensures next == INVALID_TIME
  {
    hide Taken, Satisfies, DaysFree, Yearly, Reliable, Day, MonthLength, ToTm, Stamp;
    FreeIsReliable(cex);
    Asked(Moment(196, 2, 1, 0, 0, 0));
    var ok;
    ok, next := CronNext(cex, Stamp(Moment(196, 2, 1, 0, 0, 0)));
    InstantOf(next);
    NoLeapDay(cex, ToTm(next));
  }
}
