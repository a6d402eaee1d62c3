// The search of include/dmcroncpp.h for the next instant that a cron expression allows.

module CronSearch {
  import opened Gregorian

  const INT_MAX: int := 0x7fff_ffff
  const SIZE_RANGE: int := 0x1_0000_0000_0000_0000
  const INVALID_TIME: int := -1
  const INVALID_INDEX: nat := 0xffff_ffff_ffff_ffff
  const CRON_MAX_YEARS_DIFF: int := 4

  type Bits = seq<bool>

  datatype Field = Second | Minute | HourOfDay | DayOfWeek | DayOfMonth | Month | Year

  /** Bit i of daysOfMonth and months stands for day i + 1 and month i + 1; the others count from 0. */
  datatype CronExpr = CronExpr(
    seconds: Bits, minutes: Bits, hours: Bits,
    daysOfWeek: Bits, daysOfMonth: Bits, months: Bits)

  predicate HasBit(t: Bits, from: int) {
    exists i :: from <= i < |t| && 0 <= i && t[i]
  }

  /** What make_cron leaves behind: every field allows something. */
  predicate ValidExpr(cex: CronExpr) {
    && |cex.seconds| == 60 && |cex.minutes| == 60 && |cex.hours| == 24
    && |cex.daysOfWeek| == 7 && |cex.daysOfMonth| == 31 && |cex.months| == 12
    && HasBit(cex.seconds, 0) && HasBit(cex.minutes, 0) && HasBit(cex.hours, 0)
    && HasBit(cex.daysOfWeek, 0) && HasBit(cex.daysOfMonth, 0) && HasBit(cex.months, 0)
  }

  predicate AllSet(t: Bits) {
    forall i :: 0 <= i < |t| ==> t[i]
  }

  /** One of the two day fields is unrestricted. */
  predicate DaysFree(cex: CronExpr) {
    AllSet(cex.daysOfMonth) || AllSet(cex.daysOfWeek)
  }

  predicate DayFits(cex: CronExpr, m: Moment)
    requires ValidExpr(cex) && Normal(m)
  {
    cex.daysOfMonth[m.mday - 1] && cex.daysOfWeek[Weekday(m)]
  }

  /** The instant is one the expression asks for. */
  predicate Satisfies(cex: CronExpr, m: Moment)
    requires ValidExpr(cex) && Normal(m)
  {
    && cex.seconds[m.sec] && cex.minutes[m.min] && cex.hours[m.hour]
    && DayFits(cex, m) && cex.months[m.mon]
  }

  /** mktime can express the instant, and not by the value that means failure. */
  predicate Representable(m: Moment)
    requires 0 <= m.mon < 12
  {
    -INT_MAX - 1 <= m.year <= INT_MAX && Stamp(m) != INVALID_TIME
  }

  function Added(m: Moment, field: Field, val: int): Moment {
    match field
    case Second => m.(sec := m.sec + val)
    case Minute => m.(min := m.min + val)
    case HourOfDay => m.(hour := m.hour + val)
    case DayOfWeek => m.(mday := m.mday + val)
    case DayOfMonth => m.(mday := m.mday + val)
    case Month => m.(mon := m.mon + val)
    case Year => m.(year := m.year + val)
  }

  /** Assigning tm_wday is lost in the next mktime. */
  function With(m: Moment, field: Field, val: int): Moment {
    match field
    case Second => m.(sec := val)
    case Minute => m.(min := val)
    case HourOfDay => m.(hour := val)
    case DayOfWeek => m
    case DayOfMonth => m.(mday := val)
    case Month => m.(mon := val)
    case Year => m.(year := val)
  }

  class Tm {
    var tm_year: int
    var tm_mon: int
    var tm_mday: int
    var tm_hour: int
    var tm_min: int
    var tm_sec: int
    var tm_wday: int

    constructor (m: Moment)
      ensures Value() == m
    {
      tm_year, tm_mon, tm_mday := m.year, m.mon, m.mday;
      tm_hour, tm_min, tm_sec := m.hour, m.min, m.sec;
      tm_wday := 0;
    }

    function Value(): Moment
      reads this
    {
      Moment(tm_year, tm_mon, tm_mday, tm_hour, tm_min, tm_sec)
    }

    /** The fields are as mktime leaves them when it succeeds. */
    predicate Tidy()
      reads this
    {
      Normal(Value()) && tm_wday == Weekday(Value()) && Representable(Value())
    }

    /** mktime. */
    method ToTime() returns (t: int)
      modifies this
      ensures Value() == Norm(old(Value())) && tm_wday == Weekday(Value())
      ensures t == if Representable(Value()) then Stamp(Value()) else INVALID_TIME
    {
      var m := Norm(Value());
      tm_year, tm_mon, tm_mday := m.year, m.mon, m.mday;
      tm_hour, tm_min, tm_sec := m.hour, m.min, m.sec;
      tm_wday := Weekday(m);
      t := if Representable(m) then Stamp(m) else INVALID_TIME;
    }

    /** Instead of throwing bad_cronexpr the operations answer false. */
    method AddToField(field: Field, val: int) returns (ok: bool)
      modifies this
      ensures Value() == Norm(Added(old(Value()), field, val))
      ensures ok == Tidy() == Representable(Value())
    {
      hide Norm, Weekday, Stamp;
      match field {
        case Second => tm_sec := tm_sec + val;
        case Minute => tm_min := tm_min + val;
        case HourOfDay => tm_hour := tm_hour + val;
        case DayOfWeek => tm_mday := tm_mday + val;
        case DayOfMonth => tm_mday := tm_mday + val;
        case Month => tm_mon := tm_mon + val;
        case Year => tm_year := tm_year + val;
      }
      var t := ToTime();
      ok := t != INVALID_TIME;
    }

    method SetField(field: Field, val: int) returns (ok: bool)
      modifies this
      ensures Value() == Norm(With(old(Value()), field, val))
      ensures ok == Tidy() == Representable(Value())
    {
      hide Norm, Weekday, Stamp;
      match field {
        case Second => tm_sec := val;
        case Minute => tm_min := val;
        case HourOfDay => tm_hour := val;
        case DayOfWeek => tm_wday := val;
        case DayOfMonth => tm_mday := val;
        case Month => tm_mon := val;
        case Year => tm_year := val;
      }
      var t := ToTime();
      ok := t != INVALID_TIME;
    }

    method ResetField(field: Field) returns (ok: bool)
      modifies this
      ensures Value() == Norm(With(old(Value()), field, Least(field)))
      ensures ok == Tidy() == Representable(Value())
    {
      hide Norm, Weekday, Stamp;
      match field {
        case Second => tm_sec := 0;
        case Minute => tm_min := 0;
        case HourOfDay => tm_hour := 0;
        case DayOfWeek => tm_wday := 0;
        case DayOfMonth => tm_mday := 1;
        case Month => tm_mon := 0;
        case Year => tm_year := 0;
      }
      var t := ToTime();
      ok := t != INVALID_TIME;
    }
  }

  function Least(field: Field): int {
    if field == DayOfMonth then 1 else 0
  }

  function Get(m: Moment, field: Field): int
    requires field.Second? || field.Minute? || field.HourOfDay? || field.Month?
  {
    match field
    case Second => m.sec
    case Minute => m.min
    case HourOfDay => m.hour
    case Month => m.mon
  }

  function Size(field: Field): nat
    requires field.Second? || field.Minute? || field.HourOfDay? || field.Month?
  {
    if field.HourOfDay? then 24 else if field.Month? then 12 else 60
  }

  /** The field a search carries into. */
  function NextOf(field: Field): Field
    requires field.Second? || field.Minute? || field.HourOfDay? || field.Month?
  {
    match field
    case Second => Minute
    case Minute => HourOfDay
    case HourOfDay => DayOfWeek
    case Month => Year
  }

  function FieldAt(i: nat): Field
    requires i < 7
  {
    [Second, Minute, HourOfDay, DayOfWeek, DayOfMonth, Month, Year][i]
  }

  /** The first bit set at or after from. */
  function NextBit(t: Bits, from: nat): (i: nat)
    requires HasBit(t, from)
    ensures from <= i < |t| && t[i] && forall j :: from <= j < i ==> !t[j]
    decreases |t| - from
  {
    if t[from] then from else NextBit(t, from + 1)
  }

  method NextSetBit(target: Bits, offset: nat) returns (r: nat)
    ensures r == if HasBit(target, offset) then NextBit(target, offset) else INVALID_INDEX
  {
    var i := offset;
    while i < |target|
      invariant offset <= i
      invariant forall j :: offset <= j < i && j < |target| ==> !target[j]
      invariant HasBit(target, offset) ==> i <= NextBit(target, offset)
    {
      if target[i] {
        return i;
      }
      i := i + 1;
    }
    return INVALID_INDEX;
  }

  // ----- marks: the fields found to match already, which are rounded down when a higher field moves

  predicate Marks(marked: Bits) {
    |marked| == 7 && !marked[3] && !marked[5] && !marked[6]
  }

  /** The first n marked fields at their least value. */
  function Rounded(m: Moment, marked: Bits, n: nat): Moment
    requires Marks(marked)
  {
    m.(sec := if n > 0 && marked[0] then 0 else m.sec,
       min := if n > 1 && marked[1] then 0 else m.min,
       hour := if n > 2 && marked[2] then 0 else m.hour,
       mday := if n > 4 && marked[4] then 1 else m.mday)
  }

  /** An operation that began at start failed at m, which mktime cannot express: before 1970 or past the last year. */
  predicate Overrun(start: Moment, m: Moment) {
    start.year < 70 || INT_MAX < m.year <= start.year + 2
  }

  lemma Expressible(m: Moment)
    requires Normal(m) && 70 <= m.year <= INT_MAX
    ensures Representable(m)
  {
    hide Day, MonthLength;
    ClockBelowDay(m);
    WithinYear(m);
    YearsInOrder(1970, 1900 + m.year);
  }

  lemma BeforeEpoch(start: Moment, m: Moment)
    requires Normal(m) && Normal(start) && Representable(start) && !Representable(m)
    requires start.year <= m.year <= start.year + 2
    ensures Overrun(start, m)
  {
    hide Representable;
    if 70 <= m.year <= INT_MAX {
      Expressible(m);
    } else {
      YearFits(start);
    }
  }

  lemma RoundedOnce(m: Moment, marked: Bits, i: nat)
    requires Normal(m) && Marks(marked) && i < 7
    ensures Rounded(m, marked, 0) == m && Normal(Rounded(m, marked, i)) && Rounded(m, marked, i).year == m.year
    ensures Normal(Rounded(m, marked, i + 1)) && Rounded(m, marked, i + 1).year == m.year
    ensures Rounded(m, marked, i + 1) ==
            if marked[i] then Norm(With(Rounded(m, marked, i), FieldAt(i), Least(FieldAt(i))))
            else Rounded(m, marked, i)
  {
    var r := Rounded(m, marked, i);
    assert Normal(r);
    if marked[i] {
      assert Normal(With(r, FieldAt(i), Least(FieldAt(i))));
      NormOfNormal(With(r, FieldAt(i), Least(FieldAt(i))));
    }
  }

  method ResetAllFields(date: Tm, marked: Bits) returns (ok: bool)
    requires date.Tidy() && Marks(marked)
    modifies date
    ensures ok ==> date.Tidy() && date.Value() == Rounded(old(date.Value()), marked, 7)
    ensures !ok ==> old(date.Value().year) < 70
  {
    hide Norm, Normal, Rounded, With, FieldAt, Least, Representable, Stamp, Weekday, Tm.Value, Marks;
    ghost var m := date.Value();
    TidyMoment(date);
    MarksAreSeven(marked);
    RoundedOnce(m, marked, 0);
    for i := 0 to 7
      invariant date.Tidy() && date.Value() == Rounded(m, marked, i)
    {
      RoundedOnce(m, marked, i);
      if marked[i] {
        ok := date.ResetField(FieldAt(i));
        if !ok {
          Untidy(date, m);
          YearFits(m);
          return false;
        }
      }
    }
    return true;
  }

  lemma TidyMoment(date: Tm)
    requires date.Tidy()
    ensures Normal(date.Value()) && Representable(date.Value())
  {
  }

  lemma YearFits(m: Moment)
    requires Normal(m) && Representable(m)
    ensures -INT_MAX - 1 <= m.year <= INT_MAX
  {
  }

  lemma MarksAreSeven(marked: Bits)
    requires Marks(marked)
    ensures |marked| == 7
  {
  }

  lemma Untidy(date: Tm, start: Moment)
    requires Normal(date.Value()) && !Representable(date.Value())
    requires Normal(start) && Representable(start) && start.year <= date.Value().year <= start.year + 2
    ensures Overrun(start, date.Value())
  {
    BeforeEpoch(start, date.Value());
  }

  // ----- one field

  predicate Searched(field: Field) {
    field.Second? || field.Minute? || field.HourOfDay? || field.Month?
  }

  /** Only fields below the given one are marked. */
  predicate MarksBelow(marked: Bits, field: Field) {
    && Marks(marked) && Searched(field)
    && (marked[0] ==> !field.Second?)
    && (marked[1] ==> field.HourOfDay? || field.Month?)
    && (marked[2] ==> field.Month?)
    && (marked[4] ==> field.Month?)
  }

  /** The next higher field goes up by one, then the field itself back to its least value. */
  function Carried(m: Moment, field: Field): Moment
    requires Searched(field)
  {
    Norm(With(Norm(Added(m, NextOf(field), 1)), field, Least(field)))
  }

  /** Where the search for a bit of t in the given field ends. */
  function Landing(t: Bits, m: Moment, field: Field, marked: Bits): Moment
    requires MarksBelow(marked, field) && HasBit(t, 0) && 0 <= Get(m, field) < |t|
  {
    var value := Get(m, field);
    if t[value] then m
    else if HasBit(t, value) then Rounded(Norm(With(m, field, NextBit(t, value))), marked, 7)
    else Rounded(Norm(With(Carried(m, field), field, NextBit(t, 0))), marked, 7)
  }

  lemma SetFacts(m: Moment, field: Field, v: int)
    requires Normal(m) && Searched(field) && 0 <= v < Size(field)
    ensures var r := Norm(With(m, field, v));
            && Normal(r) && r.year == m.year
            && (!field.Month? ==> r == With(m, field, v))
            && (field.Month? ==> v <= r.mon && r.hour == m.hour && r.min == m.min && r.sec == m.sec)
            && (field.Month? && m.mday <= MonthLength(1900 + m.year, v) ==> r == m.(mon := v))
  {
    hide Norm, Settle;
    if !field.Month? {
      NormOfNormal(With(m, field, v));
    } else {
      NormDate(With(m, field, v));
      SettleNear(m.year, v, m.mday);
    }
  }

  lemma CarryFacts(m: Moment, field: Field)
    requires Normal(m) && Searched(field)
    ensures var a := Norm(Added(m, NextOf(field), 1));
            && Normal(a) && m.year <= a.year <= m.year + 2 && Before(m, a)
            && (field.Month? ==> a.year == m.year + 1)
            && (field.HourOfDay? ==> a.hour == m.hour)
            && (field.HourOfDay? || field.Minute? ==> a.min == m.min)
            && a.sec == m.sec
  {
    hide Norm;
    var b := Added(m, NextOf(field), 1);
    if field.Month? {
      NormDate(b);
      SettleNear(m.year + 1, m.mon, m.mday);
    } else {
      hide MonthLength, Day, Stamp;
      NormKeepsStamp(b);
      NormClock(b);
      Moves(m, field);
      OneDatePerInstant(m, Norm(b));
      DaysMoved(m, Norm(b));
      FewYearsOn(m, Norm(b));
    }
  }

  lemma Moves(m: Moment, field: Field)
    requires Normal(m) && Searched(field) && !field.Month?
    ensures 0 <= Added(m, NextOf(field), 1).mon < 12
    ensures Stamp(m) < Stamp(Added(m, NextOf(field), 1)) <= Stamp(m) + 86400
  {
    hide YearStart, MonthStart, MonthLength;
    assert Day(Added(m, NextOf(field), 1)) == Day(m) + if field.HourOfDay? then 1 else 0;
  }

  lemma DaysMoved(a: Moment, b: Moment)
    requires Normal(a) && Normal(b) && Stamp(b) <= Stamp(a) + 86400
    ensures Day(b) <= Day(a) + 1
  {
    hide Day, Stamp, MonthLength;
    ClockBelowDay(a);
    ClockBelowDay(b);
  }

  /** After a carry the field starts over from the bottom. */
  lemma CarriesTo(m: Moment, field: Field, v: int)
    requires Normal(m) && Searched(field) && 0 <= v < Size(field)
    ensures var a, c := Norm(Added(m, NextOf(field), 1)), Carried(m, field);
            var r := Norm(With(c, field, v));
            && Normal(a) && Normal(c) && Normal(r) && m.year <= a.year == c.year == r.year <= m.year + 2
            && (!field.Month? ==> r == With(a, field, v))
            && Before(m, r) && r.sec == (if field.Second? then v else m.sec)
            && (field.HourOfDay? ==> r.min == m.min)
  {
    hide Norm, MonthLength;
    CarryFacts(m, field);
    var a := Norm(Added(m, NextOf(field), 1));
    SetFacts(a, field, 0);
    SetFacts(Norm(With(a, field, 0)), field, v);
  }

  /** A search that finds its field unfit ends at a later instant, at which the field fits. */
  lemma Lands(t: Bits, m: Moment, field: Field, marked: Bits)
    requires Normal(m) && MarksBelow(marked, field) && HasBit(t, 0) && |t| == Size(field) && !t[Get(m, field)]
    ensures var r := Landing(t, m, field, marked);
            && Normal(r) && m.year <= r.year <= m.year + 2 && Before(m, r)
            && (!field.Month? ==> t[Get(r, field)])
            && (!field.Month? && HasBit(t, Get(m, field)) ==>
                  r == Rounded(With(m, field, NextBit(t, Get(m, field))), marked, 7))
            && (!field.Second? ==> r.sec == (if marked[0] then 0 else m.sec))
            && (field.HourOfDay? ==> r.min == (if marked[1] then 0 else m.min))
  {
    hide Norm, MonthLength, Carried;
    var value := Get(m, field);
    if HasBit(t, value) {
      SetFacts(m, field, NextBit(t, value));
      RoundedOnce(Norm(With(m, field, NextBit(t, value))), marked, 6);
    } else {
      CarryFacts(m, field);
      CarriesTo(m, field, NextBit(t, 0));
      RoundedOnce(Norm(With(Carried(m, field), field, NextBit(t, 0))), marked, 6);
    }
  }

  /** find_next on one field. */
  method FindNextField(target: Bits, date: Tm, value: nat, field: Field, nextField: Field, marked: Bits)
    returns (ok: bool, nextValue: nat)
    requires date.Tidy() && MarksBelow(marked, field) && HasBit(target, 0) && |target| == Size(field)
    requires value == Get(date.Value(), field) && nextField == NextOf(field)
    modifies date
    ensures ok ==> date.Tidy() && date.Value() == Landing(target, old(date.Value()), field, marked)
    ensures ok ==> (nextValue == value <==> target[value])
    ensures !ok ==> Overrun(old(date.Value()), date.Value())
  {
    hide Norm, Normal, Rounded, With, Added, Representable, Stamp, Weekday, Tm.Value, Tm.Tidy;
    ghost var m := date.Value();
    TidyMoment(date);
    nextValue := NextSetBit(target, value);
    if INVALID_INDEX == nextValue {
      CarriesTo(m, field, 0);
      ok := date.AddToField(nextField, 1);
      if !ok {
        Untidy(date, m);
        return;
      }
      ok := date.ResetField(field);
      if !ok {
        Untidy(date, m);
        return;
      }
      nextValue := NextSetBit(target, 0);
      CarriesTo(m, field, nextValue);
    } else {
      SetFacts(m, field, nextValue);
    }
    if INVALID_INDEX == nextValue || nextValue != value {
      ok := date.SetField(field, nextValue);
      if !ok {
        Untidy(date, m);
        return;
      }
      ok := ResetAllFields(date, marked);
      return;
    }
    return true, nextValue;
  }

  // ----- the day

  predicate ClockMarks(marked: Bits) {
    Marks(marked) && !marked[4]
  }

  lemma FittingWeekday(cex: CronExpr, m: Moment) returns (goal: Moment)
    requires ValidExpr(cex) && AllSet(cex.daysOfMonth) && Normal(m)
    ensures Normal(goal) && DayFits(cex, goal) && Day(m) <= Day(goal) <= Day(m) + 6
  {
    hide Norm, Day, MonthLength;
    var w := NextBit(cex.daysOfWeek, 0);
    var k := (w - Weekday(m)) % 7;
    NextDay(m, k);
    goal := Norm(m.(mday := m.mday + k));
    DaysToWeekday(Day(m) + 4, w);
  }

  lemma DaysToWeekday(x: int, w: nat)
    requires w < 7
    ensures (x + (w - x % 7) % 7) % 7 == w
  {
  }

  lemma FittingMonthday(cex: CronExpr, m: Moment) returns (goal: Moment)
    requires ValidExpr(cex) && AllSet(cex.daysOfWeek) && Normal(m)
    ensures Normal(goal) && DayFits(cex, goal) && Day(m) <= Day(goal) <= Day(m) + 365
  {
    hide YearStart, Weekday;
    var d := NextBit(cex.daysOfMonth, 0) + 1;
    var here, there := Moment(m.year, 0, d, 0, 0, 0), Moment(m.year + 1, 0, d, 0, 0, 0);
    goal := if Day(m) <= Day(here) then here else there;
    NextYear(1900 + m.year);
    WithinYear(m);
  }

  /** A fitting day within a year, and within a week if only the day of the week is restricted. */
  lemma FittingDay(cex: CronExpr, m: Moment) returns (goal: Moment)
    requires ValidExpr(cex) && DaysFree(cex) && Normal(m)
    ensures Normal(goal) && DayFits(cex, goal) && Day(m) <= Day(goal) <= Day(m) + 365
    ensures AllSet(cex.daysOfMonth) ==> Day(goal) <= Day(m) + 6
  {
    hide DayFits, Normal, Day;
    if AllSet(cex.daysOfMonth) {
      goal := FittingWeekday(cex, m);
    } else {
      goal := FittingMonthday(cex, m);
    }
  }

  /** A month of 31 days that begins r days of the week after its year. */
  function LongMonth(leap: bool, r: nat): (m: nat)
    ensures m < 12
  {
    if r == 0 then 0
    else if leap then (if r == 4 then 2 else if r == 2 then 4 else if r == 3 then 7 else if r == 1 then 9 else 11)
    else (if r == 3 then 2 else if r == 1 then 4 else if r == 6 then 6 else if r == 2 then 7 else 11)
  }

  lemma LongMonthBegins(y: int, r: nat)
    requires r < 7 && r != (if IsLeap(y) then 5 else 4)
    ensures MonthStart(y, LongMonth(IsLeap(y), r)) % 7 == r && MonthLength(y, LongMonth(IsLeap(y), r)) == 31
  {
  }

  /** From weekday of day x to weekday w it is so many days, modulo 7. */
  function DaysTo(x: int, w: nat): (r: nat)
    ensures r < 7
  {
    (w - (x + 4)) % 7
  }

  lemma DaysOfWeek(x: int, w: nat, n: int)
    requires w < 7
    ensures n % 7 == DaysTo(x, w) ==> (x + n + 4) % 7 == w
    ensures DaysTo(x + n, w) == (DaysTo(x, w) - n) % 7
  {
  }

  /** In each year all days of the week but one fall on the d-th of some long month. */
  lemma WeekdayInYear(year: int, d: nat, w: nat) returns (goal: Moment)
    requires 1 <= d <= 31 && w < 7
    requires DaysTo(Day(Moment(year, 0, d, 0, 0, 0)), w) != (if IsLeap(1900 + year) then 5 else 4)
    ensures Normal(goal) && goal.year == year && goal.mday == d && Weekday(goal) == w
  {
    hide YearStart, MonthLength, IsLeap, LongMonth, DaysTo, MonthStart;
    var jan := Moment(year, 0, d, 0, 0, 0);
    var r := DaysTo(Day(jan), w);
    var month := LongMonth(IsLeap(1900 + year), r);
    LongMonthBegins(1900 + year, r);
    NextMonth(1900 + year, 0);
    goal := Moment(year, month, d, 0, 0, 0);
    DaysOfWeek(Day(jan), w, MonthStart(1900 + year, month));
  }

  /** The one that is missing comes in the next year: any day of the month falls on any day of the week. */
  lemma AnyPair(year: int, d: nat, w: nat) returns (goal: Moment)
    requires 1 <= d <= 31 && w < 7
    ensures Normal(goal) && year <= goal.year <= year + 1 && goal.mday == d && Weekday(goal) == w
  {
    hide YearStart, MonthLength, DaysTo, MonthStart;
    var here, there := Moment(year, 0, d, 0, 0, 0), Moment(year + 1, 0, d, 0, 0, 0);
    if DaysTo(Day(here), w) != (if IsLeap(1900 + year) then 5 else 4) {
      goal := WeekdayInYear(year, d, w);
    } else {
      NextYear(1900 + year);
      YearDays(1900 + year);
      NextMonth(1900 + year, 0);
      NextMonth(1900 + year + 1, 0);
      DaysOfWeek(Day(here), w, MonthStart(1900 + year, 12));
      assert Day(there) == Day(here) + MonthStart(1900 + year, 12);
      goal := WeekdayInYear(year + 1, d, w);
    }
  }

  lemma YearDays(y: int)
    ensures MonthStart(y, 12) == if IsLeap(y) then 366 else 365
  {
  }

  /** Whatever the two day fields allow, a fitting day comes within three years. */
  lemma SomeFittingDay(cex: CronExpr, m: Moment) returns (goal: Moment)
    requires ValidExpr(cex) && Normal(m)
    ensures Normal(goal) && DayFits(cex, goal) && Day(m) <= Day(goal) <= Day(m) + 1098
  {
    hide Day, MonthLength;
    goal := AnyPair(m.year + 1, NextBit(cex.daysOfMonth, 0) + 1, NextBit(cex.daysOfWeek, 0));
    ThreeYears(m, goal);
  }

  lemma ThreeYears(a: Moment, b: Moment)
    requires Normal(a) && Normal(b) && a.year + 1 <= b.year <= a.year + 2
    ensures Day(a) <= Day(b) <= Day(a) + 1098
  {
    hide YearStart, Day, MonthLength;
    WithinYear(a);
    WithinYear(b);
    YearAtLeast(1900 + a.year);
    YearAtLeast(1900 + a.year + 1);
    YearAtLeast(1900 + a.year + 2);
  }

  lemma FitsByDate(cex: CronExpr, a: Moment, b: Moment)
    requires ValidExpr(cex) && Normal(a) && Normal(b) && Day(a) == Day(b)
    ensures DayFits(cex, a) == DayFits(cex, b)
  {
    SameDate(a, b);
  }

  /** One step of the search: the next day, with the marked parts of the time of day rounded down. */
  lemma DayOn(start: Moment, m: Moment, marked: Bits)
    requires Normal(start) && Normal(m) && ClockMarks(marked) && Day(start) <= Day(m) < Day(start) + 366
    ensures var a := Norm(Added(m, DayOfMonth, 1));
            var r := Rounded(a, marked, 7);
            && Normal(a) && Normal(r) && Day(r) == Day(m) + 1 && Before(start, r)
            && start.year <= a.year == r.year <= start.year + 2 && r.mday == a.mday && Weekday(r) == Weekday(a)
            && r.hour == (if marked[2] then 0 else m.hour)
            && r.min == (if marked[1] then 0 else m.min)
            && r.sec == (if marked[0] then 0 else m.sec)
  {
    hide Norm, MonthLength, YearStart, MonthStart;
    NextDay(m, 1);
    var a := Norm(Added(m, DayOfMonth, 1));
    RoundedOnce(a, marked, 6);
    LaterDay(start, a);
    LaterDay(start, Rounded(a, marked, 7));
    FewYearsOn(start, a);
  }

  lemma FewDaysOn(a: Moment, b: Moment)
    requires Normal(a) && Normal(b) && Day(a) < Day(b) < Day(a) + 28
    ensures a.mday != b.mday
  {
    if a.mday == b.mday {
      SameDayApart(a, b);
    }
  }

  /** What the search for a day does to m: nothing, or it goes to a later day at a rounded time of day. */
  predicate OtherDay(m: Moment, r: Moment, marked: Bits)
    requires ClockMarks(marked)
  {
    && Normal(m) && Normal(r) && m.year <= r.year <= m.year + 2 && Before(m, r) && Day(m) < Day(r) <= Day(m) + 366
    && r.hour == (if marked[2] then 0 else m.hour)
    && r.min == (if marked[1] then 0 else m.min)
    && r.sec == (if marked[0] then 0 else m.sec)
  }

  /** No day from day number a up to, but not including, day number b fits. */
  ghost predicate NoneFits(cex: CronExpr, a: int, b: int)
    requires ValidExpr(cex)
  {
    forall d: Moment :: Normal(d) && a <= Day(d) < b ==> !DayFits(cex, d)
  }

  lemma OneMoreUnfit(cex: CronExpr, a: int, m: Moment)
    requires ValidExpr(cex) && Normal(m) && !DayFits(cex, m) && NoneFits(cex, a, Day(m))
    ensures NoneFits(cex, a, Day(m) + 1)
  {
    hide DayFits;
    forall d: Moment | Normal(d) && a <= Day(d) < Day(m) + 1
      ensures !DayFits(cex, d)
    {
      if Day(d) == Day(m) {
        FitsByDate(cex, d, m);
      }
    }
  }

  /** Where the search ends if one of the day fields is free. */
  lemma FreeDayFound(cex: CronExpr, m: Moment, r: Moment)
    requires ValidExpr(cex) && DaysFree(cex) && Normal(m) && Normal(r) && Day(m) <= Day(r)
    requires NoneFits(cex, Day(m), Day(r)) && (DayFits(cex, r) || Day(r) == Day(m) + 366)
    ensures DayFits(cex, r) && (!DayFits(cex, m) ==> r.mday != m.mday)
  {
    hide Day, MonthLength;
    var goal := FittingDay(cex, m);
    if !DayFits(cex, m) {
      if AllSet(cex.daysOfMonth) && Day(m) != Day(r) {
        FewDaysOn(m, r);
      } else if Day(m) == Day(r) {
        FitsByDate(cex, m, r);
      }
    }
  }

  /**
   * find_next_day: finds the first fitting day, or gives up after 366 days, which is never too soon if one of the
   * day fields is free.
   */
  method FindNextDay(date: Tm, cex: CronExpr, dayOfMonth: nat, dayOfWeek: nat, marked: Bits)
    returns (ok: bool, day: nat)
    requires date.Tidy() && ValidExpr(cex) && ClockMarks(marked)
    requires dayOfMonth == date.tm_mday && dayOfWeek == date.tm_wday
    modifies date
    ensures ok ==> date.Tidy() && day == date.tm_mday
    ensures ok && old(DayFits(cex, date.Value())) ==> date.Value() == old(date.Value())
    ensures ok && !old(DayFits(cex, date.Value())) ==> OtherDay(old(date.Value()), date.Value(), marked)
    ensures ok ==> NoneFits(cex, old(Day(date.Value())), Day(date.Value()))
    ensures ok ==> DayFits(cex, date.Value()) || Day(date.Value()) == old(Day(date.Value())) + 366
    ensures ok && DaysFree(cex) ==>
              DayFits(cex, date.Value()) && (!old(DayFits(cex, date.Value())) ==> day != dayOfMonth)
    ensures !ok ==> Overrun(old(date.Value()), date.Value())
  {
    hide Norm, MonthLength, Day, Representable, OtherDay, Weekday, Tm.Value, NoneFits, DaysFree;
    TidyMoment(date);
    AsTold(date);
    ghost var m := date.Value();
    assert NoneFits(cex, Day(m), Day(m)) by { NothingBetween(cex, Day(m)); }
    var count, maximum := 0, 366;
    var wday := dayOfWeek;
    day := dayOfMonth;
    while (!cex.daysOfMonth[day - 1] || !cex.daysOfWeek[wday]) && count < maximum
      invariant date.Tidy() && day == date.tm_mday && wday == date.tm_wday && 1 <= day <= 31 && wday < 7
      invariant 0 <= count <= maximum && Day(date.Value()) == Day(m) + count
      invariant count == 0 ==> date.Value() == m
      invariant count > 0 ==> OtherDay(m, date.Value(), marked) && !DayFits(cex, m)
      invariant NoneFits(cex, Day(m), Day(date.Value()))
      decreases maximum - count
    {
      AsTold(date);
      OneMoreUnfit(cex, Day(m), date.Value());
      count := count + 1;
      ok, day, wday := StepDay(date, m, marked);
      if !ok {
        return;
      }
      AsTold(date);
    }
    AsTold(date);
    if DaysFree(cex) {
      FreeDayFound(cex, m, date.Value());
    }
    return true, day;
  }

  lemma NothingBetween(cex: CronExpr, a: int)
    requires ValidExpr(cex)
    ensures NoneFits(cex, a, a)
  {
  }

  lemma AsTold(date: Tm)
    requires date.Tidy()
    ensures Normal(date.Value()) && date.Value().mday == date.tm_mday && Weekday(date.Value()) == date.tm_wday
    ensures 1 <= date.tm_mday <= 31 && 0 <= date.tm_wday < 7
  {
  }

  /** The body of its loop; m is where the search began. */
  method StepDay(date: Tm, ghost m: Moment, marked: Bits) returns (ok: bool, day: nat, wday: nat)
    requires date.Tidy() && ClockMarks(marked) && Normal(m) && Representable(m)
    requires date.Value() == m || OtherDay(m, date.Value(), marked)
    requires Day(date.Value()) < Day(m) + 366
    modifies date
    ensures ok ==> date.Tidy() && day == date.tm_mday && wday == date.tm_wday
    ensures ok ==> OtherDay(m, date.Value(), marked) && Day(date.Value()) == Day(old(date.Value())) + 1
    ensures !ok ==> Overrun(m, date.Value())
  {
    hide Norm, MonthLength, Day, Stamp, Before, Representable, Weekday, Added;
    DayOn(m, date.Value(), marked);
    day, wday := 1, 0;
    ok := date.AddToField(DayOfMonth, 1);
    if !ok {
      Untidy(date, m);
      return;
    }
    day := date.tm_mday;
    wday := date.tm_wday;
    ok := ResetAllFields(date, marked);
  }
}
