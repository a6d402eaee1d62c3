// Cron expressions that include/dmcroncpp.h answers wrongly: two whose search ends where the expression does not hold,
// and two whose search passes the next instant over.

module CronExamples {
  import opened Gregorian
  import opened CronSearch
  import opened NextInstant
  import opened CronFields
  import opened CronNames
  import opened CronTexts
  import opened Leastness
  import opened Reliability

  // ----- two wrong answers, with both day fields restricted

  function Only(n: nat, k: nat): Bits {
    seq(n, i => i == k)
  }

  /** 12:30:30 on the first of a month, if it is a Wednesday. */
  function WednesdayTheFirst(): CronExpr {
    CronExpr(Only(60, 30), Only(60, 30), Only(24, 12), Only(7, 3), Only(31, 0), seq(12, i => true))
  }

  /** Midnight on Friday the 13th. */
  function FridayThe13th(): CronExpr {
    CronExpr(Only(60, 0), Only(60, 0), Only(24, 0), Only(7, 5), Only(31, 12), seq(12, i => true))
  }

  lemma WellMade()
    ensures ValidExpr(WednesdayTheFirst()) && ValidExpr(FridayThe13th())
  {
    var w, f, all := WednesdayTheFirst(), FridayThe13th(), seq(12, i => true);
    assert w.seconds[30] && w.minutes[30] && w.hours[12] && w.daysOfWeek[3] && w.daysOfMonth[0] && all[0];
    assert f.seconds[0] && f.minutes[0] && f.hours[0] && f.daysOfWeek[5] && f.daysOfMonth[12];
  }

  lemma EarlyIn2023()
    ensures Day(Moment(123, 0, 1, 12, 30, 30)) == 19358 && Day(Moment(123, 1, 1, 0, 0, 0)) == 19389
  {
    assert YearStart(2023) == 738886;
  }

  lemma AugustTheFourteenth()
    ensures Day(Moment(127, 7, 14, 0, 0, 0)) == 21044 && Day(Moment(128, 7, 14, 0, 0, 0)) == 21410
  {
    hide YearStart;
    ThoseYears();
  }

  /** From Sunday, 1 January 2023, the day is found, on 1 February, but the time of day is lost on the way. */
  lemma TimeLost()
    ensures var cex, m, r := WednesdayTheFirst(), Moment(123, 0, 1, 12, 30, 30), Moment(123, 1, 1, 0, 0, 0);
            ValidExpr(cex) && Taken(cex, m, r) && !Satisfies(cex, r)
  {
    var cex, m, r := WednesdayTheFirst(), Moment(123, 0, 1, 12, 30, 30), Moment(123, 1, 1, 0, 0, 0);
    hide Day, MonthLength;
    WellMade();
    EarlyIn2023();
    forall d: Moment | Normal(d) && Day(m) <= Day(d) < Day(r)
      ensures !DayFits(cex, d)
    {
      if d.mday == 1 {
        if Day(m) < Day(d) {
          SameDayApart(m, d);
          SameDayApart(d, r);
        } else {
          FitsByDate(cex, d, m);
        }
      }
    }
  }

  /** From 14 August 2027 to 13 August 2028 no 13th is a Friday, so the search gives up after 366 days: on the 14th. */
  lemma DayLost()
    ensures var cex, m, r := FridayThe13th(), Moment(127, 7, 14, 0, 0, 0), Moment(128, 7, 14, 0, 0, 0);
            ValidExpr(cex) && Taken(cex, m, r) && !DayFits(cex, r)
  {
    var cex, m, r := FridayThe13th(), Moment(127, 7, 14, 0, 0, 0), Moment(128, 7, 14, 0, 0, 0);
    hide Day, MonthLength;
    WellMade();
    AugustTheFourteenth();
    forall d: Moment | Normal(d) && Day(m) <= Day(d) < Day(r)
      ensures !DayFits(cex, d)
    {
      if d.mday == 13 {
        NoFridayThe13th(d);
      }
    }
  }

  lemma NoFridayThe13th(d: Moment)
    requires Normal(d) && d.mday == 13
    requires Day(Moment(127, 7, 14, 0, 0, 0)) <= Day(d) < Day(Moment(128, 7, 14, 0, 0, 0))
    ensures Weekday(d) != 5
  {
    hide YearStart, MonthLength;
    InThoseMonths(d);
    ThoseYears();
  }

  lemma ThoseYears()
    ensures YearStart(2027) == 740347 && YearStart(2028) == 740712
  {
  }

  lemma InThoseMonths(d: Moment)
    requires Normal(d) && d.mday == 13
    requires Day(Moment(127, 7, 14, 0, 0, 0)) <= Day(d) < Day(Moment(128, 7, 14, 0, 0, 0))
    ensures (d.year == 127 && d.mon > 7) || (d.year == 128 && d.mon <= 7)
  {
    hide Day, MonthLength;
    if d.year < 127 || (d.year == 127 && d.mon <= 7) {
      DaysInOrder(d, Moment(127, 7, 14, 0, 0, 0));
    } else if d.year > 128 || (d.year == 128 && d.mon > 7) {
      DaysInOrder(Moment(128, 7, 14, 0, 0, 0), d);
    }
  }

  lemma OneNumber(k: nat)
    requires k < 100
    ensures var es := [Bare(One(k))];
            AllShort(es) && ShowList(es) == (if k < 10 then [Digit(k)] else [Digit(k / 10), Digit(k % 10)])
    ensures ' ' !in Decimal(k) && Decimal(k) != ""
    ensures Digit(0) == '0' && Digit(1) == '1' && Digit(2) == '2' && Digit(3) == '3' && Digit(5) == '5'
  {
    DecimalReads(k);
    JoinCons(Show(Bare(One(k))), [], ',');
    assert Shown([Bare(One(k))]) == [Show(Bare(One(k)))];
    NumbersStay([Bare(One(k))]);
  }

  lemma OneStar()
    ensures ShowList([Bare(Star)]) == "*"
  {
    JoinCons("*", [], ',');
    assert Shown([Bare(Star)]) == ["*"];
  }

  lemma BitsOfNumber(k: nat, minval: nat, maxval: nat)
    requires minval <= k <= maxval < 100
    ensures AllProper([Bare(One(k))], minval, maxval)
    ensures ListBits([Bare(One(k))], minval, maxval) == Only(maxval - minval + 1, k - minval)
  {
    assert forall v :: ListCovers([Bare(One(k))], minval, maxval, v) <==> Covers([Bare(One(k))][0], minval, maxval, v);
  }

  lemma BitsOfStar(minval: nat, maxval: nat)
    requires minval <= maxval
    ensures AllProper([Bare(Star)], minval, maxval)
    ensures ListBits([Bare(Star)], minval, maxval) == seq(maxval - minval + 1, i => true)
  {
    assert forall v :: ListCovers([Bare(Star)], minval, maxval, v) <==> Covers([Bare(Star)][0], minval, maxval, v);
  }

  /** A field that is a number or a star, and what it is as a field of days or months. */
  lemma PlainField(k: nat)
    requires k < 100
    ensures ShowList([Bare(Star)]) == "*" && ' ' !in "*" && AnyDay("*") == "*"
    ensures MonthsText("*") == "*" && DaysOfWeekText("*") == "*"
    ensures var text := ShowList([Bare(One(k))]);
            && MonthsText(text) == text && DaysOfWeekText(text) == text && AnyDay(text) == text
            && ' ' !in text && text != ""
  {
    hide ShowList, MonthsText, DaysOfWeekText;
    OneStar();
    NumbersStay([Bare(One(k))]);
    NumbersStay([Bare(Star)]);
  }

  lemma WednesdayText()
    ensures Says("30 30 12 1 * 3", WednesdayTheFirst())
  {
    hide Says, Reads, FieldsOf, ListBits, ShowList, MonthsText, DaysOfWeekText, Only;
    OneNumber(30);
    OneNumber(12);
    OneNumber(1);
    OneNumber(3);
    PlainField(3);
    PlainField(1);
    BitsOfNumber(30, 0, 59);
    BitsOfNumber(12, 0, 23);
    BitsOfNumber(1, 1, 31);
    BitsOfNumber(3, 0, 6);
    BitsOfStar(1, 12);
    SixFields("30", "30", "12", "1", "*", "3");
    var s := [' '];
    var text := "30" + (s + ("30" + (s + ("12" + (s + ("1" + (s + ("*" + (s + "3")))))))));
    assert "30 30 12 1 * 3" == text;
    ExpressionMeans("30 30 12 1 * 3", [Bare(One(30))], [Bare(One(30))], [Bare(One(12))], [Bare(One(1))], [Bare(Star)],
                    [Bare(One(3))]);
  }

  lemma FridayText()
    ensures Says("0 0 0 13 * 5", FridayThe13th())
  {
    hide Says, Reads, FieldsOf, ListBits, ShowList, MonthsText, DaysOfWeekText, Only;
    OneNumber(0);
    OneNumber(13);
    OneNumber(5);
    PlainField(5);
    PlainField(13);
    BitsOfNumber(0, 0, 59);
    BitsOfNumber(0, 0, 23);
    BitsOfNumber(13, 1, 31);
    BitsOfNumber(5, 0, 6);
    BitsOfStar(1, 12);
    SixFields("0", "0", "0", "13", "*", "5");
    var s := [' '];
    var text := "0" + (s + ("0" + (s + ("0" + (s + ("13" + (s + ("*" + (s + "5")))))))));
    assert "0 0 0 13 * 5" == text;
    ExpressionMeans("0 0 0 13 * 5", [Bare(One(0))], [Bare(One(0))], [Bare(One(0))], [Bare(One(13))], [Bare(Star)],
                    [Bare(One(5))]);
  }

  /** What the engine answers to a text. */
  method AnswerTo(expr: string, t: int, ghost cex: CronExpr) returns (next: int)
    requires ValidExpr(cex) && Says(expr, cex) && InTime(t)
    ensures forall r :: Taken(cex, ToTm(t), r) && r != ToTm(t) ==> next == Stamp(r)
    ensures Orderly(cex) ==> (Right(cex, t, next) <==> !Hasty(cex, ToTm(t)))
    ensures Orderly(cex) && Hasty(cex, ToTm(t)) ==> Sought(cex, ToTm(t), ToTm(next))
    ensures MonthOnly(cex, ToTm(t)) && next != INVALID_TIME ==> Reached(NextMonthOf(cex, ToTm(t)), ToTm(next))
    ensures PassesOver(cex, ToTm(t)) ==> !Right(cex, t, next)
  {
    hide Reads, Says, HasBit, Satisfies, ToTm, DaysFree, Taken, Stamp, Right, Hasty, Orderly, Sought, MonthOnly;
    hide NextMonthOf, Reached, PassesOver;
    SaysReads(expr, cex);
    var c := MakeCron(expr);
    SaysOne(expr, c.value, cex);
    var _, n := CronNext(c.value, t);
    next := n;
  }

  /** Its answers to the two. */
  method WrongAnswers() returns (lostTime: int, lostDay: int)
    ensures Says("30 30 12 1 * 3", WednesdayTheFirst()) && Says("0 0 0 13 * 5", FridayThe13th())
    ensures lostTime == Stamp(Moment(123, 1, 1, 0, 0, 0)) && lostDay == Stamp(Moment(128, 7, 14, 0, 0, 0))
    ensures ValidExpr(WednesdayTheFirst()) && !Satisfies(WednesdayTheFirst(), ToTm(lostTime))
    ensures ValidExpr(FridayThe13th()) && !Satisfies(FridayThe13th(), ToTm(lostDay))
  {
    hide WednesdayTheFirst, FridayThe13th, Says, Taken, Stamp, ToTm, Day, MonthLength;
    TimeLost();
    WednesdayText();
    ghost var r := Moment(123, 1, 1, 0, 0, 0);
    Asked(Moment(123, 0, 1, 12, 30, 30));
    lostTime := AnswerTo("30 30 12 1 * 3", Stamp(Moment(123, 0, 1, 12, 30, 30)), WednesdayTheFirst());
    InstantBack(r);
    DayLost();
    FridayText();
    r := Moment(128, 7, 14, 0, 0, 0);
    Asked(Moment(127, 7, 14, 0, 0, 0));
    lostDay := AnswerTo("0 0 0 13 * 5", Stamp(Moment(127, 7, 14, 0, 0, 0)), FridayThe13th());
    InstantBack(r);
  }

  // ----- an instant passed over for its second

  /** Every ten seconds from Monday to Friday. */
  function TensOnWorkdays(): CronExpr {
    CronExpr(seq(60, i => i % 10 == 0), seq(60, i => true), seq(24, i => true),
             seq(7, i => 1 <= i <= 5), seq(31, i => true), seq(12, i => true))
  }

  lemma ShowOne(e: Entry)
    requires Short(e)
    ensures AllShort([e]) && ShowList([e]) == Show(e)
  {
    hide Show;
    JoinCons(Show(e), [], ',');
    assert Shown([e]) == [Show(e)];
  }

  lemma TensFrom0()
    ensures Show(By(One(0), 10)) == "0/10" && Show(Bare(Span(1, 5))) == "1-5" && Show(Bare(Star)) == "*"
    ensures AllProper([By(One(0), 10)], 0, 59) && ListBits([By(One(0), 10)], 0, 59) == TensOnWorkdays().seconds
    ensures AllProper([Bare(Span(1, 5))], 0, 6) && ListBits([Bare(Span(1, 5))], 0, 6) == TensOnWorkdays().daysOfWeek
  {
    var e, d := By(One(0), 10), Bare(Span(1, 5));
    assert forall v :: ListCovers([e], 0, 59, v) <==> Covers([e][0], 0, 59, v);
    assert forall v :: ListCovers([d], 0, 6, v) <==> Covers([d][0], 0, 6, v);
  }

  /** The text of test/dmtimercrontest. */
  lemma WorkdayText()
    ensures Says("0/10 * * ? * MON-FRI", TensOnWorkdays())
  {
    hide Says, Reads, FieldsOf, ListBits, ShowList, Show, MonthsText, DaysOfWeekText;
    ShowOne(By(One(0), 10));
    ShowOne(Bare(Span(1, 5)));
    TensFrom0();
    PlainField(0);
    DayNames();
    BitsOfStar(0, 59);
    BitsOfStar(0, 23);
    BitsOfStar(1, 31);
    BitsOfStar(1, 12);
    SixFields("0/10", "*", "*", "?", "*", "MON-FRI");
    var s := [' '];
    var text := "0/10" + (s + ("*" + (s + ("*" + (s + ("?" + (s + ("*" + (s + "MON-FRI")))))))));
    assert "0/10 * * ? * MON-FRI" == text;
    var star := [Bare(Star)];
    ExpressionMeans("0/10 * * ? * MON-FRI", [By(One(0), 10)], star, star, star, star, [Bare(Span(1, 5))]);
  }

  lemma Workdays()
    ensures ValidExpr(TensOnWorkdays()) && Orderly(TensOnWorkdays())
  {
    var c := TensOnWorkdays();
    assert c.seconds[0] && c.minutes[0] && c.hours[0] && c.daysOfWeek[1] && c.daysOfMonth[0] && c.months[0];
    hide Reliable;
    FreeIsReliable(c);
  }

  lemma FirstWeekOf2024()
    ensures Day(Moment(124, 0, 6, 12, 0, 5)) == Day(Moment(124, 0, 6, 12, 0, 10)) == 19728
    ensures Day(Moment(124, 0, 8, 0, 0, 10)) == 19730
  {
    assert YearStart(2024) == 739251;
  }

  /** On Saturday, 6 January 2024, five seconds after noon, the search is hasty. */
  lemma SaturdayIsHasty()
    ensures var cex, m := TensOnWorkdays(), Moment(124, 0, 6, 12, 0, 5);
            && ValidExpr(cex) && Normal(m) && Hasty(cex, m)
            && Moved(cex, m, Moment(124, 0, 6, 12, 0, 10))
            && Stop(cex, Moment(124, 0, 6, 12, 0, 10), Moment(124, 0, 8, 0, 0, 10))
            && Satisfies(cex, Moment(124, 0, 8, 0, 0, 0))
  {
    hide Day, MonthLength, Orderly;
    Workdays();
    FirstWeekOf2024();
    var cex, m, n, r := TensOnWorkdays(), Moment(124, 0, 6, 12, 0, 5), Moment(124, 0, 6, 12, 0, 10),
                        Moment(124, 0, 8, 0, 0, 10);
    assert cex.seconds[10] && m.(sec := NextBit(cex.seconds, m.sec)) == n;
    assert cex.seconds[0];
    assert NoneFits(cex, Day(n), Day(r));
    SameDays(r, Moment(124, 0, 8, 0, 0, 0));
    January31(124);
    assert Stop(cex, n, r) && Satisfies(cex, r);
  }

  lemma January31(year: int)
    ensures MonthLength(1900 + year, 0) == 31
  {
  }

  /** So the answer is ten seconds past midnight on Monday, though midnight comes first. */
  method LateOnMonday() returns (next: int)
    ensures Says("0/10 * * ? * MON-FRI", TensOnWorkdays()) && ValidExpr(TensOnWorkdays())
    ensures next == Stamp(Moment(124, 0, 8, 0, 0, 10))
    ensures !Right(TensOnWorkdays(), Stamp(Moment(124, 0, 6, 12, 0, 5)), next)
    ensures Satisfies(TensOnWorkdays(), Moment(124, 0, 8, 0, 0, 0))
  {
    hide Says, Right, Hasty, Moved, Stop, Satisfies, Orderly, Sought, ToTm, Stamp, Day, MonthLength, HasBit, Taken;
    hide TensOnWorkdays, MonthOnly;
    WorkdayText();
    Workdays();
    SaturdayIsHasty();
    ghost var cex, m, n := TensOnWorkdays(), Moment(124, 0, 6, 12, 0, 5), Moment(124, 0, 6, 12, 0, 10);
    Asked(m);
    next := AnswerTo("0/10 * * ? * MON-FRI", Stamp(Moment(124, 0, 6, 12, 0, 5)), cex);
    HastyEndsAt(cex, m, n, Moment(124, 0, 8, 0, 0, 10), ToTm(next));
    InstantOf(next);
  }

  // ----- an instant passed over for its month

  /** Midnight on every day of February. */
  function InFebruary(): CronExpr {
    CronExpr(Only(60, 0), Only(60, 0), Only(24, 0), seq(7, i => true), seq(31, i => true), Only(12, 1))
  }

  lemma FebruaryText()
    ensures Says("0 0 0 ? 2 *", InFebruary())
  {
    hide Says, Reads, FieldsOf, ListBits, ShowList, MonthsText, DaysOfWeekText, Only;
    OneNumber(0);
    OneNumber(2);
    PlainField(2);
    DayNames();
    BitsOfNumber(0, 0, 59);
    BitsOfNumber(0, 0, 23);
    BitsOfStar(1, 31);
    BitsOfNumber(2, 1, 12);
    BitsOfStar(0, 6);
    SixFields("0", "0", "0", "?", "2", "*");
    var s := [' '];
    var text := "0" + (s + ("0" + (s + ("0" + (s + ("?" + (s + ("2" + (s + "*")))))))));
    assert "0 0 0 ? 2 *" == text;
    ExpressionMeans("0 0 0 ? 2 *", [Bare(One(0))], [Bare(One(0))], [Bare(One(0))], [Bare(Star)], [Bare(One(2))],
                    [Bare(Star)]);
  }

  /** From 31 January the search for February slips into March. */
  lemma SlipsIntoMarch()
    ensures var cex, m := InFebruary(), Moment(101, 0, 31, 0, 0, 0);
            && ValidExpr(cex) && Normal(m) && MonthOnly(cex, m) && NextMonthOf(cex, m) == Moment(101, 2, 1, 0, 0, 0)
            && Normal(Moment(101, 1, 1, 0, 0, 0)) && Satisfies(cex, Moment(101, 1, 1, 0, 0, 0)) && PassesOver(cex, m)
  {
    hide Day, Norm, Settle;
    var cex, m := InFebruary(), Moment(101, 0, 31, 0, 0, 0);
    assert cex.seconds[0] && cex.minutes[0] && cex.hours[0] && cex.daysOfWeek[0] && cex.daysOfMonth[0] && cex.months[1];
    assert NextBit(cex.months, 0) == 1;
    NormDate(With(m, Month, 1));
    SettleNear(101, 1, 31);
    var q := Moment(101, 1, 1, 0, 0, 0);
    assert Satisfies(cex, q) && Before(m, q) && Before(q, NextMonthOf(cex, m));
  }

  /** So asked at that midnight the engine passes over the whole of February 2001. */
  method FebruaryPassed() returns (next: int)
    ensures Says("0 0 0 ? 2 *", InFebruary()) && ValidExpr(InFebruary())
    ensures !Right(InFebruary(), Stamp(Moment(101, 0, 31, 0, 0, 0)), next)
    ensures next == INVALID_TIME || Stamp(Moment(101, 2, 1, 0, 0, 0)) <= next
    ensures Satisfies(InFebruary(), Moment(101, 1, 1, 0, 0, 0))
  {
    hide Says, Right, Hasty, Satisfies, Orderly, Sought, ToTm, Stamp, Day, MonthLength, HasBit, Taken, InFebruary;
    hide NextMonthOf, MonthOnly, PassesOver;
    ghost var m := Moment(101, 0, 31, 0, 0, 0);
    FebruaryText();
    SlipsIntoMarch();
    Asked(m);
    next := AnswerTo("0 0 0 ? 2 *", Stamp(Moment(101, 0, 31, 0, 0, 0)), InFebruary());
    InstantOf(next);
    if next != INVALID_TIME {
      NoEarlier(Moment(101, 2, 1, 0, 0, 0), ToTm(next));
    }
  }
}
