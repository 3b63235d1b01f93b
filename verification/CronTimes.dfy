/**
  From the text of a schedule to the date and time at which it fires: what parser, bitsets and search of
  ccronexpr.cpp come to together, and one of the repository's own tests (ccronexpr_test.c line 305) by it.
 */
module CronTimes {
  import opened Calendar
  import opened CronSearch
  import opened CronCorrect
  import CronParse
  import CronParser
  import CronPrint
  import Dates

  /** What a schedule says about a date and time: months count from 1, and Sunday may be written as 0 or 7. */
  ghost predicate Says(s: CronParse.Schedule, b: Broken, weekday: int) {
    && CronParse.Selected(s.seconds, b.sec) && CronParse.Selected(s.minutes, b.min)
    && CronParse.Selected(s.hours, b.hour)
    && CronParse.Selected(s.daysOfMonth, b.mday) && CronParse.Selected(s.months, b.mon + 1)
    && (CronParse.Selected(s.daysOfWeek, weekday) || (weekday == 0 && CronParse.Selected(s.daysOfWeek, 7)))
  }

  /** The schedule names this instant. */
  ghost predicate Names(s: CronParse.Schedule, t: int) {
    Says(s, FromInstant(t), Wday(DayOf(t)))
  }

  lemma ShownAt(bits: seq<bool>, items: seq<CronParse.Item>, shift: nat, i: nat)
    requires CronParser.Shows(bits, items, shift) && i < |bits|
    ensures Hit(bits, i) <==> CronParse.Selected(items, i + shift)
  {
  }

  lemma WeekdayShown(bits: seq<bool>, items: seq<CronParse.Item>, w: nat)
    requires CronParser.ShowsDays(bits, items) && |bits| == 8 && w < 7
    ensures Hit(bits, w) <==> CronParse.Selected(items, w) || (w == 0 && CronParse.Selected(items, 7))
  {
  }

  lemma ClockParts(t: int)
    ensures t / 60 % 60 == MinuteOf(t) && t / 60 / 60 % 24 == HourOf(t) && t / 60 / 1440 == DayOf(t)
    ensures 0 <= MonthOf(DayOf(t)) % 12 < 12 && 1 <= Mday(DayOf(t)) <= 31
  {
    assert t / 60 / 60 == t / 3600;
    assert t / 60 / 1440 == t / 86400;
  }

  /** The bitsets of a schedule match exactly the instants that it names. */
  lemma MatchIsNamed(e: Expr, s: CronParse.Schedule, t: int)
    requires CronParser.Loaded(e, s)
    ensures Match(e, t) <==> Names(s, t)
  {
    ClockParts(t);
    ShownAt(e.seconds, s.seconds, 0, t % 60);
    ShownAt(e.minutes, s.minutes, 0, MinuteOf(t));
    ShownAt(e.hours, s.hours, 0, HourOf(t));
    ShownAt(e.daysOfMonth, s.daysOfMonth, 0, Mday(DayOf(t)));
    ShownAt(e.months, s.months, 1, MonthOf(DayOf(t)) % 12);
    WeekdayShown(e.daysOfWeek, s.daysOfWeek, Wday(DayOf(t)));
  }

  /** The schedule names z, and nothing between x and z. */
  ghost predicate NamesNext(s: CronParse.Schedule, x: int, z: int) {
    x < z && Names(s, z) && forall t :: x < t < z ==> !Names(s, t)
  }

  lemma NextIsNamed(e: Expr, s: CronParse.Schedule, x: int, z: int)
    requires CronParser.Loaded(e, s)
    ensures IsNext(e, x, z) <==> NamesNext(s, x, z)
  {
    MatchIsNamed(e, s, z);
    forall t
      ensures Match(e, t) <==> Names(s, t)
    {
      MatchIsNamed(e, s, t);
    }
  }

  /**
    For a text with one day field unrestricted and a match in every year: cron_next gives the first later
    instant that the text names, always, exactly when the seconds are unbroken (or alone restricted) and no
    selected month can be overshot.
   */
  lemma TextFires(text: string, e: Expr, s: CronParse.Schedule)
    requires CronParse.ParseExpr(text) == CronParse.Some(s) && CronParser.Loaded(e, s)
    requires OneDayFree(e) && Yearly(e)
    ensures NonEmpty(e)
    ensures (forall x, z :: NamesNext(s, x, z) ==> CronNext(e, x) == Found(z)) <==> SecondsOK(e) && MonthsOK(e)
  {
    CronParser.ParsedIsNonEmpty(text, e);
    CronNextExact(e);
    forall x, z
      ensures IsNext(e, x, z) <==> NamesNext(s, x, z)
    {
      NextIsNamed(e, s, x, z);
    }
  }

  // ----- A test of the repository -----

  const WEEKDAYS_AT_SEVEN := "0 0 7 ? * MON-FRI"

  function AtSeven(): CronPrint.Printed {
    CronPrint.Printed(CronPrint.One(CronPrint.Exactly(CronPrint.Plain(0))),
                      CronPrint.One(CronPrint.Exactly(CronPrint.Plain(0))),
                      CronPrint.One(CronPrint.Exactly(CronPrint.Plain(7))), CronPrint.Marked,
                      CronPrint.One(CronPrint.Every),
                      CronPrint.Listed(CronPrint.One(CronPrint.Between(CronPrint.Named(1), CronPrint.Named(5)))))
  }

  function AtSevenItems(): CronParse.Schedule {
    CronParse.Schedule([CronParse.Item(0, 0, 1)], [CronParse.Item(0, 0, 1)], [CronParse.Item(7, 7, 1)],
                       [CronParse.Item(1, 5, 1)], [CronParse.Item(1, 31, 1)], [CronParse.Item(1, 12, 1)])
  }

  lemma AtSevenWrites(fields: seq<string>)
    requires fields == ["0", "0", "7", "?", "*", "MON-FRI"]
    ensures CronPrint.Writes(fields, AtSeven())
  {
    CronPrint.OneText(CronPrint.Exactly(CronPrint.Plain(0)), [], 0, 60);
    CronPrint.OneText(CronPrint.Exactly(CronPrint.Plain(7)), [], 0, 24);
    CronPrint.OneText(CronPrint.Every, CronPrint.YEAR, 1, 13);
    CronPrint.OneText(CronPrint.Between(CronPrint.Named(1), CronPrint.Named(5)), CronPrint.WEEK, 0, 8);
  }

  lemma AtSevenMeans()
    ensures CronPrint.SchedulePrintable(AtSeven()) && CronPrint.ScheduleMeans(AtSeven()) == AtSevenItems()
  {
    CronPrint.OneText(CronPrint.Exactly(CronPrint.Plain(0)), [], 0, 60);
    CronPrint.OneText(CronPrint.Exactly(CronPrint.Plain(7)), [], 0, 24);
    CronPrint.OneText(CronPrint.Every, [], 1, 13);
    CronPrint.OneText(CronPrint.Between(CronPrint.Named(1), CronPrint.Named(5)), [], 0, 8);
  }

  lemma AtSevenText(fields: seq<string>)
    requires fields == ["0", "0", "7", "?", "*", "MON-FRI"]
    ensures CronParse.Join(fields, ' ') == WEEKDAYS_AT_SEVEN
  {
    CronPrint.JoinSix("0", "0", "7", "?", "*", "MON-FRI");
    assert WEEKDAYS_AT_SEVEN == "0" + " " + "0" + " " + "7" + " " + "?" + " " + "*" + " " + "MON-FRI";
  }

  lemma AtSevenReads(fields: seq<string>, text: string)
    requires CronPrint.Writes(fields, AtSeven()) && text == CronParse.Join(fields, ' ') && |text| < 256
    ensures CronParse.ParseExpr(text) == CronParse.Some(AtSevenItems())
  {
    AtSevenMeans();
    CronPrint.ScheduleReads(fields, AtSeven());
  }

  lemma AtSevenParses()
    ensures CronParse.ParseExpr(WEEKDAYS_AT_SEVEN) == CronParse.Some(AtSevenItems())
  {
    var fields := ["0", "0", "7", "?", "*", "MON-FRI"];
    AtSevenWrites(fields);
    AtSevenText(fields);
    assert |WEEKDAYS_AT_SEVEN| == 17;
    AtSevenReads(fields, CronParse.Join(fields, ' '));
  }

  lemma OnlyItem(lo: nat, hi: nat, x: int)
    ensures CronParse.Selected([CronParse.Item(lo, hi, 1)], x) <==> lo <= x <= hi
  {
    var items := [CronParse.Item(lo, hi, 1)];
    assert CronParse.Hits(items[0], x) <==> lo <= x <= hi;
  }

  /** At seven sharp, from Monday to Friday. */
  lemma AtSevenNames(t: int)
    ensures Names(AtSevenItems(), t) <==> t % 86400 == 25200 && 1 <= Wday(DayOf(t)) <= 5
  {
    var b, w := FromInstant(t), Wday(DayOf(t));
    OnlyItem(0, 0, b.sec);
    OnlyItem(0, 0, b.min);
    OnlyItem(7, 7, b.hour);
    OnlyItem(1, 31, b.mday);
    OnlyItem(1, 12, b.mon + 1);
    OnlyItem(1, 5, w);
    OnlyItem(1, 5, 7);
    ClockParts(t);
    Clock(t);
    assert t % 86400 == b.hour * 3600 + b.min * 60 + b.sec;
  }

  lemma AtSevenFits(e: Expr)
    requires CronParser.Loaded(e, AtSevenItems())
    ensures OneDayFree(e) && Yearly(e) && SecondsOK(e) && MonthsOK(e)
  {
    forall i | 1 <= i < 32
      ensures Hit(e.daysOfMonth, i)
    {
      CronParser.ShowsRange(e.daysOfMonth, 1, 31, 0, i);
    }
    forall i | 0 <= i < 60
      ensures Hit(e.seconds, i) <==> i == 0
    {
      CronParser.ShowsRange(e.seconds, 0, 0, 0, i);
    }
    forall m | 0 <= m < 12
      ensures Hit(e.months, m)
    {
      CronParser.ShowsRange(e.months, 1, 12, 1, m);
    }
    assert Unbroken(e.seconds);
  }

  /** From 0:42:55 on Saturday, 26 September 2009, the next time is 7:00:00 on Monday, 28 September 2009. */
  lemma WeekdaysAtSeven(e: Expr, x: int, z: int)
    requires CronParse.ParseExpr(WEEKDAYS_AT_SEVEN).Some?
    requires CronParser.Loaded(e, CronParse.ParseExpr(WEEKDAYS_AT_SEVEN).value)
    requires FromInstant(x) == Broken(109, 8, 26, 0, 42, 55) && FromInstant(z) == Broken(109, 8, 28, 7, 0, 0)
    ensures NonEmpty(e)
    ensures CronNext(e, x) == Found(z)
  {
    AtSevenParses();
    AtSevenFits(e);
    TextFires(WEEKDAYS_AT_SEVEN, e, AtSevenItems());
    MondayIsNext(x, z);
  }

  lemma MondayIsNext(x: int, z: int)
    requires FromInstant(x) == Broken(109, 8, 26, 0, 42, 55) && FromInstant(z) == Broken(109, 8, 28, 7, 0, 0)
    ensures NamesNext(AtSevenItems(), x, z)
  {
    FromToInstant(x);
    FromToInstant(z);
    Dates.DateMeans(2009, 9, 26, 0, 42, 55);
    Dates.DateMeans(2009, 9, 28, 7, 0, 0);
    Dates.KnownDates();
    forall t | x < t <= z
      ensures Names(AtSevenItems(), t) <==> t == z
    {
      AtSevenNames(t);
      NotBefore(t);
    }
  }

  lemma NotBefore(t: int)
    requires 14513 * 86400 <= t <= 14515 * 86400 + 25200
    ensures t % 86400 == 25200 && 1 <= Wday(DayOf(t)) <= 5 <==> t == 14515 * 86400 + 25200
  {
    assert t / 86400 == 14513 || t / 86400 == 14514 || t / 86400 == 14515;
  }
}
