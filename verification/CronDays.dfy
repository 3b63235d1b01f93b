/**
  The day search of main/comp/cron/ccronexpr.cpp (lines 380-397 and 451-477) with both day fields
  restricted: when it stops on the same day number in another month, it counts as not having moved. For
  which expressions the answer is a match all the same, and for which starts the search is modelled.
 */
module CronDays {
  import opened Calendar
  import opened CronSearch
  import opened CronCorrect

  /** The clock fields match at x, and the day search stops in another, selected month, on the day number of x. */
  predicate Coincides(e: Expr, x: int) {
    && Hit(e.seconds, x % 60) && Hit(e.minutes, x / 60 % 60) && Hit(e.hours, x / 3600 % 24)
    && var c := NextDay(e, x / 86400, DAY_LIMIT);
       c != x / 86400 && Mday(c) == Mday(x / 86400) && Hit(e.months, MonthOf(c) % 12)
  }

  /** The day search ends on the first matching day, and without one after 366 days. */
  lemma DayLimit(e: Expr, d: int)
    ensures var c := NextDay(e, d, DAY_LIMIT);
            d <= c <= d + 366 && (forall t :: d <= t < c ==> !DayHit(e, t)) && (DayHit(e, c) || c == d + 366)
  {
  }

  /** The midnight with which the day search of x ends. */
  function StopDay(e: Expr, x: int): int {
    NextDay(e, x / 86400, DAY_LIMIT) * 86400
  }

  lemma CoincidencePass(e: Expr, x: int)
    requires NonEmpty(e) && Coincides(e, x)
    ensures NextIdx(e.seconds, 60, x) == x && OnePass(e, x) == Done(StopDay(e, x)) && StopDay(e, x) > x
  {
    var i := x / 60;
    var c := NextDay(e, i / 1440, DAY_LIMIT);
    assert x / 86400 == i / 1440 && x / 3600 == i / 60;
    assert Hit(e.minutes, Residue(60, i)) && Hit(e.hours, Residue(24, i / 60));
    assert NextIdx(e.seconds, 60, x) == x;
    assert Stop(e, i) == i;
    assert Hit(e.months, Residue(12, MonthOf(c)));
    LaterDay(x, c, 0);
  }

  lemma Midnight(e: Expr, c: int)
    ensures Match(e, c * 86400) <==>
              Hit(e.seconds, 0) && Hit(e.minutes, 0) && Hit(e.hours, 0) && DayHit(e, c)
                  && Hit(e.months, MonthOf(c) % 12)
  {
    ClockOf(c, 0, 0, 0);
    var x := c * 86400;
    assert x / 60 == 1440 * c && x / 60 / 60 == 24 * c;
  }

  /**
    The search then ends at midnight of that day, with the clock reset. That is a match exactly when
    midnight matches in the clock fields and the search stopped for a matching day, not at its limit.
   */
  lemma DayCoincidence(e: Expr, x: int)
    requires NonEmpty(e) && Coincides(e, x)
    ensures CronNext(e, x) == Found(StopDay(e, x))
    ensures Match(e, StopDay(e, x)) <==>
              Hit(e.seconds, 0) && Hit(e.minutes, 0) && Hit(e.hours, 0) && DayHit(e, NextDay(e, x / 86400, DAY_LIMIT))
  {
    CoincidencePass(e, x);
    Midnight(e, NextDay(e, x / 86400, DAY_LIMIT));
  }

  // ----- When the answer is always a match -----

  /** The day search from d stops in another, selected month, on the day number of d. */
  predicate Slips(e: Expr, d: int) {
    var c := NextDay(e, d, DAY_LIMIT);
    c != d && Mday(c) == Mday(d) && Hit(e.months, MonthOf(c) % 12)
  }

  /** Midnight is selected, and the day is not one at which the day search has run into its limit. */
  predicate MidnightHits(e: Expr, c: int) {
    Hit(e.seconds, 0) && Hit(e.minutes, 0) && Hit(e.hours, 0) && DayHit(e, c)
  }

  /** Wherever the day search does so, it stops on a day whose midnight matches. */
  ghost predicate SlipsMatch(e: Expr) {
    forall d :: Slips(e, d) ==> MidnightHits(e, NextDay(e, d, DAY_LIMIT))
  }

  /** With one day field free it never does. */
  lemma FreeDayNeverSlips(e: Expr)
    requires NonEmpty(e) && OneDayFree(e)
    ensures SlipsMatch(e)
  {
    forall d
      ensures !Slips(e, d)
    {
      DaySearch(e, d);
    }
  }

  lemma SlipMatches(e: Expr, c: int, s: int)
    requires MidnightHits(e, c) && Hit(e.months, MonthOf(c) % 12) && 0 <= s < 60 && (s == 0 || Hit(e.seconds, s))
    ensures Match(e, c * 86400 + s)
  {
    AfterMidnight(c, s, c * 86400 + s);
  }

  lemma AfterMidnight(c: int, s: int, x: int)
    requires 0 <= s < 60 && x == c * 86400 + s
    ensures x % 60 == s && x / 60 % 60 == 0 && x / 60 / 60 % 24 == 0 && x / 60 / 1440 == c && x / 86400 == c
  {
    ClockOf(c, 0, 0, s);
    assert x / 60 == 1440 * c && x / 60 / 60 == 24 * c;
  }

  /** The day at which a pass that moves nothing comes to the month. */
  function LastDay(e: Expr, x: int): int {
    NextDay(e, NextIdx(e.seconds, 60, x) / 60 / 1440, DAY_LIMIT)
  }

  lemma PassStays(e: Expr, x: int)
    requires NonEmpty(e) && OnePass(e, x).Done? && LastDay(e, x) == NextIdx(e.seconds, 60, x) / 60 / 1440
    ensures x <= OnePass(e, x).at && Match(e, OnePass(e, x).at)
  {
    SecondsSettle(e, x);
    var i := NextIdx(e.seconds, 60, x) / 60;
    MinuteSkips(e, i);
    HourSkips(e, i);
    NextIdxLeast(e.months, 12, MonthOf(i / 1440));
  }

  lemma PassSlips(e: Expr, x: int) returns (s: int)
    requires NonEmpty(e) && OnePass(e, x).Done? && LastDay(e, x) != NextIdx(e.seconds, 60, x) / 60 / 1440
    ensures Slips(e, NextIdx(e.seconds, 60, x) / 60 / 1440) && OnePass(e, x).at == LastDay(e, x) * 86400 + s
    ensures 0 <= s < 60 && (s == 0 || Hit(e.seconds, s)) && x <= OnePass(e, x).at
  {
    SecondsSettle(e, x);
    var x1, c := NextIdx(e.seconds, 60, x), LastDay(e, x);
    s := if x1 == x then 0 else x1 % 60;
    NextIdxLeast(e.months, 12, MonthOf(c));
    assert x1 / 86400 == x1 / 60 / 1440;
    LaterDay(x1, c, s);
  }

  lemma PassMatches(e: Expr, x: int)
    requires NonEmpty(e) && SlipsMatch(e) && OnePass(e, x).Done?
    ensures x <= OnePass(e, x).at && Match(e, OnePass(e, x).at)
  {
    if LastDay(e, x) == NextIdx(e.seconds, 60, x) / 60 / 1440 {
      PassStays(e, x);
    } else {
      var s := PassSlips(e, x);
      SlipMatches(e, LastDay(e, x), s);
    }
  }

  lemma {:induction false} DoNextMatches(e: Expr, x: int, dot: int)
    requires NonEmpty(e) && SlipsMatch(e)
    ensures DoNext(e, x, dot).Found? ==> x <= DoNext(e, x, dot).at && Match(e, DoNext(e, x, dot).at)
    decreases MonthsLeft(x, dot), MinutesToGo(e, x)
  {
    match OnePass(e, x)
    case Done(z) =>
      PassMatches(e, x);
    case Moved(y) =>
      MovedDecreases(e, x, dot);
      MovedAdvances(e, x);
      DoNextMatches(e, y, dot);
    case MonthMoved(y) =>
      if !TooLate(y, dot) {
        MonthMovedDecreases(e, x, dot);
        MonthMovedAdvances(e, x);
        DoNextMatches(e, y, dot);
      }
  }

  /** A start of its own for every day from which the search slips: the clock matches, and nothing else is searched. */
  lemma SlipStart(e: Expr, d: int) returns (x: int)
    requires NonEmpty(e) && Slips(e, d)
    ensures Coincides(e, x) && x / 86400 == d
  {
    var h :| 0 <= h < 24 && Hit(e.hours, h);
    var m :| 0 <= m < 60 && Hit(e.minutes, m);
    var s :| 0 <= s < 60 && Hit(e.seconds, s);
    x := d * 86400 + h * 3600 + m * 60 + s;
    ClockOf(d, h, m, s);
    assert x / 60 == d * 1440 + h * 60 + m && x / 3600 == d * 24 + h;
  }

  /**
    The exact condition, for all non-empty fields: whatever cron_next returns is a later match if and only
    if the day search stops on a matching midnight wherever it slips.
   */
  lemma AlwaysMatches(e: Expr)
    requires NonEmpty(e)
    ensures (forall x :: CronNext(e, x).Found? ==> x < CronNext(e, x).at && Match(e, CronNext(e, x).at))
            <==> SlipsMatch(e)
  {
    if SlipsMatch(e) {
      forall x | CronNext(e, x).Found?
        ensures x < CronNext(e, x).at && Match(e, CronNext(e, x).at)
      {
        DoNextMatches(e, x, YearOf(x));
        DoNextMatches(e, x + 1, YearOf(x + 1));
      }
    } else {
      var d :| Slips(e, d) && !MidnightHits(e, NextDay(e, d, DAY_LIMIT));
      var x := SlipStart(e, d);
      DayCoincidence(e, x);
      assert !Match(e, CronNext(e, x).at);
    }
  }

  // ----- Inner calls -----

  /** The search ends on a match, or without a result. */
  ghost predicate EndsWell(e: Expr, x: int, dot: int)
    requires NonEmpty(e)
  {
    DoNext(e, x, dot).Found? ==> Match(e, DoNext(e, x, dot).at)
  }

  /**
    The search ends well, and then its inner calls do, so that their outer calls, which go on with their
    next fields, have nothing left to do; or its first day search slips, and there is no inner call.
   */
  ghost predicate Covered(e: Expr, x: int, dot: int)
    requires NonEmpty(e)
  {
    EndsWell(e, x, dot) || Coincides(e, x)
  }

  /** And so for both searches of cron_next. */
  ghost predicate NextCovered(e: Expr, x: int)
    requires NonEmpty(e)
  {
    && Covered(e, x, YearOf(x))
    && (DoNext(e, x, YearOf(x)) == Found(x) ==> Covered(e, x + 1, YearOf(x + 1)))
  }

  /** Every start is covered when the day search slips onto matching midnights only. */
  lemma MatchingIsCovered(e: Expr, x: int)
    requires NonEmpty(e) && SlipsMatch(e)
    ensures NextCovered(e, x)
  {
    DoNextMatches(e, x, YearOf(x));
    DoNextMatches(e, x + 1, YearOf(x + 1));
  }

  /** And with one day field free. */
  lemma FreeIsCovered(e: Expr, x: int)
    requires NonEmpty(e) && OneDayFree(e)
    ensures NextCovered(e, x)
  {
    FreeDayNeverSlips(e);
    MatchingIsCovered(e, x);
  }

  /** And so is every start from which the first day search slips. */
  lemma CoincidenceIsCovered(e: Expr, x: int)
    requires NonEmpty(e) && Coincides(e, x)
    ensures NextCovered(e, x)
  {
    CoincidencePass(e, x);
  }

  /** do_next never ends before its start. */
  lemma {:induction false} DoNextAdvances(e: Expr, x: int, dot: int)
    requires NonEmpty(e)
    ensures DoNext(e, x, dot).Found? ==> x <= DoNext(e, x, dot).at
    decreases MonthsLeft(x, dot), MinutesToGo(e, x)
  {
    match OnePass(e, x)
    case Done(z) =>
      PassAdvances(e, x);
    case Moved(y) =>
      MovedDecreases(e, x, dot);
      MovedAdvances(e, x);
      DoNextAdvances(e, y, dot);
    case MonthMoved(y) =>
      if !TooLate(y, dot) {
        MonthMovedDecreases(e, x, dot);
        MonthMovedAdvances(e, x);
        DoNextAdvances(e, y, dot);
      }
  }

  lemma PassAdvances(e: Expr, x: int)
    requires NonEmpty(e) && OnePass(e, x).Done?
    ensures x <= OnePass(e, x).at
  {
    if LastDay(e, x) == NextIdx(e.seconds, 60, x) / 60 / 1440 {
      PassStays(e, x);
    } else {
      var s := PassSlips(e, x);
    }
  }

  // ----- Friday the 13th -----

  /** `0 0 12 13 * 5`: at noon on a Friday the 13th. */
  ghost predicate FridayNoon(e: Expr) {
    && (forall i :: Hit(e.seconds, i) <==> i == 0)
    && (forall i :: Hit(e.minutes, i) <==> i == 0)
    && (forall i :: Hit(e.hours, i) <==> i == 12)
    && (forall i :: Hit(e.daysOfMonth, i) <==> i == 13)
    && (forall i :: Hit(e.daysOfWeek, i) <==> i == 5)
    && Full(e.months, 0, 12)
  }

  /** Its fields as the parser sets them. */
  function FridayExpr(): (e: Expr)
    ensures FridayNoon(e)
  {
    Expr(seq(60, i => i == 0), seq(60, i => i == 0), seq(24, i => i == 12),
         seq(8, i => i == 5), seq(32, i => i == 13), seq(12, _ => true))
  }

  /** Noon on Tuesday, 13 January 1970, and midnight of Friday, 13 February 1970. */
  const TUESDAY_NOON := 12 * 86400 + 12 * 3600
  const FRIDAY_MIDNIGHT := 43 * 86400

  lemma JanuaryAndFebruary(d: int)
    requires 0 <= d < 59
    ensures MonthOf(d) == (if d < 31 then 840 else 841) && Mday(d) == (if d < 31 then d + 1 else d - 30)
  {
    MonthStep(840);
    MonthStep(841);
    MonthOfUnique(d, if d < 31 then 840 else 841);
  }

  lemma {:induction false} FridayIsNext(e: Expr, d: int, fuel: nat)
    requires FridayNoon(e) && 12 <= d <= 43 && 43 - d <= fuel
    ensures NextDay(e, d, fuel) == 43
    decreases 43 - d
  {
    JanuaryAndFebruary(d);
    if d < 43 {
      FridayIsNext(e, d + 1, fuel - 1);
    }
  }

  lemma FridayIsNonEmpty(e: Expr)
    requires FridayNoon(e)
    ensures NonEmpty(e)
  {
    assert Hit(e.seconds, 0) && Hit(e.minutes, 0) && Hit(e.hours, 12) && Hit(e.daysOfMonth, 13);
    assert Hit(e.daysOfWeek, 5) && Hit(e.months, 0);
  }

  lemma FridayCoincides(e: Expr, x: int)
    requires FridayNoon(e) && x == TUESDAY_NOON
    ensures Coincides(e, x) && StopDay(e, x) == FRIDAY_MIDNIGHT
  {
    FridayIsNext(e, 12, DAY_LIMIT);
    JanuaryAndFebruary(12);
    JanuaryAndFebruary(43);
    assert Hit(e.months, 1);
    ClockOf(12, 12, 0, 0);
  }

  /** Asked on that Tuesday at noon, the engine answers with that Friday at midnight, which is not at noon. */
  lemma FridayFails(e: Expr, x: int)
    requires e == FridayExpr() && x == TUESDAY_NOON
    ensures NonEmpty(e) && CronNext(e, x) == Found(FRIDAY_MIDNIGHT) && !Match(e, FRIDAY_MIDNIGHT)
  {
    FridayIsNonEmpty(e);
    FridayCoincides(e, x);
    DayCoincidence(e, x);
  }
}
