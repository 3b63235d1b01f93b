/**
  When the cron search ends at the least matching instant: soundness for every expression with one
  unrestricted day field, leastness under the two conditions on the seconds and the months that
  the search needs, and the inputs that show each condition is needed.
 */
module CronCorrect {
  import opened Calendar
  import opened CronSearch

  /** Day-of-month or day-of-week is unrestricted. */
  ghost predicate OneDayFree(e: Expr) {
    Full(e.daysOfMonth, 1, 32) || Full(e.daysOfWeek, 0, 7)
  }

  ghost predicate NoMatch(e: Expr, a: int, b: int) {
    forall t :: a <= t < b ==> !Match(e, t)
  }

  /** The selected seconds are one unbroken range. */
  ghost predicate Unbroken(bits: Bits) {
    forall a, g, b :: 0 <= a < g < b < 60 && Hit(bits, a) && Hit(bits, b) ==> Hit(bits, g)
  }

  /** Nothing but the seconds is restricted. */
  ghost predicate OnlySeconds(e: Expr) {
    && Full(e.minutes, 0, 60) && Full(e.hours, 0, 24) && Full(e.months, 0, 12)
    && Full(e.daysOfMonth, 1, 32) && Full(e.daysOfWeek, 0, 7)
  }

  ghost predicate SecondsOK(e: Expr) {
    Unbroken(e.seconds) || OnlySeconds(e)
  }

  /** Month number m (0 is January) has `len` days in some year. */
  predicate HasLength(m: int, len: int) {
    if m == 1 then len == 28 || len == 29
    else if m == 3 || m == 5 || m == 8 || m == 10 then len == 30
    else len == 31
  }

  /** Selected days lie on both sides of a possible last day of month m. */
  ghost predicate Straddles(days: Bits, m: int) {
    exists a, len, b ::
      HasLength(m, len) && 1 <= a <= len < b < 32 && Hit(days, a) && Hit(days, b)
  }

  /** No month that the search jumps to can be overshot past a day that it should stop at. */
  ghost predicate MonthsOK(e: Expr) {
    forall m :: 0 <= m < 12 && Hit(e.months, m) && !Hit(e.months, (m + 11) % 12)
      ==> !Straddles(e.daysOfMonth, m)
  }

  lemma YearAround(d: int) returns (y: int)
    ensures NewYear(y) <= d < NewYear(y + 1) <= NewYear(y) + 366
  {
    var k := MonthOf(d);
    y := k / 12;
    SplitMonth(k);
    MonthStartMonotone(12 * y, k);
    MonthStartMonotone(k + 1, 12 * y + 12);
    YearStep(y);
  }

  lemma DateWithinYear(d: int, m: int) returns (r: int)
    requires 1 <= m <= 31
    ensures d <= r < d + DAY_LIMIT && Mday(r) == m
  {
    var y := YearAround(d);
    if d <= NewYear(y) + m - 1 {
      r := NewYear(y) + m - 1;
      JanuaryDate(y, m);
    } else {
      r := NewYear(y + 1) + m - 1;
      JanuaryDate(y + 1, m);
    }
  }

  lemma DomWithinYear(e: Expr, d: int) returns (r: int)
    requires NonEmpty(e) && Full(e.daysOfWeek, 0, 7)
    ensures d <= r < d + DAY_LIMIT && DayHit(e, r)
  {
    var m :| 1 <= m < 32 && Hit(e.daysOfMonth, m);
    r := DateWithinYear(d, m);
  }

  lemma DowWithinWeek(e: Expr, d: int) returns (r: int)
    requires NonEmpty(e) && Full(e.daysOfMonth, 1, 32)
    ensures d <= r < d + 7 && DayHit(e, r)
  {
    var w :| 0 <= w < 7 && Hit(e.daysOfWeek, w);
    r := d + (w - Wday(d)) % 7;
  }

  /** Fewer than seven days on, the day of the month is another one. */
  lemma WithinWeekOtherDate(d: int, c: int)
    requires d < c < d + 7
    ensures Mday(c) != Mday(d)
  {
    var k := MonthOf(d);
    MonthStep(k);
    MonthStep(k + 1);
    MonthOfMonotone(d, c);
    if c < MonthStart(k + 1) {
      MonthOfUnique(c, k);
    } else {
      MonthOfUnique(c, k + 1);
    }
  }

  /** With one day field free, the day search stops on a matching day, and on the same day number only by not moving. */
  lemma DaySearch(e: Expr, d: int)
    requires NonEmpty(e) && OneDayFree(e)
    ensures var c := NextDay(e, d, DAY_LIMIT);
            DayHit(e, c) && (c != d ==> Mday(c) != Mday(d))
  {
    var c := NextDay(e, d, DAY_LIMIT);
    if Full(e.daysOfWeek, 0, 7) {
      var r := DomWithinYear(e, d);
    } else {
      var r := DowWithinWeek(e, d);
      assert c <= r;
      if c != d {
        WithinWeekOtherDate(d, c);
      }
    }
  }

  /** A pass that moves nothing has found a match. */
  lemma DoneMatches(e: Expr, x: int)
    requires NonEmpty(e) && OneDayFree(e) && OnePass(e, x).Done?
    ensures OnePass(e, x).at == NextIdx(e.seconds, 60, x) && Match(e, OnePass(e, x).at)
  {
    SecondsSettle(e, x);
    var i := NextIdx(e.seconds, 60, x) / 60;
    MinuteSkips(e, i);
    HourSkips(e, i);
    DaySearch(e, i / 1440);
    NextIdxLeast(e.months, 12, MonthOf(i / 1440));
  }

  /** Unbroken seconds that had to move have moved to the first selected one. */
  lemma SecondsFirst(e: Expr, x: int)
    requires NonEmpty(e) && Unbroken(e.seconds)
    requires NextIdx(e.seconds, 60, x) != x
    ensures forall t :: 0 <= t < NextIdx(e.seconds, 60, x) % 60 ==> !Hit(e.seconds, t)
  {
    SecondsSettle(e, x);
    var x1 := NextIdx(e.seconds, 60, x);
    var base := x1 - x1 % 60;
    forall t | 0 <= t < x1 % 60
      ensures !Hit(e.seconds, t)
    {
      Split60(x1 / 60, t);
      assert (base + t) % 60 == t;
      if base + t < x && Hit(e.seconds, t) {
        assert base <= x;
        Split60(x1 / 60, x - base);
      }
    }
  }

  /** Nothing matches before minute u and in its first seconds, when no minute before u does. */
  lemma SkipToMinute(e: Expr, x: int, u: int)
    requires NonEmpty(e) && Unbroken(e.seconds)
    requires forall t :: x <= t && SettledMinute(e, x) <= t / 60 < u ==> !Match(e, t)
    ensures NoMatch(e, x, u * 60 + SecondsLeft(e, x))
  {
    SecondsSettle(e, x);
    var x1 := NextIdx(e.seconds, 60, x);
    if x1 != x {
      SecondsFirst(e, x);
    }
    forall t | x <= t < u * 60 + SecondsLeft(e, x)
      ensures !Match(e, t)
    {
      if x1 <= t && u <= t / 60 {
        Split60(u, t - u * 60);
        assert t % 60 == t - u * 60;
      }
    }
  }

  lemma MovedSkips(e: Expr, x: int)
    requires NonEmpty(e) && SecondsOK(e) && OnePass(e, x).Moved?
    ensures NoMatch(e, x, OnePass(e, x).at)
  {
    var i := SettledMinute(e, x);
    StopSkips(e, i);
    if !Unbroken(e.seconds) {
      NothingElseMoves(e, x);
    } else {
      SkipToMinute(e, x, Stop(e, i));
    }
  }

  /** When only the seconds are restricted, one pass is enough. */
  lemma NothingElseMoves(e: Expr, x: int)
    requires NonEmpty(e) && OnlySeconds(e)
    ensures OnePass(e, x).Done?
  {
    var i := SettledMinute(e, x);
    assert Residue(60, i) == i % 60;
    assert Residue(24, i / 60) == i / 60 % 24;
    assert Residue(12, MonthOf(i / 1440)) == MonthOf(i / 1440) % 12;
  }

  /** The days that a month move passes over do not match. */
  lemma PassedDays(e: Expr, c: int, d: int)
    requires NonEmpty(e) && MonthsOK(e) && DayHit(e, c)
    requires NextIdx(e.months, 12, MonthOf(c)) != MonthOf(c)
    requires c <= d < MonthStart(Landing(e, c))
    ensures !Hit(e.months, MonthOf(d) % 12) || !DayHit(e, d)
  {
    var k := MonthOf(c);
    var l := NextIdx(e.months, 12, k);
    NextIdxLeast(e.months, 12, k);
    MonthLands(k, Mday(c), l);
    MonthOfMonotone(c, d);
    MonthBefore(d, Landing(e, c));
    assert !Hit(e.months, Residue(12, l - 1));
    if MonthOf(d) < l {
      assert !Hit(e.months, Residue(12, MonthOf(d)));
    } else {
      OvershotMonth(e, l, Mday(c), d);
    }
  }

  /** The months a month move passes over hold no match. */
  lemma MonthMovedSkips(e: Expr, x: int)
    requires NonEmpty(e) && OneDayFree(e) && SecondsOK(e) && MonthsOK(e) && OnePass(e, x).MonthMoved?
    ensures NoMatch(e, x, OnePass(e, x).at)
  {
    if !Unbroken(e.seconds) {
      NothingElseMoves(e, x);
    } else {
      var i := SettledMinute(e, x);
      DaySearch(e, i / 1440);
      var c := i / 1440;
      var u := MonthStart(Landing(e, c)) * 1440;
      forall t | x <= t && i <= t / 60 < u
        ensures !Match(e, t)
      {
        assert t / 86400 == t / 60 / 1440;
        PassedDays(e, c, t / 86400);
      }
      SkipToMinute(e, x, u);
    }
  }

  lemma MonthBefore(d: int, r: int)
    requires d < MonthStart(r)
    ensures MonthOf(d) < r
  {
    if r <= MonthOf(d) {
      MonthStartMonotone(r, MonthOf(d));
    }
  }

  /** A month overshot because day m does not fit selects no day that does. */
  lemma OvershotMonth(e: Expr, l: int, m: int, d: int)
    requires MonthsOK(e) && l == MonthOf(d)
    requires Hit(e.months, l % 12) && !Hit(e.months, (l - 1) % 12)
    requires Hit(e.daysOfMonth, m) && MonthLen(l) < m < 32
    ensures !DayHit(e, d)
  {
    assert (l % 12 + 11) % 12 == (l - 1) % 12;
    if Hit(e.daysOfMonth, Mday(d)) {
      assert HasLength(l % 12, MonthLen(l));
      assert Straddles(e.daysOfMonth, l % 12);
    }
  }

  // ----- do_next -----

  /** Whatever do_next returns matches all six fields and is not before its start. */
  lemma {:induction false} DoNextSound(e: Expr, x: int, dot: int)
    requires NonEmpty(e) && OneDayFree(e)
    ensures DoNext(e, x, dot).Found? ==>
              x <= DoNext(e, x, dot).at && Match(e, DoNext(e, x, dot).at)
    decreases MonthsLeft(x, dot), MinutesToGo(e, x)
  {
    match OnePass(e, x)
    case Done(z) =>
      DoneMatches(e, x);
      SecondsSettle(e, x);
    case Moved(y) =>
      MovedDecreases(e, x, dot);
      MovedAdvances(e, x);
      DoNextSound(e, y, dot);
    case MonthMoved(y) =>
      if !TooLate(y, dot) {
        MonthMovedDecreases(e, x, dot);
        MonthMovedAdvances(e, x);
        DoNextSound(e, y, dot);
      }
  }

  /** YearOf is monotone. */
  lemma YearMonotone(x: int, y: int)
    requires x <= y
    ensures YearOf(x) <= YearOf(y)
  {
    MonthOfMonotone(x / 86400, y / 86400);
  }

  /**
    do_next never passes over a match, and gives up only when no match is left up to the fourth
    year after the one it started in.
   */
  lemma {:induction false} DoNextLeast(e: Expr, x: int, dot: int)
    requires NonEmpty(e) && OneDayFree(e) && SecondsOK(e) && MonthsOK(e)
    requires dot <= YearOf(x)
    ensures match DoNext(e, x, dot)
            case Found(z) => NoMatch(e, x, z)
            case Failed => forall t :: x <= t && YearOf(t) <= dot + YEAR_LIMIT ==> !Match(e, t)
    decreases MonthsLeft(x, dot), MinutesToGo(e, x)
  {
    match OnePass(e, x)
    case Done(z) =>
      DoneMatches(e, x);
      SecondsSettle(e, x);
    case Moved(y) =>
      MovedDecreases(e, x, dot);
      MovedAdvances(e, x);
      MovedSkips(e, x);
      YearMonotone(x, y);
      DoNextLeast(e, y, dot);
    case MonthMoved(y) =>
      MonthMovedAdvances(e, x);
      MonthMovedSkips(e, x);
      YearMonotone(x, y);
      if TooLate(y, dot) {
        forall t | x <= t && YearOf(t) <= dot + YEAR_LIMIT
          ensures !Match(e, t)
        {
          if y <= t {
            YearMonotone(y, t);
          }
        }
      } else {
        MonthMovedDecreases(e, x, dot);
        DoNextLeast(e, y, dot);
      }
  }

  // ----- cron_next -----

  /** cron_next, from instant x. */
  ghost function CronNext(e: Expr, x: int): Outcome
    requires NonEmpty(e)
  {
    var first := DoNext(e, x, YearOf(x));
    if first == Found(x) then DoNext(e, x + 1, YearOf(x + 1)) else first
  }

  /** z is the first match strictly after x. */
  ghost predicate IsNext(e: Expr, x: int, z: int) {
    x < z && Match(e, z) && NoMatch(e, x + 1, z)
  }

  lemma CronNextSound(e: Expr, x: int)
    requires NonEmpty(e) && OneDayFree(e)
    ensures CronNext(e, x).Found? ==> x < CronNext(e, x).at && Match(e, CronNext(e, x).at)
  {
    DoNextSound(e, x, YearOf(x));
    DoNextSound(e, x + 1, YearOf(x + 1));
  }

  /** cron_next returns the first match after x, or fails when there is none for four more years. */
  lemma CronNextLeast(e: Expr, x: int)
    requires NonEmpty(e) && OneDayFree(e) && SecondsOK(e) && MonthsOK(e)
    ensures match CronNext(e, x)
            case Found(z) => IsNext(e, x, z)
            case Failed => forall t :: x < t && YearOf(t) <= YearOf(x) + YEAR_LIMIT ==> !Match(e, t)
  {
    CronNextSound(e, x);
    DoNextLeast(e, x, YearOf(x));
    DoNextLeast(e, x + 1, YearOf(x + 1));
    YearMonotone(x, x + 1);
  }

  // ----- Never failing, and exactness -----

  function ShortestLength(m: int): int {
    if m == 1 then 28 else if m == 3 || m == 5 || m == 8 || m == 10 then 30 else 31
  }

  /** Some selected day of the month exists in some selected month of every year. */
  ghost predicate Yearly(e: Expr) {
    || Full(e.daysOfMonth, 1, 32)
    || exists m, d :: 0 <= m < 12 && 1 <= d <= ShortestLength(m) && Hit(e.months, m) && Hit(e.daysOfMonth, d)
  }

  lemma OnDay(e: Expr, d: int) returns (z: int)
    requires NonEmpty(e) && DayHit(e, d)
    ensures z / 86400 == d && z / 60 / 1440 == d && Hit(e.seconds, z % 60) && MinuteHit(e, z / 60)
  {
    var h :| 0 <= h < 24 && Hit(e.hours, h);
    var m :| 0 <= m < 60 && Hit(e.minutes, m);
    var s :| 0 <= s < 60 && Hit(e.seconds, s);
    z := d * 86400 + h * 3600 + m * 60 + s;
    ClockOf(d, h, m, s);
    assert z / 60 == d * 1440 + h * 60 + m;
    assert z / 60 / 60 == d * 24 + h && z / 60 / 1440 == d;
  }

  lemma DayInMonth(k: int, d: int)
    requires 1 <= d <= MonthLen(k)
    ensures MonthOf(MonthStart(k) + d - 1) == k && Mday(MonthStart(k) + d - 1) == d
  {
    MonthStep(k);
    MonthOfUnique(MonthStart(k) + d - 1, k);
  }

  lemma MatchInYear(e: Expr, y: int) returns (z: int)
    requires NonEmpty(e) && OneDayFree(e) && Yearly(e)
    ensures YearOf(z) == y && Match(e, z)
  {
    if Full(e.daysOfMonth, 1, 32) {
      var m :| 0 <= m < 12 && Hit(e.months, m);
      var k := 12 * y + m;
      SplitYearMonth(y, m);
      var d := DowWithinWeek(e, MonthStart(k));
      MonthStep(k);
      MonthOfUnique(d, k);
      z := OnDay(e, d);
    } else {
      var m, d :| 0 <= m < 12 && 1 <= d <= ShortestLength(m) && Hit(e.months, m) && Hit(e.daysOfMonth, d);
      var k := 12 * y + m;
      SplitYearMonth(y, m);
      DayInMonth(k, d);
      z := OnDay(e, MonthStart(k) + d - 1);
    }
  }

  lemma NextYearIsLater(x: int, z: int)
    requires YearOf(x) < YearOf(z)
    ensures x < z
  {
    if z <= x {
      YearMonotone(z, x);
    }
  }

  lemma FirstMatch(e: Expr, x: int, bound: int) returns (z: int)
    requires x < bound && Match(e, bound)
    ensures x < z <= bound && IsNext(e, x, z)
    decreases bound - x
  {
    z := x + 1;
    while !Match(e, z)
      invariant x < z <= bound && NoMatch(e, x + 1, z)
      decreases bound - z
    {
      z := z + 1;
    }
  }

  /** With a match in every year, cron_next does not fail: it returns the first match. */
  lemma CronNextExists(e: Expr, x: int)
    requires NonEmpty(e) && OneDayFree(e) && SecondsOK(e) && MonthsOK(e) && Yearly(e)
    ensures CronNext(e, x).Found? && IsNext(e, x, CronNext(e, x).at)
  {
    CronNextLeast(e, x);
    var z := MatchInYear(e, YearOf(x) + 1);
    NextYearIsLater(x, z);
  }

  /** Minute i matches in every field above the seconds. */
  ghost predicate UpperHit(e: Expr, i: int) {
    MinuteHit(e, i) && Hit(e.months, MonthOf(i / 1440) % 12)
  }

  lemma MissedHour(e: Expr, h: int)
    requires 0 <= h < 24 && !Hit(e.hours, h)
    ensures !UpperHit(e, h * 60)
  {
    assert h * 60 / 60 % 24 == h;
  }

  lemma MissedMonth(e: Expr, m: int)
    requires 0 <= m < 12 && !Hit(e.months, m)
    ensures !UpperHit(e, MonthStart(m) * 1440)
  {
    StartOfMonth(m);
    MissedDayOfMonth(e, MonthStart(m), m);
  }

  lemma MissedDayOfMonth(e: Expr, d: int, m: int)
    requires MonthOf(d) == m && 0 <= m < 12 && !Hit(e.months, m)
    ensures !UpperHit(e, d * 1440)
  {
    assert d * 1440 / 1440 == d && m % 12 == m;
  }

  lemma MissedDay(e: Expr, d: int)
    requires !DayHit(e, d)
    ensures !UpperHit(e, d * 1440)
  {
    assert d * 1440 / 1440 == d;
  }

  /** A restricted day field misses some day. */
  lemma UnhitDay(e: Expr) returns (d: int)
    requires OneDayFree(e) && !(Full(e.daysOfMonth, 1, 32) && Full(e.daysOfWeek, 0, 7))
    ensures !DayHit(e, d)
  {
    var m := 1;
    var w := 0;
    if !Full(e.daysOfMonth, 1, 32) {
      m :| 1 <= m < 32 && !Hit(e.daysOfMonth, m);
    } else {
      w :| 0 <= w < 7 && !Hit(e.daysOfWeek, w);
    }
    d := JanuaryDay(0, m, w);
  }

  lemma MissedMinute(e: Expr) returns (i: int)
    requires NonEmpty(e) && OneDayFree(e) && !OnlySeconds(e)
    ensures !UpperHit(e, i)
  {
    if !Full(e.minutes, 0, 60) {
      i :| 0 <= i < 60 && !Hit(e.minutes, i);
    } else if !Full(e.hours, 0, 24) {
      var h :| 0 <= h < 24 && !Hit(e.hours, h);
      i := h * 60;
      MissedHour(e, h);
    } else if !Full(e.months, 0, 12) {
      var m :| 0 <= m < 12 && !Hit(e.months, m);
      i := MonthStart(m) * 1440;
      MissedMonth(e, m);
    } else {
      var d := UnhitDay(e);
      i := d * 1440;
      MissedDay(e, d);
    }
  }

  /** A minute that does not match, followed by one that does. */
  lemma Boundary(e: Expr) returns (i: int)
    requires NonEmpty(e) && OneDayFree(e) && Yearly(e) && !OnlySeconds(e)
    ensures !UpperHit(e, i) && UpperHit(e, i + 1)
  {
    i := MissedMinute(e);
    var z := MatchInYear(e, YearOf(i * 60) + 1);
    NextYearIsLater(i * 60, z);
    assert z / 60 / 1440 == z / 86400;
    assert UpperHit(e, z / 60) && i < z / 60;
    while !UpperHit(e, i + 1)
      invariant i < z / 60 && !UpperHit(e, i)
      decreases z / 60 - i
    {
      i := i + 1;
    }
  }

  /** A field that moves takes the search to a later minute, with the seconds it left behind. */
  lemma PassMoves(e: Expr, x: int) returns (u: int)
    requires NonEmpty(e) && !OnePass(e, x).Done?
    ensures u > SettledMinute(e, x) && OnePass(e, x).at == u * 60 + SecondsLeft(e, x)
  {
    var i := SettledMinute(e, x);
    StopSkips(e, i);
    if OnePass(e, x).Moved? {
      u := Stop(e, i);
    } else {
      var c := NextDay(e, i / 1440, DAY_LIMIT);
      NextIdxLeast(e.months, 12, MonthOf(c));
      MonthLands(MonthOf(c), Mday(c), NextIdx(e.months, 12, MonthOf(c)));
      u := MonthStart(Landing(e, c)) * 1440;
      StartOfMonth(Landing(e, c));
      if MonthStart(Landing(e, c)) <= c {
        MonthOfMonotone(MonthStart(Landing(e, c)), c);
      }
    }
  }

  /** do_next does not return anything before the place its first pass moved to. */
  lemma AfterFirstPass(e: Expr, x: int, dot: int)
    requires NonEmpty(e) && OneDayFree(e) && !OnePass(e, x).Done?
    ensures DoNext(e, x, dot).Found? ==> DoNext(e, x, dot).at >= OnePass(e, x).at
  {
    if OnePass(e, x).Moved? || !TooLate(OnePass(e, x).at, dot) {
      DoNextSound(e, OnePass(e, x).at, dot);
    }
  }

  /** Seconds that start inside a gap settle on a later second of the same minute. */
  lemma GapSettles(e: Expr, i: int, g: int, b: int)
    requires NonEmpty(e)
    requires 0 <= g < b < 60 && Hit(e.seconds, b) && !Hit(e.seconds, g)
    ensures var x1 := NextIdx(e.seconds, 60, i * 60 + g);
            i * 60 + g < x1 && x1 / 60 == i && x1 / 86400 == i / 1440 && x1 % 60 > g
  {
    Split60(i, g);
    Split60(i, b);
    SecondsSettle(e, i * 60 + g);
    var x1 := NextIdx(e.seconds, 60, i * 60 + g);
    assert (i * 60 + b) % 60 == b && (i * 60 + g) % 60 == g;
    Split60(i, x1 - i * 60);
    assert x1 / 86400 == x1 / 60 / 1440;
  }

  lemma GapNotDone(e: Expr, i: int, g: int, b: int)
    requires NonEmpty(e) && OneDayFree(e) && !UpperHit(e, i)
    requires 0 <= g < b < 60 && Hit(e.seconds, b) && !Hit(e.seconds, g)
    ensures !OnePass(e, i * 60 + g).Done?
  {
    GapSettles(e, i, g, b);
    if OnePass(e, i * 60 + g).Done? {
      DoneMatches(e, i * 60 + g);
    }
  }

  lemma GapLeaves(e: Expr, i: int, g: int, b: int)
    requires NonEmpty(e) && 0 <= g < b < 60 && Hit(e.seconds, b) && !Hit(e.seconds, g)
    ensures SettledMinute(e, i * 60 + g) == i && SecondsLeft(e, i * 60 + g) > g
  {
    GapSettles(e, i, g, b);
  }

  /** A pass that starts inside a gap, in a minute that does not match, keeps the later second through a move. */
  lemma GapMoves(e: Expr, i: int, g: int, b: int)
    requires NonEmpty(e) && OneDayFree(e) && !UpperHit(e, i)
    requires 0 <= g < b < 60 && Hit(e.seconds, b) && !Hit(e.seconds, g)
    ensures var x := i * 60 + g;
            !OnePass(e, x).Done? && OnePass(e, x).at > (i + 1) * 60 + g
  {
    GapNotDone(e, i, g, b);
    GapLeaves(e, i, g, b);
    var u := PassMoves(e, i * 60 + g);
  }

  lemma GapSecond(e: Expr, i: int, a: int, g: int, b: int)
    requires NonEmpty(e) && OneDayFree(e) && !UpperHit(e, i)
    requires 0 <= a < g < b < 60 && Hit(e.seconds, b) && !Hit(e.seconds, g)
    ensures var x := i * 60 + g;
            CronNext(e, x).Found? ==> CronNext(e, x).at > (i + 1) * 60 + a
  {
    GapMoves(e, i, g, b);
    AfterFirstPass(e, i * 60 + g, YearOf(i * 60 + g));
  }

  /** Broken seconds: started inside the gap, just before a matching minute, the search returns a late second. */
  lemma BrokenSecondsFail(e: Expr) returns (x: int, z: int)
    requires NonEmpty(e) && OneDayFree(e) && Yearly(e) && !SecondsOK(e)
    ensures IsNext(e, x, z) && CronNext(e, x) != Found(z)
  {
    var a, g, b :| 0 <= a < g < b < 60 && Hit(e.seconds, a) && Hit(e.seconds, b) && !Hit(e.seconds, g);
    var i := Boundary(e);
    x := i * 60 + g;
    var w := (i + 1) * 60 + a;
    Split60(i + 1, a);
    assert w / 60 == i + 1 && w % 60 == a && w / 86400 == (i + 1) / 1440;
    z := FirstMatch(e, x, w);
    GapSecond(e, i, a, g, b);
  }

  /** Days from the end of month p, March or later, to the end of its year. */
  function RestOfYear(p: int): int {
    if p == 2 then 275 else if p == 4 then 214 else if p == 7 then 122 else 61
  }

  lemma EndOfMonth(y: int, p: int)
    requires p == 2 || p == 4 || p == 7 || p == 9
    ensures MonthStart(12 * y + p + 1) == NewYear(y + 1) - RestOfYear(p)
  {
    MonthInYear(y, 3); MonthInYear(y, 4); MonthInYear(y, 5);
    MonthInYear(y, 6); MonthInYear(y, 7); MonthInYear(y, 8);
    MonthInYear(y, 9); MonthInYear(y, 10); MonthInYear(y, 11);
  }

  /** The last day of a 31-day month that precedes a shorter one falls on every day of the week. */
  lemma LastDayOn(p: int, w: int) returns (k: int)
    requires p == 0 || p == 2 || p == 4 || p == 7 || p == 9
    requires 0 <= w < 7
    ensures k % 12 == p && Wday(MonthStart(k) + 30) == w
  {
    if p == 0 {
      var y := NewYearOn(0, 34, w);
      k := 12 * y;
      SplitYearMonth(y, 0);
    } else {
      var y := NewYearOn(0, 3 - RestOfYear(p), w);
      k := 12 * (y - 1) + p;
      SplitYearMonth(y - 1, p);
      LastDayBefore(y - 1, p);
    }
  }

  lemma LastDayBefore(y: int, p: int)
    requires p == 2 || p == 4 || p == 7 || p == 9
    ensures MonthStart(12 * y + p) + 30 == NewYear(y + 1) - RestOfYear(p) - 1
  {
    EndOfMonth(y, p);
    MonthInYear(y, p);
  }

  /** Nothing below the month moves from an instant that matches below the month. */
  lemma NothingBelowMoves(e: Expr, x: int)
    requires Hit(e.seconds, x % 60) && MinuteHit(e, x / 60)
    ensures NextIdx(e.seconds, 60, x) == x && Stop(e, x / 60) == x / 60
    ensures NextDay(e, x / 60 / 1440, DAY_LIMIT) == x / 60 / 1440
  {
    assert Residue(60, x / 60) == x / 60 % 60;
    assert Residue(24, x / 60 / 60) == x / 60 / 60 % 24;
  }

  lemma NextSelected(e: Expr, k: int)
    requires Any(e.months, 0, 12) && Hit(e.months, (k + 1) % 12) && !Hit(e.months, k % 12)
    ensures NextIdx(e.months, 12, k) == k + 1
  {
    NextIdxLeast(e.months, 12, k);
    assert Hit(e.months, Residue(12, k + 1)) && !Hit(e.months, Residue(12, k));
  }

  /** Month k + 1 of the same year, too short for day b of month k, is overshot. */
  lemma TargetBeyond(k: int, b: int)
    requires 1 <= b <= MonthLen(k) && MonthLen(k + 1) < b && k % 12 < 11
    ensures MonthOf(MonthTarget(k, b, k + 1)) == k + 2
  {
    assert (k + 1) / 12 == k / 12;
    MonthStep(k + 1);
    MonthStep(k + 2);
    MonthOfUnique(MonthStart(k + 1) + b - 1, k + 2);
  }

  lemma LandsBeyond(e: Expr, k: int, b: int)
    requires Any(e.months, 0, 12) && 1 <= b <= MonthLen(k) && MonthLen(k + 1) < b
    requires Hit(e.months, (k + 1) % 12) && !Hit(e.months, k % 12) && k % 12 < 11
    ensures var c := MonthStart(k) + b - 1;
            MonthOf(c) == k && NextIdx(e.months, 12, k) == k + 1 && Landing(e, c) == k + 2
  {
    DayInMonth(k, b);
    NextSelected(e, k);
    TargetBeyond(k, b);
  }

  /** A pass that starts on day b of month k overshoots month k + 1, too short for b. */
  lemma PassOvershoots(e: Expr, k: int, b: int, x: int)
    requires NonEmpty(e) && 1 <= b <= MonthLen(k) && MonthLen(k + 1) < b
    requires Hit(e.months, (k + 1) % 12) && !Hit(e.months, k % 12) && k % 12 < 11
    requires x / 60 / 1440 == MonthStart(k) + b - 1 && Hit(e.seconds, x % 60) && MinuteHit(e, x / 60)
    ensures OnePass(e, x) == MonthMoved(MonthStart(k + 2) * 86400)
  {
    NothingBelowMoves(e, x);
    LandsBeyond(e, k, b);
  }

  lemma ShortMonth(y: int, m: int, len: int)
    requires HasLength(m, len) && (m == 1 || m == 3 || m == 5 || m == 8 || m == 10)
    requires y == if len == 29 then 124 else 123
    ensures var k := 12 * y + m - 1;
            && k % 12 == m - 1 && (k + 1) % 12 == m && MonthLen(k) == 31 && MonthLen(k + 1) == len
  {
    SplitYearMonth(y, m - 1);
    SplitYearMonth(y, m);
  }

  lemma FollowingMonth(k: int, m: int)
    requires k % 12 == m - 1 && (m == 1 || m == 3 || m == 5 || m == 8 || m == 10)
    ensures (k + 1) % 12 == m && MonthLen(k) == 31 && MonthLen(k + 1) < 31
  {
    SplitYearMonth(k / 12, m);
    SplitMonth(k);
  }

  /** Day b of month k matches, month k + 1 is the next selected one and lacks it, and day w of it matches. */
  ghost predicate Site(e: Expr, k: int, b: int, w: int) {
    && 1 <= b <= MonthLen(k) && MonthLen(k + 1) < b && DayHit(e, MonthStart(k) + b - 1)
    && Hit(e.months, (k + 1) % 12) && !Hit(e.months, k % 12) && k % 12 < 11
    && MonthStart(k + 1) <= w < MonthStart(k + 2) && DayHit(e, w)
  }

  lemma DatedSite(e: Expr, k: int, a: int, b: int)
    requires Full(e.daysOfWeek, 0, 7) && Hit(e.daysOfMonth, a) && Hit(e.daysOfMonth, b)
    requires 1 <= a <= MonthLen(k + 1) < b <= MonthLen(k)
    requires Hit(e.months, (k + 1) % 12) && !Hit(e.months, k % 12) && k % 12 < 11
    ensures Site(e, k, b, MonthStart(k + 1) + a - 1)
  {
    DayInMonth(k, b);
    DayInMonth(k + 1, a);
    MonthStep(k + 1);
  }

  lemma SiteByDate(e: Expr, m: int, a: int, len: int, b: int) returns (k: int, w: int)
    requires Full(e.daysOfWeek, 0, 7) && HasLength(m, len) && 1 <= a <= len < b < 32
    requires Hit(e.daysOfMonth, a) && Hit(e.daysOfMonth, b)
    requires 0 < m < 12 && Hit(e.months, m) && !Hit(e.months, m - 1)
    ensures Site(e, k, b, w)
  {
    var y := if len == 29 then 124 else 123;
    ShortMonth(y, m, len);
    k := 12 * y + m - 1;
    w := MonthStart(k + 1) + a - 1;
    DatedSite(e, k, a, b);
  }

  lemma SiteByWeekday(e: Expr, m: int) returns (k: int, w: int)
    requires NonEmpty(e) && Full(e.daysOfMonth, 1, 32)
    requires m == 1 || m == 3 || m == 5 || m == 8 || m == 10
    requires Hit(e.months, m) && !Hit(e.months, m - 1)
    ensures Site(e, k, 31, w)
  {
    var v :| 0 <= v < 7 && Hit(e.daysOfWeek, v);
    k := LastDayOn(m - 1, v);
    FollowingMonth(k, m);
    DayInMonth(k, 31);
    w := DowWithinWeek(e, MonthStart(k + 1));
    MonthStep(k + 1);
  }

  lemma OvershootSite(e: Expr) returns (k: int, b: int, w: int)
    requires NonEmpty(e) && OneDayFree(e) && !MonthsOK(e)
    ensures Site(e, k, b, w)
  {
    var m :| 0 <= m < 12 && Hit(e.months, m) && !Hit(e.months, (m + 11) % 12) && Straddles(e.daysOfMonth, m);
    var a, len, b' :| HasLength(m, len) && 1 <= a <= len < b' < 32 && Hit(e.daysOfMonth, a) && Hit(e.daysOfMonth, b');
    assert (m + 11) % 12 == m - 1;
    if Full(e.daysOfWeek, 0, 7) {
      b := b';
      k, w := SiteByDate(e, m, a, len, b');
    } else {
      b := 31;
      k, w := SiteByWeekday(e, m);
    }
  }

  /** Started on the site's first day, the search does not return anything before the month after next. */
  lemma SiteOvershot(e: Expr, k: int, b: int, w: int, x: int)
    requires NonEmpty(e) && OneDayFree(e) && Site(e, k, b, w) && x < MonthStart(k + 2) * 86400
    requires x / 60 / 1440 == MonthStart(k) + b - 1 && Hit(e.seconds, x % 60) && MinuteHit(e, x / 60)
    ensures CronNext(e, x).Found? ==> CronNext(e, x).at >= MonthStart(k + 2) * 86400
  {
    PassOvershoots(e, k, b, x);
    AfterFirstPass(e, x, YearOf(x));
  }

  /** The site's second day holds a match, after its first day and before the month after next. */
  lemma SiteMatches(e: Expr, k: int, b: int, w: int, x: int) returns (t: int)
    requires NonEmpty(e) && Site(e, k, b, w) && x / 86400 == MonthStart(k) + b - 1
    ensures Match(e, t) && x < t < MonthStart(k + 2) * 86400
  {
    t := OnDay(e, w);
    MonthOfUnique(w, k + 1);
    MonthStep(k);
  }

  lemma OvershootFails(e: Expr) returns (x: int, z: int)
    requires NonEmpty(e) && OneDayFree(e) && !MonthsOK(e)
    ensures IsNext(e, x, z) && CronNext(e, x) != Found(z)
  {
    var k, b, w := OvershootSite(e);
    x := OnDay(e, MonthStart(k) + b - 1);
    var t := SiteMatches(e, k, b, w, x);
    SiteOvershot(e, k, b, w, x);
    z := FirstMatch(e, x, t);
  }

  /**
    The exact condition: among the expressions with one unrestricted day field and a match in every
    year, cron_next returns the first later match from every instant exactly when the seconds are
    unbroken (or alone restricted) and no selected month can be overshot.
   */
  lemma CronNextExact(e: Expr)
    requires NonEmpty(e) && OneDayFree(e) && Yearly(e)
    ensures (forall x, z :: IsNext(e, x, z) ==> CronNext(e, x) == Found(z))
            <==> SecondsOK(e) && MonthsOK(e)
  {
    if SecondsOK(e) && MonthsOK(e) {
      forall x, z | IsNext(e, x, z)
        ensures CronNext(e, x) == Found(z)
      {
        CronNextExists(e, x);
      }
    } else if !SecondsOK(e) {
      var x, z := BrokenSecondsFail(e);
    } else {
      var x, z := OvershootFails(e);
    }
  }

  // ----- The schedules the firmware builds -----

  /** `0 m h * * *` */
  ghost predicate Daily(e: Expr, h: int, m: int) {
    && 0 <= h < 24 && 0 <= m < 60
    && (forall i :: Hit(e.seconds, i) <==> i == 0)
    && (forall i :: Hit(e.minutes, i) <==> i == m)
    && (forall i :: Hit(e.hours, i) <==> i == h)
    && Full(e.daysOfMonth, 1, 32) && Full(e.daysOfWeek, 0, 7) && Full(e.months, 0, 12)
  }

  /** The first instant after x at h:m:00. */
  function NextAt(x: int, h: int, m: int): int {
    var a := h * 3600 + m * 60;
    ((x - a) / 86400 + 1) * 86400 + a
  }

  lemma NextAtIs(x: int, h: int, m: int)
    requires 0 <= h < 24 && 0 <= m < 60
    ensures x < NextAt(x, h, m) <= x + 86400
    ensures var z := NextAt(x, h, m); z % 60 == 0 && z / 60 % 60 == m && z / 60 / 60 % 24 == h
  {
    var d := (x - h * 3600 - m * 60) / 86400 + 1;
    ClockOf(d, h, m, 0);
    var z := d * 86400 + h * 3600 + m * 60;
    assert z / 60 / 60 == z / 3600;
  }

  lemma OnlyNextAt(x: int, z: int, h: int, m: int)
    requires 0 <= h < 24 && 0 <= m < 60
    requires x < z <= NextAt(x, h, m) && z % 60 == 0 && z / 60 % 60 == m && z / 60 / 60 % 24 == h
    ensures z == NextAt(x, h, m)
  {
    Clock(z);
    assert z / 60 / 60 == z / 3600;
    var a := h * 3600 + m * 60;
    var q := z / 86400;
    assert z - a == 86400 * q;
    assert q > (x - a) / 86400;
  }

  /** Every schedule the firmware builds fires next at the next h:m:00, and never fails. */
  lemma DailyNext(e: Expr, h: int, m: int, x: int)
    requires NonEmpty(e) && Daily(e, h, m)
    ensures CronNext(e, x) == Found(NextAt(x, h, m))
  {
    CronNextExists(e, x);
    var z := CronNext(e, x).at;
    NextAtIs(x, h, m);
    assert Match(e, NextAt(x, h, m));
    OnlyNextAt(x, z, h, m);
  }
}
