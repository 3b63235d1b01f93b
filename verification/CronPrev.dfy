/**
  cron_prev of ccronexpr.cpp (lines 950-1214), the search in the other direction, for expressions that
  select every month: it has the same structure as do_next but moves down and resets to the maximum.
  CronBack has the in-place form.
 */
module CronPrev {
  import opened Calendar
  import opened CronSearch
  import opened CronCorrect

  /** prev_set_bit: the greatest selected value from `from` down to `to`, or -1. */
  function PrevSet(bits: Bits, from: int, to: int): (v: int)
    ensures v == -1 || (to <= v <= from && Hit(bits, v))
    ensures forall t :: to <= t <= from && v < t ==> !Hit(bits, t)
    decreases from - to
  {
    if from < to then -1 else if Hit(bits, from) then from else PrevSet(bits, from - 1, to)
  }

  /** The greatest index at or before i whose value is selected, found as find_prev does. */
  function PrevIdx(bits: Bits, n: int, i: int): int
    requires Cycle(n)
  {
    var r := Residue(n, i);
    var v := PrevSet(bits, r, 0);
    if v >= 0 then i - r + v else i - r - n + PrevSet(bits, n - 1, r)
  }

  lemma ResidueBelow(n: int, i: int, v: int)
    requires Cycle(n) && 0 <= v < n
    ensures Residue(n, i - Residue(n, i) + v) == v
    ensures Residue(n, i - Residue(n, i) - n + v) == v
  {
    ResidueSplit(n, i, v);
    if n == 60 {
      Split60(i / 60 - 1, v);
    } else if n == 24 {
      Split24(i / 24 - 1, v);
    } else {
      Split12(i / 12 - 1, v);
    }
  }

  lemma PrevIdxGreatest(bits: Bits, n: int, i: int)
    requires Cycle(n) && Any(bits, 0, n)
    ensures i - n < PrevIdx(bits, n, i) <= i
    ensures Hit(bits, Residue(n, PrevIdx(bits, n, i)))
    ensures forall t :: PrevIdx(bits, n, i) < t <= i ==> !Hit(bits, Residue(n, t))
  {
    var r := Residue(n, i);
    var v := PrevSet(bits, r, 0);
    var f := PrevSet(bits, n - 1, r);
    if v >= 0 {
      ResidueBelow(n, i, v);
    } else {
      assert f > r;
      ResidueBelow(n, i, f);
    }
    forall t | PrevIdx(bits, n, i) < t <= i
      ensures !Hit(bits, Residue(n, t))
    {
      if t >= i - r {
        ResidueBelow(n, i, t - (i - r));
      } else {
        ResidueBelow(n, i, t - (i - r) + n);
      }
    }
  }

  /** find_prev_day */
  function PrevDay(e: Expr, d: int, fuel: nat): (r: int)
    ensures d - fuel <= r <= d
    ensures forall t :: r < t <= d ==> !DayHit(e, t)
    ensures DayHit(e, r) || r == d - fuel
    decreases fuel
  {
    if DayHit(e, d) || fuel == 0 then d else PrevDay(e, d - 1, fuel - 1)
  }

  /** What the theorems about cron_prev ask of an expression, but for its seconds. */
  ghost predicate Searchable(e: Expr) {
    NonEmpty(e) && OneDayFree(e) && Full(e.months, 0, 12)
  }

  // ----- There is an earlier match -----

  lemma DayHitBefore(e: Expr, d: int) returns (r: int)
    requires NonEmpty(e) && OneDayFree(e)
    ensures d - DAY_LIMIT <= r <= d && DayHit(e, r)
  {
    if Full(e.daysOfWeek, 0, 7) {
      r := DomBefore(e, d);
    } else {
      r := DowBefore(e, d);
    }
  }

  lemma DowBefore(e: Expr, d: int) returns (r: int)
    requires NonEmpty(e) && Full(e.daysOfMonth, 1, 32)
    ensures d - 6 <= r <= d && DayHit(e, r)
  {
    var w :| 0 <= w < 7 && Hit(e.daysOfWeek, w);
    r := d - (Wday(d) - w) % 7;
    WeekdayBefore(d, w);
  }

  lemma WeekdayBefore(d: int, w: int)
    requires 0 <= w < 7
    ensures Wday(d - (Wday(d) - w) % 7) == w
  {
  }

  /** Days less than four weeks apart have different numbers. */
  lemma NearDaysDiffer(r: int, d: int)
    requires r < d < r + 28
    ensures Mday(r) != Mday(d)
  {
    MonthStep(MonthOf(r));
    MonthStep(MonthOf(r) + 1);
    MonthOfMonotone(r, d);
    if MonthOf(d) >= MonthOf(r) + 2 {
      MonthStartMonotone(MonthOf(r) + 2, MonthOf(d));
    }
  }

  /** Day number m at or before d: within a year, as January has them all. */
  lemma DateBefore(d: int, m: int) returns (r: int)
    requires 1 <= m <= 31
    ensures d - DAY_LIMIT <= r <= d && Mday(r) == m
  {
    var y := YearAround(d);
    if NewYear(y) + m - 1 <= d {
      r := NewYear(y) + m - 1;
      JanuaryDate(y, m);
    } else {
      r := NewYear(y - 1) + m - 1;
      JanuaryDate(y - 1, m);
      YearStep(y - 1);
    }
  }

  lemma DomBefore(e: Expr, d: int) returns (r: int)
    requires NonEmpty(e) && Full(e.daysOfWeek, 0, 7)
    ensures d - DAY_LIMIT <= r <= d && DayHit(e, r)
  {
    var m :| 1 <= m < 32 && Hit(e.daysOfMonth, m);
    r := DateBefore(d, m);
  }

  lemma MinuteHitBefore(e: Expr, i: int) returns (r: int)
    requires NonEmpty(e) && OneDayFree(e)
    ensures r <= i && MinuteHit(e, r)
  {
    var d := DayHitBefore(e, i / 1440 - 1);
    var m :| 0 <= m < 60 && Hit(e.minutes, m);
    var h :| 0 <= h < 24 && Hit(e.hours, h);
    r := d * 1440 + h * 60 + m;
    assert r / 60 == d * 24 + h && r / 1440 == d;
  }

  ghost function GreatestMinute(e: Expr, i: int, bound: int): (r: int)
    requires bound <= i && MinuteHit(e, bound)
    ensures bound <= r <= i && MinuteHit(e, r)
    ensures forall t :: r < t <= i ==> !MinuteHit(e, t)
    decreases i - bound
  {
    if MinuteHit(e, i) then i else GreatestMinute(e, i - 1, bound)
  }

  /** The last minute up to i that matches in minute, hour and day. */
  ghost function PrevMinute(e: Expr, i: int): (r: int)
    requires NonEmpty(e) && OneDayFree(e)
    ensures r <= i && MinuteHit(e, r)
    ensures forall t :: r < t <= i ==> !MinuteHit(e, t)
  {
    assert exists b :: b <= i && MinuteHit(e, b) by { var b := MinuteHitBefore(e, i); }
    var b :| b <= i && MinuteHit(e, b);
    GreatestMinute(e, i, b)
  }

  // ----- One pass -----

  /** Where the first of minute, hour and day to move takes minute i; i itself when none moves. */
  function StopBack(e: Expr, i: int): int {
    var j := PrevIdx(e.minutes, 60, i);
    if j != i then j else
    var g := PrevIdx(e.hours, 24, i / 60);
    if g != i / 60 then g * 60 + 59 else
    var c := PrevDay(e, i / 1440, DAY_LIMIT);
    if Mday(c) != Mday(i / 1440) then c * 1440 + 1439 else i
  }

  /** The body of do_prev up to the first field that moves, when every month is selected. */
  function OnePassBack(e: Expr, x: int): Pass {
    var x1 := PrevIdx(e.seconds, 60, x);
    var s := if x1 == x then 59 else x1 % 60;
    var i := x1 / 60;
    var u := StopBack(e, i);
    if u != i then Moved(u * 60 + s) else
    var c := PrevDay(e, i / 1440, DAY_LIMIT);
    Done(if c == i / 1440 then x1 else c * 86400 + 86340 + s)
  }

  lemma SecondsSettleBack(e: Expr, x: int)
    requires NonEmpty(e)
    ensures var x1 := PrevIdx(e.seconds, 60, x);
            x - 60 < x1 <= x && Hit(e.seconds, x1 % 60)
            && forall t :: x1 < t <= x ==> !Hit(e.seconds, t % 60)
  {
    PrevIdxGreatest(e.seconds, 60, x);
    forall t | PrevIdx(e.seconds, 60, x) < t <= x
      ensures !Hit(e.seconds, t % 60)
    {
      assert !Hit(e.seconds, Residue(60, t));
    }
  }

  /** Seconds that are 59 or already match do not roll under into the minute before. */
  lemma SecondsStayBack(e: Expr, u: int, s: int)
    requires NonEmpty(e) && 0 <= s < 60 && (s == 59 || Hit(e.seconds, s))
    ensures (u * 60 + s) / 60 == u
    ensures PrevIdx(e.seconds, 60, u * 60 + s) / 60 == u
  {
    var f :| 0 <= f < 60 && Hit(e.seconds, f);
    var t := if Hit(e.seconds, s) then s else f;
    Split60(u, t);
    Split60(u, s);
    SecondsSettleBack(e, u * 60 + s);
    assert PrevIdx(e.seconds, 60, u * 60 + s) >= u * 60 + t;
  }

  function SettledMinuteBack(e: Expr, x: int): int {
    PrevIdx(e.seconds, 60, x) / 60
  }

  lemma MinuteSkipsBack(e: Expr, i: int)
    requires NonEmpty(e)
    ensures PrevIdx(e.minutes, 60, i) <= i && Hit(e.minutes, PrevIdx(e.minutes, 60, i) % 60)
    ensures forall t :: PrevIdx(e.minutes, 60, i) < t <= i ==> !MinuteHit(e, t)
  {
    PrevIdxGreatest(e.minutes, 60, i);
    forall t | PrevIdx(e.minutes, 60, i) < t <= i
      ensures !MinuteHit(e, t)
    {
      assert !Hit(e.minutes, Residue(60, t));
    }
  }

  lemma HourSkipsBack(e: Expr, i: int)
    requires NonEmpty(e)
    ensures PrevIdx(e.hours, 24, i / 60) <= i / 60 && Hit(e.hours, PrevIdx(e.hours, 24, i / 60) % 24)
    ensures forall t :: PrevIdx(e.hours, 24, i / 60) * 60 + 59 < t <= i ==> !MinuteHit(e, t)
  {
    var g := PrevIdx(e.hours, 24, i / 60);
    PrevIdxGreatest(e.hours, 24, i / 60);
    forall t | g * 60 + 59 < t <= i
      ensures !MinuteHit(e, t)
    {
      assert g < t / 60 <= i / 60;
      assert !Hit(e.hours, Residue(24, t / 60));
    }
  }

  lemma DaySkipsBack(e: Expr, i: int)
    ensures forall t :: PrevDay(e, i / 1440, DAY_LIMIT) * 1440 + 1439 < t <= i ==> !MinuteHit(e, t)
  {
    var c := PrevDay(e, i / 1440, DAY_LIMIT);
    forall t | c * 1440 + 1439 < t <= i
      ensures !MinuteHit(e, t)
    {
      assert c < t / 1440 <= i / 1440;
    }
  }

  lemma StopSkipsBack(e: Expr, i: int)
    requires NonEmpty(e) && OneDayFree(e)
    ensures PrevMinute(e, i) <= StopBack(e, i) <= i
    ensures forall t :: StopBack(e, i) < t <= i ==> !MinuteHit(e, t)
  {
    MinuteSkipsBack(e, i);
    HourSkipsBack(e, i);
    DaySkipsBack(e, i);
  }

  /** A move goes back and never past a matching minute. */
  lemma MovedRecedes(e: Expr, x: int)
    requires NonEmpty(e) && OneDayFree(e) && OnePassBack(e, x).Moved?
    ensures var y := OnePassBack(e, x).at;
            && y < x && SettledMinuteBack(e, y) == y / 60
            && PrevMinute(e, SettledMinuteBack(e, x)) <= y / 60 < SettledMinuteBack(e, x)
  {
    SecondsSettleBack(e, x);
    var x1 := PrevIdx(e.seconds, 60, x);
    var u, s := StopBack(e, x1 / 60), if x1 == x then 59 else x1 % 60;
    assert OnePassBack(e, x).at == u * 60 + s && u != x1 / 60;
    StopSkipsBack(e, x1 / 60);
    SecondsStayBack(e, u, s);
  }

  /** With one day field free the day search stops on a matching day, and on the same number only by not moving. */
  lemma DaySearchBack(e: Expr, d: int)
    requires NonEmpty(e) && OneDayFree(e)
    ensures var c := PrevDay(e, d, DAY_LIMIT);
            DayHit(e, c) && (c != d ==> Mday(c) != Mday(d))
  {
    var c := PrevDay(e, d, DAY_LIMIT);
    if Full(e.daysOfWeek, 0, 7) {
      var r := DomBefore(e, d);
      assert DayHit(e, c);
    } else {
      var r := DowBefore(e, d);
      assert r <= c;
      if c < d {
        NearDaysDiffer(c, d);
      }
    }
  }

  /** A pass that moves nothing has found a match. */
  lemma DoneMatchesBack(e: Expr, x: int)
    requires Searchable(e) && OnePassBack(e, x).Done?
    ensures OnePassBack(e, x).at == PrevIdx(e.seconds, 60, x) && Match(e, OnePassBack(e, x).at)
  {
    SecondsSettleBack(e, x);
    var i := PrevIdx(e.seconds, 60, x) / 60;
    MinuteSkipsBack(e, i);
    HourSkipsBack(e, i);
    DaySearchBack(e, i / 1440);
    assert PrevIdx(e.seconds, 60, x) / 86400 == i / 1440;
  }

  // ----- Nothing is passed over -----

  /** Unbroken seconds that had to move have moved to the last selected one. */
  lemma SecondsLast(e: Expr, x: int)
    requires NonEmpty(e) && Unbroken(e.seconds)
    requires PrevIdx(e.seconds, 60, x) != x
    ensures forall t :: PrevIdx(e.seconds, 60, x) % 60 < t < 60 ==> !Hit(e.seconds, t)
  {
    SecondsSettleBack(e, x);
    var x1 := PrevIdx(e.seconds, 60, x);
    var base := x1 - x1 % 60;
    forall t | x1 % 60 < t < 60
      ensures !Hit(e.seconds, t)
    {
      Split60(x1 / 60, t);
      assert (base + t) % 60 == t;
      if base + t > x && Hit(e.seconds, t) {
        Split60(x1 / 60, x - base);
      }
    }
  }

  function SecondsLeftBack(e: Expr, x: int): int {
    var x1 := PrevIdx(e.seconds, 60, x);
    if x1 == x then 59 else x1 % 60
  }

  /** Nothing matches after minute u and in its last seconds, when no minute after u does. */
  lemma SkipBackToMinute(e: Expr, x: int, u: int)
    requires NonEmpty(e) && Unbroken(e.seconds)
    requires forall t :: t <= x && u < t / 60 <= SettledMinuteBack(e, x) ==> !Match(e, t)
    ensures NoMatch(e, u * 60 + SecondsLeftBack(e, x) + 1, x + 1)
  {
    SecondsSettleBack(e, x);
    var x1 := PrevIdx(e.seconds, 60, x);
    if x1 != x {
      SecondsLast(e, x);
    }
    forall t | u * 60 + SecondsLeftBack(e, x) < t <= x
      ensures !Match(e, t)
    {
      if t <= x1 && t / 60 <= u {
        Split60(u, t - u * 60);
        assert t % 60 == t - u * 60;
      }
    }
  }

  /** When only the seconds are restricted, one pass is enough. */
  lemma NothingElseMovesBack(e: Expr, x: int)
    requires NonEmpty(e) && OnlySeconds(e)
    ensures OnePassBack(e, x).Done?
  {
    var i := SettledMinuteBack(e, x);
    assert Residue(60, i) == i % 60;
    assert Residue(24, i / 60) == i / 60 % 24;
  }

  lemma MovedSkipsBack(e: Expr, x: int)
    requires NonEmpty(e) && OneDayFree(e) && SecondsOK(e) && OnePassBack(e, x).Moved?
    ensures NoMatch(e, OnePassBack(e, x).at + 1, x + 1)
  {
    var i := SettledMinuteBack(e, x);
    StopSkipsBack(e, i);
    if !Unbroken(e.seconds) {
      NothingElseMovesBack(e, x);
    } else {
      SkipBackToMinute(e, x, StopBack(e, i));
    }
  }

  // ----- do_prev -----

  ghost function MinutesBack(e: Expr, x: int): nat
    requires NonEmpty(e) && OneDayFree(e)
  {
    SettledMinuteBack(e, x) - PrevMinute(e, SettledMinuteBack(e, x))
  }

  lemma MovedDecreasesBack(e: Expr, x: int)
    requires NonEmpty(e) && OneDayFree(e) && OnePassBack(e, x).Moved?
    ensures MinutesBack(e, OnePassBack(e, x).at) < MinutesBack(e, x)
  {
    MovedRecedes(e, x);
    var y := OnePassBack(e, x).at;
    var n := PrevMinute(e, SettledMinuteBack(e, x));
    assert PrevMinute(e, y / 60) >= n;
  }

  /** Where do_prev ends, started at x. */
  ghost function DoPrev(e: Expr, x: int): int
    requires Searchable(e)
    decreases MinutesBack(e, x)
  {
    match OnePassBack(e, x)
    case Moved(y) => MovedDecreasesBack(e, x); DoPrev(e, y)
    case p => p.at
  }

  /**
    What do_prev ends with matches and is not after its start, and with settled seconds it is the last
    such instant.
   */
  lemma {:induction false} DoPrevGreatest(e: Expr, x: int)
    requires Searchable(e)
    ensures DoPrev(e, x) <= x && Match(e, DoPrev(e, x))
    ensures SecondsOK(e) ==> NoMatch(e, DoPrev(e, x) + 1, x + 1)
    decreases MinutesBack(e, x)
  {
    match OnePassBack(e, x)
    case Moved(y) =>
      MovedDecreasesBack(e, x);
      MovedRecedes(e, x);
      if SecondsOK(e) {
        MovedSkipsBack(e, x);
      }
      DoPrevGreatest(e, y);
    case Done(z) =>
      DoneMatchesBack(e, x);
      SecondsSettleBack(e, x);
  }

  /** Some selected day is there in every year. */
  lemma AllMonths(e: Expr)
    requires Searchable(e)
    ensures MonthsOK(e) && Yearly(e)
  {
    var d :| 1 <= d < 32 && Hit(e.daysOfMonth, d);
    assert Hit(e.months, 0) && ShortestLength(0) == 31;
  }

  // ----- cron_prev -----

  /** z is the last match strictly before x. */
  ghost predicate IsPrev(e: Expr, x: int, z: int) {
    z < x && Match(e, z) && NoMatch(e, z + 1, x)
  }

  /** The last match up to x, as far as the seconds allow. */
  ghost predicate IsLast(e: Expr, x: int, z: int) {
    z <= x && Match(e, z) && (SecondsOK(e) ==> NoMatch(e, z + 1, x + 1))
  }

  lemma DoPrevIsLast(e: Expr, x: int)
    requires Searchable(e)
    ensures IsLast(e, x, DoPrev(e, x))
  {
    DoPrevGreatest(e, x);
  }

  /** The second try of cron_prev, when the first ended where it began. */
  ghost function Again(e: Expr, x: int, z: int): int
    requires Searchable(e)
  {
    if z == x then DoPrev(e, x - 1) else z
  }

  ghost function CronPrev(e: Expr, x: int): int
    requires Searchable(e)
  {
    Again(e, x, DoPrev(e, x))
  }

  lemma AgainIsPrev(e: Expr, x: int, z: int)
    requires Searchable(e) && IsLast(e, x, z)
    ensures var r := Again(e, x, z); r < x && Match(e, r) && (SecondsOK(e) ==> NoMatch(e, r + 1, x))
  {
    if z == x {
      DoPrevIsLast(e, x - 1);
    } else if SecondsOK(e) {
      NoMatchBefore(e, z + 1, x);
    }
  }

  lemma NoMatchBefore(e: Expr, a: int, b: int)
    requires NoMatch(e, a, b + 1)
    ensures NoMatch(e, a, b)
  {
  }

  /** cron_prev always finds an earlier match, and the last one before x when the seconds are one range. */
  lemma CronPrevGreatest(e: Expr, x: int)
    requires Searchable(e)
    ensures CronPrev(e, x) < x && Match(e, CronPrev(e, x))
    ensures SecondsOK(e) ==> IsPrev(e, x, CronPrev(e, x))
  {
    var z := DoPrev(e, x);
    DoPrevIsLast(e, x);
    AgainIsPrev(e, x, z);
  }

  lemma PrevUnique(e: Expr, x: int, y: int, z: int)
    requires IsPrev(e, x, y) && IsPrev(e, x, z)
    ensures y == z
  {
  }

  // ----- The seconds are needed -----

  /** Seconds that start inside a gap settle on an earlier second of the same minute. */
  lemma GapSettlesBack(e: Expr, i: int, a: int, g: int)
    requires NonEmpty(e) && 0 <= a < g < 60 && Hit(e.seconds, a) && !Hit(e.seconds, g)
    ensures var x1 := PrevIdx(e.seconds, 60, i * 60 + g);
            x1 < i * 60 + g && x1 / 60 == i && x1 % 60 < g && x1 / 86400 == i / 1440
  {
    Split60(i, a);
    Split60(i, g);
    SecondsSettleBack(e, i * 60 + g);
    var x1 := PrevIdx(e.seconds, 60, i * 60 + g);
    assert (i * 60 + a) % 60 == a && (i * 60 + g) % 60 == g;
    Split60(i, x1 - i * 60);
    assert x1 / 86400 == x1 / 60 / 1440;
  }

  lemma MoveOf(e: Expr, x: int) returns (u: int)
    requires NonEmpty(e) && OneDayFree(e) && OnePassBack(e, x).Moved?
    ensures u < SettledMinuteBack(e, x) && OnePassBack(e, x).at == u * 60 + SecondsLeftBack(e, x)
  {
    StopSkipsBack(e, SettledMinuteBack(e, x));
    u := StopBack(e, SettledMinuteBack(e, x));
  }

  lemma GapMovesBack(e: Expr, i: int, a: int, g: int, x: int) returns (y: int)
    requires Searchable(e) && !UpperHit(e, i) && 0 <= a < g < 60 && Hit(e.seconds, a) && !Hit(e.seconds, g)
    requires x == i * 60 + g
    ensures OnePassBack(e, x) == Moved(y) && y < (i - 1) * 60 + g
  {
    GapSettlesBack(e, i, a, g);
    if OnePassBack(e, x).Done? {
      DoneMatchesBack(e, x);
      assert false;
    }
    var u := MoveOf(e, x);
    y := OnePassBack(e, x).at;
  }

  lemma MovedPrev(e: Expr, x: int, y: int)
    requires Searchable(e) && OnePassBack(e, x) == Moved(y)
    ensures CronPrev(e, x) <= y
  {
    MovedDecreasesBack(e, x);
    MovedRecedes(e, x);
    DoPrevIsLast(e, y);
  }

  /** A search that starts inside a gap, in a minute that does not match, keeps the earlier second through a move. */
  lemma GapSecondBack(e: Expr, i: int, a: int, g: int, x: int)
    requires Searchable(e) && !UpperHit(e, i) && 0 <= a < g < 60 && Hit(e.seconds, a) && !Hit(e.seconds, g)
    requires x == i * 60 + g
    ensures CronPrev(e, x) < (i - 1) * 60 + g
  {
    var y := GapMovesBack(e, i, a, g, x);
    MovedPrev(e, x, y);
  }

  lemma LastMatch(e: Expr, x: int, bound: int) returns (z: int)
    requires bound < x && Match(e, bound)
    ensures bound <= z < x && IsPrev(e, x, z)
    decreases x - bound
  {
    z := x - 1;
    while !Match(e, z)
      invariant bound <= z < x && NoMatch(e, z + 1, x)
      decreases z - bound
    {
      z := z - 1;
    }
  }

  /** A minute that matches, followed by one that does not. */
  lemma BoundaryBack(e: Expr) returns (i: int)
    requires Searchable(e) && !OnlySeconds(e)
    ensures !UpperHit(e, i) && UpperHit(e, i - 1)
  {
    AllMonths(e);
    i := MissedMinute(e);
    var z := MatchInYear(e, YearOf(i * 60) - 1);
    NextYearIsLater(z, i * 60);
    assert z / 60 / 1440 == z / 86400;
    assert UpperHit(e, z / 60) && z / 60 < i;
    while !UpperHit(e, i - 1)
      invariant z / 60 < i && !UpperHit(e, i)
      decreases i - z / 60
    {
      i := i - 1;
    }
  }

  /** Broken seconds: started inside the gap, just after a matching minute, the search returns an early second. */
  lemma BrokenSecondsFailBack(e: Expr) returns (x: int, z: int)
    requires Searchable(e) && !SecondsOK(e)
    ensures IsPrev(e, x, z) && CronPrev(e, x) != z
  {
    var a, g, b :| 0 <= a < g < b < 60 && Hit(e.seconds, a) && Hit(e.seconds, b) && !Hit(e.seconds, g);
    var i := BoundaryBack(e);
    x := i * 60 + g;
    var w := (i - 1) * 60 + b;
    Split60(i - 1, b);
    assert w / 60 == i - 1 && w % 60 == b && w / 86400 == (i - 1) / 1440;
    z := LastMatch(e, x, w);
    GapSecondBack(e, i, a, g, x);
  }

  /**
    The exact condition: among the expressions with one unrestricted day field and all months, cron_prev
    returns the last earlier match from every instant exactly when the seconds are unbroken (or alone restricted).
   */
  lemma CronPrevExact(e: Expr)
    requires Searchable(e)
    ensures (forall x, z :: IsPrev(e, x, z) ==> CronPrev(e, x) == z) <==> SecondsOK(e)
  {
    if SecondsOK(e) {
      forall x, z | IsPrev(e, x, z)
        ensures CronPrev(e, x) == z
      {
        CronPrevGreatest(e, x);
        PrevUnique(e, x, CronPrev(e, x), z);
      }
    } else {
      var x, z := BrokenSecondsFailBack(e);
    }
  }

  lemma BackAgain(e: Expr, x: int, z: int, back: int)
    requires IsNext(e, x, z) && IsPrev(e, z, back)
    ensures if Match(e, x) then back == x else back < x
  {
    if Match(e, x) {
      PrevUnique(e, z, x, back);
    }
  }

  /**
    Going to the next match and back again returns to where it started from when that was a match, and
    to before it otherwise.
   */
  lemma PrevOfNext(e: Expr, x: int)
    requires Searchable(e) && SecondsOK(e)
    ensures CronNext(e, x).Found?
    ensures var back := CronPrev(e, CronNext(e, x).at);
            if Match(e, x) then back == x else back < x
  {
    AllMonths(e);
    CronNextExists(e, x);
    var z := CronNext(e, x).at;
    CronPrevGreatest(e, z);
    BackAgain(e, x, z, CronPrev(e, z));
  }

  lemma ForthAgain(e: Expr, x: int, z: int, on: int)
    requires IsPrev(e, x, z) && IsNext(e, z, on)
    ensures if Match(e, x) then on == x else on > x
  {
  }

  /** And the other way round. */
  lemma NextOfPrev(e: Expr, x: int)
    requires Searchable(e) && SecondsOK(e)
    ensures CronNext(e, CronPrev(e, x)).Found?
    ensures var on := CronNext(e, CronPrev(e, x)).at;
            if Match(e, x) then on == x else on > x
  {
    AllMonths(e);
    CronPrevGreatest(e, x);
    var z := CronPrev(e, x);
    CronNextExists(e, z);
    ForthAgain(e, x, z, CronNext(e, z).at);
  }
}
