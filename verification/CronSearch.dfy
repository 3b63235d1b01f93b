/**
  What the cron engine of main/comp/cron/ccronexpr.cpp computes, as functions on instants: when an
  expression matches, and where the recursive search `do_next` ends. CronEngine holds the
  in-place form that the source has.
 */
module CronSearch {
  import opened Calendar

  /** A byte-array bitset, read bit by bit. */
  type Bits = seq<bool>

  predicate Hit(bits: Bits, i: int) {
    0 <= i < |bits| && bits[i]
  }

  /** Every value from lo up to hi is selected. */
  ghost predicate Full(bits: Bits, lo: int, hi: int) {
    forall i :: lo <= i < hi ==> Hit(bits, i)
  }

  /** Some value from lo up to hi is selected. */
  ghost predicate Any(bits: Bits, lo: int, hi: int) {
    exists i :: lo <= i < hi && Hit(bits, i)
  }

  datatype Expr = Expr(seconds: Bits, minutes: Bits, hours: Bits,
                       daysOfWeek: Bits, daysOfMonth: Bits, months: Bits)

  /** Every field selects at least one of its values, as after a parse without error. */
  ghost predicate NonEmpty(e: Expr) {
    && Any(e.seconds, 0, 60) && Any(e.minutes, 0, 60) && Any(e.hours, 0, 24)
    && Any(e.daysOfWeek, 0, 7) && Any(e.daysOfMonth, 1, 32) && Any(e.months, 0, 12)
  }

  predicate DayHit(e: Expr, d: int) {
    Hit(e.daysOfMonth, Mday(d)) && Hit(e.daysOfWeek, Wday(d))
  }

  /** Minute, hour and day match, for the minute with index i. */
  predicate MinuteHit(e: Expr, i: int) {
    Hit(e.minutes, i % 60) && Hit(e.hours, i / 60 % 24) && DayHit(e, i / 1440)
  }

  /** All six fields match at instant x. */
  predicate Match(e: Expr, x: int) {
    && Hit(e.seconds, x % 60)
    && MinuteHit(e, x / 60)
    && Hit(e.months, MonthOf(x / 86400) % 12)
  }

  /** next_set_bit; max when there is none. */
  function NextSet(bits: Bits, max: int, from: int): (v: int)
    ensures from <= max ==> from <= v <= max
    ensures from <= v < max ==> Hit(bits, v)
    ensures forall t :: from <= t < v ==> !Hit(bits, t)
    decreases max - from
  {
    if from >= max then max
    else if Hit(bits, from) then from
    else NextSet(bits, max, from + 1)
  }

  /** A field's value cycles with one of three lengths. */
  predicate Cycle(n: int) { n == 60 || n == 24 || n == 12 }

  function Residue(n: int, i: int): (r: int)
    requires Cycle(n)
    ensures 0 <= r < n
  {
    if n == 60 then i % 60 else if n == 24 then i % 24 else i % 12
  }

  lemma ResidueSplit(n: int, i: int, v: int)
    requires Cycle(n) && 0 <= v < n
    ensures Residue(n, i - Residue(n, i) + v) == v
    ensures Residue(n, i - Residue(n, i) + n + v) == v
  {
    if n == 60 {
      Split60(i / 60, v);
    } else if n == 24 {
      Split24(i / 24, v);
    } else {
      Split12(i / 12, v);
    }
  }

  lemma Split60(q: int, v: int)
    requires 0 <= v < 60
    ensures (60 * q + v) % 60 == v && (60 * q + 60 + v) % 60 == v
  {
  }

  lemma Split24(q: int, v: int)
    requires 0 <= v < 24
    ensures (24 * q + v) % 24 == v && (24 * q + 24 + v) % 24 == v
  {
  }

  lemma Split12(q: int, v: int)
    requires 0 <= v < 12
    ensures (12 * q + v) % 12 == v && (12 * q + 12 + v) % 12 == v
  {
  }

  /** The least index at or after i whose value is selected, found as find_next does. */
  function NextIdx(bits: Bits, n: int, i: int): int
    requires Cycle(n)
  {
    var r := Residue(n, i);
    var v := NextSet(bits, n, r);
    if v < n then i - r + v
    else i - r + n + NextSet(bits, n, 0)
  }

  lemma NextIdxLeast(bits: Bits, n: int, i: int)
    requires Cycle(n) && Any(bits, 0, n)
    ensures i <= NextIdx(bits, n, i) < i + n
    ensures Hit(bits, Residue(n, NextIdx(bits, n, i)))
    ensures forall t :: i <= t < NextIdx(bits, n, i) ==> !Hit(bits, Residue(n, t))
  {
    var r := Residue(n, i);
    var v := NextSet(bits, n, r);
    var f := NextSet(bits, n, 0);
    assert f < n;
    if v < n {
      ResidueSplit(n, i, v);
    } else {
      ResidueSplit(n, i, f);
      assert f < r;
    }
    forall t | i <= t < NextIdx(bits, n, i)
      ensures !Hit(bits, Residue(n, t))
    {
      if t < i - r + n {
        ResidueSplit(n, i, t - (i - r));
      } else {
        ResidueSplit(n, i, t - (i - r) - n);
      }
    }
  }

  // Every day number falls on every day of the week in some January, so no restriction of the two
  // day fields can starve the search.

  function NewYear(y: int): int { MonthStart(12 * y) }

  lemma YearStep(y: int)
    ensures NewYear(y + 1) == NewYear(y) + 365 + (if Leap(y) then 1 else 0)
  {
    MonthSum(y);
  }

  /** The lengths of the twelve months of a year. */
  function LengthIn(y: int, m: int): int {
    if m == 1 then (if Leap(y) then 29 else 28)
    else if m == 3 || m == 5 || m == 8 || m == 10 then 30
    else 31
  }

  lemma MonthInYear(y: int, m: int)
    requires 0 <= m < 12
    ensures MonthStart(12 * y + m + 1) == MonthStart(12 * y + m) + LengthIn(y, m)
  {
    SplitYearMonth(y, m);
    MonthStep(12 * y + m);
  }

  lemma MonthSum(y: int)
    ensures MonthStart(12 * y + 6) == MonthStart(12 * y) + 181 + (if Leap(y) then 1 else 0)
    ensures MonthStart(12 * y + 12) == MonthStart(12 * y + 6) + 184
  {
    FirstHalf(y);
    SecondHalf(y);
  }

  lemma FirstHalf(y: int)
    ensures MonthStart(12 * y + 6) == MonthStart(12 * y) + 181 + (if Leap(y) then 1 else 0)
  {
    MonthInYear(y, 0); MonthInYear(y, 1); MonthInYear(y, 2);
    MonthInYear(y, 3); MonthInYear(y, 4); MonthInYear(y, 5);
  }

  lemma SecondHalf(y: int)
    ensures MonthStart(12 * y + 12) == MonthStart(12 * y + 6) + 184
  {
    MonthInYear(y, 6); MonthInYear(y, 7); MonthInYear(y, 8);
    MonthInYear(y, 9); MonthInYear(y, 10); MonthInYear(y, 11);
  }

  lemma Congruent(a: int, w: int, q: int)
    requires 0 <= w < 7
    ensures (a + (w - a) % 7 + 7 * q) % 7 == w
  {
  }

  /** Days from one new year to the j-th after it, when years 3 and 7 have e1 and e2 extra days. */
  function NewYearOffset(j: int, e1: int, e2: int): int {
    if j < 4 then 365 * j
    else if j < 8 then 1460 + e1 + 365 * (j - 4)
    else 2920 + e1 + e2 + 365 * (j - 8)
  }

  lemma WeekdayWithinTwelve(a: int, w: int, e1: int, e2: int) returns (j: int)
    requires 0 <= w < 7 && 0 <= e1 <= 1 && 0 <= e2 <= 1
    ensures 0 <= j <= 10 && (a + NewYearOffset(j, e1, e2)) % 7 == w
  {
    var c := (w - a) % 7;
    if c < 4 {
      j := c;
      Congruent(a, w, 52 * c);
    } else if c == 4 {
      j := if e1 == 0 then 4 else 10 - e2;
      Congruent(a, w, if e1 == 0 then 208 else 521 - 52 * e2);
    } else {
      j := c - e1;
      assert NewYearOffset(j, e1, e2) == c + 7 * (if e1 == 0 then 52 * c else 52 * (c - 1));
      Congruent(a, w, if e1 == 0 then 52 * c else 52 * (c - 1));
    }
  }

  lemma LeapSlots(z: int, j: int)
    requires (z + 1900) % 4 == 1 && 0 <= j <= 10 && j != 3 && j != 7
    ensures !Leap(z + j)
  {
    var q := (z + 1900) / 4;
    assert z + j + 1900 == 4 * q + 1 + j;
  }

  lemma {:induction false} NewYearAfter(z: int, j: int)
    requires (z + 1900) % 4 == 1 && 0 <= j <= 10
    ensures NewYear(z + j) == NewYear(z) +
              NewYearOffset(j, if Leap(z + 3) then 1 else 0, if Leap(z + 7) then 1 else 0)
    decreases j
  {
    if j > 0 {
      NewYearAfter(z, j - 1);
      YearStep(z + (j - 1));
      if j != 4 && j != 8 {
        LeapSlots(z, j - 1);
      }
    }
  }

  lemma JanuaryDate(yr: int, m: int)
    requires 1 <= m <= 31
    ensures Mday(NewYear(yr) + m - 1) == m
  {
    SplitYearMonth(yr, 0);
    MonthStep(12 * yr);
    MonthOfUnique(NewYear(yr) + m - 1, 12 * yr);
  }

  /** A year just after one that is divisible by four. */
  lemma AfterLeapSlot(y: int) returns (z: int)
    ensures z >= y && (z + 1900) % 4 == 1
  {
    z := y + (1 - (y + 1900)) % 4;
  }

  lemma WeekdayFrom(n: int, a: int, w: int, z: int) returns (j: int)
    requires 0 <= w < 7 && n == NewYear(z) && (z + 1900) % 4 == 1
    ensures 0 <= j <= 10 && (NewYear(z + j) + a) % 7 == w
  {
    var e1, e2 := if Leap(z + 3) then 1 else 0, if Leap(z + 7) then 1 else 0;
    j := WeekdayWithinTwelve(n + a, w, e1, e2);
    NewYearAfter(z, j);
    assert NewYear(z + j) + a == n + a + NewYearOffset(j, e1, e2);
  }

  /** New years fall on every day of the week. */
  lemma NewYearOn(y: int, a: int, w: int) returns (yr: int)
    requires 0 <= w < 7
    ensures yr >= y && (NewYear(yr) + a) % 7 == w
  {
    var z := AfterLeapSlot(y);
    var j := WeekdayFrom(NewYear(z), a, w, z);
    yr := z + j;
  }

  lemma JanuaryDay(y: int, m: int, w: int) returns (d: int)
    requires 1 <= m <= 31 && 0 <= w < 7
    ensures d >= NewYear(y) && Mday(d) == m && Wday(d) == w
  {
    var yr := NewYearOn(y, m + 3, w);
    d := NewYear(yr) + m - 1;
    JanuaryDate(yr, m);
    MonthStartMonotone(12 * y, 12 * yr);
  }

  lemma DayHitAfter(e: Expr, d: int) returns (r: int)
    requires NonEmpty(e)
    ensures r >= d && DayHit(e, r)
  {
    var m :| 1 <= m < 32 && Hit(e.daysOfMonth, m);
    var w :| 0 <= w < 7 && Hit(e.daysOfWeek, w);
    SplitMonth(MonthOf(d));
    var y := MonthOf(d) / 12 + 1;
    r := JanuaryDay(y, m, w);
    MonthStartMonotone(MonthOf(d) + 1, 12 * y);
  }

  lemma MinuteHitAfter(e: Expr, i: int) returns (r: int)
    requires NonEmpty(e)
    ensures r >= i && MinuteHit(e, r)
  {
    var d := DayHitAfter(e, i / 1440 + 1);
    var m :| 0 <= m < 60 && Hit(e.minutes, m);
    var h :| 0 <= h < 24 && Hit(e.hours, h);
    r := d * 1440 + h * 60 + m;
    assert r / 60 == d * 24 + h && r / 1440 == d;
  }

  ghost function LeastMinute(e: Expr, i: int, bound: int): (r: int)
    requires i <= bound && MinuteHit(e, bound)
    ensures i <= r <= bound && MinuteHit(e, r)
    ensures forall t :: i <= t < r ==> !MinuteHit(e, t)
    decreases bound - i
  {
    if MinuteHit(e, i) then i else LeastMinute(e, i + 1, bound)
  }

  /** The first minute from i on that matches in minute, hour and day. */
  ghost function NextMinute(e: Expr, i: int): (r: int)
    requires NonEmpty(e)
    ensures i <= r && MinuteHit(e, r)
    ensures forall t :: i <= t < r ==> !MinuteHit(e, t)
  {
    assert exists b :: b >= i && MinuteHit(e, b) by { var b := MinuteHitAfter(e, i); }
    var b :| b >= i && MinuteHit(e, b);
    LeastMinute(e, i, b)
  }

  // ----- The search -----

  /** find_next_day: moves day by day, at most `fuel` times, until both day fields match. */
  function NextDay(e: Expr, d: int, fuel: nat): (r: int)
    ensures d <= r <= d + fuel
    ensures forall t :: d <= t < r ==> !DayHit(e, t)
    ensures DayHit(e, r) || r == d + fuel
    decreases fuel
  {
    if DayHit(e, d) || fuel == 0 then d else NextDay(e, d + 1, fuel - 1)
  }

  const DAY_LIMIT := 366
  const YEAR_LIMIT := 4

  /**
    Where setting the month to that of l > k puts day m of month k, before the lower fields are
    reset: a roll-over adds a year first, and mktime may carry the day each time.
   */
  function MonthTarget(k: int, m: int, l: int): int {
    if l / 12 == k / 12 then MonthStart(l) + m - 1
    else MonthStart(l) + Mday(MonthStart(k + 12) + m - 1) - 1
  }

  /** How one pass over the six fields ends: nothing left to move, or a field moved. */
  datatype Pass = Done(at: int) | Moved(at: int) | MonthMoved(at: int)

  /** Where the first of minute, hour and day to move takes minute i; i itself when none moves. */
  function Stop(e: Expr, i: int): int {
    var j := NextIdx(e.minutes, 60, i);
    if j != i then j else
    var g := NextIdx(e.hours, 24, i / 60);
    if g != i / 60 then g * 60 else
    var c := NextDay(e, i / 1440, DAY_LIMIT);
    if Mday(c) != Mday(i / 1440) then c * 1440 else i
  }

  /** The body of do_next up to the first field that moves; the seconds never start a new pass. */
  function OnePass(e: Expr, x: int): Pass {
    var x1 := NextIdx(e.seconds, 60, x);
    var s := if x1 == x then 0 else x1 % 60;  // the seconds are reset later only if they matched
    var i := x1 / 60;
    var u := Stop(e, i);
    if u != i then Moved(u * 60 + s) else
    var c := NextDay(e, i / 1440, DAY_LIMIT);
    var k := MonthOf(c);
    var l := NextIdx(e.months, 12, k);
    if l == k then Done(if c == i / 1440 then x1 else c * 86400 + s)
    else MonthMoved(MonthStart(MonthOf(MonthTarget(k, Mday(c), l))) * 86400 + s)
  }

  lemma SecondsSettle(e: Expr, x: int)
    requires NonEmpty(e)
    ensures var x1 := NextIdx(e.seconds, 60, x);
            x <= x1 < x + 60 && Hit(e.seconds, x1 % 60)
            && forall t :: x <= t < x1 ==> !Hit(e.seconds, t % 60)
  {
    NextIdxLeast(e.seconds, 60, x);
    forall t | x <= t < NextIdx(e.seconds, 60, x)
      ensures !Hit(e.seconds, t % 60)
    {
      assert !Hit(e.seconds, Residue(60, t));
    }
  }

  /** Seconds that are 0 or already match do not roll over into the next minute. */
  lemma SecondsStay(e: Expr, u: int, s: int)
    requires NonEmpty(e) && 0 <= s < 60 && (s == 0 || Hit(e.seconds, s))
    ensures (u * 60 + s) / 60 == u
    ensures NextIdx(e.seconds, 60, u * 60 + s) / 60 == u
  {
    var f :| 0 <= f < 60 && Hit(e.seconds, f);
    var t := if s == 0 then f else s;
    Split60(u, t);
    Split60(u, s);
    SecondsSettle(e, u * 60 + s);
    assert NextIdx(e.seconds, 60, u * 60 + s) <= u * 60 + t;
  }

  /** The minute a pass works on, once the seconds have settled. */
  function SettledMinute(e: Expr, x: int): int {
    NextIdx(e.seconds, 60, x) / 60
  }

  lemma MinuteSkips(e: Expr, i: int)
    requires NonEmpty(e)
    ensures i <= NextIdx(e.minutes, 60, i)
    ensures Hit(e.minutes, NextIdx(e.minutes, 60, i) % 60)
    ensures forall t :: i <= t < NextIdx(e.minutes, 60, i) ==> !MinuteHit(e, t)
  {
    NextIdxLeast(e.minutes, 60, i);
    forall t | i <= t < NextIdx(e.minutes, 60, i)
      ensures !MinuteHit(e, t)
    {
      assert !Hit(e.minutes, Residue(60, t));
    }
  }

  lemma HourSkips(e: Expr, i: int)
    requires NonEmpty(e)
    ensures i / 60 <= NextIdx(e.hours, 24, i / 60)
    ensures Hit(e.hours, NextIdx(e.hours, 24, i / 60) % 24)
    ensures forall t :: i <= t < NextIdx(e.hours, 24, i / 60) * 60 ==> !MinuteHit(e, t)
  {
    var g := NextIdx(e.hours, 24, i / 60);
    NextIdxLeast(e.hours, 24, i / 60);
    forall t | i <= t < g * 60
      ensures !MinuteHit(e, t)
    {
      assert i / 60 <= t / 60 < g;
      assert !Hit(e.hours, Residue(24, t / 60));
    }
  }

  lemma DaySkips(e: Expr, i: int)
    ensures forall t :: i <= t < NextDay(e, i / 1440, DAY_LIMIT) * 1440 ==> !MinuteHit(e, t)
  {
    var c := NextDay(e, i / 1440, DAY_LIMIT);
    forall t | i <= t < c * 1440
      ensures !MinuteHit(e, t)
    {
      assert i / 1440 <= t / 1440 < c;
    }
  }

  lemma StopSkips(e: Expr, i: int)
    requires NonEmpty(e)
    ensures i <= Stop(e, i) <= NextMinute(e, i)
    ensures forall t :: i <= t < Stop(e, i) ==> !MinuteHit(e, t)
  {
    MinuteSkips(e, i);
    HourSkips(e, i);
    DaySkips(e, i);
  }

  /** A move of minute, hour or day goes forward and never past a matching minute. */
  lemma MovedAdvances(e: Expr, x: int)
    requires NonEmpty(e) && OnePass(e, x).Moved?
    ensures var y := OnePass(e, x).at;
            && x < y && SettledMinute(e, y) == y / 60
            && SettledMinute(e, x) < y / 60 <= NextMinute(e, SettledMinute(e, x))
  {
    SecondsSettle(e, x);
    var x1 := NextIdx(e.seconds, 60, x);
    StopSkips(e, x1 / 60);
    SecondsStay(e, Stop(e, x1 / 60), if x1 == x then 0 else x1 % 60);
  }

  lemma StartOfMonth(k: int)
    ensures MonthOf(MonthStart(k)) == k && Mday(MonthStart(k)) == 1
  {
    MonthStep(k);
    MonthOfUnique(MonthStart(k), k);
  }

  lemma NextYearsMonth(k: int)
    ensures MonthLen(k) <= MonthLen(k + 12) + 1
    ensures MonthLen(k) > MonthLen(k + 12) ==> k % 12 == 1
  {
    assert (k + 12) % 12 == k % 12 && (k + 12) / 12 == k / 12 + 1;
  }

  /** Adding a year keeps the month and the day, except that 29 February may become 1 March. */
  lemma CarriedDate(k: int, m: int)
    requires 1 <= m <= MonthLen(k)
    ensures var d := MonthStart(k + 12) + m - 1;
            (MonthOf(d) == k + 12 && Mday(d) == m) || (MonthOf(d) == k + 13 && Mday(d) == 1 && k % 12 == 1)
  {
    NextYearsMonth(k);
    MonthStep(k + 12);
    MonthStep(k + 13);
    var d := MonthStart(k + 12) + m - 1;
    if m <= MonthLen(k + 12) {
      MonthOfUnique(d, k + 12);
    } else {
      MonthOfUnique(d, k + 13);
    }
  }

  lemma CarriedDay(k: int, m: int)
    requires 1 <= m <= MonthLen(k)
    ensures var r := Mday(MonthStart(k + 12) + m - 1); r == m || r == 1
  {
    CarriedDate(k, m);
  }

  /** A month move lands in the month aimed at, or in the next one when the day does not fit. */
  lemma MonthLands(k: int, m: int, l: int)
    requires 1 <= m <= MonthLen(k)
    ensures var r := MonthOf(MonthTarget(k, m, l));
            && l <= r <= l + 1
            && (r == l + 1 ==> MonthLen(l) < m)
  {
    var t := MonthTarget(k, m, l);
    CarriedDay(k, m);
    MonthStep(l);
    MonthStep(l + 1);
    if t < MonthStart(l + 1) {
      MonthOfUnique(t, l);
    } else {
      MonthOfUnique(t, l + 1);
    }
  }

  /** The month that a month move from day c lands in. */
  function Landing(e: Expr, c: int): int {
    MonthOf(MonthTarget(MonthOf(c), Mday(c), NextIdx(e.months, 12, MonthOf(c))))
  }

  /** The seconds a pass leaves behind when another field moves. */
  function SecondsLeft(e: Expr, x: int): int {
    var x1 := NextIdx(e.seconds, 60, x);
    if x1 == x then 0 else x1 % 60
  }

  /** A month move from day c goes to a month after that of c. */
  lemma MonthMoves(e: Expr, c: int)
    requires NonEmpty(e)
    requires NextIdx(e.months, 12, MonthOf(c)) != MonthOf(c)
    ensures MonthOf(c) < Landing(e, c)
  {
    NextIdxLeast(e.months, 12, MonthOf(c));
    MonthLands(MonthOf(c), Mday(c), NextIdx(e.months, 12, MonthOf(c)));
  }

  lemma LaterDay(x: int, d: int, s: int)
    requires x / 86400 < d && 0 <= s < 60
    ensures x < d * 86400 + s && (d * 86400 + s) / 86400 == d
  {
    ClockOf(d, 0, 0, s);
  }

  lemma MonthAfter(d: int, c: int, r: int)
    requires d <= c && MonthOf(c) < r
    ensures d < MonthStart(r) && MonthOf(d) < r && MonthOf(MonthStart(r)) == r
  {
    StartOfMonth(r);
    MonthOfMonotone(d, c);
    MonthStartMonotone(MonthOf(d) + 1, r);
  }

  /** The day that a pass comes to before it looks at the month. */
  function SettledDay(e: Expr, x: int): int {
    NextDay(e, SettledMinute(e, x) / 1440, DAY_LIMIT)
  }

  lemma MonthMovedAt(e: Expr, x: int)
    requires OnePass(e, x).MonthMoved?
    ensures var c := SettledDay(e, x);
            && NextIdx(e.months, 12, MonthOf(c)) != MonthOf(c)
            && OnePass(e, x).at == MonthStart(Landing(e, c)) * 86400 + SecondsLeft(e, x)
  {
  }

  lemma SettlesLater(e: Expr, x: int)
    requires NonEmpty(e)
    ensures x / 86400 <= SettledDay(e, x) && 0 <= SecondsLeft(e, x) < 60
  {
    SecondsSettle(e, x);
  }

  lemma MonthMovedAdvances(e: Expr, x: int)
    requires NonEmpty(e) && OnePass(e, x).MonthMoved?
    ensures var y := OnePass(e, x).at;
            x < y && MonthOf(y / 86400) > MonthOf(x / 86400)
  {
    MonthMovedAt(e, x);
    SettlesLater(e, x);
    var c := SettledDay(e, x);
    MonthMoves(e, c);
    MonthAfter(x / 86400, c, Landing(e, c));
    LaterDay(x, MonthStart(Landing(e, c)), SecondsLeft(e, x));
  }

  // ----- do_next -----

  datatype Outcome = Found(at: int) | Failed

  /** The months left before the year cut-off. */
  function MonthsLeft(x: int, dot: int): nat {
    var left := 12 * (dot + YEAR_LIMIT + 1) - MonthOf(x / 86400);
    if left < 0 then 0 else left
  }

  /** The year check of line 467; the subtraction is unsigned. */
  predicate TooLate(x: int, dot: int) {
    YearOf(x) - dot > YEAR_LIMIT || YearOf(x) < dot
  }

  ghost function MinutesToGo(e: Expr, x: int): nat
    requires NonEmpty(e)
  {
    NextMinute(e, SettledMinute(e, x)) - SettledMinute(e, x)
  }

  lemma MovedDecreases(e: Expr, x: int, dot: int)
    requires NonEmpty(e) && OnePass(e, x).Moved?
    ensures var y := OnePass(e, x).at;
            MonthsLeft(y, dot) <= MonthsLeft(x, dot) && MinutesToGo(e, y) < MinutesToGo(e, x)
  {
    MovedAdvances(e, x);
    var y := OnePass(e, x).at;
    MonthOfMonotone(x / 86400, y / 86400);
    var n := NextMinute(e, SettledMinute(e, x));
    assert NextMinute(e, y / 60) <= n;
  }

  lemma MonthMovedDecreases(e: Expr, x: int, dot: int)
    requires NonEmpty(e) && OnePass(e, x).MonthMoved?
    requires !TooLate(OnePass(e, x).at, dot)
    ensures MonthsLeft(OnePass(e, x).at, dot) < MonthsLeft(x, dot)
  {
    MonthMovedAdvances(e, x);
  }

  /** Where do_next ends, started at x in a search that began in year dot. */
  ghost function DoNext(e: Expr, x: int, dot: int): Outcome
    requires NonEmpty(e)
    decreases MonthsLeft(x, dot), MinutesToGo(e, x)
  {
    match OnePass(e, x)
    case Done(z) => Found(z)
    case Moved(y) => MovedDecreases(e, x, dot); DoNext(e, y, dot)
    case MonthMoved(y) =>
      if TooLate(y, dot) then Failed
      else MonthMovedDecreases(e, x, dot); DoNext(e, y, dot)
  }
}
