/**
  The cron search as main/comp/cron/ccronexpr.cpp performs it: on a struct tm changed in place, with
  mktime after every change and a growing list of fields to reset. Each method ends where the
  functions of CronSearch and CronFields say.
 */
module CronEngine {
  import opened Calendar
  import opened CronSearch
  import opened CronFields
  import opened CronCorrect
  import opened CronDays

  const INVALID_INSTANT := -1

  method NextSetBit(bits: Bits, max: int, from: int) returns (next: int, notfound: bool)
    requires 0 <= from <= max
    ensures notfound <==> NextSet(bits, max, from) == max
    ensures next == if notfound then 0 else NextSet(bits, max, from)
  {
    for i := from to max
      invariant NextSet(bits, max, from) == NextSet(bits, max, i)
    {
      if Hit(bits, i) {
        return i, false;
      }
    }
    return 0, true;
  }

  method AddToField(cal: Tm, field: Field, val: int) returns (err: bool)
    requires cal.Normal()
    modifies cal
    ensures cal.Normal() && cal.now == AddAt(old(cal.now), field, val)
    ensures err <==> cal.now - cal.zone == INVALID_INSTANT
  {
    match field {
      case Second => cal.sec := cal.sec + val;
      case Minute => cal.min := cal.min + val;
      case Hour => cal.hour := cal.hour + val;
      case DayOfWeek | DayOfMonth => cal.mday := cal.mday + val;
      case Month => cal.mon := cal.mon + val;
      case Year => cal.year := cal.year + val;
    }
    assert cal.Fields() == Added(old(cal.Fields()), field, val);
    var res := cal.MkTime();
    err := res == INVALID_INSTANT;
  }

  method SetField(cal: Tm, field: Field, val: int) returns (err: bool)
    requires cal.Normal()
    modifies cal
    ensures cal.Normal() && cal.now == SetAt(old(cal.now), field, val)
    ensures err <==> cal.now - cal.zone == INVALID_INSTANT
  {
    match field {
      case Second => cal.sec := val;
      case Minute => cal.min := val;
      case Hour => cal.hour := val;
      case DayOfWeek => cal.wday := val;
      case DayOfMonth => cal.mday := val;
      case Month => cal.mon := val;
      case Year => cal.year := val;
    }
    var res := cal.MkTime();
    err := res == INVALID_INSTANT;
  }

  method ResetMin(cal: Tm, field: Field) returns (err: bool)
    requires cal.Normal()
    modifies cal
    ensures cal.Normal() && cal.now == ResetAt(old(cal.now), field)
    ensures err <==> cal.now - cal.zone == INVALID_INSTANT
  {
    err := SetField(cal, field, if field.DayOfMonth? then 1 else 0);
  }

  /** The fields that the search puts on a resets list. */
  predicate Resettable(f: Field) {
    f.Second? || f.Minute? || f.Hour? || f.DayOfMonth?
  }

  lemma ResetGoesBack(x: int, f: Field)
    requires Resettable(f)
    ensures ResetAt(x, f) <= x
  {
    var d, h, m, s := SplitInstant(x);
    ResetParts(d, h, m, s);
  }

  lemma {:induction false} ResetAllGoesBack(x: int, fs: seq<Field>)
    requires forall i :: 0 <= i < |fs| ==> Resettable(fs[i])
    ensures ResetAllAt(x, fs) <= x
    decreases |fs|
  {
    if fs != [] {
      ResetGoesBack(x, fs[0]);
      ResetAllGoesBack(ResetAt(x, fs[0]), fs[1..]);
    }
  }

  method ResetAllMin(cal: Tm, fields: seq<Field>) returns (err: bool)
    requires cal.Normal() && forall i :: 0 <= i < |fields| ==> Resettable(fields[i])
    requires ResetAllAt(cal.now, fields) >= cal.zone
    modifies cal
    ensures cal.Normal() && cal.now == ResetAllAt(old(cal.now), fields) && !err
  {
    for i := 0 to |fields|
      invariant cal.Normal()
      invariant ResetAllAt(cal.now, fields[i..]) == ResetAllAt(old(cal.now), fields)
    {
      assert fields[i..][0] == fields[i] && fields[i..][1..] == fields[i + 1..];
      err := ResetMin(cal, fields[i]);
      ResetAllGoesBack(cal.now, fields[i + 1..]);
      if err {
        return;
      }
    }
    err := false;
  }

  lemma NoDip(x: int, bits: Bits, v: Level, sec: bool)
    requires Any(bits, 0, MaxOf(v)) && (v.Seconds? ==> !sec)
    ensures x <= AddAt(x, NextField(v), 1) && x <= RolledAt(x, v)
    ensures x <= FindNextAt(x, bits, v, Resets(v, sec)) == LevelStep(x, bits, v, sec)
    ensures forall i :: 0 <= i < |Resets(v, sec)| ==> Resettable(Resets(v, sec)[i])
  {
    LevelForward(x, bits, v, sec);
  }

  /** Sets the field and resets the lower ones. */
  method SetAndReset(cal: Tm, field: Field, next: int, lower: seq<Field>) returns (err: bool)
    requires cal.Normal() && forall i :: 0 <= i < |lower| ==> Resettable(lower[i])
    requires ResetAllAt(SetAt(cal.now, field, next), lower) >= cal.zone
    modifies cal
    ensures cal.Normal() && !err
    ensures cal.now == ResetAllAt(SetAt(old(cal.now), field, next), lower)
  {
    err := SetField(cal, field, next);
    ResetAllGoesBack(cal.now, lower);
    if err {
      return;
    }
    err := ResetAllMin(cal, lower);
  }

  method FindNext(bits: Bits, v: Level, value: int, cal: Tm, lower: seq<Field>, ghost sec: bool)
    returns (next: int, err: bool)
    requires cal.Normal() && cal.now >= cal.zone && value == ValueAt(cal.now, v)
    requires Any(bits, 0, MaxOf(v)) && (v.Seconds? ==> !sec)
    requires Hit(bits, value) || lower == Resets(v, sec)
    modifies cal
    ensures cal.Normal() && !err && (next == value <==> Hit(bits, value))
    ensures cal.now == if Hit(bits, value) then old(cal.now)
                             else LevelStep(old(cal.now), bits, v, sec)
  {
    NoDip(cal.now, bits, v, sec);
    var notfound;
    next, notfound := NextSetBit(bits, MaxOf(v), value);
    if notfound {
      err := AddToField(cal, NextField(v), 1);
      if err {
        return;
      }
      err := ResetMin(cal, FieldOf(v));
      if err {
        return;
      }
      next, notfound := NextSetBit(bits, MaxOf(v), 0);
    }
    err := false;
    if notfound || next != value {
      err := SetAndReset(cal, FieldOf(v), next, lower);
    }
  }

  /** Where find_next_day takes the calendar. */
  function DayStep(e: Expr, x: int, sec: bool): int {
    var c := NextDay(e, x / 86400, DAY_LIMIT);
    if c == x / 86400 then x else c * 86400 + (if sec then 0 else x % 60)
  }

  lemma StartOf(d: int, t: int)
    requires 0 <= t < 60
    ensures (d * 86400 + t) / 86400 == d && (d * 86400 + t) % 60 == t
  {
    ClockOf(d, 0, 0, t);
  }

  lemma AddDayParts(d: int, h: int, m: int, s: int, sec: bool)
    requires 0 <= h < 24 && 0 <= m < 60 && 0 <= s < 60
    ensures AddAt(At(d, h, m, s), DayOfMonth, 1) == At(d + 1, h, m, s)
    ensures ResetAllAt(At(d + 1, h, m, s), Resets(Hours, sec) + [Hour])
            == (d + 1) * 86400 + (if sec then 0 else s)
  {
    AddParts(d, h, m, s);
    ResetLevels(d + 1, h, m, s, sec);
  }

  lemma SplitDay(x: int, d: int, s: int) returns (h: int, m: int)
    requires d == x / 86400 && s == x % 60
    ensures x == At(d, h, m, s) && 0 <= h < 24 && 0 <= m < 60 && 0 <= s < 60
  {
    var d', s';
    d', h, m, s' := SplitInstant(x);
    ClockOf(d', h, m, s');
  }

  lemma AddDay(x: int, d: int, s: int, sec: bool)
    requires d == x / 86400 && s == x % 60
    ensures AddAt(x, DayOfMonth, 1) == x + 86400
    ensures ResetAllAt(x + 86400, Resets(Hours, sec) + [Hour]) == (d + 1) * 86400 + (if sec then 0 else s)
  {
    var h, m := SplitDay(x, d, s);
    AddDayParts(d, h, m, s, sec);
  }

  /** The calendar after the day search has moved `count` days from x. */
  function DaysOn(x: int, sec: bool, count: int): int {
    if count == 0 then x else (x / 86400 + count) * 86400 + (if sec then 0 else x % 60)
  }

  lemma DaysOnIs(x: int, sec: bool, count: int)
    requires count >= 0
    ensures DaysOn(x, sec, count) / 86400 == x / 86400 + count
    ensures count > 0 ==> DaysOn(x, sec, count) % 60 == if sec then 0 else x % 60
    ensures x <= DaysOn(x, sec, count)
  {
    StartOf(x / 86400 + count, if sec then 0 else x % 60);
  }

  lemma NextDaysOn(x: int, sec: bool, count: int)
    requires count >= 0
    ensures var y := DaysOn(x, sec, count);
            AddAt(y, DayOfMonth, 1) == y + 86400
            && ResetAllAt(y + 86400, Resets(Hours, sec) + [Hour]) == DaysOn(x, sec, count + 1)
  {
    DaysOnIs(x, sec, count);
    var y := DaysOn(x, sec, count);
    AddDay(y, x / 86400 + count, y % 60, sec);
  }

  /** One round of the day search. */
  method NextDayRound(cal: Tm, resets: seq<Field>, ghost sec: bool, ghost x: int, ghost count: int)
    returns (err: bool)
    requires cal.Normal() && count >= 0 && cal.now == DaysOn(x, sec, count)
    requires x >= cal.zone && resets == Resets(Hours, sec) + [Hour]
    modifies cal
    ensures cal.Normal() && !err && cal.now == DaysOn(x, sec, count + 1)
  {
    NextDaysOn(x, sec, count);
    DaysOnIs(x, sec, count);
    DaysOnIs(x, sec, count + 1);
    err := AddToField(cal, DayOfMonth, 1);
    if err {
      return;
    }
    var ignored := ResetAllMin(cal, resets);
  }

  lemma DayFields(cal: Tm, x: int, sec: bool, count: int)
    requires cal.Normal() && count >= 0 && cal.now == DaysOn(x, sec, count)
    ensures cal.mday == Mday(x / 86400 + count) && cal.wday == Wday(x / 86400 + count)
  {
    DaysOnIs(x, sec, count);
  }

  /** The day search from x has looked at `count` days in vain and is on the next one. */
  ghost predicate Searching(e: Expr, x: int, sec: bool, count: int, now: int, day: int, weekday: int) {
    var d := x / 86400;
    && 0 <= count <= DAY_LIMIT && now == DaysOn(x, sec, count)
    && day == Mday(d + count) && weekday == Wday(d + count)
    && NextDay(e, d, DAY_LIMIT) == NextDay(e, d + count, DAY_LIMIT - count)
    && (count > 0 ==> !DayHit(e, d))
  }

  lemma SearchMisses(e: Expr, x: int, sec: bool, count: int, now: int, day: int, weekday: int)
    requires Searching(e, x, sec, count, now, day, weekday) && count < DAY_LIMIT
    requires !(Hit(e.daysOfMonth, day) && Hit(e.daysOfWeek, weekday))
    ensures !DayHit(e, x / 86400)
    ensures NextDay(e, x / 86400, DAY_LIMIT) == NextDay(e, x / 86400 + count + 1, DAY_LIMIT - count - 1)
  {
  }

  lemma SearchGoesOn(e: Expr, x: int, sec: bool, count: int, now: int, day: int, weekday: int)
    requires 0 < count <= DAY_LIMIT && !DayHit(e, x / 86400) && now == DaysOn(x, sec, count)
    requires day == Mday(x / 86400 + count) && weekday == Wday(x / 86400 + count)
    requires NextDay(e, x / 86400, DAY_LIMIT) == NextDay(e, x / 86400 + count, DAY_LIMIT - count)
    ensures Searching(e, x, sec, count, now, day, weekday)
  {
  }

  lemma SearchStops(e: Expr, x: int, sec: bool, count: int, now: int, day: int, weekday: int)
    requires Searching(e, x, sec, count, now, day, weekday)
    requires count == DAY_LIMIT || (Hit(e.daysOfMonth, day) && Hit(e.daysOfWeek, weekday))
    ensures now == DayStep(e, x, sec) && day == Mday(NextDay(e, x / 86400, DAY_LIMIT))
  {
  }

  method FindNextDay(cal: Tm, e: Expr, resets: seq<Field>, ghost sec: bool) returns (day: int, err: bool)
    requires cal.Normal() && cal.now >= cal.zone
    requires DayHit(e, cal.now / 86400) || resets == Resets(Hours, sec) + [Hour]
    modifies cal
    ensures cal.Normal() && !err && cal.now == DayStep(e, old(cal.now), sec)
    ensures day == Mday(NextDay(e, old(cal.now) / 86400, DAY_LIMIT))
  {
    ghost var x := cal.now;
    var count := 0;
    day := cal.mday;
    var weekday := cal.wday;
    err := false;
    DayFields(cal, x, sec, 0);
    while (!Hit(e.daysOfMonth, day) || !Hit(e.daysOfWeek, weekday)) && count < DAY_LIMIT
      invariant cal.Normal() && !err
      invariant Searching(e, x, sec, count, cal.now, day, weekday)
      decreases DAY_LIMIT - count
    {
      SearchMisses(e, x, sec, count, cal.now, day, weekday);
      err := NextDayRound(cal, resets, sec, x, count);
      if err {
        return;
      }
      count := count + 1;
      DayFields(cal, x, sec, count);
      day := cal.mday;
      weekday := cal.wday;
      SearchGoesOn(e, x, sec, count, cal.now, day, weekday);
    }
    SearchStops(e, x, sec, count, cal.now, day, weekday);
  }

  // ----- do_next -----

  /** What do_next returns and where it leaves the calendar, for a search that ends as `outcome`. */
  ghost predicate Ended(outcome: Outcome, res: int, now: int) {
    match outcome
    case Found(z) => res == 0 && now == z
    case Failed => res != 0
  }

  /** What cron_next returns. */
  ghost predicate Returned(outcome: Outcome, time: int, zone: int) {
    match outcome
    case Found(z) => time == z - zone
    case Failed => time == INVALID_INSTANT
  }

  /** Whether the calendar, at instant y, matches in the n-th field of a pass. */
  ghost predicate FieldHit(e: Expr, y: int, n: int) {
    if n == 1 then Hit(e.minutes, y / 60 % 60)
    else if n == 2 then Hit(e.hours, y / 3600 % 24)
    else if n == 3 then DayHit(e, y / 86400)
    else Hit(e.months, MonthOf(y / 86400) % 12)
  }

  /** The seconds are on the resets list when they matched from the start. */
  ghost predicate SecondsKept(e: Expr, x: int) {
    NextIdx(e.seconds, 60, x) == x
  }

  /** Where a pass that misses in its n-th field takes the calendar from y. */
  ghost function MissStep(e: Expr, x: int, y: int, n: int): int {
    if n == 1 then LevelStep(y, e.minutes, Minutes, SecondsKept(e, x))
    else if n == 2 then LevelStep(y, e.hours, Hours, SecondsKept(e, x))
    else if n == 3 then DayStep(e, y, SecondsKept(e, x))
    else LevelStep(y, e.months, Months, SecondsKept(e, x))
  }

  /** The clock matches at y, and the day search from there stops on the day number of y. */
  ghost predicate DayStays(e: Expr, y: int) {
    FieldHit(e, y, 1) && FieldHit(e, y, 2) && Mday(NextDay(e, y / 86400, DAY_LIMIT)) == Mday(y / 86400)
  }

  /**
    A pass from x has come to y with the fields below the n-th matching and nothing moved, as far as the
    search notices: the day search may have slipped.
   */
  ghost predicate Unmoved(e: Expr, x: int, y: int, n: int) {
    var x1 := NextIdx(e.seconds, 60, x);
    if n < 4 then y == x1 && (n > 1 ==> FieldHit(e, y, 1)) && (n > 2 ==> FieldHit(e, y, 2))
    else DayStays(e, x1) && y == DayStep(e, x1, SecondsKept(e, x))
  }

  lemma IndexOfHit(bits: Bits, n: int, i: int)
    requires Cycle(n) && Any(bits, 0, n)
    ensures NextIdx(bits, n, i) == i <==> Hit(bits, Residue(n, i))
  {
    NextIdxLeast(bits, n, i);
  }

  lemma MinuteMisses(e: Expr, x: int, y: int)
    requires NonEmpty(e) && Unmoved(e, x, y, 1) && !FieldHit(e, y, 1)
    ensures OnePass(e, x) == Moved(MissStep(e, x, y, 1))
  {
    IndexOfHit(e.minutes, 60, y / 60);
  }

  lemma HourMisses(e: Expr, x: int, y: int)
    requires NonEmpty(e) && Unmoved(e, x, y, 2) && !FieldHit(e, y, 2)
    ensures OnePass(e, x) == Moved(MissStep(e, x, y, 2))
  {
    IndexOfHit(e.minutes, 60, y / 60);
    IndexOfHit(e.hours, 24, y / 3600);
    assert y / 3600 == y / 60 / 60;
    assert Stop(e, y / 60) == NextIdx(e.hours, 24, y / 3600) * 60;
  }

  lemma DayMisses(e: Expr, x: int, y: int)
    requires NonEmpty(e) && Unmoved(e, x, y, 3) && !DayStays(e, y)
    ensures OnePass(e, x) == Moved(MissStep(e, x, y, 3))
  {
    IndexOfHit(e.minutes, 60, y / 60);
    IndexOfHit(e.hours, 24, y / 3600);
    assert y / 3600 == y / 60 / 60 && y / 86400 == y / 60 / 1440;
    assert Stop(e, y / 60) == NextDay(e, y / 86400, DAY_LIMIT) * 1440;
  }

  /** Where a pass comes to the month. */
  lemma AtMonth(e: Expr, x: int, y: int)
    requires NonEmpty(e) && Unmoved(e, x, y, 4)
    ensures var x1 := NextIdx(e.seconds, 60, x);
            && Stop(e, x1 / 60) == x1 / 60 && x1 / 60 / 1440 == x1 / 86400 && x1 <= y
            && y / 86400 == NextDay(e, x1 / 86400, DAY_LIMIT)
            && (y / 86400 != x1 / 86400 ==> y % 60 == if SecondsKept(e, x) then 0 else x1 % 60)
  {
    var x1 := NextIdx(e.seconds, 60, x);
    IndexOfHit(e.minutes, 60, x1 / 60);
    IndexOfHit(e.hours, 24, x1 / 3600);
    assert x1 / 3600 == x1 / 60 / 60 && x1 / 86400 == x1 / 60 / 1440;
    var c := NextDay(e, x1 / 86400, DAY_LIMIT);
    StartOf(c, if SecondsKept(e, x) then 0 else x1 % 60);
    if c != x1 / 86400 {
      LaterDay(x1, c, if SecondsKept(e, x) then 0 else x1 % 60);
    }
  }

  lemma NothingMissed(e: Expr, x: int, y: int)
    requires NonEmpty(e) && Unmoved(e, x, y, 4)
    ensures OnePass(e, x) == if FieldHit(e, y, 4) then Done(y) else MonthMoved(MissStep(e, x, y, 4))
  {
    AtMonth(e, x, y);
    IndexOfHit(e.months, 12, MonthOf(y / 86400));
  }

  /**
    How far a call of do_next that started at x has come: an inner call has ended where this one
    will, or nothing has moved before field n and the resets list is as it must be.
   */
  ghost predicate Reached(e: Expr, x: int, dot: int, y: int, n: int, inner: bool)
    requires NonEmpty(e)
  {
    if inner then DoNext(e, x, dot) == Found(y) && Match(e, y)
    else Unmoved(e, x, y, n)
  }

  lemma MatchHits(e: Expr, y: int, n: int)
    requires Match(e, y) && 1 <= n <= 4
    ensures FieldHit(e, y, n)
  {
    assert y / 3600 == y / 60 / 60 && y / 86400 == y / 60 / 1440;
  }

  /** The n-th field moves, and the search notices. */
  ghost predicate Moves(e: Expr, y: int, n: int) {
    if n == 3 then !DayStays(e, y) else !FieldHit(e, y, n)
  }

  /** A field that moves makes the recursive call that continues this one, and it is a smaller call. */
  lemma Misses(e: Expr, x: int, dot: int, y: int, n: int)
    requires NonEmpty(e) && Covered(e, x, dot) && 1 <= n <= 3
    requires Unmoved(e, x, y, n) && Moves(e, y, n)
    ensures var z := MissStep(e, x, y, n);
            && DoNext(e, x, dot) == DoNext(e, z, dot) && x < z
            && MonthsLeft(z, dot) <= MonthsLeft(x, dot) && MinutesToGo(e, z) < MinutesToGo(e, x)
            && EndsWell(e, z, dot)
  {
    if n == 1 {
      MinuteMisses(e, x, y);
    } else if n == 2 {
      HourMisses(e, x, y);
    } else {
      DayMisses(e, x, y);
    }
    MovedDecreases(e, x, dot);
    MovedAdvances(e, x);
    if Coincides(e, x) {
      CoincidencePass(e, x);
      assert false;
    }
  }

  /** The day matches or the search slips, and is at the month. */
  lemma DaySlips(e: Expr, x: int, y: int)
    requires NonEmpty(e) && Unmoved(e, x, y, 3) && DayStays(e, y)
    ensures Unmoved(e, x, DayStep(e, y, SecondsKept(e, x)), 4) && x <= y <= DayStep(e, y, SecondsKept(e, x))
  {
    AtMonth(e, x, DayStep(e, y, SecondsKept(e, x)));
    SecondsSettle(e, x);
  }

  lemma DayHitStays(e: Expr, x: int, y: int)
    requires NonEmpty(e) && Unmoved(e, x, y, 3)
    ensures DayHit(e, y / 86400) ==> DayStays(e, y)
    ensures DayStays(e, y) <==> Mday(NextDay(e, y / 86400, DAY_LIMIT)) == Mday(y / 86400)
  {
  }

  /** The search is at the month, or the recursive call continues this one. */
  ghost predicate DayGoesOn(e: Expr, x: int, dot: int, z: int, stays: bool, inner: bool)
    requires NonEmpty(e)
  {
    if stays then Reached(e, x, dot, z, 4, inner) && x <= z
    else
      && !inner && DoNext(e, x, dot) == DoNext(e, z, dot) && x < z && EndsWell(e, z, dot)
      && MonthsLeft(z, dot) <= MonthsLeft(x, dot) && MinutesToGo(e, z) < MinutesToGo(e, x)
  }

  lemma MatchStays(e: Expr, y: int, sec: bool)
    requires Match(e, y)
    ensures NextDay(e, y / 86400, DAY_LIMIT) == y / 86400 && DayStep(e, y, sec) == y
  {
    assert y / 86400 == y / 60 / 1440;
  }

  lemma DayDecides(e: Expr, x: int, dot: int, y: int, inner: bool)
    requires NonEmpty(e) && Covered(e, x, dot) && Reached(e, x, dot, y, 3, inner) && x <= y
    ensures var stays := Mday(NextDay(e, y / 86400, DAY_LIMIT)) == Mday(y / 86400);
            DayGoesOn(e, x, dot, DayStep(e, y, SecondsKept(e, x)), stays, inner)
  {
    if inner {
      MatchStays(e, y, SecondsKept(e, x));
    } else {
      DayHitStays(e, x, y);
      if DayStays(e, y) {
        DaySlips(e, x, y);
      } else {
        Misses(e, x, dot, y, 3);
      }
    }
  }

  /** The month matches, or the search goes on from where the month moves to. */
  lemma MonthDecides(e: Expr, x: int, dot: int, y: int, inner: bool)
    requires NonEmpty(e) && Covered(e, x, dot) && Reached(e, x, dot, y, 4, inner)
    ensures FieldHit(e, y, 4) ==> DoNext(e, x, dot) == Found(y)
    ensures !FieldHit(e, y, 4) ==>
              var z := MissStep(e, x, y, 4);
              && !inner
              && if TooLate(z, dot) then DoNext(e, x, dot) == Failed
                 else DoNext(e, x, dot) == DoNext(e, z, dot) && x < z && MonthsLeft(z, dot) < MonthsLeft(x, dot)
                      && EndsWell(e, z, dot)
  {
    if inner {
      MatchHits(e, y, 4);
    } else {
      NothingMissed(e, x, y);
      if !FieldHit(e, y, 4) {
        if Coincides(e, x) {
          CoincidencePass(e, x);
          assert false;
        }
        MonthMovedAdvances(e, x);
        if !TooLate(MissStep(e, x, y, 4), dot) {
          MonthMovedDecreases(e, x, dot);
        }
      }
    }
  }

  lemma TmValues(cal: Tm)
    requires cal.Normal()
    ensures cal.sec == ValueAt(cal.now, Seconds) && cal.min == ValueAt(cal.now, Minutes)
    ensures cal.hour == ValueAt(cal.now, Hours) && cal.mon == ValueAt(cal.now, Months)
    ensures cal.year == YearOf(cal.now)
    ensures cal.mday == Mday(cal.now / 86400)
  {
  }

  /** push_to_fields_arr */
  function Push(resets: seq<Field>, f: Field): seq<Field> {
    if f in resets then resets else resets + [f]
  }

  /** The seconds, searched first and with nothing to reset; they are reset later if they matched. */
  method SearchSeconds(e: Expr, cal: Tm) returns (resets: seq<Field>)
    requires NonEmpty(e) && cal.Normal() && cal.now >= cal.zone
    modifies cal
    ensures cal.Normal() && cal.now >= old(cal.now)
    ensures cal.now == NextIdx(e.seconds, 60, old(cal.now))
    ensures resets == Resets(Minutes, SecondsKept(e, old(cal.now)))
  {
    ghost var x := cal.now;
    TmValues(cal);
    LevelForward(x, e.seconds, Seconds, false);
    IndexOfHit(e.seconds, 60, x);
    resets := [];
    var second := cal.sec;
    var update, err := FindNext(e.seconds, Seconds, second, cal, resets, false);
    if second == update {
      resets := Push(resets, Second);
    }
  }

  /** The minutes or the hours, and the recursive call when they move. */
  method SearchClock(e: Expr, cal: Tm, dot: int, resets: seq<Field>, n: int, ghost x: int, ghost inner: bool)
    returns (pushed: seq<Field>, res: int, ghost inner': bool)
    requires NonEmpty(e) && Covered(e, x, dot) && (n == 1 || n == 2)
    requires cal.Normal() && x <= cal.now && cal.zone <= x
    requires Reached(e, x, dot, cal.now, n, inner)
    requires inner || resets == Resets(if n == 1 then Minutes else Hours, SecondsKept(e, x))
    modifies cal
    ensures cal.Normal()
    ensures res != 0 ==> DoNext(e, x, dot) == Failed
    ensures res == 0 ==> Reached(e, x, dot, cal.now, n + 1, inner') && x <= cal.now
    ensures res == 0 && !inner' ==> !inner && pushed == resets + [if n == 1 then Minute else Hour]
    decreases MonthsLeft(x, dot), MinutesToGo(e, x), 0
  {
    ghost var y, sec := cal.now, SecondsKept(e, x);
    pushed, res, inner' := resets, 0, inner;
    TmValues(cal);
    if inner {
      MatchHits(e, y, n);
    }
    var v, bits, value := if n == 1 then Minutes else Hours, if n == 1 then e.minutes else e.hours,
      if n == 1 then cal.min else cal.hour;
    assert FieldHit(e, y, n) <==> Hit(bits, value);
    var update, err := FindNext(bits, v, value, cal, resets, sec);
    if value == update {
      pushed := Push(resets, FieldOf(v));
    } else {
      Misses(e, x, dot, y, n);
      res := DoNextInPlace(e, cal, dot);
      DoNextAdvances(e, x, dot);
      inner' := true;
    }
  }

  lemma ResetsGrow(sec: bool)
    ensures Resets(Minutes, sec) + [Minute] == Resets(Hours, sec)
    ensures Resets(Hours, sec) + [Hour] + [DayOfMonth] == Resets(Months, sec)
  {
  }

  method DoNextInPlace(e: Expr, cal: Tm, dot: int) returns (res: int)
    requires NonEmpty(e) && Covered(e, cal.now, dot) && cal.Normal() && cal.now >= cal.zone
    modifies cal
    ensures cal.Normal()
    ensures Ended(DoNext(e, old(cal.now), dot), res, cal.now)
    decreases MonthsLeft(cal.now, dot), MinutesToGo(e, cal.now), 1
  {
    ghost var x, sec := cal.now, SecondsKept(e, cal.now);
    ResetsGrow(sec);
    var resets := SearchSeconds(e, cal);
    ghost var inner := false;
    resets, res, inner := SearchClock(e, cal, dot, resets, 1, x, inner);
    if res != 0 {
      return;
    }
    resets, res, inner := SearchClock(e, cal, dot, resets, 2, x, inner);
    if res != 0 {
      return;
    }
    resets, res, inner := SearchDay(e, cal, dot, resets, x, inner);
    if res != 0 {
      return;
    }
    res := SearchMonth(e, cal, dot, resets, x, inner);
  }

  method SearchDay(e: Expr, cal: Tm, dot: int, resets: seq<Field>, ghost x: int, ghost inner: bool)
    returns (pushed: seq<Field>, res: int, ghost inner': bool)
    requires NonEmpty(e) && Covered(e, x, dot)
    requires cal.Normal() && x <= cal.now && cal.zone <= x
    requires Reached(e, x, dot, cal.now, 3, inner)
    requires inner || resets == Resets(Hours, SecondsKept(e, x)) + [Hour]
    modifies cal
    ensures cal.Normal()
    ensures res != 0 ==> DoNext(e, x, dot) == Failed
    ensures res == 0 ==> Reached(e, x, dot, cal.now, 4, inner') && x <= cal.now
    ensures res == 0 && !inner' ==> pushed == resets + [DayOfMonth] && !inner
    decreases MonthsLeft(x, dot), MinutesToGo(e, x), 0
  {
    ghost var y, sec := cal.now, SecondsKept(e, x);
    pushed, res, inner' := resets, 0, inner;
    TmValues(cal);
    if inner {
      MatchHits(e, y, 3);
    }
    var day := cal.mday;
    var update, err := FindNextDay(cal, e, resets, sec);
    DayDecides(e, x, dot, y, inner);
    if day == update {
      pushed := Push(resets, DayOfMonth);
    } else {
      res := DoNextInPlace(e, cal, dot);
      DoNextAdvances(e, x, dot);
      inner' := true;
    }
  }

  method SearchMonth(e: Expr, cal: Tm, dot: int, resets: seq<Field>, ghost x: int, ghost inner: bool)
    returns (res: int)
    requires NonEmpty(e) && Covered(e, x, dot)
    requires cal.Normal() && x <= cal.now && cal.zone <= x
    requires Reached(e, x, dot, cal.now, 4, inner)
    requires inner || resets == Resets(Months, SecondsKept(e, x))
    modifies cal
    ensures cal.Normal()
    ensures Ended(DoNext(e, x, dot), res, cal.now)
    decreases MonthsLeft(x, dot), MinutesToGo(e, x), 0
  {
    ghost var y, sec := cal.now, SecondsKept(e, x);
    res := 0;
    TmValues(cal);
    MonthDecides(e, x, dot, y, inner);
    var month := cal.mon;
    var update, err := FindNext(e.months, Months, month, cal, resets, sec);
    if month != update {
      TmValues(cal);
      var years := cal.year - dot;
      if years > YEAR_LIMIT || years < 0 {
        return -1;
      }
      res := DoNextInPlace(e, cal, dot);
    }
  }

  lemma AddSecond(x: int)
    ensures AddAt(x, Second, 1) == x + 1
  {
    var d, h, m, s := SplitInstant(x);
    AddParts(d, h, m, s);
  }

  /** do_next, with the year of the calendar as the year the search began in. */
  method SearchFromHere(e: Expr, cal: Tm) returns (res: int)
    requires NonEmpty(e) && Covered(e, cal.now, YearOf(cal.now)) && cal.Normal() && cal.now >= cal.zone
    modifies cal
    ensures cal.Normal()
    ensures Ended(DoNext(e, old(cal.now), YearOf(old(cal.now))), res, cal.now)
  {
    TmValues(cal);
    res := DoNextInPlace(e, cal, cal.year);
  }

  /** The rest of cron_next, when the search stayed on its start: one second on, and again. */
  method SearchFromNextSecond(e: Expr, cal: Tm) returns (res: int)
    requires NonEmpty(e) && Covered(e, cal.now + 1, YearOf(cal.now + 1)) && cal.Normal() && cal.now >= cal.zone
    modifies cal
    ensures cal.Normal()
    ensures Ended(DoNext(e, old(cal.now) + 1, YearOf(old(cal.now) + 1)), res, cal.now)
  {
    ghost var x := cal.now;
    AddSecond(x);
    var err := AddToField(cal, Second, 1);
    assert cal.now == x + 1;
    if err {
      return 1;
    }
    res := SearchFromHere(e, cal);
  }

  /** The first search of cron_next from x has ended at y: how it goes on. */
  ghost predicate Searched(e: Expr, x: int, y: int)
    requires NonEmpty(e)
  {
    && (y == x ==> CronNext(e, x) == DoNext(e, y + 1, YearOf(y + 1)) && Covered(e, y + 1, YearOf(y + 1)))
    && (y != x ==> CronNext(e, x) == Found(y))
  }

  lemma CronNextFrom(e: Expr, x: int, res: int, now: int)
    requires NonEmpty(e) && NextCovered(e, x) && Ended(DoNext(e, x, YearOf(x)), res, now)
    ensures if res != 0 then CronNext(e, x) == Failed else Searched(e, x, now)
  {
  }

  lemma Returns(outcome: Outcome, res: int, now: int, zone: int)
    requires Ended(outcome, res, now)
    ensures Returned(outcome, if res != 0 then INVALID_INSTANT else now - zone, zone)
  {
  }

  /** The end of cron_next, when the search stayed on its start. */
  method NextFromNextSecond(e: Expr, cal: Tm) returns (time: int)
    requires NonEmpty(e) && Covered(e, cal.now + 1, YearOf(cal.now + 1)) && cal.Normal() && cal.now >= cal.zone
    modifies cal
    ensures Returned(DoNext(e, old(cal.now) + 1, YearOf(old(cal.now) + 1)), time, cal.zone)
  {
    ghost var outcome := DoNext(e, cal.now + 1, YearOf(cal.now + 1));
    var res := SearchFromNextSecond(e, cal);
    Returns(outcome, res, cal.now, cal.zone);
    if res != 0 {
      return INVALID_INSTANT;
    }
    time := cal.MkTime();
  }

  /** cron_next after its first search: the result, unless the search stayed on its start. */
  method NextFromSearched(e: Expr, cal: Tm, original: int, ghost x: int) returns (time: int)
    requires NonEmpty(e) && cal.Normal() && cal.now >= cal.zone
    requires Searched(e, x, cal.now) && original == x - cal.zone
    modifies cal
    ensures Returned(CronNext(e, x), time, cal.zone)
  {
    ghost var y := cal.now;
    var calculated := cal.MkTime();
    assert cal.now == y && calculated == y - cal.zone;
    if calculated == INVALID_INSTANT {
      return INVALID_INSTANT;
    }
    if calculated == original {
      time := NextFromNextSecond(e, cal);
    } else {
      time := cal.MkTime();
    }
  }

  /** cron_next, from a calendar that is not before 1970. */
  method NextFrom(e: Expr, cal: Tm, ghost x: int) returns (time: int)
    requires NonEmpty(e) && NextCovered(e, x) && cal.Normal() && x == cal.now >= cal.zone
    modifies cal
    ensures Returned(CronNext(e, x), time, cal.zone)
  {
    var original := cal.MkTime();
    assert original == x - cal.zone;
    if original == INVALID_INSTANT {
      return INVALID_INSTANT;
    }
    var res := SearchFromHere(e, cal);
    CronNextFrom(e, x, res, cal.now);
    DoNextAdvances(e, x, YearOf(x));
    if res != 0 {
      return INVALID_INSTANT;
    }
    time := NextFromSearched(e, cal, original, x);
  }

  /** cron_next, for a time that is not before 1970; x is the instant of the local time. */
  method CronNextTime(e: Expr, date: int, zone: int, ghost x: int) returns (time: int)
    requires NonEmpty(e) && x == date + zone && NextCovered(e, x) && date >= 0
    ensures Returned(CronNext(e, x), time, zone)
  {
    var cal := new Tm(zone, date);
    time := NextFrom(e, cal, x);
  }
}
