/**
  cron_prev as ccronexpr.cpp performs it (lines 950-1214): on a struct tm changed in place, with mktime
  after every change. Each method ends where the functions of CronPrev say.
 */
module CronBack {
  import opened Calendar
  import opened CronSearch
  import opened CronFields
  import opened CronCorrect
  import opened CronPrev
  import opened CronEngine

  // ----- The field operations -----

  /** The fields that are reset to their maximum. */
  predicate Clock(f: Field) {
    f.Second? || f.Minute? || f.Hour?
  }

  function ResetMaxAt(x: int, f: Field): int {
    SetAt(x, f, if f.Hour? then 23 else 59)
  }

  function ResetAllMaxAt(x: int, fs: seq<Field>): int
    decreases |fs|
  {
    if fs == [] then x else ResetAllMaxAt(ResetMaxAt(x, fs[0]), fs[1..])
  }

  /** The roll-under: one less of the next field, and this field to its maximum. */
  function RolledBackAt(x: int, v: Level): int {
    ResetMaxAt(AddAt(x, NextField(v), -1), FieldOf(v))
  }

  /** Where find_prev takes the calendar. */
  function FindPrevAt(x: int, bits: Bits, v: Level, lower: seq<Field>): int {
    var value := ValueAt(x, v);
    var n := PrevSet(bits, value, 0);
    if n == value then x
    else if n >= 0 then ResetAllMaxAt(SetAt(x, FieldOf(v), n), lower)
    else ResetAllMaxAt(SetAt(RolledBackAt(x, v), FieldOf(v), PrevSet(bits, MaxOf(v) - 1, value)), lower)
  }

  /** The closed form, for all levels but the months. */
  function LevelBack(x: int, bits: Bits, v: Level, sec: bool): int {
    var t := if sec then 59 else x % 60;
    match v
    case Seconds => PrevIdx(bits, 60, x)
    case Minutes => var j := PrevIdx(bits, 60, x / 60); if j == x / 60 then x else j * 60 + t
    case Hours => var g := PrevIdx(bits, 24, x / 3600); if g == x / 3600 then x else g * 3600 + 3540 + t
    case Months => x
  }

  lemma ResetMaxParts(d: int, h: int, m: int, s: int)
    requires 0 <= h < 24 && 0 <= m < 60 && 0 <= s < 60
    ensures ResetMaxAt(At(d, h, m, s), Second) == At(d, h, m, 59)
    ensures ResetMaxAt(At(d, h, m, s), Minute) == At(d, h, 59, s)
    ensures ResetMaxAt(At(d, h, m, s), Hour) == At(d, 23, m, s)
  {
    SetParts(d, h, m, s, 59);
    SetParts(d, h, m, s, 23);
  }

  lemma ResetMaxGoesUp(x: int, f: Field)
    requires Clock(f)
    ensures ResetMaxAt(x, f) >= x
  {
    var d, h, m, s := SplitInstant(x);
    ResetMaxParts(d, h, m, s);
  }

  lemma ResetMaxOne(x: int, f: Field)
    ensures ResetAllMaxAt(x, [f]) == ResetMaxAt(x, f)
  {
    assert ResetAllMaxAt(ResetMaxAt(x, f), [f][1..]) == ResetMaxAt(x, f);
  }

  lemma ResetMaxTwo(x: int, f: Field, g: Field)
    ensures ResetAllMaxAt(x, [f, g]) == ResetMaxAt(ResetMaxAt(x, f), g)
  {
    assert [f, g][1..] == [g];
    ResetMaxOne(ResetMaxAt(x, f), g);
  }

  /** Resetting what precedes a level leaves the end of the minute, hour or day, and the seconds unless reset. */
  lemma ResetMaxLevels(d: int, h: int, m: int, s: int, sec: bool)
    requires 0 <= h < 24 && 0 <= m < 60 && 0 <= s < 60
    ensures var t := if sec then 59 else s;
            && ResetAllMaxAt(At(d, h, m, s), Resets(Minutes, sec)) == At(d, h, m, t)
            && ResetAllMaxAt(At(d, h, m, s), Resets(Hours, sec)) == At(d, h, 59, t)
            && ResetAllMaxAt(At(d, h, m, s), Resets(Hours, sec) + [Hour]) == At(d, 23, 59, t)
  {
    var x := At(d, h, m, s);
    var t := if sec then 59 else s;
    ResetMaxParts(d, h, m, s);
    ResetMaxParts(d, h, m, t);
    ResetMaxParts(d, h, 59, t);
    ResetMaxOne(x, Second);
    ResetMaxOne(At(d, h, m, t), Minute);
    ResetMaxTwo(At(d, h, m, t), Minute, Hour);
    if sec {
      assert Resets(Hours, sec)[1..] == [Minute];
      assert (Resets(Hours, sec) + [Hour])[1..] == [Minute, Hour];
    } else {
      assert Resets(Hours, sec) == [Minute];
      assert Resets(Hours, sec) + [Hour] == [Minute, Hour];
    }
  }

  lemma LessClock(d: int, h: int, m: int, s: int)
    requires 0 <= h < 24 && 0 <= m < 60 && 0 <= s < 60
    ensures AddAt(At(d, h, m, s), Second, -1) == At(d, h, m, s - 1)
    ensures AddAt(At(d, h, m, s), Minute, -1) == At(d, h, m - 1, s)
    ensures AddAt(At(d, h, m, s), Hour, -1) == At(d, h - 1, m, s)
  {
    Parts(d, h, m, s);
    FromParts(MonthOf(d), Mday(d), h, m, s - 1);
    FromParts(MonthOf(d), Mday(d), h, m - 1, s);
    FromParts(MonthOf(d), Mday(d), h - 1, m, s);
  }

  lemma LessDay(d: int, h: int, m: int, s: int)
    requires 0 <= h < 24 && 0 <= m < 60 && 0 <= s < 60
    ensures AddAt(At(d, h, m, s), DayOfWeek, -1) == At(d - 1, h, m, s)
    ensures AddAt(At(d, h, m, s), DayOfMonth, -1) == At(d - 1, h, m, s)
  {
    Parts(d, h, m, s);
    FromParts(MonthOf(d), Mday(d) - 1, h, m, s);
  }

  // ----- The closed form, level by level -----

  /** One minute or hour less, in range again. */
  function PrevMinuteParts(d: int, h: int, m: int): (int, int, int) {
    if m > 0 then (d, h, m - 1) else if h > 0 then (d, h - 1, 59) else (d - 1, 23, 59)
  }

  function PrevHourParts(d: int, h: int): (int, int) {
    if h > 0 then (d, h - 1) else (d - 1, 23)
  }

  lemma SecondsRollBack(d: int, h: int, m: int, s: int, w: int)
    requires 0 <= h < 24 && 0 <= m < 60 && 0 <= s < 60 && 0 <= w < 60
    ensures var x := At(d, h, m, s);
            && AddAt(x, Minute, -1) == x - 60
            && RolledBackAt(x, Seconds) == x - s - 1
            && SetAt(RolledBackAt(x, Seconds), Second, w) == x - s - 60 + w
  {
    LessClock(d, h, m, s);
    var (d', h', m') := PrevMinuteParts(d, h, m);
    assert At(d, h, m - 1, s) == At(d', h', m', s);
    ResetMaxParts(d', h', m', s);
    SetParts(d', h', m', 59, w);
  }

  lemma MinutesRollBack(d: int, h: int, m: int, s: int, w: int)
    requires 0 <= h < 24 && 0 <= m < 60 && 0 <= s < 60 && 0 <= w < 60
    ensures var x := At(d, h, m, s);
            var (d', h') := PrevHourParts(d, h);
            && AddAt(x, Hour, -1) == x - 3600
            && RolledBackAt(x, Minutes) == x - m * 60 - 60
            && SetAt(RolledBackAt(x, Minutes), Minute, w) == At(d', h', w, s)
  {
    LessClock(d, h, m, s);
    var (d', h') := PrevHourParts(d, h);
    assert At(d, h - 1, m, s) == At(d', h', m, s);
    ResetMaxParts(d', h', m, s);
    SetParts(d', h', 59, s, w);
  }

  lemma HoursRollBack(d: int, h: int, m: int, s: int, w: int)
    requires 0 <= h < 24 && 0 <= m < 60 && 0 <= s < 60 && 0 <= w < 24
    ensures var x := At(d, h, m, s);
            && AddAt(x, DayOfWeek, -1) == x - 86400
            && RolledBackAt(x, Hours) == x - h * 3600 - 3600
            && SetAt(RolledBackAt(x, Hours), Hour, w) == At(d - 1, w, m, s)
  {
    LessDay(d, h, m, s);
    ResetMaxParts(d - 1, h, m, s);
    SetParts(d - 1, 23, m, s, w);
  }

  /** No calendar on the way from x, with its value in this field, is more than a day before the end y. */
  ghost predicate NearEnd(x: int, bits: Bits, v: Level, value: int, y: int) {
    var n, w := PrevSet(bits, value, 0), PrevSet(bits, MaxOf(v) - 1, value);
    && (0 <= n < value ==> y - 86400 <= SetAt(x, FieldOf(v), n))
    && (n < 0 ==>
          && value < w && y - 86400 <= AddAt(x, NextField(v), -1) && y - 86400 <= RolledBackAt(x, v)
          && y - 86400 <= SetAt(RolledBackAt(x, v), FieldOf(v), w))
  }

  /** What find_prev needs of a level: its closed form, through calendars near its end. */
  ghost predicate Backward(x: int, bits: Bits, v: Level, sec: bool) {
    && FindPrevAt(x, bits, v, Resets(v, sec)) == LevelBack(x, bits, v, sec)
    && NearEnd(x, bits, v, ValueAt(x, v), LevelBack(x, bits, v, sec))
  }

  lemma PrevIdxAt(bits: Bits, n: int, i: int, r: int)
    requires Cycle(n) && r == Residue(n, i)
    ensures PrevIdx(bits, n, i) == var v := PrevSet(bits, r, 0);
                                   if v >= 0 then i - r + v else i - r - n + PrevSet(bits, n - 1, r)
  {
  }

  lemma SomeAbove(bits: Bits, n: int, r: int)
    requires Any(bits, 0, n) && 0 <= r < n && PrevSet(bits, r, 0) < 0
    ensures r < PrevSet(bits, n - 1, r) < n
  {
    var f :| 0 <= f < n && Hit(bits, f);
  }

  lemma SecondsBackward(d: int, h: int, m: int, s: int, bits: Bits)
    requires 0 <= h < 24 && 0 <= m < 60 && 0 <= s < 60 && Any(bits, 0, 60)
    ensures Backward(At(d, h, m, s), bits, Seconds, false)
  {
    Indices(d, h, m, s);
    PrevIdxAt(bits, 60, At(d, h, m, s), s);
    var n, w := PrevSet(bits, s, 0), PrevSet(bits, 59, s);
    if n >= 0 {
      SetParts(d, h, m, s, n);
    } else {
      SomeAbove(bits, 60, s);
      SecondsRollBack(d, h, m, s, w);
    }
  }

  /** Where the search of the minutes goes, in parts. */
  function MinuteGoesBack(d: int, h: int, m: int, s: int, bits: Bits, sec: bool): int {
    var t := if sec then 59 else s;
    var n := PrevSet(bits, m, 0);
    if n == m then At(d, h, m, s)
    else if n >= 0 then At(d, h, n, t)
    else var (d', h') := PrevHourParts(d, h); At(d', h', PrevSet(bits, 59, m), t)
  }

  lemma MinuteFindsBack(d: int, h: int, m: int, s: int, bits: Bits, sec: bool)
    requires 0 <= h < 24 && 0 <= m < 60 && 0 <= s < 60 && Any(bits, 0, 60)
    ensures FindPrevAt(At(d, h, m, s), bits, Minutes, Resets(Minutes, sec)) == MinuteGoesBack(d, h, m, s, bits, sec)
  {
    Indices(d, h, m, s);
    var n, w := PrevSet(bits, m, 0), PrevSet(bits, 59, m);
    if n >= 0 {
      SetParts(d, h, m, s, n);
      ResetMaxLevels(d, h, n, s, sec);
    } else {
      SomeAbove(bits, 60, m);
      MinutesRollBack(d, h, m, s, w);
      var (d', h') := PrevHourParts(d, h);
      ResetMaxLevels(d', h', w, s, sec);
    }
  }

  lemma MinuteStepsBack(d: int, h: int, m: int, s: int, bits: Bits, sec: bool)
    requires 0 <= h < 24 && 0 <= m < 60 && 0 <= s < 60
    ensures LevelBack(At(d, h, m, s), bits, Minutes, sec) == MinuteGoesBack(d, h, m, s, bits, sec)
  {
    Indices(d, h, m, s);
    PrevIdxAt(bits, 60, d * 1440 + h * 60 + m, m);
  }

  lemma MinuteStaysNear(d: int, h: int, m: int, s: int, bits: Bits, sec: bool)
    requires 0 <= h < 24 && 0 <= m < 60 && 0 <= s < 60 && Any(bits, 0, 60)
    ensures NearEnd(At(d, h, m, s), bits, Minutes, m, MinuteGoesBack(d, h, m, s, bits, sec))
  {
    var n, w := PrevSet(bits, m, 0), PrevSet(bits, 59, m);
    if n >= 0 {
      SetParts(d, h, m, s, n);
    } else {
      SomeAbove(bits, 60, m);
      MinutesRollBack(d, h, m, s, w);
    }
  }

  lemma MinutesBackward(d: int, h: int, m: int, s: int, bits: Bits, sec: bool)
    requires 0 <= h < 24 && 0 <= m < 60 && 0 <= s < 60 && Any(bits, 0, 60)
    ensures Backward(At(d, h, m, s), bits, Minutes, sec)
  {
    MinuteFindsBack(d, h, m, s, bits, sec);
    MinuteStepsBack(d, h, m, s, bits, sec);
    MinuteStaysNear(d, h, m, s, bits, sec);
    Indices(d, h, m, s);
  }

  /** Where the search of the hours goes, in parts. */
  function HourGoesBack(d: int, h: int, m: int, s: int, bits: Bits, sec: bool): int {
    var t := if sec then 59 else s;
    var n := PrevSet(bits, h, 0);
    if n == h then At(d, h, m, s)
    else if n >= 0 then At(d, n, 59, t)
    else At(d - 1, PrevSet(bits, 23, h), 59, t)
  }

  lemma HourFindsBack(d: int, h: int, m: int, s: int, bits: Bits, sec: bool)
    requires 0 <= h < 24 && 0 <= m < 60 && 0 <= s < 60 && Any(bits, 0, 24)
    ensures FindPrevAt(At(d, h, m, s), bits, Hours, Resets(Hours, sec)) == HourGoesBack(d, h, m, s, bits, sec)
  {
    Indices(d, h, m, s);
    var n, w := PrevSet(bits, h, 0), PrevSet(bits, 23, h);
    if n >= 0 {
      SetParts(d, h, m, s, n);
      ResetMaxLevels(d, n, m, s, sec);
    } else {
      SomeAbove(bits, 24, h);
      HoursRollBack(d, h, m, s, w);
      ResetMaxLevels(d - 1, w, m, s, sec);
    }
  }

  lemma HourStepsBack(d: int, h: int, m: int, s: int, bits: Bits, sec: bool)
    requires 0 <= h < 24 && 0 <= m < 60 && 0 <= s < 60
    ensures LevelBack(At(d, h, m, s), bits, Hours, sec) == HourGoesBack(d, h, m, s, bits, sec)
  {
    Indices(d, h, m, s);
    PrevIdxAt(bits, 24, d * 24 + h, h);
  }

  lemma HourStaysNear(d: int, h: int, m: int, s: int, bits: Bits, sec: bool)
    requires 0 <= h < 24 && 0 <= m < 60 && 0 <= s < 60 && Any(bits, 0, 24)
    ensures NearEnd(At(d, h, m, s), bits, Hours, h, HourGoesBack(d, h, m, s, bits, sec))
  {
    var n, w := PrevSet(bits, h, 0), PrevSet(bits, 23, h);
    if n >= 0 {
      SetParts(d, h, m, s, n);
    } else {
      SomeAbove(bits, 24, h);
      HoursRollBack(d, h, m, s, w);
    }
  }

  lemma HoursBackward(d: int, h: int, m: int, s: int, bits: Bits, sec: bool)
    requires 0 <= h < 24 && 0 <= m < 60 && 0 <= s < 60 && Any(bits, 0, 24)
    ensures Backward(At(d, h, m, s), bits, Hours, sec)
  {
    HourFindsBack(d, h, m, s, bits, sec);
    HourStepsBack(d, h, m, s, bits, sec);
    HourStaysNear(d, h, m, s, bits, sec);
    Indices(d, h, m, s);
  }

  /** Every search that do_prev makes for a clock field has the closed form. */
  lemma LevelBackward(x: int, bits: Bits, v: Level, sec: bool)
    requires !v.Months? && Any(bits, 0, MaxOf(v)) && (v.Seconds? ==> !sec)
    ensures Backward(x, bits, v, sec)
  {
    var d, h, m, s := SplitInstant(x);
    match v
    case Seconds => SecondsBackward(d, h, m, s, bits);
    case Minutes => MinutesBackward(d, h, m, s, bits, sec);
    case Hours => HoursBackward(d, h, m, s, bits, sec);
  }

  // ----- find_prev and find_prev_day -----

  method PrevSetBit(bits: Bits, from: int, to: int) returns (next: int, notfound: bool)
    requires 0 <= to && -1 <= from
    ensures notfound <==> PrevSet(bits, from, to) == -1
    ensures next == if notfound then 0 else PrevSet(bits, from, to)
  {
    var i := from;
    while i >= to
      invariant i >= -1 && PrevSet(bits, from, to) == PrevSet(bits, i, to)
    {
      if Hit(bits, i) {
        return i, false;
      }
      i := i - 1;
    }
    return 0, true;
  }

  method ResetMax(cal: Tm, field: Field) returns (err: bool)
    requires cal.Normal() && Clock(field)
    modifies cal
    ensures cal.Normal() && cal.now == ResetMaxAt(old(cal.now), field)
    ensures err <==> cal.now - cal.zone == INVALID_INSTANT
  {
    err := SetField(cal, field, if field.Hour? then 23 else 59);
  }

  method ResetAllMax(cal: Tm, fields: seq<Field>) returns (err: bool)
    requires cal.Normal() && cal.now >= cal.zone && forall i :: 0 <= i < |fields| ==> Clock(fields[i])
    modifies cal
    ensures cal.Normal() && cal.now == ResetAllMaxAt(old(cal.now), fields) && !err
  {
    for i := 0 to |fields|
      invariant cal.Normal() && cal.now >= cal.zone
      invariant ResetAllMaxAt(cal.now, fields[i..]) == ResetAllMaxAt(old(cal.now), fields)
    {
      assert fields[i..][0] == fields[i] && fields[i..][1..] == fields[i + 1..];
      ResetMaxGoesUp(cal.now, fields[i]);
      err := ResetMax(cal, fields[i]);
      if err {
        return;
      }
    }
    err := false;
  }

  lemma ResetsAreClock(v: Level, sec: bool)
    requires !v.Months?
    ensures forall i :: 0 <= i < |Resets(v, sec)| ==> Clock(Resets(v, sec)[i])
    ensures forall i :: 0 <= i < |Resets(Hours, sec) + [Hour]| ==> Clock((Resets(Hours, sec) + [Hour])[i])
  {
  }

  /** Where find_prev takes the calendar when the field does not match, and what it sees on the way. */
  lemma PrevMoves(x: int, bits: Bits, v: Level, sec: bool)
    requires !v.Months? && Any(bits, 0, MaxOf(v)) && (v.Seconds? ==> !sec) && !Hit(bits, ValueAt(x, v))
    ensures var value := ValueAt(x, v);
            var n, w, y := PrevSet(bits, value, 0), PrevSet(bits, MaxOf(v) - 1, value), LevelBack(x, bits, v, sec);
            && n != value && NearEnd(x, bits, v, value, y)
            && (n >= 0 ==> ResetAllMaxAt(SetAt(x, FieldOf(v), n), Resets(v, sec)) == y)
            && (n < 0 ==> ResetAllMaxAt(SetAt(RolledBackAt(x, v), FieldOf(v), w), Resets(v, sec)) == y)
  {
    LevelBackward(x, bits, v, sec);
  }

  /** Sets the field and resets the lower ones to their maximum. */
  method SetAndResetMax(cal: Tm, field: Field, next: int, lower: seq<Field>) returns (err: bool)
    requires cal.Normal() && SetAt(cal.now, field, next) >= cal.zone
    requires forall i :: 0 <= i < |lower| ==> Clock(lower[i])
    modifies cal
    ensures cal.Normal() && !err
    ensures cal.now == ResetAllMaxAt(SetAt(old(cal.now), field, next), lower)
  {
    err := SetField(cal, field, next);
    if err {
      return;
    }
    err := ResetAllMax(cal, lower);
  }

  method FindPrev(bits: Bits, v: Level, value: int, cal: Tm, lower: seq<Field>, ghost sec: bool)
    returns (next: int, err: bool)
    requires cal.Normal() && value == ValueAt(cal.now, v)
    requires Any(bits, 0, MaxOf(v)) && (v.Seconds? ==> !sec)
    requires Hit(bits, value)
            || (!v.Months? && lower == Resets(v, sec) && LevelBack(cal.now, bits, v, sec) >= cal.zone + 86400)
    modifies cal
    ensures cal.Normal() && !err && (next == value <==> Hit(bits, value))
    ensures cal.now == if Hit(bits, value) then old(cal.now) else LevelBack(old(cal.now), bits, v, sec)
  {
    ghost var x := cal.now;
    if !Hit(bits, value) {
      PrevMoves(x, bits, v, sec);
      ResetsAreClock(v, sec);
    }
    var notfound;
    next, notfound := PrevSetBit(bits, value, 0);
    if notfound {
      err := AddToField(cal, NextField(v), -1);
      if err {
        return;
      }
      err := ResetMax(cal, FieldOf(v));
      if err {
        return;
      }
      next, notfound := PrevSetBit(bits, MaxOf(v) - 1, value);
    }
    err := false;
    if notfound || next != value {
      err := SetAndResetMax(cal, FieldOf(v), next, lower);
    }
  }

  /** Where find_prev_day takes the calendar. */
  function DayStepBack(e: Expr, x: int, sec: bool): int {
    var c := PrevDay(e, x / 86400, DAY_LIMIT);
    if c == x / 86400 then x else c * 86400 + 86340 + (if sec then 59 else x % 60)
  }

  /** The calendar after the day search has moved `count` days back from x. */
  function DaysBack(x: int, sec: bool, count: int): int {
    if count == 0 then x else (x / 86400 - count) * 86400 + 86340 + (if sec then 59 else x % 60)
  }

  lemma DaysBackIs(x: int, sec: bool, count: int)
    requires count >= 0
    ensures DaysBack(x, sec, count) / 86400 == x / 86400 - count
    ensures count > 0 ==> DaysBack(x, sec, count) % 60 == if sec then 59 else x % 60
  {
    ClockOf(x / 86400 - count, 23, 59, if sec then 59 else x % 60);
  }

  lemma LessDayParts(d: int, h: int, m: int, s: int, sec: bool)
    requires 0 <= h < 24 && 0 <= m < 60 && 0 <= s < 60
    ensures AddAt(At(d, h, m, s), DayOfMonth, -1) == At(d - 1, h, m, s)
    ensures ResetAllMaxAt(At(d - 1, h, m, s), Resets(Hours, sec) + [Hour])
            == (d - 1) * 86400 + 86340 + (if sec then 59 else s)
  {
    LessDay(d, h, m, s);
    ResetMaxLevels(d - 1, h, m, s, sec);
  }

  lemma LessOneDay(x: int, d: int, s: int, sec: bool)
    requires d == x / 86400 && s == x % 60
    ensures AddAt(x, DayOfMonth, -1) == x - 86400
    ensures ResetAllMaxAt(x - 86400, Resets(Hours, sec) + [Hour]) == (d - 1) * 86400 + 86340 + (if sec then 59 else s)
  {
    var h, m := SplitDay(x, d, s);
    LessDayParts(d, h, m, s, sec);
    assert At(d - 1, h, m, s) == x - 86400;
  }

  lemma NextDaysBack(x: int, sec: bool, count: int)
    requires count >= 0
    ensures var y := DaysBack(x, sec, count);
            && AddAt(y, DayOfMonth, -1) == y - 86400
            && ResetAllMaxAt(y - 86400, Resets(Hours, sec) + [Hour]) == DaysBack(x, sec, count + 1)
  {
    DaysBackIs(x, sec, count);
    var y := DaysBack(x, sec, count);
    LessOneDay(y, x / 86400 - count, y % 60, sec);
  }

  /** One round of the day search. */
  method PrevDayRound(cal: Tm, resets: seq<Field>, ghost sec: bool, ghost x: int, ghost count: int)
    returns (err: bool)
    requires cal.Normal() && count >= 0 && cal.now == DaysBack(x, sec, count)
    requires cal.now - 86400 >= cal.zone && resets == Resets(Hours, sec) + [Hour]
    modifies cal
    ensures cal.Normal() && !err && cal.now == DaysBack(x, sec, count + 1)
  {
    NextDaysBack(x, sec, count);
    ResetsAreClock(Hours, sec);
    err := AddToField(cal, DayOfMonth, -1);
    if err {
      return;
    }
    var ignored := ResetAllMax(cal, resets);
  }

  lemma DayFieldsBack(cal: Tm, x: int, sec: bool, count: int)
    requires cal.Normal() && count >= 0 && cal.now == DaysBack(x, sec, count)
    ensures cal.mday == Mday(x / 86400 - count) && cal.wday == Wday(x / 86400 - count)
  {
    DaysBackIs(x, sec, count);
  }

  /** The day search from x has looked at `count` days in vain and is on the one before. */
  ghost predicate SearchingBack(e: Expr, x: int, sec: bool, count: int, now: int, day: int, weekday: int) {
    var d := x / 86400;
    && 0 <= count <= DAY_LIMIT && now == DaysBack(x, sec, count)
    && day == Mday(d - count) && weekday == Wday(d - count)
    && PrevDay(e, d, DAY_LIMIT) == PrevDay(e, d - count, DAY_LIMIT - count)
    && (count > 0 ==> !DayHit(e, d))
  }

  lemma SearchMissesBack(e: Expr, x: int, sec: bool, count: int, now: int, day: int, weekday: int)
    requires SearchingBack(e, x, sec, count, now, day, weekday) && count < DAY_LIMIT
    requires !(Hit(e.daysOfMonth, day) && Hit(e.daysOfWeek, weekday))
    ensures !DayHit(e, x / 86400) && PrevDay(e, x / 86400, DAY_LIMIT) < x / 86400 - count
    ensures PrevDay(e, x / 86400, DAY_LIMIT) == PrevDay(e, x / 86400 - count - 1, DAY_LIMIT - count - 1)
  {
  }

  /** The next day back is not before the day where the search ends. */
  lemma StaysAbove(e: Expr, x: int, sec: bool, count: int, floor: int)
    requires count >= 0 && PrevDay(e, x / 86400, DAY_LIMIT) < x / 86400 - count
            && DayStepBack(e, x, sec) >= floor + 86400
    ensures DaysBack(x, sec, count) - 86400 >= floor
  {
    DaysBackIs(x, sec, count);
    DaysBackIs(x, sec, x / 86400 - PrevDay(e, x / 86400, DAY_LIMIT));
  }

  lemma SearchGoesOnBack(e: Expr, x: int, sec: bool, count: int, now: int, day: int, weekday: int)
    requires 0 < count <= DAY_LIMIT && !DayHit(e, x / 86400) && now == DaysBack(x, sec, count)
    requires day == Mday(x / 86400 - count) && weekday == Wday(x / 86400 - count)
    requires PrevDay(e, x / 86400, DAY_LIMIT) == PrevDay(e, x / 86400 - count, DAY_LIMIT - count)
    ensures SearchingBack(e, x, sec, count, now, day, weekday)
  {
  }

  lemma SearchStopsBack(e: Expr, x: int, sec: bool, count: int, now: int, day: int, weekday: int)
    requires SearchingBack(e, x, sec, count, now, day, weekday)
    requires count == DAY_LIMIT || (Hit(e.daysOfMonth, day) && Hit(e.daysOfWeek, weekday))
    ensures now == DayStepBack(e, x, sec) && day == Mday(PrevDay(e, x / 86400, DAY_LIMIT))
  {
  }

  method FindPrevDay(cal: Tm, e: Expr, resets: seq<Field>, ghost sec: bool) returns (day: int, err: bool)
    requires cal.Normal()
    requires DayHit(e, cal.now / 86400)
             || (resets == Resets(Hours, sec) + [Hour] && DayStepBack(e, cal.now, sec) >= cal.zone + 86400)
    modifies cal
    ensures cal.Normal() && !err && cal.now == DayStepBack(e, old(cal.now), sec)
    ensures day == Mday(PrevDay(e, old(cal.now) / 86400, DAY_LIMIT))
  {
    ghost var x := cal.now;
    var count := 0;
    day := cal.mday;
    var weekday := cal.wday;
    err := false;
    DayFieldsBack(cal, x, sec, 0);
    while (!Hit(e.daysOfMonth, day) || !Hit(e.daysOfWeek, weekday)) && count < DAY_LIMIT
      invariant cal.Normal() && !err
      invariant SearchingBack(e, x, sec, count, cal.now, day, weekday)
      decreases DAY_LIMIT - count
    {
      SearchMissesBack(e, x, sec, count, cal.now, day, weekday);
      StaysAbove(e, x, sec, count, cal.zone);
      err := PrevDayRound(cal, resets, sec, x, count);
      if err {
        return;
      }
      count := count + 1;
      DayFieldsBack(cal, x, sec, count);
      day := cal.mday;
      weekday := cal.wday;
      SearchGoesOnBack(e, x, sec, count, cal.now, day, weekday);
    }
    SearchStopsBack(e, x, sec, count, cal.now, day, weekday);
  }

  // ----- do_prev -----

  ghost predicate SecondsKeptBack(e: Expr, x: int) {
    PrevIdx(e.seconds, 60, x) == x
  }

  /** Where a pass that misses in its n-th field takes the calendar from y. */
  ghost function MissBack(e: Expr, x: int, y: int, n: int): int {
    if n == 1 then LevelBack(y, e.minutes, Minutes, SecondsKeptBack(e, x))
    else if n == 2 then LevelBack(y, e.hours, Hours, SecondsKeptBack(e, x))
    else DayStepBack(e, y, SecondsKeptBack(e, x))
  }

  /** A pass from x has come to y with the fields below the n-th matching and nothing moved. */
  ghost predicate UnmovedBack(e: Expr, x: int, y: int, n: int) {
    && y == PrevIdx(e.seconds, 60, x)
    && (n > 1 ==> FieldHit(e, y, 1)) && (n > 2 ==> FieldHit(e, y, 2)) && (n > 3 ==> FieldHit(e, y, 3))
  }

  lemma IndexOfHitBack(bits: Bits, n: int, i: int)
    requires Cycle(n) && Any(bits, 0, n)
    ensures PrevIdx(bits, n, i) == i <==> Hit(bits, Residue(n, i))
  {
    PrevIdxGreatest(bits, n, i);
  }

  lemma MinuteMissesBack(e: Expr, x: int, y: int)
    requires NonEmpty(e) && UnmovedBack(e, x, y, 1) && !FieldHit(e, y, 1)
    ensures OnePassBack(e, x) == Moved(MissBack(e, x, y, 1))
  {
    IndexOfHitBack(e.minutes, 60, y / 60);
  }

  lemma HourMissesBack(e: Expr, x: int, y: int)
    requires NonEmpty(e) && UnmovedBack(e, x, y, 2) && !FieldHit(e, y, 2)
    ensures OnePassBack(e, x) == Moved(MissBack(e, x, y, 2))
  {
    IndexOfHitBack(e.minutes, 60, y / 60);
    IndexOfHitBack(e.hours, 24, y / 3600);
    assert y / 3600 == y / 60 / 60;
    assert StopBack(e, y / 60) == PrevIdx(e.hours, 24, y / 3600) * 60 + 59;
  }

  lemma DayMissesBack(e: Expr, x: int, y: int)
    requires NonEmpty(e) && OneDayFree(e) && UnmovedBack(e, x, y, 3) && !FieldHit(e, y, 3)
    ensures OnePassBack(e, x) == Moved(MissBack(e, x, y, 3))
    ensures Mday(PrevDay(e, y / 86400, DAY_LIMIT)) != Mday(y / 86400)
  {
    IndexOfHitBack(e.minutes, 60, y / 60);
    IndexOfHitBack(e.hours, 24, y / 3600);
    assert y / 3600 == y / 60 / 60 && y / 86400 == y / 60 / 1440;
    DaySearchBack(e, y / 86400);
    assert StopBack(e, y / 60) == PrevDay(e, y / 86400, DAY_LIMIT) * 1440 + 1439;
  }

  lemma NothingMissedBack(e: Expr, x: int, y: int)
    requires NonEmpty(e) && UnmovedBack(e, x, y, 4)
    ensures OnePassBack(e, x) == Done(y)
  {
    IndexOfHitBack(e.minutes, 60, y / 60);
    IndexOfHitBack(e.hours, 24, y / 3600);
    assert y / 3600 == y / 60 / 60 && y / 86400 == y / 60 / 1440;
    assert StopBack(e, y / 60) == y / 60;
  }

  /** How far a call of do_prev that started at x has come, as in the search forward. */
  ghost predicate ReachedBack(e: Expr, x: int, y: int, n: int, inner: bool)
    requires Searchable(e)
  {
    if inner then DoPrev(e, x) == y && Match(e, y) else UnmovedBack(e, x, y, n)
  }

  lemma PassGoesOn(e: Expr, x: int, z: int)
    requires Searchable(e) && OnePassBack(e, x) == Moved(z)
    ensures DoPrev(e, x) == DoPrev(e, z) && DoPrev(e, x) <= z && MinutesBack(e, z) < MinutesBack(e, x)
  {
    MovedDecreasesBack(e, x);
    DoPrevGreatest(e, z);
  }

  /** A field that misses makes the recursive call that continues this one, and it is a smaller call. */
  lemma MissesBack(e: Expr, x: int, y: int, n: int)
    requires Searchable(e) && 1 <= n <= 3 && UnmovedBack(e, x, y, n) && !FieldHit(e, y, n)
    ensures var z := MissBack(e, x, y, n);
            DoPrev(e, x) == DoPrev(e, z) && DoPrev(e, x) <= z && MinutesBack(e, z) < MinutesBack(e, x)
    ensures n == 3 ==> Mday(PrevDay(e, y / 86400, DAY_LIMIT)) != Mday(y / 86400)
  {
    if n == 1 {
      MinuteMissesBack(e, x, y);
    } else if n == 2 {
      HourMissesBack(e, x, y);
    } else {
      DayMissesBack(e, x, y);
    }
    PassGoesOn(e, x, MissBack(e, x, y, n));
  }

  lemma EndsBack(e: Expr, x: int, y: int, inner: bool)
    requires Searchable(e) && ReachedBack(e, x, y, 4, inner)
    ensures DoPrev(e, x) == y
  {
    if UnmovedBack(e, x, y, 4) {
      NothingMissedBack(e, x, y);
    }
  }

  lemma SecondsNotBelow(e: Expr, x: int)
    requires Searchable(e)
    ensures DoPrev(e, x) <= PrevIdx(e.seconds, 60, x)
  {
    DoPrevGreatest(e, x);
    SecondsSettleBack(e, x);
  }

  method SearchSecondsBack(e: Expr, cal: Tm) returns (resets: seq<Field>)
    requires Searchable(e) && cal.Normal() && DoPrev(e, cal.now) >= cal.zone + 86400
    modifies cal
    ensures cal.Normal() && cal.now == PrevIdx(e.seconds, 60, old(cal.now))
    ensures resets == Resets(Minutes, SecondsKeptBack(e, old(cal.now)))
  {
    ghost var x := cal.now;
    TmValues(cal);
    SecondsNotBelow(e, x);
    IndexOfHitBack(e.seconds, 60, x);
    resets := [];
    var second := cal.sec;
    var update, err := FindPrev(e.seconds, Seconds, second, cal, resets, false);
    if second == update {
      resets := Push(resets, Second);
    }
  }

  /** The minutes or the hours, and the recursive call when they move. */
  method SearchClockBack(e: Expr, cal: Tm, resets: seq<Field>, n: int, ghost x: int, ghost inner: bool)
    returns (pushed: seq<Field>, res: int, ghost inner': bool)
    requires Searchable(e) && (n == 1 || n == 2) && cal.Normal() && DoPrev(e, x) >= cal.zone + 86400
    requires ReachedBack(e, x, cal.now, n, inner)
    requires inner || resets == Resets(if n == 1 then Minutes else Hours, SecondsKeptBack(e, x))
    modifies cal
    ensures cal.Normal() && res == 0 && ReachedBack(e, x, cal.now, n + 1, inner')
    ensures !inner' ==> !inner && pushed == resets + [if n == 1 then Minute else Hour]
    decreases MinutesBack(e, x), 0
  {
    ghost var y, sec := cal.now, SecondsKeptBack(e, x);
    pushed, res, inner' := resets, 0, inner;
    TmValues(cal);
    if inner {
      MatchHits(e, y, n);
    }
    var v, bits, value := if n == 1 then Minutes else Hours, if n == 1 then e.minutes else e.hours,
      if n == 1 then cal.min else cal.hour;
    assert FieldHit(e, y, n) <==> Hit(bits, value);
    if !FieldHit(e, y, n) {
      MissesBack(e, x, y, n);
    }
    var update, err := FindPrev(bits, v, value, cal, resets, sec);
    if value == update {
      pushed := Push(resets, FieldOf(v));
    } else {
      res := DoPrevInPlace(e, cal);
      DoPrevGreatest(e, x);
      inner' := true;
    }
  }

  /** The day, and the recursive call when its number changes. */
  method SearchDayBack(e: Expr, cal: Tm, resets: seq<Field>, ghost x: int, ghost inner: bool)
    returns (pushed: seq<Field>, res: int, ghost inner': bool)
    requires Searchable(e) && cal.Normal() && DoPrev(e, x) >= cal.zone + 86400
    requires ReachedBack(e, x, cal.now, 3, inner)
    requires inner || resets == Resets(Hours, SecondsKeptBack(e, x)) + [Hour]
    modifies cal
    ensures cal.Normal() && res == 0 && ReachedBack(e, x, cal.now, 4, inner')
    decreases MinutesBack(e, x), 0
  {
    ghost var y, sec := cal.now, SecondsKeptBack(e, x);
    pushed, res, inner' := resets, 0, inner;
    TmValues(cal);
    if inner {
      MatchHits(e, y, 3);
    }
    if !FieldHit(e, y, 3) {
      MissesBack(e, x, y, 3);
    }
    var day := cal.mday;
    var update, err := FindPrevDay(cal, e, resets, sec);
    if day == update {
      pushed := Push(resets, DayOfMonth);
    } else {
      res := DoPrevInPlace(e, cal);
      DoPrevGreatest(e, x);
      inner' := true;
    }
  }

  lemma EveryMonth(e: Expr, y: int)
    requires Searchable(e)
    ensures Any(e.months, 0, 12) && Hit(e.months, ValueAt(y, Months))
  {
    assert Hit(e.months, 0);
  }

  /** do_prev; the year that the search began in only matters when a month moves, and here none does. */
  method DoPrevInPlace(e: Expr, cal: Tm) returns (res: int)
    requires Searchable(e) && cal.Normal() && DoPrev(e, cal.now) >= cal.zone + 86400
    modifies cal
    ensures cal.Normal() && res == 0 && cal.now == DoPrev(e, old(cal.now))
    decreases MinutesBack(e, cal.now), 1
  {
    ghost var x, sec := cal.now, SecondsKeptBack(e, cal.now);
    ResetsGrow(sec);
    var resets := SearchSecondsBack(e, cal);
    ghost var inner := false;
    resets, res, inner := SearchClockBack(e, cal, resets, 1, x, inner);
    if res != 0 {
      return;
    }
    resets, res, inner := SearchClockBack(e, cal, resets, 2, x, inner);
    if res != 0 {
      return;
    }
    resets, res, inner := SearchDayBack(e, cal, resets, x, inner);
    if res != 0 {
      return;
    }
    EndsBack(e, x, cal.now, inner);
    TmValues(cal);
    EveryMonth(e, cal.now);
    var month := cal.mon;
    var update, err := FindPrev(e.months, Months, month, cal, resets, sec);
  }

  // ----- cron_prev -----

  lemma LessSecond(x: int)
    ensures AddAt(x, Second, -1) == x - 1
  {
    var d, h, m, s := SplitInstant(x);
    LessClock(d, h, m, s);
  }

  /** The first search of cron_prev from x has ended at y: how it goes on. */
  ghost predicate SearchedBack(e: Expr, x: int, y: int)
    requires Searchable(e)
  {
    && (y == x ==> CronPrev.CronPrev(e, x) == DoPrev(e, y - 1))
    && (y != x ==> CronPrev.CronPrev(e, x) == y)
  }

  lemma CronPrevFrom(e: Expr, x: int)
    requires Searchable(e)
    ensures SearchedBack(e, x, DoPrev(e, x)) && CronPrev.CronPrev(e, x) <= DoPrev(e, x)
  {
    DoPrevGreatest(e, x - 1);
  }

  /** The end of cron_prev, when the search stayed on its start. */
  method PrevFromPrevSecond(e: Expr, cal: Tm) returns (time: int)
    requires Searchable(e) && cal.Normal() && DoPrev(e, cal.now - 1) >= cal.zone + 86400
    modifies cal
    ensures time == DoPrev(e, old(cal.now) - 1) - cal.zone
  {
    ghost var x := cal.now;
    LessSecond(x);
    DoPrevGreatest(e, x - 1);
    var err := AddToField(cal, Second, -1);
    assert cal.now == x - 1;
    if err {
      return INVALID_INSTANT;
    }
    var res := DoPrevInPlace(e, cal);
    if res != 0 {
      return INVALID_INSTANT;
    }
    time := cal.MkTime();
  }

  /** cron_prev after its first search: the result, unless the search stayed on its start. */
  method PrevFromSearched(e: Expr, cal: Tm, original: int, ghost x: int) returns (time: int)
    requires Searchable(e) && cal.Normal() && cal.now >= cal.zone
    requires SearchedBack(e, x, cal.now) && original == x - cal.zone && CronPrev.CronPrev(e, x) >= cal.zone + 86400
    modifies cal
    ensures time == CronPrev.CronPrev(e, x) - cal.zone
  {
    ghost var y := cal.now;
    var calculated := cal.MkTime();
    assert cal.now == y && calculated == y - cal.zone;
    if calculated == INVALID_INSTANT {
      return INVALID_INSTANT;
    }
    if calculated == original {
      time := PrevFromPrevSecond(e, cal);
    } else {
      time := cal.MkTime();
    }
  }

  /** cron_prev, when the match that it finds is not before the second day of 1970. */
  method CronPrevTime(e: Expr, date: int, zone: int) returns (time: int)
    requires Searchable(e) && CronPrev.CronPrev(e, date + zone) >= zone + 86400
    ensures time == CronPrev.CronPrev(e, date + zone) - zone
  {
    var cal := new Tm(zone, date);
    ghost var x := cal.now;
    CronPrevFrom(e, x);
    DoPrevGreatest(e, x);
    var original := cal.MkTime();
    assert original == x - zone;
    if original == INVALID_INSTANT {
      return INVALID_INSTANT;
    }
    var res := DoPrevInPlace(e, cal);
    if res != 0 {
      return INVALID_INSTANT;
    }
    time := PrevFromSearched(e, cal, original, x);
  }
}
