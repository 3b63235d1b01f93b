/**
  The calendar-field operations of main/comp/cron/ccronexpr.cpp (add_to_field, reset_min, set_field,
  reset_all_min, lines 226-348) as functions on instants, and what they amount to.
 */
module CronFields {
  import opened Calendar
  import opened CronSearch

  datatype Field = Second | Minute | Hour | DayOfWeek | DayOfMonth | Month | Year

  /** Assigns one member of struct tm; the day of the week is recomputed by mktime, so it is ignored. */
  function Assign(b: Broken, f: Field, v: int): Broken {
    match f
    case Second => b.(sec := v)
    case Minute => b.(min := v)
    case Hour => b.(hour := v)
    case DayOfWeek => b
    case DayOfMonth => b.(mday := v)
    case Month => b.(mon := v)
    case Year => b.(year := v)
  }

  /** The member that add_to_field changes: days, for the day of the week. */
  function Added(b: Broken, f: Field, v: int): Broken {
    match f
    case Second => b.(sec := b.sec + v)
    case Minute => b.(min := b.min + v)
    case Hour => b.(hour := b.hour + v)
    case DayOfWeek => b.(mday := b.mday + v)
    case DayOfMonth => b.(mday := b.mday + v)
    case Month => b.(mon := b.mon + v)
    case Year => b.(year := b.year + v)
  }

  function SetAt(x: int, f: Field, v: int): int { ToInstant(Assign(FromInstant(x), f, v)) }
  function AddAt(x: int, f: Field, v: int): int { ToInstant(Added(FromInstant(x), f, v)) }
  function ResetAt(x: int, f: Field): int { SetAt(x, f, if f.DayOfMonth? then 1 else 0) }

  function ResetAllAt(x: int, fs: seq<Field>): int
    decreases |fs|
  {
    if fs == [] then x else ResetAllAt(ResetAt(x, fs[0]), fs[1..])
  }

  /** The fields that find_next is called for, with the length of each and the field it rolls into. */
  datatype Level = Seconds | Minutes | Hours | Months

  function FieldOf(v: Level): Field {
    match v case Seconds => Second case Minutes => Minute case Hours => Hour case Months => Month
  }

  function NextField(v: Level): Field {
    match v case Seconds => Minute case Minutes => Hour case Hours => DayOfWeek case Months => Year
  }

  function MaxOf(v: Level): int {
    match v case Seconds => 60 case Minutes => 60 case Hours => 24 case Months => 12
  }

  function ValueAt(x: int, v: Level): (r: int)
    ensures 0 <= r < MaxOf(v)
  {
    match v
    case Seconds => x % 60
    case Minutes => x / 60 % 60
    case Hours => x / 3600 % 24
    case Months => MonthOf(x / 86400) % 12
  }

  /** What the resets list holds by the time a level is searched; `sec` says the seconds matched. */
  function Resets(v: Level, sec: bool): seq<Field> {
    var s := if sec then [Second] else [];
    match v
    case Seconds => []
    case Minutes => s
    case Hours => s + [Minute]
    case Months => s + [Minute, Hour, DayOfMonth]
  }

  // ----- What resetting amounts to -----

  /** An instant from its day and clock fields. */
  function At(d: int, h: int, m: int, s: int): int {
    d * 86400 + h * 3600 + m * 60 + s
  }

  lemma Parts(d: int, h: int, m: int, s: int)
    requires 0 <= h < 24 && 0 <= m < 60 && 0 <= s < 60
    ensures FromInstant(At(d, h, m, s)) == Broken(MonthOf(d) / 12, MonthOf(d) % 12, Mday(d), h, m, s)
  {
    ClockOf(d, h, m, s);
  }

  lemma FromParts(k: int, mday: int, h: int, m: int, s: int)
    ensures ToInstant(Broken(k / 12, k % 12, mday, h, m, s)) == At(MonthStart(k) + mday - 1, h, m, s)
  {
    SplitMonth(k);
  }

  lemma ResetParts(d: int, h: int, m: int, s: int)
    requires 0 <= h < 24 && 0 <= m < 60 && 0 <= s < 60
    ensures ResetAt(At(d, h, m, s), Second) == At(d, h, m, 0)
    ensures ResetAt(At(d, h, m, s), Minute) == At(d, h, 0, s)
    ensures ResetAt(At(d, h, m, s), Hour) == At(d, 0, m, s)
    ensures ResetAt(At(d, h, m, s), DayOfMonth) == At(MonthStart(MonthOf(d)), h, m, s)
  {
    Parts(d, h, m, s);
    var k := MonthOf(d);
    FromParts(k, Mday(d), h, m, 0);
    FromParts(k, Mday(d), h, 0, s);
    FromParts(k, Mday(d), 0, m, s);
    FromParts(k, 1, h, m, s);
  }

  lemma ResetOne(x: int, f: Field)
    ensures ResetAllAt(x, [f]) == ResetAt(x, f)
  {
    assert ResetAllAt(ResetAt(x, f), [f][1..]) == ResetAt(x, f);
  }

  lemma ResetTwo(x: int, f: Field, g: Field)
    ensures ResetAllAt(x, [f, g]) == ResetAt(ResetAt(x, f), g)
  {
    assert [f, g][1..] == [g];
    ResetOne(ResetAt(x, f), g);
  }

  /** Resetting what precedes the months leaves the start of the month, and the seconds unless reset. */
  lemma ResetLevels(d: int, h: int, m: int, s: int, sec: bool)
    requires 0 <= h < 24 && 0 <= m < 60 && 0 <= s < 60
    ensures var t := if sec then 0 else s;
            && ResetAllAt(At(d, h, m, s), Resets(Minutes, sec)) == At(d, h, m, t)
            && ResetAllAt(At(d, h, m, s), Resets(Hours, sec)) == At(d, h, 0, t)
            && ResetAllAt(At(d, h, m, s), Resets(Hours, sec) + [Hour]) == At(d, 0, 0, t)
            && ResetAllAt(At(d, h, m, s), Resets(Months, sec)) == At(MonthStart(MonthOf(d)), 0, 0, t)
  {
    var x := At(d, h, m, s);
    ResetParts(d, h, m, s);
    var t := if sec then 0 else s;
    var y := At(d, h, m, t);
    ResetParts(d, h, m, t);
    ResetParts(d, h, 0, t);
    ResetParts(d, 0, 0, t);
    ResetOne(x, Second);
    ResetOne(y, Minute);
    ResetTwo(y, Minute, Hour);
    ResetTwo(At(d, h, 0, t), Hour, DayOfMonth);
    assert [Minute, Hour, DayOfMonth][1..] == [Hour, DayOfMonth];
    if sec {
      assert Resets(Hours, sec)[1..] == [Minute];
      assert (Resets(Hours, sec) + [Hour])[1..] == [Minute, Hour];
      assert Resets(Months, sec)[1..] == [Minute, Hour, DayOfMonth];
    } else {
      assert Resets(Hours, sec) == [Minute];
      assert Resets(Hours, sec) + [Hour] == [Minute, Hour];
      assert Resets(Months, sec) == [Minute, Hour, DayOfMonth];
    }
  }

  // ----- find_next -----

  /** Where find_next takes the calendar. */
  function FindNextAt(x: int, bits: Bits, v: Level, lower: seq<Field>): int {
    var value := ValueAt(x, v);
    var n := NextSet(bits, MaxOf(v), value);
    if n == value then x
    else if n < MaxOf(v) then ResetAllAt(SetAt(x, FieldOf(v), n), lower)
    else
      var w := NextSet(bits, MaxOf(v), 0);
      ResetAllAt(SetAt(RolledAt(x, v), FieldOf(v), if w < MaxOf(v) then w else 0), lower)
  }

  /** The roll-over: one more of the next field, and this field back to its minimum. */
  function RolledAt(x: int, v: Level): int {
    ResetAt(AddAt(x, NextField(v), 1), FieldOf(v))
  }

  /** The closed form of a search of one level: index arithmetic in place of calendar surgery. */
  function LevelStep(x: int, bits: Bits, v: Level, sec: bool): int {
    var t := if sec then 0 else x % 60;
    match v
    case Seconds => NextIdx(bits, 60, x)
    case Minutes => var j := NextIdx(bits, 60, x / 60); if j == x / 60 then x else j * 60 + t
    case Hours => var g := NextIdx(bits, 24, x / 3600); if g == x / 3600 then x else g * 3600 + t
    case Months =>
      var k := MonthOf(x / 86400);
      var l := NextIdx(bits, 12, k);
      if l == k then x else MonthStart(MonthOf(MonthTarget(k, Mday(x / 86400), l))) * 86400 + t
  }

  lemma SetParts(d: int, h: int, m: int, s: int, v: int)
    requires 0 <= h < 24 && 0 <= m < 60 && 0 <= s < 60
    ensures SetAt(At(d, h, m, s), Second, v) == At(d, h, m, v)
    ensures SetAt(At(d, h, m, s), Minute, v) == At(d, h, v, s)
    ensures SetAt(At(d, h, m, s), Hour, v) == At(d, v, m, s)
  {
    Parts(d, h, m, s);
    FromParts(MonthOf(d), Mday(d), h, m, v);
    FromParts(MonthOf(d), Mday(d), h, v, s);
    FromParts(MonthOf(d), Mday(d), v, m, s);
  }

  lemma AddParts(d: int, h: int, m: int, s: int)
    requires 0 <= h < 24 && 0 <= m < 60 && 0 <= s < 60
    ensures AddAt(At(d, h, m, s), Minute, 1) == At(d, h, m + 1, s)
    ensures AddAt(At(d, h, m, s), Hour, 1) == At(d, h + 1, m, s)
    ensures AddAt(At(d, h, m, s), DayOfWeek, 1) == At(d + 1, h, m, s)
    ensures AddAt(At(d, h, m, s), DayOfMonth, 1) == At(d + 1, h, m, s)
    ensures AddAt(At(d, h, m, s), Second, 1) == At(d, h, m, s + 1)
  {
    Parts(d, h, m, s);
    var k := MonthOf(d);
    FromParts(k, Mday(d), h, m + 1, s);
    FromParts(k, Mday(d), h + 1, m, s);
    FromParts(k, Mday(d) + 1, h, m, s);
    FromParts(k, Mday(d), h, m, s + 1);
  }

  /** One minute or hour more, in range again. */
  function NextMinuteParts(d: int, h: int, m: int): (int, int, int) {
    if m < 59 then (d, h, m + 1) else if h < 23 then (d, h + 1, 0) else (d + 1, 0, 0)
  }

  function NextHourParts(d: int, h: int): (int, int) {
    if h < 23 then (d, h + 1) else (d + 1, 0)
  }

  lemma SecondsRoll(d: int, h: int, m: int, s: int, w: int)
    requires 0 <= h < 24 && 0 <= m < 60 && 0 <= s < 60 && 0 <= w < 60
    ensures var x := At(d, h, m, s);
            && AddAt(x, Minute, 1) == x + 60
            && RolledAt(x, Seconds) == x - s + 60
            && SetAt(RolledAt(x, Seconds), Second, w) == x - s + 60 + w
  {
    AddParts(d, h, m, s);
    var (d', h', m') := NextMinuteParts(d, h, m);
    assert At(d, h, m + 1, s) == At(d', h', m', s);
    ResetParts(d', h', m', s);
    SetParts(d', h', m', 0, w);
  }

  lemma MinutesRoll(d: int, h: int, m: int, s: int, w: int)
    requires 0 <= h < 24 && 0 <= m < 60 && 0 <= s < 60 && 0 <= w < 60
    ensures var x := At(d, h, m, s);
            var (d', h') := NextHourParts(d, h);
            && AddAt(x, Hour, 1) == x + 3600
            && RolledAt(x, Minutes) == x - m * 60 + 3600
            && SetAt(RolledAt(x, Minutes), Minute, w) == At(d', h', w, s)
  {
    AddParts(d, h, m, s);
    var (d', h') := NextHourParts(d, h);
    assert At(d, h + 1, m, s) == At(d', h', m, s);
    ResetParts(d', h', m, s);
    SetParts(d', h', 0, s, w);
  }

  lemma HoursRoll(d: int, h: int, m: int, s: int, w: int)
    requires 0 <= h < 24 && 0 <= m < 60 && 0 <= s < 60 && 0 <= w < 24
    ensures var x := At(d, h, m, s);
            && AddAt(x, DayOfWeek, 1) == x + 86400
            && RolledAt(x, Hours) == x - h * 3600 + 86400
            && SetAt(RolledAt(x, Hours), Hour, w) == At(d + 1, w, m, s)
  {
    AddParts(d, h, m, s);
    ResetParts(d + 1, h, m, s);
    SetParts(d + 1, 0, m, s, w);
  }

  /** What find_next needs of a level: that it searches forward, through instants not before x. */
  ghost predicate Forward(x: int, bits: Bits, v: Level, sec: bool) {
    && FindNextAt(x, bits, v, Resets(v, sec)) == LevelStep(x, bits, v, sec)
    && x <= LevelStep(x, bits, v, sec)
    && x <= AddAt(x, NextField(v), 1) && x <= RolledAt(x, v)
  }

  lemma Indices(d: int, h: int, m: int, s: int)
    requires 0 <= h < 24 && 0 <= m < 60 && 0 <= s < 60
    ensures var x := At(d, h, m, s);
            && x % 60 == s && x / 60 == d * 1440 + h * 60 + m && x / 60 % 60 == m
            && x / 3600 == d * 24 + h && x / 3600 % 24 == h && x / 86400 == d
  {
    ClockOf(d, h, m, s);
  }

  lemma SecondsForward(d: int, h: int, m: int, s: int, bits: Bits)
    requires 0 <= h < 24 && 0 <= m < 60 && 0 <= s < 60 && Any(bits, 0, 60)
    ensures Forward(At(d, h, m, s), bits, Seconds, false)
  {
    Indices(d, h, m, s);
    var n, w := NextSet(bits, 60, s), NextSet(bits, 60, 0);
    assert w < 60;
    SecondsRoll(d, h, m, s, w);
    SetParts(d, h, m, s, n);
  }

  lemma NextIdxAt(bits: Bits, n: int, i: int, r: int)
    requires Cycle(n) && r == Residue(n, i)
    ensures NextIdx(bits, n, i) == var v := NextSet(bits, n, r);
                                   if v < n then i - r + v else i - r + n + NextSet(bits, n, 0)
  {
  }

  /** Where the search of the minutes goes, in parts. */
  function MinuteGoes(d: int, h: int, m: int, s: int, bits: Bits, sec: bool): int {
    var t := if sec then 0 else s;
    var n := NextSet(bits, 60, m);
    if n == m then At(d, h, m, s)
    else if n < 60 then At(d, h, n, t)
    else var (d', h') := NextHourParts(d, h); At(d', h', NextSet(bits, 60, 0), t)
  }

  lemma MinuteFinds(d: int, h: int, m: int, s: int, bits: Bits, sec: bool)
    requires 0 <= h < 24 && 0 <= m < 60 && 0 <= s < 60 && Any(bits, 0, 60)
    ensures FindNextAt(At(d, h, m, s), bits, Minutes, Resets(Minutes, sec)) == MinuteGoes(d, h, m, s, bits, sec)
  {
    Indices(d, h, m, s);
    var n, w := NextSet(bits, 60, m), NextSet(bits, 60, 0);
    assert w < 60;
    if n < 60 {
      SetParts(d, h, m, s, n);
      ResetLevels(d, h, n, s, sec);
    } else {
      MinutesRoll(d, h, m, s, w);
      var (d', h') := NextHourParts(d, h);
      ResetLevels(d', h', w, s, sec);
    }
  }

  lemma MinuteSteps(d: int, h: int, m: int, s: int, bits: Bits, sec: bool)
    requires 0 <= h < 24 && 0 <= m < 60 && 0 <= s < 60 && Any(bits, 0, 60)
    ensures LevelStep(At(d, h, m, s), bits, Minutes, sec) == MinuteGoes(d, h, m, s, bits, sec)
    ensures At(d, h, m, s) <= MinuteGoes(d, h, m, s, bits, sec)
  {
    Indices(d, h, m, s);
    NextIdxAt(bits, 60, d * 1440 + h * 60 + m, m);
    assert NextSet(bits, 60, 0) < 60;
  }

  lemma MinutesForward(d: int, h: int, m: int, s: int, bits: Bits, sec: bool)
    requires 0 <= h < 24 && 0 <= m < 60 && 0 <= s < 60 && Any(bits, 0, 60)
    ensures Forward(At(d, h, m, s), bits, Minutes, sec)
  {
    MinuteFinds(d, h, m, s, bits, sec);
    MinuteSteps(d, h, m, s, bits, sec);
    MinutesRoll(d, h, m, s, 0);
  }

  /** Where the search of the hours goes, in parts. */
  function HourGoes(d: int, h: int, m: int, s: int, bits: Bits, sec: bool): int {
    var t := if sec then 0 else s;
    var n := NextSet(bits, 24, h);
    if n == h then At(d, h, m, s)
    else if n < 24 then At(d, n, 0, t)
    else At(d + 1, NextSet(bits, 24, 0), 0, t)
  }

  lemma HourFinds(d: int, h: int, m: int, s: int, bits: Bits, sec: bool)
    requires 0 <= h < 24 && 0 <= m < 60 && 0 <= s < 60 && Any(bits, 0, 24)
    ensures FindNextAt(At(d, h, m, s), bits, Hours, Resets(Hours, sec)) == HourGoes(d, h, m, s, bits, sec)
  {
    Indices(d, h, m, s);
    var n, w := NextSet(bits, 24, h), NextSet(bits, 24, 0);
    assert w < 24;
    if n < 24 {
      SetParts(d, h, m, s, n);
      ResetLevels(d, n, m, s, sec);
    } else {
      HoursRoll(d, h, m, s, w);
      ResetLevels(d + 1, w, m, s, sec);
    }
  }

  lemma HourSteps(d: int, h: int, m: int, s: int, bits: Bits, sec: bool)
    requires 0 <= h < 24 && 0 <= m < 60 && 0 <= s < 60 && Any(bits, 0, 24)
    ensures LevelStep(At(d, h, m, s), bits, Hours, sec) == HourGoes(d, h, m, s, bits, sec)
    ensures At(d, h, m, s) <= HourGoes(d, h, m, s, bits, sec)
  {
    Indices(d, h, m, s);
    NextIdxAt(bits, 24, d * 24 + h, h);
    assert NextSet(bits, 24, 0) < 24;
  }

  lemma HoursForward(d: int, h: int, m: int, s: int, bits: Bits, sec: bool)
    requires 0 <= h < 24 && 0 <= m < 60 && 0 <= s < 60 && Any(bits, 0, 24)
    ensures Forward(At(d, h, m, s), bits, Hours, sec)
  {
    HourFinds(d, h, m, s, bits, sec);
    HourSteps(d, h, m, s, bits, sec);
    HoursRoll(d, h, m, s, 0);
  }

  lemma SetMonth(d: int, h: int, m: int, s: int, v: int)
    requires 0 <= h < 24 && 0 <= m < 60 && 0 <= s < 60 && 0 <= v < 12
    ensures SetAt(At(d, h, m, s), Month, v) == At(MonthStart(12 * (MonthOf(d) / 12) + v) + Mday(d) - 1, h, m, s)
  {
    Parts(d, h, m, s);
    SplitYearMonth(MonthOf(d) / 12, v);
    FromParts(12 * (MonthOf(d) / 12) + v, Mday(d), h, m, s);
  }

  lemma AddYear(d: int, h: int, m: int, s: int)
    requires 0 <= h < 24 && 0 <= m < 60 && 0 <= s < 60
    ensures AddAt(At(d, h, m, s), Year, 1) == At(MonthStart(MonthOf(d) + 12) + Mday(d) - 1, h, m, s)
  {
    Parts(d, h, m, s);
    var k := MonthOf(d);
    assert (k + 12) / 12 == k / 12 + 1 && (k + 12) % 12 == k % 12;
    FromParts(k + 12, Mday(d), h, m, s);
  }

  lemma MonthOfNextYear(k: int, r: int)
    requires r == k + 12 || (r == k + 13 && k % 12 == 1)
    ensures r / 12 == k / 12 + 1
  {
    SplitYearMonth(k / 12 + 1, k % 12);
    SplitYearMonth(k / 12 + 1, 2);
    SplitMonth(k);
  }

  lemma CarriedMonth(k: int, m: int)
    requires 1 <= m <= MonthLen(k)
    ensures MonthOf(MonthStart(k + 12) + m - 1) / 12 == k / 12 + 1
  {
    CarriedDate(k, m);
    MonthOfNextYear(k, MonthOf(MonthStart(k + 12) + m - 1));
  }

  /** The day that adding a year to day d gives. */
  function YearOn(d: int): int {
    MonthStart(MonthOf(d) + 12) + Mday(d) - 1
  }

  lemma YearAhead(d: int)
    ensures d < YearOn(d) && MonthOf(YearOn(d)) / 12 == MonthOf(d) / 12 + 1
  {
    CarriedMonth(MonthOf(d), Mday(d));
    MonthStartMonotone(MonthOf(d), MonthOf(d) + 12);
  }

  lemma InJanuary(y: int, mday: int)
    requires 1 <= mday <= 31
    ensures var d := MonthStart(12 * y) + mday - 1; MonthOf(d) == 12 * y && Mday(d) == mday
    ensures 12 * y / 12 == y
  {
    SplitYearMonth(y, 0);
    MonthStep(12 * y);
    MonthOfUnique(MonthStart(12 * y) + mday - 1, 12 * y);
  }

  lemma ResetMonth(d: int, h: int, m: int, s: int, y: int)
    requires 0 <= h < 24 && 0 <= m < 60 && 0 <= s < 60 && MonthOf(d) / 12 == y
    ensures ResetAt(At(d, h, m, s), Month) == At(MonthStart(12 * y) + Mday(d) - 1, h, m, s)
  {
    SetMonth(d, h, m, s, 0);
  }

  lemma SetInYear(d: int, h: int, m: int, s: int, y: int, mday: int, v: int)
    requires 0 <= h < 24 && 0 <= m < 60 && 0 <= s < 60 && 0 <= v < 12
    requires MonthOf(d) / 12 == y && Mday(d) == mday
    ensures SetAt(At(d, h, m, s), Month, v) == At(MonthStart(12 * y + v) + mday - 1, h, m, s)
  {
    SetMonth(d, h, m, s, v);
  }

  lemma BeforeNextYear(d: int)
    ensures d < MonthStart(12 * (MonthOf(d) / 12 + 1))
  {
    SplitMonth(MonthOf(d));
    MonthStartMonotone(MonthOf(d) + 1, 12 * (MonthOf(d) / 12 + 1));
  }

  /** The day that the roll-over of the months leaves: the day of the month in the next January. */
  function RolledDay(d: int): int {
    MonthStart(12 * (MonthOf(d) / 12 + 1)) + Mday(YearOn(d)) - 1
  }

  lemma AddsYear(d: int, h: int, m: int, s: int)
    requires 0 <= h < 24 && 0 <= m < 60 && 0 <= s < 60
    ensures AddAt(At(d, h, m, s), Year, 1) == At(YearOn(d), h, m, s)
    ensures At(d, h, m, s) <= AddAt(At(d, h, m, s), Year, 1)
  {
    AddYear(d, h, m, s);
    YearAhead(d);
  }

  lemma RolledFrom(x: int, d: int, h: int, m: int, s: int, y: int)
    requires 0 <= h < 24 && 0 <= m < 60 && 0 <= s < 60
    requires AddAt(x, Year, 1) == At(d, h, m, s) && MonthOf(d) / 12 == y
    ensures RolledAt(x, Months) == At(MonthStart(12 * y) + Mday(d) - 1, h, m, s)
  {
    ResetMonth(d, h, m, s, y);
  }

  lemma RollForward(d: int, h: int, m: int, s: int)
    requires 0 <= h < 24 && 0 <= m < 60 && 0 <= s < 60
    ensures RolledAt(At(d, h, m, s), Months) == At(RolledDay(d), h, m, s)
  {
    AddsYear(d, h, m, s);
    YearAhead(d);
    RolledFrom(At(d, h, m, s), YearOn(d), h, m, s, MonthOf(d) / 12 + 1);
  }

  lemma RolledDayIs(d: int)
    ensures MonthOf(RolledDay(d)) / 12 == MonthOf(d) / 12 + 1 && Mday(RolledDay(d)) == Mday(YearOn(d))
    ensures d < RolledDay(d)
  {
    InJanuary(MonthOf(d) / 12 + 1, Mday(YearOn(d)));
    BeforeNextYear(d);
  }

  lemma MonthIndex(k: int, bits: Bits)
    requires Any(bits, 0, 12)
    ensures var n, w := NextSet(bits, 12, k % 12), NextSet(bits, 12, 0);
            && w < 12
            && NextIdx(bits, 12, k) == (if n < 12 then 12 * (k / 12) + n else 12 * (k / 12 + 1) + w)
            && NextIdx(bits, 12, k) / 12 == (if n < 12 then k / 12 else k / 12 + 1)
  {
    var n, w := NextSet(bits, 12, k % 12), NextSet(bits, 12, 0);
    assert w < 12;
    NextIdxAt(bits, 12, k, k % 12);
    SplitMonth(k);
    if n < 12 {
      SplitYearMonth(k / 12, n);
    } else {
      SplitYearMonth(k / 12 + 1, w);
    }
  }

  /** A month move goes to the start of a later month. */
  lemma LandsLater(d: int, bits: Bits)
    requires Any(bits, 0, 12)
    ensures var k := MonthOf(d);
            var l := NextIdx(bits, 12, k);
            k <= l && (l != k ==> d < MonthStart(MonthOf(MonthTarget(k, Mday(d), l))))
  {
    var k := MonthOf(d);
    var l := NextIdx(bits, 12, k);
    NextIdxLeast(bits, 12, k);
    MonthLands(k, Mday(d), l);
    if l != k {
      MonthStartMonotone(k + 1, MonthOf(MonthTarget(k, Mday(d), l)));
    }
  }

  lemma TargetIs(d: int, bits: Bits)
    requires Any(bits, 0, 12)
    ensures var k := MonthOf(d);
            var n, w := NextSet(bits, 12, k % 12), NextSet(bits, 12, 0);
            var t := MonthTarget(k, Mday(d), NextIdx(bits, 12, k));
            && w < 12
            && (n < 12 ==> t == MonthStart(12 * (k / 12) + n) + Mday(d) - 1)
            && (n == 12 ==> t == MonthStart(12 * (k / 12 + 1) + w) + Mday(YearOn(d)) - 1)
  {
    MonthIndex(MonthOf(d), bits);
  }

  lemma MonthSetFound(d: int, h: int, m: int, s: int, bits: Bits)
    requires 0 <= h < 24 && 0 <= m < 60 && 0 <= s < 60 && Any(bits, 0, 12)
    requires NextSet(bits, 12, MonthOf(d) % 12) < 12
    ensures SetAt(At(d, h, m, s), Month, NextSet(bits, 12, MonthOf(d) % 12))
            == At(MonthTarget(MonthOf(d), Mday(d), NextIdx(bits, 12, MonthOf(d))), h, m, s)
  {
    TargetIs(d, bits);
    SetsFound(d, h, m, s, NextSet(bits, 12, MonthOf(d) % 12), MonthOf(d) / 12,
        MonthTarget(MonthOf(d), Mday(d), NextIdx(bits, 12, MonthOf(d))));
  }

  lemma SetsFound(d: int, h: int, m: int, s: int, v: int, y: int, target: int)
    requires 0 <= h < 24 && 0 <= m < 60 && 0 <= s < 60 && 0 <= v < 12 && y == MonthOf(d) / 12
    requires target == MonthStart(12 * y + v) + Mday(d) - 1
    ensures SetAt(At(d, h, m, s), Month, v) == At(target, h, m, s)
  {
    SetInYear(d, h, m, s, y, Mday(d), v);
  }

  lemma MonthSetRolled(d: int, h: int, m: int, s: int, bits: Bits)
    requires 0 <= h < 24 && 0 <= m < 60 && 0 <= s < 60 && Any(bits, 0, 12)
    requires NextSet(bits, 12, MonthOf(d) % 12) == 12
    ensures NextSet(bits, 12, 0) < 12
    ensures SetAt(At(RolledDay(d), h, m, s), Month, NextSet(bits, 12, 0))
            == At(MonthTarget(MonthOf(d), Mday(d), NextIdx(bits, 12, MonthOf(d))), h, m, s)
  {
    TargetIs(d, bits);
    SetsRolled(d, h, m, s, NextSet(bits, 12, 0), MonthOf(d) / 12 + 1,
        MonthTarget(MonthOf(d), Mday(d), NextIdx(bits, 12, MonthOf(d))));
  }

  lemma SetsRolled(d: int, h: int, m: int, s: int, w: int, y: int, target: int)
    requires 0 <= h < 24 && 0 <= m < 60 && 0 <= s < 60 && 0 <= w < 12 && y == MonthOf(d) / 12 + 1
    requires target == MonthStart(12 * y + w) + Mday(YearOn(d)) - 1
    ensures SetAt(At(RolledDay(d), h, m, s), Month, w) == At(target, h, m, s)
  {
    RolledDayIs(d);
    SetInYear(RolledDay(d), h, m, s, y, Mday(YearOn(d)), w);
  }

  /** Where the search of the months goes, in parts. */
  function MonthGoes(d: int, h: int, m: int, s: int, bits: Bits, sec: bool): int {
    var k := MonthOf(d);
    var l := NextIdx(bits, 12, k);
    if l == k then At(d, h, m, s)
    else At(MonthStart(MonthOf(MonthTarget(k, Mday(d), l))), 0, 0, if sec then 0 else s)
  }

  lemma MonthSteps(d: int, h: int, m: int, s: int, bits: Bits, sec: bool)
    requires 0 <= h < 24 && 0 <= m < 60 && 0 <= s < 60
    ensures LevelStep(At(d, h, m, s), bits, Months, sec) == MonthGoes(d, h, m, s, bits, sec)
  {
    Indices(d, h, m, s);
  }

  lemma MonthMoveResets(d: int, h: int, m: int, s: int, bits: Bits, sec: bool)
    requires 0 <= h < 24 && 0 <= m < 60 && 0 <= s < 60 && NextIdx(bits, 12, MonthOf(d)) != MonthOf(d)
    ensures ResetAllAt(At(MonthTarget(MonthOf(d), Mday(d), NextIdx(bits, 12, MonthOf(d))), h, m, s),
            Resets(Months, sec))
            == MonthGoes(d, h, m, s, bits, sec)
  {
    ResetLevels(MonthTarget(MonthOf(d), Mday(d), NextIdx(bits, 12, MonthOf(d))), h, m, s, sec);
  }

  lemma MonthFinds(d: int, h: int, m: int, s: int, bits: Bits, sec: bool)
    requires 0 <= h < 24 && 0 <= m < 60 && 0 <= s < 60 && Any(bits, 0, 12)
    ensures FindNextAt(At(d, h, m, s), bits, Months, Resets(Months, sec)) == MonthGoes(d, h, m, s, bits, sec)
  {
    Indices(d, h, m, s);
    var k := MonthOf(d);
    var n := NextSet(bits, 12, k % 12);
    MonthIndex(k, bits);
    SplitMonth(k);
    if n == k % 12 {
      assert NextIdx(bits, 12, k) == k;
    } else if n < 12 {
      MonthSetFound(d, h, m, s, bits);
      MonthMoveResets(d, h, m, s, bits, sec);
    } else {
      RollForward(d, h, m, s);
      MonthSetRolled(d, h, m, s, bits);
      MonthMoveResets(d, h, m, s, bits, sec);
    }
  }

  lemma MonthsForward(d: int, h: int, m: int, s: int, bits: Bits, sec: bool)
    requires 0 <= h < 24 && 0 <= m < 60 && 0 <= s < 60 && Any(bits, 0, 12)
    ensures Forward(At(d, h, m, s), bits, Months, sec)
  {
    MonthFinds(d, h, m, s, bits, sec);
    MonthSteps(d, h, m, s, bits, sec);
    AddsYear(d, h, m, s);
    RollForward(d, h, m, s);
    RolledDayIs(d);
    LandsLater(d, bits);
  }

  lemma SplitInstant(x: int) returns (d: int, h: int, m: int, s: int)
    ensures x == At(d, h, m, s) && 0 <= h < 24 && 0 <= m < 60 && 0 <= s < 60
  {
    d, h, m, s := DayOf(x), HourOf(x), MinuteOf(x), SecondOf(x);
    Clock(x);
  }

  /** Every search that do_next makes goes forward and has the closed form. */
  lemma LevelForward(x: int, bits: Bits, v: Level, sec: bool)
    requires Any(bits, 0, MaxOf(v)) && (v.Seconds? ==> !sec)
    ensures Forward(x, bits, v, sec)
  {
    var d, h, m, s := SplitInstant(x);
    match v
    case Seconds => SecondsForward(d, h, m, s, bits);
    case Minutes => MinutesForward(d, h, m, s, bits, sec);
    case Hours => HoursForward(d, h, m, s, bits, sec);
    case Months => MonthsForward(d, h, m, s, bits, sec);
  }
}
