/**
  The C library's broken-down time, as the cron engine uses it: `struct tm`, `mktime` and
  `localtime_r` of main/comp/cron/ccronexpr.cpp lines 137-148, in a zone with a fixed offset and
  the proleptic Gregorian calendar.

  An *instant* is a number of local seconds since 1970-01-01 00:00:00; a *day* is a number of days
  since then; a *month* is 12 * tm_year + tm_mon, so month 840 is January 1970.
 */
module Calendar {

  /** tm_year counts years from 1900. */
  predicate Leap(year: int) {
    var g := year + 1900;
    g % 4 == 0 && (g % 100 != 0 || g % 400 == 0)
  }

  function MonthLen(k: int): (len: int)
    ensures 28 <= len <= 31
  {
    var m := k % 12;
    if m == 1 then (if Leap(k / 12) then 29 else 28)
    else if m == 3 || m == 5 || m == 8 || m == 10 then 30
    else 31
  }

  const EPOCH_MONTH := 840

  /** The day on which month k begins: the calendar is the concatenation of its months. */
  function MonthStart(k: int): int
    decreases if k < EPOCH_MONTH then EPOCH_MONTH - k else k - EPOCH_MONTH
  {
    if k == EPOCH_MONTH then 0
    else if k > EPOCH_MONTH then MonthStart(k - 1) + MonthLen(k - 1)
    else MonthStart(k + 1) - MonthLen(k)
  }

  lemma MonthStep(k: int)
    ensures MonthStart(k + 1) == MonthStart(k) + MonthLen(k)
  {
  }

  lemma {:induction false} MonthStartMonotone(a: int, b: int)
    requires a <= b
    ensures MonthStart(a) + 28 * (b - a) <= MonthStart(b) <= MonthStart(a) + 31 * (b - a)
    decreases b - a
  {
    if a < b {
      MonthStartMonotone(a, b - 1);
      MonthStep(b - 1);
    }
  }

  function MonthFrom(d: int, k: int): (r: int)
    ensures MonthStart(r) <= d < MonthStart(r + 1)
    decreases if d < MonthStart(k) then MonthStart(k) - d else d - MonthStart(k)
  {
    MonthStep(k);
    MonthStep(k - 1);
    if d < MonthStart(k) then
      // stepping down may land below d only inside month k - 1, where the search stops
      if MonthStart(k - 1) <= d then k - 1 else MonthFrom(d, k - 1)
    else if d < MonthStart(k + 1) then k
    else MonthFrom(d, k + 1)
  }

  /** The month that day d lies in. */
  function MonthOf(d: int): (k: int)
    ensures MonthStart(k) <= d < MonthStart(k + 1)
  {
    MonthFrom(d, EPOCH_MONTH)
  }

  lemma MonthOfUnique(d: int, k: int)
    requires MonthStart(k) <= d < MonthStart(k + 1)
    ensures MonthOf(d) == k
  {
    var r := MonthOf(d);
    if r < k {
      MonthStartMonotone(r + 1, k);
    } else if r > k {
      MonthStartMonotone(k + 1, r);
    }
  }

  lemma MonthOfMonotone(d: int, d': int)
    requires d <= d'
    ensures MonthOf(d) <= MonthOf(d')
  {
    if MonthOf(d') < MonthOf(d) {
      MonthStartMonotone(MonthOf(d') + 1, MonthOf(d));
    }
  }

  function Mday(d: int): (m: int)
    ensures 1 <= m <= MonthLen(MonthOf(d))
  {
    MonthStep(MonthOf(d));
    d - MonthStart(MonthOf(d)) + 1
  }

  /** 1970-01-01 was a Thursday; Sunday is 0. */
  function Wday(d: int): (w: int)
    ensures 0 <= w < 7
  {
    (d + 4) % 7
  }

  function DayOf(x: int): int { x / 86400 }
  function HourOf(x: int): int { x / 3600 % 24 }
  function MinuteOf(x: int): int { x / 60 % 60 }
  function SecondOf(x: int): int { x % 60 }
  function YearOf(x: int): int { MonthOf(DayOf(x)) / 12 }

  /** The fields of struct tm that mktime reads, in any range. */
  datatype Broken = Broken(year: int, mon: int, mday: int, hour: int, min: int, sec: int)

  /** mktime: every field may be out of range, and carries into the next. */
  function ToInstant(b: Broken): int {
    (MonthStart(12 * b.year + b.mon) + b.mday - 1) * 86400 + b.hour * 3600 + b.min * 60 + b.sec
  }

  /** localtime_r: the one in-range reading of an instant. */
  function FromInstant(x: int): Broken {
    var d := DayOf(x);
    Broken(MonthOf(d) / 12, MonthOf(d) % 12, Mday(d), HourOf(x), MinuteOf(x), SecondOf(x))
  }

  lemma ClockOf(d: int, h: int, m: int, s: int)
    requires 0 <= h < 24 && 0 <= m < 60 && 0 <= s < 60
    ensures var x := d * 86400 + h * 3600 + m * 60 + s;
            DayOf(x) == d && HourOf(x) == h && MinuteOf(x) == m && SecondOf(x) == s
  {
    var x := d * 86400 + h * 3600 + m * 60 + s;
    assert x / 60 == d * 1440 + h * 60 + m;
    assert x / 3600 == d * 24 + h;
    assert x / 86400 == d;
  }

  lemma Clock(x: int)
    ensures x == DayOf(x) * 86400 + HourOf(x) * 3600 + MinuteOf(x) * 60 + SecondOf(x)
    ensures 0 <= HourOf(x) < 24 && 0 <= MinuteOf(x) < 60 && 0 <= SecondOf(x) < 60
  {
    assert x / 3600 == x / 60 / 60;
    assert x / 86400 == x / 3600 / 24;
  }

  lemma SplitMonth(k: int)
    ensures 12 * (k / 12) + k % 12 == k
  {
  }

  lemma FromToInstant(x: int)
    ensures ToInstant(FromInstant(x)) == x
  {
    Clock(x);
    SplitMonth(MonthOf(DayOf(x)));
  }

  lemma SplitYearMonth(y: int, m: int)
    requires 0 <= m < 12
    ensures (12 * y + m) / 12 == y && (12 * y + m) % 12 == m
  {
  }

  /** Reading back what mktime was given, when it was given in-range fields. */
  lemma ToFromInstant(b: Broken)
    requires 0 <= b.mon < 12 && 1 <= b.mday <= MonthLen(12 * b.year + b.mon)
    requires 0 <= b.hour < 24 && 0 <= b.min < 60 && 0 <= b.sec < 60
    ensures FromInstant(ToInstant(b)) == b
  {
    var k := 12 * b.year + b.mon;
    var d := MonthStart(k) + b.mday - 1;
    ClockOf(d, b.hour, b.min, b.sec);
    MonthStep(k);
    MonthOfUnique(d, k);
    SplitYearMonth(b.year, b.mon);
  }

  /** struct tm in a fixed-offset zone; `now` is the instant that its fields denoted when last normalised. */
  class Tm {
    const zone: int
    var year: int
    var mon: int
    var mday: int
    var hour: int
    var min: int
    var sec: int
    var wday: int
    ghost var now: int

    ghost function Fields(): Broken
      reads this
    {
      Broken(year, mon, mday, hour, min, sec)
    }

    /** All fields are in range and agree, as after mktime or localtime_r. */
    ghost predicate Normal()
      reads this
    {
      Fields() == FromInstant(now) && wday == Wday(DayOf(now))
    }

    /** localtime_r */
    constructor (zone: int, time: int)
      ensures this.zone == zone && now == time + zone && Normal()
    {
      var x := time + zone;
      var b := FromInstant(x);
      this.zone := zone;
      year, mon, mday := b.year, b.mon, b.mday;
      hour, min, sec := b.hour, b.min, b.sec;
      wday := Wday(DayOf(x));
      now := x;
    }

    /** mktime: puts every field in range, recomputes the day of the week and returns the time. */
    method MkTime() returns (time: int)
      modifies this
      ensures Normal() && now == ToInstant(old(Fields()))
      ensures old(Normal()) ==> now == old(now)
      ensures time == now - zone
    {
      FromToInstant(now);
      var x := ToInstant(Broken(year, mon, mday, hour, min, sec));
      var b := FromInstant(x);
      year, mon, mday := b.year, b.mon, b.mday;
      hour, min, sec := b.hour, b.min, b.sec;
      wday := Wday(DayOf(x));
      now := x;
      time := x - zone;
    }
  }
}
