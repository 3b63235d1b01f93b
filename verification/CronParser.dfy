/**
  The loops of the parser in ccronexpr.cpp (lines 511-902): splitting in two passes, replacing names, and
  setting the bits of a parsed expression.
 */
module CronParser {
  import opened CronParse
  import CronPrint
  import CronSearch
  import CronCorrect

  // ----- split_str -----

  /** The first pass: as many as the second will fill in. */
  method CountFields(str: string, del: char) returns (len: nat)
    ensures len == |SplitFrom(str, del, [])|
  {
    len := 0;
    var accum, i := 0, 0;
    ghost var cur: string := [];
    while i < |str|
      invariant i <= |str| && (accum > 0 <==> cur != [])
      invariant len + |SplitFrom(str[i..], del, cur)| == |SplitFrom(str, del, [])|
    {
      assert str[i..][1..] == str[i + 1..];
      if str[i] == del {
        if accum > 0 {
          len := len + 1;
          accum := 0;
        }
        cur := [];
      } else if !IsSpace(str[i]) {
        accum := accum + 1;
        cur := cur + [str[i]];
      }
      i := i + 1;
    }
    if accum > 0 {
      len := len + 1;
    }
  }

  /** split_str; an empty result stands for NULL. */
  method SplitStr(str: string, del: char) returns (fields: seq<string>)
    ensures fields == Split(str, del)
  {
    if |str| >= MAX_STR_LEN {
      return [];
    }
    var len := CountFields(str, del);
    if len == 0 {
      return [];
    }
    var res := new string[len];
    var buf: string := [];
    var ri: nat, i: nat := 0, 0;
    ghost var all := SplitFrom(str, del, []);
    while i < |str|
      invariant i <= |str| && ri <= len == |all|
      invariant res[..ri] + SplitFrom(str[i..], del, buf) == all
    {
      ghost var rest := str[i..];
      assert rest[1..] == str[i + 1..];
      if str[i] == del {
        if |buf| > 0 {
          Placed(res[..ri], [buf], SplitFrom(rest[1..], del, []), all);
          res[ri] := buf;
          ri := ri + 1;
          buf := [];
        }
      } else if !IsSpace(str[i]) {
        buf := buf + [str[i]];
      }
      i := i + 1;
    }
    if |buf| > 0 {
      res[ri] := buf;
      ri := ri + 1;
    }
    fields := res[..];
    assert res[..ri] == all;
  }

  lemma Placed(done: seq<string>, one: seq<string>, rest: seq<string>, all: seq<string>)
    requires |one| == 1 && done + (one + rest) == all
    ensures |done| < |all| && done + one + rest == all
  {
  }

  // ----- get_range and set_number_hits -----

  method RangeOf(field: string, min: nat, max: nat) returns (error: bool, lo: nat, hi: nat)
    ensures match GetRange(field, min, max)
            case None => error
            case Some(r) => !error && lo == r.lo && hi == r.hi
  {
    lo, hi := 0, 0;
    if field == "*" {
      if max == 0 {
        return true, 0, 0;
      }
      lo, hi := min, max - 1;
    } else if '-' !in field {
      var val := ParseUint(field);
      if val.None? {
        return true, 0, 0;
      }
      lo, hi := val.value, val.value;
    } else {
      var parts := SplitStr(field, '-');
      if |parts| != 2 {
        return true, 0, 0;
      }
      var first, second := ParseUint(parts[0]), ParseUint(parts[1]);
      if first.None? || second.None? {
        return true, 0, 0;
      }
      lo, hi := first.value, second.value;
    }
    error := lo >= max || hi >= max || lo < min || hi < min || lo > hi;
  }

  /** The bits after an item has been set. */
  ghost predicate SetBy(before: seq<bool>, after: seq<bool>, items: seq<Item>) {
    |after| == |before| && forall i :: 0 <= i < |before| ==> (after[i] <==> before[i] || Selected(items, i))
  }

  lemma SetMore(a: seq<bool>, b: seq<bool>, c: seq<bool>, items: seq<Item>, item: Item)
    requires SetBy(a, b, items) && |c| == |b| && forall i :: 0 <= i < |b| ==> (c[i] <==> b[i] || Hits(item, i))
    ensures SetBy(a, c, items + [item])
  {
    var all := items + [item];
    forall i | 0 <= i < |a|
      ensures Selected(all, i) <==> Selected(items, i) || Hits(item, i)
    {
      if Selected(items, i) {
        var k :| 0 <= k < |items| && Hits(items[k], i);
        assert Hits(all[k], i);
      }
      if Hits(item, i) {
        assert Hits(all[|items|], i);
      }
    }
  }

  /** for (i1 = range[0]; i1 <= range[1]; i1 += delta) */
  method SetSteps(target: array<bool>, item: Item)
    requires item.step > 0 && item.hi < target.Length
    modifies target
    ensures forall i :: 0 <= i < target.Length ==> (target[i] <==> old(target[i]) || Hits(item, i))
  {
    var i1, n := item.lo, 0;
    while i1 <= item.hi
      invariant n >= 0 && i1 == item.lo + n * item.step
      invariant forall i :: 0 <= i < target.Length ==> (target[i] <==> old(target[i]) || (Hits(item, i) && i < i1))
      decreases item.hi + 1 - i1
    {
      StepHits(item, n, i1);
      target[i1] := true;
      i1 := i1 + item.step;
      n := n + 1;
      assert i1 == item.lo + n * item.step;
    }
  }

  /** The n-th step is a hit, and there is none between it and the next. */
  lemma StepHits(item: Item, n: nat, at: nat)
    requires item.step > 0 && at == item.lo + n * item.step && at <= item.hi
    ensures Hits(item, at) && at + item.step == item.lo + (n + 1) * item.step
    ensures forall i :: at < i < at + item.step ==> !Hits(item, i)
  {
    Multiple(n, item.step);
    forall i | at < i < at + item.step
      ensures !Hits(item, i)
    {
      NoMultiple(n, item.step, i - item.lo);
    }
  }

  lemma Multiple(n: nat, step: nat)
    requires step > 0
    ensures (n * step) % step == 0 && (n + 1) * step == n * step + step
  {
    Divides(n * step, step, n);
  }

  lemma Divides(x: nat, step: nat, q: nat)
    requires step > 0 && x == q * step
    ensures x % step == 0
  {
    Remainder(x, step, q, 0);
  }

  lemma Remainder(x: nat, step: nat, q: nat, r: nat)
    requires step > 0 && x == q * step + r && r < step
    ensures x % step == r
  {
    var p := x / step;
    assert x == p * step + x % step;
    if p > q {
      Larger(p, q, step);
    } else if q > p {
      Larger(q, p, step);
    }
  }

  lemma {:induction false} Larger(p: nat, q: nat, step: nat)
    requires p > q && step > 0
    ensures p * step >= q * step + step
    decreases p
  {
    OneMore(p - 1, step);
    if p > q + 1 {
      Larger(p - 1, q, step);
    }
  }

  lemma OneMore(p: nat, step: nat)
    ensures (p + 1) * step == p * step + step
  {
  }

  lemma NoMultiple(n: nat, step: nat, x: int)
    requires step > 0 && n * step < x < n * step + step
    ensures x % step != 0
  {
    Remainder(x, step, n, x - n * step);
  }

  /** set_number_hits, on a bitset of max bits or more. */
  method SetNumberHits(value: string, target: array<bool>, min: nat, max: nat) returns (error: bool)
    requires target.Length >= max
    modifies target
    ensures error <==> NumberHits(value, min, max).None?
    ensures !error ==> SetBy(old(target[..]), target[..], NumberHits(value, min, max).value)
  {
    var fields := SplitStr(value, ',');
    if |fields| == 0 {
      return true;
    }
    ghost var items: seq<Item> := [];
    ghost var before := target[..];
    var i := 0;
    assert fields[0..] == fields;
    SoFarFirst(fields, min, max);
    while i < |fields|
      invariant i <= |fields| && SetBy(before, target[..], items)
      invariant SoFar(fields, i, items, min, max)
    {
      var item: Item;
      error, item := ReadItem(fields[i], min, max);
      ItemWithin(fields[i], min, max);
      SoFarNext(fields, i, items, min, max);
      if error {
        return;
      }
      ghost var was := target[..];
      SetSteps(target, item);
      SetMore(before, was, target[..], items, item);
      items := items + [item];
      i := i + 1;
    }
    assert fields[i..] == [];
    assert items + [] == items;
    error := false;
  }

  /** What has been read and what is to come make up the list. */
  ghost predicate SoFar(fields: seq<string>, i: nat, items: seq<Item>, min: nat, max: nat)
    requires i <= |fields|
  {
    match ItemsOf(fields[i..], min, max)
    case None => ItemsOf(fields, min, max).None?
    case Some(rest) => ItemsOf(fields, min, max) == Some(items + rest)
  }

  lemma SoFarFirst(fields: seq<string>, min: nat, max: nat)
    ensures SoFar(fields, 0, [], min, max)
  {
    assert fields[0..] == fields;
    if ItemsOf(fields, min, max).Some? {
      assert [] + ItemsOf(fields, min, max).value == ItemsOf(fields, min, max).value;
    }
  }

  lemma SoFarNext(fields: seq<string>, i: nat, items: seq<Item>, min: nat, max: nat)
    requires i < |fields| && SoFar(fields, i, items, min, max)
    ensures match ItemOf(fields[i], min, max)
            case None => ItemsOf(fields, min, max).None?
            case Some(item) => SoFar(fields, i + 1, items + [item], min, max)
  {
    var rest := fields[i..];
    assert rest[0] == fields[i] && rest[1..] == fields[i + 1..];
    if ItemOf(fields[i], min, max).Some? && ItemsOf(rest[1..], min, max).Some? {
      var item, more := ItemOf(fields[i], min, max).value, ItemsOf(rest[1..], min, max).value;
      assert items + ([item] + more) == (items + [item]) + more;
    }
  }

  /** One round of that loop, up to the setting of the bits. */
  method ReadItem(field: string, min: nat, max: nat) returns (error: bool, item: Item)
    ensures match ItemOf(field, min, max)
            case None => error
            case Some(it) => !error && item == it
  {
    item := Item(0, 0, 1);
    if '/' !in field {
      var lo, hi;
      error, lo, hi := RangeOf(field, min, max);
      if !error {
        item := Item(lo, hi, 1);
      }
    } else {
      var split := SplitStr(field, '/');
      if |split| != 2 {
        return true, item;
      }
      var lo, hi;
      error, lo, hi := RangeOf(split[0], min, max);
      if error {
        return;
      }
      if '-' !in split[0] {
        hi := max - 1;
      }
      var delta := ParseUint(split[1]);
      if delta.None? || delta.value == 0 {
        return true, item;
      }
      item := Item(lo, hi, delta.value);
    }
  }

  // ----- Names -----

  predicate OccursAt(s: string, rep: string, k: nat) {
    k + |rep| <= |s| && s[k..k + |rep|] == rep
  }

  /** No occurrence begins from `from` on and before `at`, or at all when that is -1. */
  ghost predicate NoneBefore(s: string, rep: string, from: nat, at: int) {
    forall k: nat :: from <= k && (at == -1 || k < at) ==> !OccursAt(s, rep, k)
  }

  /** The next occurrence, or -1. */
  ghost predicate IsNext(s: string, rep: string, from: nat, at: int) {
    NoneBefore(s, rep, from, at) && (at == -1 || (from <= at && OccursAt(s, rep, at)))
  }

  /** strstr, from an index on. */
  method StrStr(s: string, rep: string, from: nat) returns (at: int)
    requires from <= |s|
    ensures IsNext(s, rep, from, at)
  {
    at := from;
    while at + |rep| <= |s|
      invariant from <= at && NoneBefore(s, rep, from, at)
    {
      if s[at..at + |rep|] == rep {
        assert OccursAt(s, rep, at);
        return;
      }
      at := at + 1;
    }
    at := -1;
  }

  /** How often a text occurs, from the left and without overlap. */
  function Occurrences(s: string, rep: string, from: nat): nat
    requires rep != []
    decreases |s| - from
  {
    if from >= |s| then 0
    else if OccursAt(s, rep, from) then 1 + Occurrences(s, rep, from + |rep|)
    else Occurrences(s, rep, from + 1)
  }

  lemma {:induction false} OccurrencesTo(s: string, rep: string, from: nat, at: int)
    requires rep != [] && IsNext(s, rep, from, at)
    ensures Occurrences(s, rep, from) == if at == -1 then 0 else 1 + Occurrences(s, rep, at + |rep|)
    decreases |s| - from
  {
    if from < |s| && from != at {
      OccurrencesTo(s, rep, from + 1, at);
    }
  }

  lemma {:induction false} ReplaceTo(s: string, rep: string, with: string, from: nat, at: int)
    requires from <= |s| && rep != [] && IsNext(s, rep, from, at)
    ensures Replace(s[from..], rep, with) ==
              if at == -1 then s[from..] else s[from..at] + (with + Replace(s[at + |rep|..], rep, with))
    decreases |s| - from
  {
    if from < |s| {
      ReplaceOne(s, rep, with, from);
      if at == from {
        assert s[from..at] == [];
      } else {
        ReplaceTo(s, rep, with, from + 1, at);
        if at == -1 {
          assert s[from..] == [s[from]] + s[from + 1..];
        } else {
          ConsSlice(s, from, at, with + Replace(s[at + |rep|..], rep, with));
        }
      }
    }
  }

  lemma ConsSlice(s: string, from: nat, at: nat, rest: string)
    requires from < at <= |s|
    ensures [s[from]] + (s[from + 1..at] + rest) == s[from..at] + rest
  {
  }

  lemma ReplaceOne(s: string, rep: string, with: string, from: nat)
    requires from < |s| && rep != []
    ensures Replace(s[from..], rep, with) ==
              if OccursAt(s, rep, from) then with + Replace(s[from + |rep|..], rep, with)
              else [s[from]] + Replace(s[from + 1..], rep, with)
  {
    var r := s[from..];
    assert r[1..] == s[from + 1..];
    assert rep <= r <==> OccursAt(s, rep, from);
    if OccursAt(s, rep, from) {
      assert r[|rep|..] == s[from + |rep|..];
    }
  }

  /** The room that is asked for is the room that is needed. */
  lemma {:induction false} ReplaceLength(s: string, rep: string, with: string, from: nat)
    requires from <= |s| && rep != []
    ensures |Replace(s[from..], rep, with)| == |s| - from + (|with| - |rep|) * Occurrences(s, rep, from)
    decreases |s| - from
  {
    if from < |s| {
      ReplaceOne(s, rep, with, from);
      if OccursAt(s, rep, from) {
        ReplaceLength(s, rep, with, from + |rep|);
        OneMoreTime(|with| - |rep|, Occurrences(s, rep, from + |rep|));
      } else {
        ReplaceLength(s, rep, with, from + 1);
      }
    }
  }

  lemma OneMoreTime(d: int, n: nat)
    ensures d * (1 + n) == d + d * n
  {
  }

  /** So many are still to be counted from `at` on. */
  ghost predicate Counted(s: string, rep: string, count: nat, at: nat)
    requires rep != [] && at <= |s|
  {
    Occurrences(s, rep, 0) == count + Occurrences(s, rep, at)
  }

  lemma CountRound(s: string, rep: string, count: nat, at: nat, next: int)
    requires rep != [] && at <= |s| && IsNext(s, rep, at, next) && Counted(s, rep, count, at)
    ensures if next == -1 then count == Occurrences(s, rep, 0)
            else at <= next && next + |rep| <= |s| && Counted(s, rep, count + 1, next + |rep|)
  {
    OccurrencesTo(s, rep, at, next);
  }

  method CountOccurrences(orig: string, rep: string) returns (count: nat)
    requires rep != []
    ensures count == Occurrences(orig, rep, 0)
  {
    count := 0;
    var ins: nat := 0;
    var tmp := StrStr(orig, rep, 0);
    while tmp != -1
      invariant ins <= |orig| && IsNext(orig, rep, ins, tmp) && Counted(orig, rep, count, ins)
      decreases |orig| - ins
    {
      CountRound(orig, rep, count, ins, tmp);
      ins := tmp + |rep|;
      count := count + 1;
      tmp := StrStr(orig, rep, ins);
    }
    CountRound(orig, rep, count, ins, -1);
  }

  /** The copying has come to `at`, with `count` occurrences to go. */
  ghost predicate Copied(s: string, rep: string, with: string, result: string, at: nat, count: nat)
    requires rep != []
  {
    && at <= |s| && count == Occurrences(s, rep, at)
    && result + Replace(s[at..], rep, with) == Replace(s, rep, with)
  }

  lemma NothingCopied(s: string, rep: string, with: string)
    requires rep != []
    ensures Copied(s, rep, with, [], 0, Occurrences(s, rep, 0))
  {
    assert s[0..] == s;
  }

  lemma CopyOne(s: string, rep: string, with: string, result: string, at: nat, count: nat, next: int)
    requires rep != [] && count > 0 && Copied(s, rep, with, result, at, count) && IsNext(s, rep, at, next)
    ensures at <= next && next + |rep| <= |s|
    ensures Copied(s, rep, with, result + s[at..next] + with, next + |rep|, count - 1)
  {
    OccurrencesTo(s, rep, at, next);
    CopyRound(s, rep, with, at, next, result);
  }

  lemma CopyRest(s: string, rep: string, with: string, result: string, at: nat, last: int)
    requires rep != [] && Copied(s, rep, with, result, at, 0) && IsNext(s, rep, at, last)
    ensures result + s[at..] == Replace(s, rep, with)
  {
    OccurrencesTo(s, rep, at, last);
    ReplaceTo(s, rep, with, at, last);
  }

  /** str_replace: counting first, so that the result has room, and then copying. */
  method StrReplace(orig: string, rep: string, with: string) returns (result: string)
    requires rep != []
    ensures result == Replace(orig, rep, with)
  {
    var count := CountOccurrences(orig, rep);
    result := [];
    var at: nat := 0;
    NothingCopied(orig, rep, with);
    while count > 0
      invariant Copied(orig, rep, with, result, at, count)
    {
      var next := StrStr(orig, rep, at);
      CopyOne(orig, rep, with, result, at, count, next);
      result := result + orig[at..next] + with;
      at := next + |rep|;
      count := count - 1;
    }
    var last := StrStr(orig, rep, at);
    CopyRest(orig, rep, with, result, at, last);
    result := result + orig[at..];
  }

  lemma CopyRound(s: string, rep: string, with: string, at: nat, next: nat, result: string)
    requires rep != [] && at <= |s| && IsNext(s, rep, at, next)
    ensures next + |rep| <= |s| && at <= next
    ensures result + Replace(s[at..], rep, with)
            == (result + s[at..next] + with) + Replace(s[next + |rep|..], rep, with)
  {
    ReplaceTo(s, rep, with, at, next);
    Appended(result, s[at..next], with, Replace(s[next + |rep|..], rep, with));
  }

  lemma Appended(a: string, b: string, c: string, d: string)
    ensures a + (b + (c + d)) == (a + b + c) + d
  {
  }

  /** replace_ordinals */
  method ReplaceOrdinals(value: string, names: seq<string>) returns (res: string)
    requires Names(names)
    ensures res == ReplaceFrom(value, names, 0)
  {
    res := value;
    var i := 0;
    while i < |names|
      invariant i <= |names| && ReplaceFrom(res, names, i) == ReplaceFrom(value, names, 0)
    {
      res := StrReplace(res, names[i], Digits(i));
      i := i + 1;
    }
  }

  // ----- The expression -----

  /** Bits below `max` are set exactly for the selected numbers, shifted down. */
  ghost predicate Shows(bits: seq<bool>, items: seq<Item>, shift: nat) {
    forall i :: 0 <= i < |bits| ==> (bits[i] <==> Selected(items, i + shift))
  }

  /** Sunday is 0, however it was written. */
  ghost predicate ShowsDays(bits: seq<bool>, items: seq<Item>) {
    forall i :: 0 <= i < |bits| ==> (bits[i] <==> i < 7 && (Selected(items, i) || (i == 0 && Selected(items, 7))))
  }

  predicate Sized(e: CronSearch.Expr) {
    |e.seconds| == |e.minutes| == 64 && |e.hours| == 24 && |e.daysOfWeek| == 8 && |e.daysOfMonth| == 32
        && |e.months| == 16
  }

  /** The bitsets say what the schedule selects. */
  ghost predicate Loaded(e: CronSearch.Expr, s: Schedule) {
    && Sized(e)
    && Shows(e.seconds, s.seconds, 0) && Shows(e.minutes, s.minutes, 0) && Shows(e.hours, s.hours, 0)
    && ShowsDays(e.daysOfWeek, s.daysOfWeek) && Shows(e.daysOfMonth, s.daysOfMonth, 0) && Shows(e.months, s.months, 1)
  }

  /** The rotation of set_months. */
  method Rotate(targ: array<bool>)
    requires targ.Length == 16
    modifies targ
    ensures forall i :: 0 <= i < 12 ==> targ[i] == (old(targ[i + 1]) || (i == 0 && old(targ[0])))
    ensures !targ[12] && forall i :: 13 <= i < 16 ==> targ[i] == old(targ[i])
  {
    var i := 1;
    while i <= 12
      invariant 1 <= i <= 13
      invariant forall k :: 0 <= k < i - 1 ==> targ[k] == (old(targ[k + 1]) || (k == 0 && old(targ[0])))
      invariant i > 1 ==> !targ[i - 1]
      invariant i == 1 ==> targ[0] == old(targ[0])
      invariant forall k :: i <= k < 16 ==> targ[k] == old(targ[k])
    {
      if targ[i] {
        targ[i - 1] := true;
        targ[i] := false;
      }
      i := i + 1;
    }
  }

  /** A bitset that has been zeroed. */
  ghost predicate Zeroed(target: array<bool>)
    reads target
  {
    forall i :: 0 <= i < target.Length ==> !target[i]
  }

  /** set_months, on a zeroed bitset. */
  method SetMonths(value: string, targ: array<bool>) returns (error: bool)
    requires targ.Length == 16 && Zeroed(targ)
    modifies targ
    ensures error <==> Months(value).None?
    ensures !error ==> Shows(targ[..], Months(value).value, 1)
  {
    DaysAndMonthsAreGood();
    var upper := ToUpper(value);
    var replaced := ReplaceOrdinals(upper, MONTHS);
    error := SetMonthBits(replaced, targ);
  }

  /** The bits of the months, and their rotation. */
  method SetMonthBits(replaced: string, targ: array<bool>) returns (error: bool)
    requires targ.Length == 16 && Zeroed(targ)
    modifies targ
    ensures error <==> NumberHits(replaced, 1, 13).None?
    ensures !error ==> Shows(targ[..], NumberHits(replaced, 1, 13).value, 1)
  {
    error := SetNumberHits(replaced, targ, 1, 13);
    ghost var before := targ[..];
    Rotate(targ);
    HitsSomething(replaced, 1, 13);
    if !error {
      RotatedShows(before, targ[..], NumberHits(replaced, 1, 13).value);
    }
  }

  lemma RotatedShows(before: seq<bool>, after: seq<bool>, items: seq<Item>)
    requires |before| == |after| == 16 && Shows(before, items, 0) && forall x :: Selected(items, x) ==> 1 <= x < 13
    requires forall i :: 0 <= i < 12 ==> after[i] == (before[i + 1] || (i == 0 && before[0]))
    requires !after[12] && forall i :: 13 <= i < 16 ==> after[i] == before[i]
    ensures Shows(after, items, 1)
  {
    forall i | 0 <= i < 16
      ensures after[i] <==> Selected(items, i + 1)
    {
      assert before[i] <==> Selected(items, i);
      if i < 12 {
        assert before[i + 1] <==> Selected(items, i + 1);
      }
    }
  }

  /** set_days with the merging of Sunday, on a zeroed bitset. */
  method SetDays(value: string, targ: array<bool>) returns (error: bool)
    requires targ.Length == 8 && Zeroed(targ)
    modifies targ
    ensures error <==> DaysOfWeek(value).None?
    ensures !error ==> ShowsDays(targ[..], DaysOfWeek(value).value)
  {
    DaysAndMonthsAreGood();
    var upper := ToUpper(value);
    var field := ReplaceOrdinals(upper, DAYS);
    if field == "?" {
      field := "*";
    }
    error := SetNumberHits(field, targ, 0, 8);
    if error {
      return;
    }
    if targ[7] {
      targ[0] := true;
      targ[7] := false;
    }
  }

  /** A zeroed field with the bits of a list. */
  method SetField(value: string, targ: array<bool>, min: nat, max: nat) returns (error: bool)
    requires targ.Length >= max && Zeroed(targ)
    modifies targ
    ensures error <==> NumberHits(value, min, max).None?
    ensures !error ==> Shows(targ[..], NumberHits(value, min, max).value, 0)
  {
    error := SetNumberHits(value, targ, min, max);
  }

  /** cron_expr */
  class CronExpr {
    const seconds: array<bool>
    const minutes: array<bool>
    const hours: array<bool>
    const daysOfWeek: array<bool>
    const daysOfMonth: array<bool>
    const months: array<bool>

    ghost const repr: set<object>

    ghost predicate Valid() {
      && seconds.Length == minutes.Length == 64 && hours.Length == 24 && daysOfWeek.Length == 8
      && daysOfMonth.Length == 32 && months.Length == 16
      && seconds != minutes && seconds != hours && seconds != daysOfWeek && seconds != daysOfMonth && seconds != months
      && minutes != hours && minutes != daysOfWeek && minutes != daysOfMonth && minutes != months
      && hours != daysOfWeek && hours != daysOfMonth && hours != months
      && daysOfWeek != daysOfMonth && daysOfWeek != months && daysOfMonth != months
      && repr == {seconds, minutes, hours, daysOfWeek, daysOfMonth, months}
    }

    ghost function View(): CronSearch.Expr
      reads seconds, minutes, hours, daysOfWeek, daysOfMonth, months
    {
      CronSearch.Expr(seconds[..], minutes[..], hours[..], daysOfWeek[..], daysOfMonth[..], months[..])
    }

    /** The memset of cron_job_load_expression. */
    constructor ()
      ensures Valid() && fresh(repr)
      ensures Zeroed(seconds) && Zeroed(minutes) && Zeroed(hours) && Zeroed(daysOfWeek) && Zeroed(daysOfMonth)
              && Zeroed(months)
    {
      var s, m, h := new bool[64](_ => false), new bool[64](_ => false), new bool[24](_ => false);
      var w, d, n := new bool[8](_ => false), new bool[32](_ => false), new bool[16](_ => false);
      seconds, minutes, hours, daysOfWeek, daysOfMonth, months := s, m, h, w, d, n;
      repr := {s, m, h, w, d, n};
    }

    /** cron_parse_expr, on a zeroed expression. */
    method ParseExpr(expression: string) returns (error: bool)
      requires Valid()
      requires Zeroed(seconds) && Zeroed(minutes) && Zeroed(hours) && Zeroed(daysOfWeek) && Zeroed(daysOfMonth)
              && Zeroed(months)
      modifies repr
      ensures error <==> CronParse.ParseExpr(expression).None?
      ensures !error ==> Loaded(View(), CronParse.ParseExpr(expression).value)
    {
      var fields := SplitStr(expression, ' ');
      if |fields| != 6 {
        return true;
      }
      error := SetField(fields[0], seconds, 0, 60);
      if error { return; }
      error := SetField(fields[1], minutes, 0, 60);
      if error { return; }
      error := SetField(fields[2], hours, 0, 24);
      if error { return; }
      error := SetDays(fields[5], daysOfWeek);
      if error { return; }
      error := SetField(Unmarked(fields[3]), daysOfMonth, 1, 32);
      if error { return; }
      error := SetMonths(fields[4], months);
    }
  }

  // ----- What the engine gets -----

  lemma ShowsAny(bits: seq<bool>, value: string, min: nat, max: nat, shift: nat)
    requires NumberHits(value, min, max).Some? && Shows(bits, NumberHits(value, min, max).value, shift)
    requires shift <= min && max <= |bits| + shift
    ensures CronSearch.Any(bits, min - shift, max - shift)
  {
    HitsSomething(value, min, max);
    var x :| min <= x < max && Selected(NumberHits(value, min, max).value, x);
    assert CronSearch.Hit(bits, x - shift);
  }

  lemma MonthsAny(bits: seq<bool>, field: string)
    requires |bits| == 16 && Months(field).Some? && Shows(bits, Months(field).value, 1)
    ensures CronSearch.Any(bits, 0, 12)
  {
    DaysAndMonthsAreGood();
    ShowsAny(bits, ReplaceFrom(ToUpper(field), MONTHS, 0), 1, 13, 1);
  }

  lemma DaysAny(bits: seq<bool>, field: string)
    requires |bits| == 8 && DaysOfWeek(field).Some? && ShowsDays(bits, DaysOfWeek(field).value)
    ensures CronSearch.Any(bits, 0, 7)
  {
    DaysAndMonthsAreGood();
    var days := Unmarked(ReplaceFrom(ToUpper(field), DAYS, 0));
    HitsSomething(days, 0, 8);
    var x :| 0 <= x < 8 && Selected(NumberHits(days, 0, 8).value, x);
    assert CronSearch.Hit(bits, if x == 7 then 0 else x);
  }

  /** A parse without an error leaves no field empty, so the engine can search. */
  lemma ParsedIsNonEmpty(text: string, e: CronSearch.Expr)
    requires ParseExpr(text).Some? && Loaded(e, ParseExpr(text).value)
    ensures CronSearch.NonEmpty(e)
  {
    var fields := Split(text, ' ');
    ShowsAny(e.seconds, fields[0], 0, 60, 0);
    ShowsAny(e.minutes, fields[1], 0, 60, 0);
    ShowsAny(e.hours, fields[2], 0, 24, 0);
    DaysAny(e.daysOfWeek, fields[5]);
    ShowsAny(e.daysOfMonth, Unmarked(fields[3]), 1, 32, 0);
    MonthsAny(e.months, fields[4]);
  }

  /** Bits without a step between two numbers. */
  lemma ShowsRange(bits: seq<bool>, lo: nat, hi: nat, shift: nat, x: int)
    requires Shows(bits, [Item(lo, hi, 1)], shift) && 0 <= x < |bits|
    ensures CronSearch.Hit(bits, x) <==> lo <= x + shift <= hi
  {
    var items := [Item(lo, hi, 1)];
    assert Hits(items[0], x + shift) <==> lo <= x + shift <= hi;
    assert Selected(items, x + shift) <==> Hits(items[0], x + shift);
  }

  /**
    From the text that the firmware writes to the time its job runs next: the expression fires at m past h,
    every day.
   */
  lemma DailyLoaded(h: nat, m: nat, e: CronSearch.Expr, x: int)
    requires h < 24 && m < 60
    requires ParseExpr(CronPrint.DailyText(h, m)).Some? && Loaded(e, ParseExpr(CronPrint.DailyText(h, m)).value)
    ensures CronSearch.NonEmpty(e) && CronCorrect.Daily(e, h, m)
    ensures CronCorrect.CronNext(e, x) == CronSearch.Found(CronCorrect.NextAt(x, h, m))
  {
    CronPrint.DailyParses(h, m);
    ParsedIsNonEmpty(CronPrint.DailyText(h, m), e);
    assert CronCorrect.Daily(e, h, m) by {
      DailyBits(h, m, e);
    }
    CronCorrect.DailyNext(e, h, m, x);
  }

  lemma DailyBits(h: nat, m: nat, e: CronSearch.Expr)
    requires h < 24 && m < 60
    requires Loaded(e, Schedule([Item(0, 0, 1)], [Item(m, m, 1)], [Item(h, h, 1)], [Item(0, 7, 1)],
                                [Item(1, 31, 1)], [Item(1, 12, 1)]))
    ensures CronCorrect.Daily(e, h, m)
  {
    forall i
      ensures CronSearch.Hit(e.seconds, i) <==> i == 0
      ensures CronSearch.Hit(e.minutes, i) <==> i == m
      ensures CronSearch.Hit(e.hours, i) <==> i == h
    {
      if 0 <= i < 64 {
        ShowsRange(e.seconds, 0, 0, 0, i);
        ShowsRange(e.minutes, m, m, 0, i);
      }
      if 0 <= i < 24 {
        ShowsRange(e.hours, h, h, 0, i);
      }
    }
    forall i | 1 <= i < 32
      ensures CronSearch.Hit(e.daysOfMonth, i)
    {
      ShowsRange(e.daysOfMonth, 1, 31, 0, i);
    }
    forall i | 0 <= i < 12
      ensures CronSearch.Hit(e.months, i)
    {
      ShowsRange(e.months, 1, 12, 1, i);
    }
    var week := [Item(0, 7, 1)];
    forall i | 0 <= i < 7
      ensures CronSearch.Hit(e.daysOfWeek, i)
    {
      assert Hits(week[0], i);
      assert Selected(week, i);
    }
  }
}
