/**
  What the parser of ccronexpr.cpp (lines 492-902) makes of a schedule: each field is a list of ranges
  with steps, and selects the numbers in them. CronParser has the loops that set the bits.
 */
module CronParse {

  datatype Option<T> = None | Some(value: T)

  const MAX_STR_LEN := 256
  const INT_MAX := 0x7FFF_FFFF

  // ----- Splitting -----

  predicate IsSpace(c: char) {
    c == ' ' || '\t' <= c <= '\r'
  }

  /** The fields of the rest of a string, when `cur` has been read of the first. */
  function SplitFrom(s: string, del: char, cur: string): seq<string> {
    if s == [] then Piece(cur)
    else if s[0] == del then Piece(cur) + SplitFrom(s[1..], del, [])
    else if IsSpace(s[0]) then SplitFrom(s[1..], del, cur)
    else SplitFrom(s[1..], del, cur + [s[0]])
  }

  function Piece(cur: string): seq<string> {
    if cur == [] then [] else [cur]
  }

  /** split_str: the non-empty fields without white space; none when the string is too long. */
  function Split(s: string, del: char): seq<string> {
    if |s| >= MAX_STR_LEN then [] else SplitFrom(s, del, [])
  }

  // ----- Numbers -----

  function DigitOf(c: char): nat {
    if '0' <= c <= '9' then (c - '0') as nat
    else if 'a' <= c <= 'f' then (c - 'a') as nat + 10
    else if 'A' <= c <= 'F' then (c - 'A') as nat + 10
    else 16
  }

  /** The value of digits in a base, when all are digits of that base and there is one. */
  function DigitsValue(s: string, base: nat): Option<nat> {
    if s == [] || DigitOf(s[|s| - 1]) >= base then None
    else if |s| == 1 then Some(DigitOf(s[0]))
    else
      match DigitsValue(s[..|s| - 1], base)
      case None => None
      case Some(v) => Some(v * base + DigitOf(s[|s| - 1]))
  }

  /** strtol in base 0, of a whole unsigned string: hexadecimal after 0x, octal after 0. */
  function Unsigned(s: string): Option<nat> {
    if |s| > 2 && s[0] == '0' && (s[1] == 'x' || s[1] == 'X') then DigitsValue(s[2..], 16)
    else if s != [] && s[0] == '0' then DigitsValue(s, 8)
    else DigitsValue(s, 10)
  }

  /** parse_uint; a string without digits is only accepted when it is empty. */
  function ParseUint(s: string): Option<nat> {
    if s == [] then Some(0)
    else
      var v := Unsigned(if s[0] == '+' || s[0] == '-' then s[1..] else s);
      if v.None? || v.value > INT_MAX || (s[0] == '-' && v.value > 0) then None else v
  }

  // ----- Fields -----

  /** From lo to hi in steps. */
  datatype Item = Item(lo: nat, hi: nat, step: nat)

  datatype Range = Range(lo: nat, hi: nat)

  function CheckedRange(lo: nat, hi: nat, min: nat, max: nat): Option<Range> {
    if min <= lo <= hi < max then Some(Range(lo, hi)) else None
  }

  /** get_range */
  function GetRange(field: string, min: nat, max: nat): Option<Range> {
    if field == "*" then (if max > 0 then CheckedRange(min, max - 1, min, max) else None)
    else if '-' !in field then
      match ParseUint(field)
      case None => None
      case Some(v) => CheckedRange(v, v, min, max)
    else
      var parts := Split(field, '-');
      if |parts| != 2 then None
      else
        match (ParseUint(parts[0]), ParseUint(parts[1]))
        case (Some(lo), Some(hi)) => CheckedRange(lo, hi, min, max)
        case _ => None
  }

  /** One entry of a list: a range, or a range and a step; a single start with a step goes on to the end. */
  function ItemOf(field: string, min: nat, max: nat): Option<Item> {
    if '/' !in field then
      match GetRange(field, min, max)
      case None => None
      case Some(r) => Some(Item(r.lo, r.hi, 1))
    else
      var split := Split(field, '/');
      if |split| != 2 then None
      else
        match (GetRange(split[0], min, max), ParseUint(split[1]))
        case (Some(r), Some(step)) =>
          if step == 0 then None else Some(Item(r.lo, if '-' !in split[0] then max - 1 else r.hi, step))
        case _ => None
  }

  function ItemsOf(fields: seq<string>, min: nat, max: nat): Option<seq<Item>> {
    if fields == [] then Some([])
    else
      match (ItemOf(fields[0], min, max), ItemsOf(fields[1..], min, max))
      case (Some(item), Some(rest)) => Some([item] + rest)
      case _ => None
  }

  /** set_number_hits: the items of a list, or an error. */
  function NumberHits(value: string, min: nat, max: nat): Option<seq<Item>> {
    var fields := Split(value, ',');
    if fields == [] then None else ItemsOf(fields, min, max)
  }

  predicate Hits(item: Item, x: int) {
    item.lo <= x <= item.hi && item.step > 0 && (x - item.lo) % item.step == 0
  }

  predicate Selected(items: seq<Item>, x: int) {
    exists i :: 0 <= i < |items| && Hits(items[i], x)
  }

  // ----- Names -----

  function ToUpper(s: string): string {
    if s == [] then [] else [if 'a' <= s[0] <= 'z' then s[0] - (32 as char) else s[0]] + ToUpper(s[1..])
  }

  /** to_string */
  function Digits(n: nat): string {
    if n < 10 then ['0' + (n as char)] else Digits(n / 10) + ['0' + ((n % 10) as char)]
  }

  /** str_replace: every occurrence, from the left. */
  function Replace(s: string, rep: string, with: string): string
    requires rep != []
    decreases |s|
  {
    if s == [] then []
    else if rep <= s then with + Replace(s[|rep|..], rep, with)
    else [s[0]] + Replace(s[1..], rep, with)
  }

  predicate Names(names: seq<string>) {
    forall i :: 0 <= i < |names| ==> names[i] != []
  }

  /** replace_ordinals, from the k-th name on. */
  function ReplaceFrom(s: string, names: seq<string>, k: nat): string
    requires Names(names) && k <= |names|
    decreases |names| - k
  {
    if k == |names| then s else ReplaceFrom(Replace(s, names[k], Digits(k)), names, k + 1)
  }

  const DAYS: seq<string> := ["SUN", "MON", "TUE", "WED", "THU", "FRI", "SAT"]

  const MONTHS: seq<string> :=
    ["FOO", "JAN", "FEB", "MAR", "APR", "MAY", "JUN", "JUL", "AUG", "SEP", "OCT", "NOV", "DEC"]

  // ----- The expression -----

  /** The items of the six fields. */
  datatype Schedule = Schedule(seconds: seq<Item>, minutes: seq<Item>, hours: seq<Item>,
                               daysOfWeek: seq<Item>, daysOfMonth: seq<Item>, months: seq<Item>)

  /** A question mark stands for a star in the two day fields. */
  function Unmarked(field: string): string {
    if field == "?" then "*" else field
  }

  function DaysOfWeek(field: string): Option<seq<Item>> {
    NumberHits(Unmarked(ReplaceFrom(ToUpper(field), DAYS, 0)), 0, 8)
  }

  function Months(field: string): Option<seq<Item>> {
    NumberHits(ReplaceFrom(ToUpper(field), MONTHS, 0), 1, 13)
  }

  /** cron_parse_expr, as far as errors and the items go. */
  function ParseExpr(expression: string): Option<Schedule> {
    var fields := Split(expression, ' ');
    if |fields| != 6 then None
    else
      match (NumberHits(fields[0], 0, 60), NumberHits(fields[1], 0, 60), NumberHits(fields[2], 0, 24),
             DaysOfWeek(fields[5]), NumberHits(Unmarked(fields[3]), 1, 32), Months(fields[4]))
      case (Some(seconds), Some(minutes), Some(hours), Some(daysOfWeek), Some(daysOfMonth), Some(months)) =>
        Some(Schedule(seconds, minutes, hours, daysOfWeek, daysOfMonth, months))
      case _ => None
  }

  // ----- What is selected -----

  /** Every item lies within the bounds and begins with a hit. */
  ghost predicate Within(items: seq<Item>, min: nat, max: nat) {
    forall i :: 0 <= i < |items| ==> min <= items[i].lo <= items[i].hi < max && items[i].step > 0
  }

  lemma ItemWithin(field: string, min: nat, max: nat)
    ensures match ItemOf(field, min, max)
            case None => true
            case Some(item) => min <= item.lo <= item.hi < max && item.step > 0
  {
  }

  lemma {:induction false} ItemsWithin(fields: seq<string>, min: nat, max: nat)
    ensures match ItemsOf(fields, min, max)
            case None => true
            case Some(items) => Within(items, min, max) && |items| == |fields|
  {
    if fields != [] {
      ItemWithin(fields[0], min, max);
      ItemsWithin(fields[1..], min, max);
    }
  }

  /** Without an error, something is selected, and only numbers within the bounds. */
  lemma HitsSomething(value: string, min: nat, max: nat)
    ensures match NumberHits(value, min, max)
            case None => true
            case Some(items) =>
              Within(items, min, max) && (exists x :: min <= x < max && Selected(items, x))
              && forall x :: Selected(items, x) ==> min <= x < max
  {
    var fields := Split(value, ',');
    ItemsWithin(fields, min, max);
    if NumberHits(value, min, max).Some? {
      var items := NumberHits(value, min, max).value;
      assert Hits(items[0], items[0].lo);
      assert Selected(items, items[0].lo);
    }
  }

  // ----- Splitting what was joined -----

  function Join(fields: seq<string>, del: char): string {
    if fields == [] then [] else if |fields| == 1 then fields[0] else fields[0] + [del] + Join(fields[1..], del)
  }

  /** Neither the delimiter nor white space, and not empty. */
  predicate Solid(field: string, del: char) {
    field != [] && forall i :: 0 <= i < |field| ==> field[i] != del && !IsSpace(field[i])
  }

  lemma {:induction false} SplitOne(field: string, rest: string, del: char, cur: string)
    requires forall i :: 0 <= i < |field| ==> field[i] != del && !IsSpace(field[i])
    ensures SplitFrom(field + rest, del, cur) == SplitFrom(rest, del, cur + field)
    decreases |field|
  {
    if field == [] {
      assert field + rest == rest && cur + field == cur;
    } else {
      assert (field + rest)[1..] == field[1..] + rest;
      SplitOne(field[1..], rest, del, cur + [field[0]]);
      assert cur + [field[0]] + field[1..] == cur + field;
    }
  }

  /** Fields that are joined with the delimiter come back. */
  lemma {:induction false} SplitJoined(fields: seq<string>, del: char)
    requires forall i :: 0 <= i < |fields| ==> Solid(fields[i], del)
    ensures SplitFrom(Join(fields, del), del, []) == fields
    decreases |fields|
  {
    if fields != [] {
      var f := fields[0];
      assert [] + f == f;
      if |fields| == 1 {
        assert f + [] == f;
        SplitOne(f, [], del, []);
      } else {
        var rest := [del] + Join(fields[1..], del);
        assert Join(fields, del) == f + rest;
        assert rest[1..] == Join(fields[1..], del);
        SplitOne(f, rest, del, []);
        SplitJoined(fields[1..], del);
        assert fields == [f] + fields[1..];
      }
    }
  }

  // ----- Names stand for their numbers -----

  /** A text of names and other characters. */
  datatype Word = Name(k: nat) | Other(c: char)

  predicate Capital(c: char) { 'A' <= c <= 'Z' }

  /** Names of three capitals, no two the same. */
  predicate GoodNames(names: seq<string>) {
    && Names(names) && |names| <= 100
    && (forall i :: 0 <= i < |names| ==>
        |names[i]| == 3 && Capital(names[i][0]) && Capital(names[i][1]) && Capital(names[i][2]))
    && (forall i, j :: 0 <= i < j < |names| ==> names[i] != names[j])
  }

  /** No name follows another directly, and what is between them is not a capital. */
  predicate Separated(words: seq<Word>, names: seq<string>) {
    && (forall i :: 0 <= i < |words| ==>
          match words[i]
          case Name(k) => k < |names|
          case Other(c) => !Capital(c))
    && (forall i :: 0 < i < |words| ==> words[i - 1].Other? || words[i].Other?)
  }

  /** The text when the names before the k-th have been replaced. */
  function Render(words: seq<Word>, names: seq<string>, k: nat): string
    requires Separated(words, names)
  {
    if words == [] then []
    else
      (match words[0]
       case Name(j) => if j < k then Digits(j) else names[j]
       case Other(c) => [c]) + Render(words[1..], names, k)
  }

  lemma {:induction false} DigitsAreNoCapitals(n: nat)
    ensures Digits(n) != [] && forall i :: 0 <= i < |Digits(n)| ==> '0' <= Digits(n)[i] <= '9'
  {
    if n >= 10 {
      DigitsAreNoCapitals(n / 10);
    }
  }

  lemma {:induction false} SkipOthers(skip: string, rest: string, rep: string, with: string)
    requires rep != [] && Capital(rep[0]) && forall i :: 0 <= i < |skip| ==> !Capital(skip[i])
    ensures Replace(skip + rest, rep, with) == skip + Replace(rest, rep, with)
    decreases |skip|
  {
    if skip == [] {
      assert skip + rest == rest;
    } else {
      assert (skip + rest)[1..] == skip[1..] + rest && (skip + rest)[0] == skip[0];
      SkipOthers(skip[1..], rest, rep, with);
      assert skip + Replace(rest, rep, with) == [skip[0]] + (skip[1..] + Replace(rest, rep, with));
    }
  }

  lemma SkipOne(c: char, rest: string, rep: string, with: string)
    requires rep != [] && !(rep <= [c] + rest)
    ensures Replace([c] + rest, rep, with) == [c] + Replace(rest, rep, with)
  {
    assert ([c] + rest)[1..] == rest;
  }

  /** A different name, and no capital after it. */
  lemma SkipName(name: string, rest: string, rep: string, with: string)
    requires |name| == |rep| == 3 && name != rep && Capital(rep[0]) && Capital(rep[1]) && Capital(rep[2])
    requires rest == [] || !Capital(rest[0])
    ensures Replace(name + rest, rep, with) == name + Replace(rest, rep, with)
  {
    var s2 := [name[2]] + rest;
    var s1 := [name[1]] + s2;
    var s := [name[0]] + s1;
    assert s == name + rest && s[..3] == name;
    SkipOne(name[0], s1, rep, with);
    assert |s1| > 2 ==> s1[2] == rest[0];
    SkipOne(name[1], s2, rep, with);
    assert |s2| > 1 ==> s2[1] == rest[0];
    SkipOne(name[2], rest, rep, with);
    assert name + Replace(rest, rep, with) == [name[0]] + ([name[1]] + ([name[2]] + Replace(rest, rep, with)));
  }

  lemma TakeName(rest: string, rep: string, with: string)
    requires rep != []
    ensures Replace(rep + rest, rep, with) == with + Replace(rest, rep, with)
  {
    assert (rep + rest)[|rep|..] == rest;
  }

  lemma SeparatedRest(words: seq<Word>, names: seq<string>)
    requires words != [] && Separated(words, names)
    ensures Separated(words[1..], names)
    ensures words[0].Name? && |words| > 1 ==> words[1].Other?
  {
  }

  lemma RestBegins(words: seq<Word>, names: seq<string>, k: nat)
    requires words != [] && words[0].Name? && Separated(words, names) && Separated(words[1..], names)
    ensures var rest := Render(words[1..], names, k); rest == [] || !Capital(rest[0])
  {
    if |words| > 1 {
      assert words[1].Other? && words[1..][0] == words[1];
    }
  }

  /** One name is replaced throughout. */
  lemma {:induction false} ReplaceName(words: seq<Word>, names: seq<string>, k: nat)
    requires GoodNames(names) && Separated(words, names) && k < |names|
    ensures Replace(Render(words, names, k), names[k], Digits(k)) == Render(words, names, k + 1)
    decreases |words|
  {
    if words != [] {
      var rep, with := names[k], Digits(k);
      SeparatedRest(words, names);
      var rest := Render(words[1..], names, k);
      ReplaceName(words[1..], names, k);
      match words[0]
      case Other(c) => SkipOthers([c], rest, rep, with);
      case Name(j) =>
        RestBegins(words, names, k);
        if j < k {
          DigitsAreNoCapitals(j);
          SkipOthers(Digits(j), rest, rep, with);
        } else if j == k {
          TakeName(rest, rep, with);
        } else {
          SkipName(names[j], rest, rep, with);
        }
    }
  }

  /** Every name in a text stands for its number, whatever the letters' case. */
  lemma {:induction false} NamesReplaced(words: seq<Word>, names: seq<string>, k: nat)
    requires GoodNames(names) && Separated(words, names) && k <= |names|
    ensures ReplaceFrom(Render(words, names, k), names, k) == Render(words, names, |names|)
    decreases |names| - k
  {
    if k < |names| {
      ReplaceName(words, names, k);
      NamesReplaced(words, names, k + 1);
    }
  }

  lemma NamesMean(field: string, words: seq<Word>, names: seq<string>)
    requires GoodNames(names) && Separated(words, names) && ToUpper(field) == Render(words, names, 0)
    ensures ReplaceFrom(ToUpper(field), names, 0) == Render(words, names, |names|)
  {
    NamesReplaced(words, names, 0);
  }

  lemma DaysAndMonthsAreGood()
    ensures GoodNames(DAYS) && |DAYS| == 7 && GoodNames(MONTHS) && |MONTHS| == 13
  {
    DaysDiffer();
    MonthsDiffer();
  }

  lemma DaysDiffer()
    ensures forall i, j :: 0 <= i < j < 7 ==> DAYS[i] != DAYS[j]
  {
    forall i, j | 0 <= i < j < 7
      ensures DAYS[i] != DAYS[j]
    {
      assert DAYS[i][0] != DAYS[j][0] || DAYS[i][1] != DAYS[j][1];
    }
  }

  lemma MonthsDiffer()
    ensures forall i, j :: 0 <= i < j < 13 ==> MONTHS[i] != MONTHS[j]
  {
    forall i, j | 0 <= i < j < 13
      ensures MONTHS[i] != MONTHS[j]
    {
      assert MONTHS[i][0] != MONTHS[j][0] || MONTHS[i][1] != MONTHS[j][1] || MONTHS[i][2] != MONTHS[j][2];
    }
  }

  // ----- Numbers in digits -----

  lemma OneDigit(d: nat)
    requires d < 10
    ensures DigitOf('0' + (d as char)) == d
  {
  }

  lemma {:induction false} DigitsRead(n: nat)
    ensures DigitsValue(Digits(n), 10) == Some(n)
    ensures n > 0 ==> Digits(n)[0] != '0'
    decreases n
  {
    OneDigit(n % 10);
    if n >= 10 {
      DigitsRead(n / 10);
      var s, rest := Digits(n), Digits(n / 10);
      assert s[..|s| - 1] == rest && s[0] == rest[0];
    }
  }

  /** A number that is written in decimal digits is read back when it fits into an int. */
  lemma NumberOfDigits(n: nat)
    ensures ParseUint(Digits(n)) == if n <= 0x7FFF_FFFF then Some(n) else None
  {
    DigitsAreNoCapitals(n);
    DigitsRead(n);
  }

  lemma ShortNumber(n: nat)
    requires n < 100
    ensures 1 <= |Digits(n)| <= 2
  {
  }

  lemma TwoDigits(s: string, base: nat)
    requires |s| == 2 && DigitOf(s[0]) < base && DigitOf(s[1]) < base
    ensures DigitsValue(s, base) == Some(DigitOf(s[0]) * base + DigitOf(s[1]))
  {
    assert s[..1] == [s[0]];
  }

  /** The digits of the bases up to 16, in either case. */
  lemma DigitMeans(c: char)
    ensures forall d :: 0 <= d < 16 ==>
            (DigitOf(c) == d <==> c == "0123456789abcdef"[d] || c == "0123456789ABCDEF"[d])
    ensures DigitOf(c) <= 16
  {
  }

  /** Blank, tabs and line ends; none of them counts in a field, wherever it stands. */
  lemma {:induction false} SpaceIgnored(a: string, w: char, b: string, del: char, cur: string)
    requires (w as int == 32 || 9 <= w as int <= 13) && w != del
    ensures SplitFrom(a + [w] + b, del, cur) == SplitFrom(a + b, del, cur)
    decreases |a|
  {
    if a == [] {
      assert (a + [w] + b)[1..] == b && a + b == b;
    } else {
      assert (a + [w] + b)[1..] == a[1..] + [w] + b && (a + b)[1..] == a[1..] + b;
      SpaceIgnored(a[1..], w, b, del, []);
      SpaceIgnored(a[1..], w, b, del, cur);
      SpaceIgnored(a[1..], w, b, del, cur + [a[0]]);
    }
  }

  /** Numbers as C reads them: hexadecimal behind 0x, octal behind 0, with a sign; a negative one is an error. */
  lemma NumberNotations()
    ensures ParseUint("0x1f") == ParseUint("0X1F") == Some(31) && ParseUint("017") == Some(15)
            && ParseUint("08") == None
    ensures ParseUint("42") == ParseUint("+42") == Some(42) && ParseUint("-42") == None && ParseUint("-0") == Some(0)
    ensures ParseUint("4a") == None && ParseUint("") == Some(0) && ParseUint("+") == None
  {
    TwoDigits("1f", 16);
    TwoDigits("1F", 16);
    assert "0x1f"[2..] == "1f" && "0X1F"[2..] == "1F";
    TwoDigits("17", 8);
    assert "017"[..2] == "01" && "01"[..1] == "0";
    TwoDigits("42", 10);
    assert "+42"[1..] == "42" && "-42"[1..] == "42" && "-0"[1..] == "0" && "+"[1..] == "";
  }
}
