/**
  Schedules that are printed and read again by the parser of ccronexpr.cpp (lines 492-902): in all its
  notations, with stars, single numbers, ranges, steps, and the names of days and months.
 */
module CronPrint {
  import opened CronParse

  // ----- Printing -----

  /** A number in digits, or as the name it has in its field. */
  datatype Number = Plain(n: nat) | Named(n: nat)

  datatype Part = Every | Exactly(x: Number) | Between(lo: Number, hi: Number)

  datatype Entry = Entry(part: Part, step: Option<Number>)

  function NumberText(x: Number, names: seq<string>): string {
    if x.Named? && x.n < |names| then names[x.n] else Digits(x.n)
  }

  function PartText(p: Part, names: seq<string>): string {
    match p
    case Every => "*"
    case Exactly(x) => NumberText(x, names)
    case Between(lo, hi) => NumberText(lo, names) + "-" + NumberText(hi, names)
  }

  function EntryText(e: Entry, names: seq<string>): string {
    match e.step
    case None => PartText(e.part, names)
    case Some(k) => PartText(e.part, names) + "/" + NumberText(k, names)
  }

  function EntryTexts(list: seq<Entry>, names: seq<string>): (texts: seq<string>)
    ensures |texts| == |list|
  {
    if list == [] then [] else [EntryText(list[0], names)] + EntryTexts(list[1..], names)
  }

  function ListText(list: seq<Entry>, names: seq<string>): string {
    Join(EntryTexts(list, names), ',')
  }

  /** A single number with a step goes on to the end of its field. */
  function Means(e: Entry, min: nat, max: nat): Item
    requires max > 0
  {
    var step := if e.step.None? then 1 else e.step.value.n;
    match e.part
    case Every => Item(min, max - 1, step)
    case Exactly(x) => Item(x.n, if e.step.None? then x.n else max - 1, step)
    case Between(lo, hi) => Item(lo.n, hi.n, step)
  }

  function Meanings(list: seq<Entry>, min: nat, max: nat): seq<Item>
    requires max > 0
  {
    if list == [] then [] else [Means(list[0], min, max)] + Meanings(list[1..], min, max)
  }

  /** Its numbers are within the bounds, and its step fits into an int. */
  predicate Printable(e: Entry, min: nat, max: nat)
    requires max > 0
  {
    var item := Means(e, min, max);
    min <= item.lo <= item.hi < max <= INT_MAX && 1 <= item.step <= INT_MAX
  }

  predicate AllPrintable(list: seq<Entry>, min: nat, max: nat)
    requires max > 0
  {
    list != [] && forall i :: 0 <= i < |list| ==> Printable(list[i], min, max)
  }

  // ----- Reading what was printed in digits -----

  lemma DigitsAreSolid(n: nat)
    ensures Solid(Digits(n), '-') && Solid(Digits(n), '/') && Solid(Digits(n), ',') && Digits(n) != "*"
    ensures '-' !in Digits(n) && '/' !in Digits(n)
  {
    DigitsAreNoCapitals(n);
  }

  /** Two fields with a delimiter between them. */
  lemma TwoFields(a: string, b: string, del: char)
    requires Solid(a, del) && Solid(b, del) && |a| + |b| + 1 < MAX_STR_LEN
    ensures Split(a + [del] + b, del) == [a, b]
  {
    SplitJoined([a, b], del);
    assert [a, b][1..] == [b];
    assert Join([a, b], del) == a + [del] + b;
  }

  lemma SolidDelim(a: string, c: char, b: string, del: char)
    requires Solid(a, del) && Solid(b, del) && c != del && !IsSpace(c)
    ensures Solid(a + [c] + b, del)
  {
  }

  lemma PartSolid(p: Part)
    ensures Solid(PartText(p, []), '/') && Solid(PartText(p, []), ',') && '/' !in PartText(p, [])
    ensures '-' in PartText(p, []) <==> p.Between?
  {
    match p
    case Every =>
    case Exactly(x) => DigitsAreSolid(x.n);
    case Between(lo, hi) =>
      DigitsAreSolid(lo.n);
      DigitsAreSolid(hi.n);
      SolidDelim(Digits(lo.n), '-', Digits(hi.n), '/');
      SolidDelim(Digits(lo.n), '-', Digits(hi.n), ',');
      assert PartText(p, [])[|Digits(lo.n)|] == '-';
  }

  function PartMeans(p: Part, min: nat, max: nat): Range
    requires max > 0
  {
    match p
    case Every => Range(min, max - 1)
    case Exactly(x) => Range(x.n, x.n)
    case Between(lo, hi) => Range(lo.n, hi.n)
  }

  /** A range within the bounds. */
  predicate InBounds(r: Range, min: nat, max: nat) {
    min <= r.lo <= r.hi < max
  }

  lemma PartReads(p: Part, min: nat, max: nat)
    requires 0 < max <= INT_MAX && |PartText(p, [])| < MAX_STR_LEN
    ensures var r := PartMeans(p, min, max);
            GetRange(PartText(p, []), min, max) == if InBounds(r, min, max) then Some(r) else None
  {
    PartSolid(p);
    match p
    case Every =>
    case Exactly(x) =>
      DigitsAreSolid(x.n);
      NumberOfDigits(x.n);
    case Between(lo, hi) => BetweenReads(lo, hi, min, max);
  }

  lemma BetweenReads(lo: Number, hi: Number, min: nat, max: nat)
    requires |PartText(Between(lo, hi), [])| < MAX_STR_LEN && max <= INT_MAX
    ensures var r := Range(lo.n, hi.n);
            GetRange(PartText(Between(lo, hi), []), min, max) == if InBounds(r, min, max) then Some(r) else None
  {
    PartSolid(Between(lo, hi));
    DigitsAreSolid(lo.n);
    DigitsAreSolid(hi.n);
    TwoFields(Digits(lo.n), Digits(hi.n), '-');
    NumberOfDigits(lo.n);
    NumberOfDigits(hi.n);
  }

  lemma PrintableMeans(e: Entry, min: nat, max: nat)
    requires 0 < max <= INT_MAX
    ensures Printable(e, min, max) <==>
              InBounds(PartMeans(e.part, min, max), min, max) && (e.step.Some? ==> 1 <= e.step.value.n <= INT_MAX)
  {
  }

  lemma SteppedReads(e: Entry, step: Number, min: nat, max: nat)
    requires 0 < max <= INT_MAX && e.step == Some(step) && |EntryText(e, [])| < MAX_STR_LEN
    ensures ItemOf(EntryText(e, []), min, max) == if Printable(e, min, max) then Some(Means(e, min, max)) else None
  {
    var part := PartText(e.part, []);
    PartSolid(e.part);
    PrintableMeans(e, min, max);
    PartReads(e.part, min, max);
    DigitsAreSolid(step.n);
    TwoFields(part, Digits(step.n), '/');
    NumberOfDigits(step.n);
    assert EntryText(e, [])[|part|] == '/';
  }

  lemma EntryReads(e: Entry, min: nat, max: nat)
    requires 0 < max <= INT_MAX && |EntryText(e, [])| < MAX_STR_LEN
    ensures ItemOf(EntryText(e, []), min, max) == if Printable(e, min, max) then Some(Means(e, min, max)) else None
  {
    match e.step
    case None =>
      PartSolid(e.part);
      PrintableMeans(e, min, max);
      PartReads(e.part, min, max);
    case Some(step) => SteppedReads(e, step, min, max);
  }

  lemma EntrySolid(e: Entry)
    ensures Solid(EntryText(e, []), ',')
  {
    PartSolid(e.part);
    if e.step.Some? {
      DigitsAreSolid(e.step.value.n);
      SolidDelim(PartText(e.part, []), '/', Digits(e.step.value.n), ',');
    }
  }

  lemma {:induction false} EntriesSolid(list: seq<Entry>)
    ensures forall i :: 0 <= i < |list| ==> Solid(EntryTexts(list, [])[i], ',')
    decreases |list|
  {
    if list != [] {
      EntrySolid(list[0]);
      EntriesSolid(list[1..]);
    }
  }

  lemma {:induction false} EntriesRead(list: seq<Entry>, min: nat, max: nat)
    requires 0 < max <= INT_MAX && |ListText(list, [])| < MAX_STR_LEN
    ensures ItemsOf(EntryTexts(list, []), min, max)
            == if forall i :: 0 <= i < |list| ==>
                Printable(list[i], min, max) then Some(Meanings(list, min, max)) else None
    decreases |list|
  {
    if list != [] {
      var texts := EntryTexts(list, []);
      assert texts[1..] == EntryTexts(list[1..], []) && texts[0] == EntryText(list[0], []);
      assert |texts[0]| <= |ListText(list, [])| && |ListText(list[1..], [])| <= |ListText(list, [])|;
      EntryReads(list[0], min, max);
      EntriesRead(list[1..], min, max);
      assert forall i :: 0 <= i < |list| - 1 ==> list[1..][i] == list[i + 1];
    }
  }

  /**
    Any list, printed in digits and read again, gives what it means when all of it is within the bounds, and an
    error otherwise.
   */
  lemma PrintedReads(list: seq<Entry>, min: nat, max: nat)
    requires 0 < max <= INT_MAX && |ListText(list, [])| < MAX_STR_LEN
    ensures NumberHits(ListText(list, []), min, max)
            == if AllPrintable(list, min, max) then Some(Meanings(list, min, max)) else None
  {
    EntriesSolid(list);
    SplitJoined(EntryTexts(list, []), ',');
    EntriesRead(list, min, max);
  }

  /** A list of one part. */
  function One(part: Part): seq<Entry> {
    [Entry(part, None)]
  }

  lemma OneText(part: Part, names: seq<string>, min: nat, max: nat)
    requires max > 0
    ensures ListText(One(part), names) == PartText(part, names)
    ensures Meanings(One(part), min, max) == [Means(Entry(part, None), min, max)]
  {
    assert One(part)[1..] == [];
    assert EntryTexts(One(part), names) == [PartText(part, names)];
  }

  // ----- Names -----

  function Others(s: string): seq<Word> {
    if s == [] then [] else [Other(s[0])] + Others(s[1..])
  }

  function NumberWords(x: Number, names: seq<string>): seq<Word> {
    if x.Named? && x.n < |names| then [Name(x.n)] else Others(Digits(x.n))
  }

  function PartWords(p: Part, names: seq<string>): seq<Word> {
    match p
    case Every => [Other('*')]
    case Exactly(x) => NumberWords(x, names)
    case Between(lo, hi) => NumberWords(lo, names) + [Other('-')] + NumberWords(hi, names)
  }

  function EntryWords(e: Entry, names: seq<string>): seq<Word> {
    match e.step
    case None => PartWords(e.part, names)
    case Some(k) => PartWords(e.part, names) + [Other('/')] + NumberWords(k, names)
  }

  function ListWords(list: seq<Entry>, names: seq<string>): seq<Word> {
    if list == [] then []
    else if |list| == 1 then EntryWords(list[0], names)
    else EntryWords(list[0], names) + [Other(',')] + ListWords(list[1..], names)
  }

  /** The words are the text, and with the names replaced they are the text in digits. */
  ghost predicate Spells(words: seq<Word>, names: seq<string>, text: string, digits: string) {
    Separated(words, names) && Render(words, names, 0) == text && Render(words, names, |names|) == digits
  }

  lemma {:induction false} OthersSpell(s: string, names: seq<string>)
    requires forall i :: 0 <= i < |s| ==> !Capital(s[i])
    ensures Spells(Others(s), names, s, s)
    decreases |s|
  {
    if s != [] {
      OthersSpell(s[1..], names);
      assert Others(s)[1..] == Others(s[1..]) && [s[0]] + s[1..] == s;
      assert forall i :: 0 < i < |Others(s)| ==> Others(s)[i] == Others(s[1..])[i - 1];
      OthersAre(s);
    }
  }

  lemma {:induction false} OthersAre(s: string)
    ensures |Others(s)| == |s| && forall i :: 0 <= i < |s| ==> Others(s)[i] == Other(s[i])
    decreases |s|
  {
    if s != [] {
      OthersAre(s[1..]);
    }
  }

  lemma NumberSpells(x: Number, names: seq<string>)
    requires GoodNames(names)
    ensures Spells(NumberWords(x, names), names, NumberText(x, names), NumberText(x, []))
  {
    if x.Named? && x.n < |names| {
      var words := [Name(x.n)];
      assert words[1..] == [];
      assert Render([], names, 0) == [] && Render([], names, |names|) == [];
      assert names[x.n] + [] == names[x.n] && Digits(x.n) + [] == Digits(x.n);
    } else {
      DigitsAreNoCapitals(x.n);
      OthersSpell(Digits(x.n), names);
    }
  }

  lemma {:induction false} DelimRenders(a: seq<Word>, d: char, b: seq<Word>, names: seq<string>, k: nat)
    requires Separated(a, names) && Separated(b, names) && !Capital(d)
    ensures Separated(a + [Other(d)] + b, names)
    ensures Render(a + [Other(d)] + b, names, k) == Render(a, names, k) + [d] + Render(b, names, k)
    decreases |a|
  {
    DelimSeparated(a, d, b, names);
    var words := a + [Other(d)] + b;
    if a == [] {
      assert words[1..] == b && words[0] == Other(d);
    } else {
      SeparatedRest(a, names);
      DelimRenders(a[1..], d, b, names, k);
      assert words[1..] == a[1..] + [Other(d)] + b && words[0] == a[0];
    }
  }

  lemma DelimSeparated(a: seq<Word>, d: char, b: seq<Word>, names: seq<string>)
    requires Separated(a, names) && Separated(b, names) && !Capital(d)
    ensures Separated(a + [Other(d)] + b, names)
  {
    var words := a + [Other(d)] + b;
    forall i | 0 <= i < |words|
      ensures match words[i] { case Name(k) => k < |names| case Other(c) => !Capital(c) }
      ensures i > 0 ==> words[i - 1].Other? || words[i].Other?
    {
      if i < |a| {
        assert words[i] == a[i];
      } else if i > |a| {
        assert words[i] == b[i - |a| - 1];
      }
    }
  }

  /** Two texts with a delimiter that is no capital. */
  lemma DelimSpells(a: seq<Word>, d: char, b: seq<Word>, names: seq<string>, s: string, s': string, t: string,
                    t': string)
    requires Spells(a, names, s, s') && Spells(b, names, t, t') && !Capital(d)
    ensures Spells(a + [Other(d)] + b, names, s + [d] + t, s' + [d] + t')
  {
    DelimRenders(a, d, b, names, 0);
    DelimRenders(a, d, b, names, |names|);
  }

  lemma PartSpells(p: Part, names: seq<string>)
    requires GoodNames(names)
    ensures Spells(PartWords(p, names), names, PartText(p, names), PartText(p, []))
  {
    match p
    case Every =>
      OthersSpell("*", names);
      assert "*"[1..] == [];
    case Exactly(x) => NumberSpells(x, names);
    case Between(lo, hi) =>
      NumberSpells(lo, names);
      NumberSpells(hi, names);
      DelimSpells(NumberWords(lo, names), '-', NumberWords(hi, names), names, NumberText(lo, names), NumberText(lo, []),
                  NumberText(hi, names), NumberText(hi, []));
  }

  lemma EntrySpells(e: Entry, names: seq<string>)
    requires GoodNames(names)
    ensures Spells(EntryWords(e, names), names, EntryText(e, names), EntryText(e, []))
  {
    PartSpells(e.part, names);
    if e.step.Some? {
      var k := e.step.value;
      NumberSpells(k, names);
      DelimSpells(PartWords(e.part, names), '/', NumberWords(k, names), names, PartText(e.part, names),
                  PartText(e.part, []), NumberText(k, names), NumberText(k, []));
    }
  }

  lemma JoinMore(list: seq<Entry>, names: seq<string>)
    requires |list| > 1
    ensures ListText(list, names) == EntryText(list[0], names) + [','] + ListText(list[1..], names)
  {
    assert EntryTexts(list, names)[1..] == EntryTexts(list[1..], names);
  }

  lemma {:induction false} ListSpells(list: seq<Entry>, names: seq<string>)
    requires GoodNames(names)
    ensures Spells(ListWords(list, names), names, ListText(list, names), ListText(list, []))
    decreases |list|
  {
    if list != [] {
      EntrySpells(list[0], names);
      if |list| > 1 {
        ListSpells(list[1..], names);
        JoinMore(list, names);
        JoinMore(list, []);
        DelimSpells(EntryWords(list[0], names), ',', ListWords(list[1..], names), names, EntryText(list[0], names),
                    EntryText(list[0], []), ListText(list[1..], names), ListText(list[1..], []));
      }
    }
  }

  lemma {:induction false} RenderShrinks(words: seq<Word>, names: seq<string>)
    requires GoodNames(names) && Separated(words, names)
    ensures |Render(words, names, |names|)| <= |Render(words, names, 0)|
    decreases |words|
  {
    if words != [] {
      SeparatedRest(words, names);
      RenderShrinks(words[1..], names);
      if words[0].Name? {
        ShortNumber(words[0].k);
      }
    }
  }

  /** A list with names in it, in any case, becomes the list in digits. */
  lemma NamedReads(field: string, list: seq<Entry>, names: seq<string>)
    requires GoodNames(names) && ToUpper(field) == ListText(list, names)
    ensures ReplaceFrom(ToUpper(field), names, 0) == ListText(list, [])
    ensures |ListText(list, [])| <= |field|
  {
    ListSpells(list, names);
    NamesMean(field, ListWords(list, names), names);
    RenderShrinks(ListWords(list, names), names);
    UpperLength(field);
  }

  lemma {:induction false} UpperLength(s: string)
    ensures |ToUpper(s)| == |s|
    decreases |s|
  {
    if s != [] {
      UpperLength(s[1..]);
    }
  }

  // ----- The six fields -----

  /** A day field: a question mark, or a list. */
  datatype Field = Marked | Listed(list: seq<Entry>)

  datatype Printed = Printed(seconds: seq<Entry>, minutes: seq<Entry>, hours: seq<Entry>, daysOfMonth: Field,
                             months: seq<Entry>, daysOfWeek: Field)

  function FieldText(f: Field, names: seq<string>): string {
    match f
    case Marked => "?"
    case Listed(list) => ListText(list, names)
  }

  function FieldMeans(f: Field, min: nat, max: nat): seq<Item>
    requires max > 0
  {
    match f
    case Marked => [Item(min, max - 1, 1)]
    case Listed(list) => Meanings(list, min, max)
  }

  predicate FieldPrintable(f: Field, min: nat, max: nat)
    requires max > 0
  {
    f.Marked? || AllPrintable(f.list, min, max)
  }

  predicate SchedulePrintable(s: Printed) {
    && AllPrintable(s.seconds, 0, 60) && AllPrintable(s.minutes, 0, 60) && AllPrintable(s.hours, 0, 24)
    && FieldPrintable(s.daysOfMonth, 1, 32) && AllPrintable(s.months, 1, 13) && FieldPrintable(s.daysOfWeek, 0, 8)
  }

  function ScheduleMeans(s: Printed): Schedule {
    Schedule(Meanings(s.seconds, 0, 60), Meanings(s.minutes, 0, 60), Meanings(s.hours, 0, 24),
             FieldMeans(s.daysOfWeek, 0, 8), FieldMeans(s.daysOfMonth, 1, 32), Meanings(s.months, 1, 13))
  }

  /** The names of the days and, from 1 on, of the months. */
  const WEEK: seq<string> := ["SUN", "MON", "TUE", "WED", "THU", "FRI", "SAT"]

  const YEAR: seq<string> :=
    ["FOO", "JAN", "FEB", "MAR", "APR", "MAY", "JUN", "JUL", "AUG", "SEP", "OCT", "NOV", "DEC"]

  /** The text, with any of its letters in lower case instead. */
  predicate InAnyCase(field: string, text: string) {
    |field| == |text|
    && forall i :: 0 <= i < |text| ==>
         field[i] == text[i] || ('A' <= text[i] <= 'Z' && field[i] as int == text[i] as int + 32)
  }

  /** The six fields of the schedule in their order; months and days of the week may be named, in any case. */
  predicate Writes(fields: seq<string>, s: Printed) {
    && |fields| == 6
    && fields[0] == ListText(s.seconds, []) && fields[1] == ListText(s.minutes, [])
        && fields[2] == ListText(s.hours, [])
    && fields[3] == FieldText(s.daysOfMonth, [])
    && InAnyCase(fields[4], ListText(s.months, YEAR)) && InAnyCase(fields[5], FieldText(s.daysOfWeek, WEEK))
  }

  lemma FirstOfList(list: seq<Entry>)
    requires list != []
    ensures ListText(list, []) != [] && ListText(list, [])[0] != '?'
  {
    var texts, e := EntryTexts(list, []), list[0];
    PartSolid(e.part);
    assert texts[0] == EntryText(e, []) && texts[0] != [] && ListText(list, [])[0] == texts[0][0];
    assert EntryText(e, [])[0] == PartText(e.part, [])[0];
    match e.part
    case Every =>
    case Exactly(x) => DigitsAreNoCapitals(x.n);
    case Between(lo, hi) => DigitsAreNoCapitals(lo.n);
  }

  /** A list is not a question mark, which stands for a star. */
  lemma UnmarkedReads(f: Field, min: nat, max: nat)
    requires min < max <= INT_MAX && |FieldText(f, [])| < MAX_STR_LEN && (f.Listed? ==> f.list != [])
    ensures NumberHits(Unmarked(FieldText(f, [])), min, max)
            == if FieldPrintable(f, min, max) then Some(FieldMeans(f, min, max)) else None
  {
    match f
    case Marked =>
      OneText(Every, [], min, max);
      PrintedReads(One(Every), min, max);
    case Listed(list) =>
      FirstOfList(list);
      PrintedReads(list, min, max);
  }

  /** Neither blanks nor letters in lower case. */
  predicate Dense(s: string) {
    forall i :: 0 <= i < |s| ==> !IsSpace(s[i]) && !('a' <= s[i] <= 'z')
  }

  lemma NumberDense(x: Number, names: seq<string>)
    requires GoodNames(names)
    ensures Dense(NumberText(x, names)) && NumberText(x, names) != []
  {
    DigitsAreNoCapitals(x.n);
  }

  lemma EntryDense(e: Entry, names: seq<string>)
    requires GoodNames(names)
    ensures Dense(EntryText(e, names)) && EntryText(e, names) != []
  {
    match e.part {
      case Every =>
      case Exactly(x) => NumberDense(x, names);
      case Between(lo, hi) =>
        NumberDense(lo, names);
        NumberDense(hi, names);
    }
    if e.step.Some? {
      NumberDense(e.step.value, names);
    }
  }

  lemma {:induction false} ListDense(list: seq<Entry>, names: seq<string>)
    requires GoodNames(names) && list != []
    ensures Dense(ListText(list, names)) && ListText(list, names) != []
    decreases |list|
  {
    EntryDense(list[0], names);
    if |list| > 1 {
      ListDense(list[1..], names);
      JoinMore(list, names);
    }
  }

  /** A text in any case is the text once its letters are in upper case. */
  lemma {:induction false} UpperOf(field: string, text: string)
    requires Dense(text) && InAnyCase(field, text)
    ensures ToUpper(field) == text && forall i :: 0 <= i < |field| ==> !IsSpace(field[i])
    decreases |field|
  {
    if field != [] {
      UpperOf(field[1..], text[1..]);
      assert text == [text[0]] + text[1..] && field == [field[0]] + field[1..];
    }
  }

  lemma TablesAgree()
    ensures WEEK == DAYS && YEAR == MONTHS && GoodNames(WEEK) && GoodNames(YEAR)
  {
    DaysAndMonthsAreGood();
  }

  lemma MonthsRead(field: string, list: seq<Entry>)
    requires InAnyCase(field, ListText(list, YEAR)) && list != [] && |field| < MAX_STR_LEN
    ensures Months(field) == if AllPrintable(list, 1, 13) then Some(Meanings(list, 1, 13)) else None
  {
    TablesAgree();
    ListDense(list, YEAR);
    UpperOf(field, ListText(list, YEAR));
    NamedReads(field, list, YEAR);
    PrintedReads(list, 1, 13);
  }

  lemma MarkHasNoNames(names: seq<string>)
    requires GoodNames(names)
    ensures ReplaceFrom("?", names, 0) == "?"
  {
    OthersSpell("?", names);
    NamesReplaced(Others("?"), names, 0);
  }

  /** A field in any case is the field in digits once its names have been replaced. */
  lemma FieldNamed(field: string, f: Field, names: seq<string>)
    requires GoodNames(names) && ToUpper(field) == FieldText(f, names)
    ensures ReplaceFrom(ToUpper(field), names, 0) == FieldText(f, []) && |FieldText(f, [])| <= |field|
  {
    match f
    case Marked =>
      MarkHasNoNames(names);
      UpperLength(field);
    case Listed(list) => NamedReads(field, list, names);
  }

  lemma FieldDense(f: Field, names: seq<string>)
    requires GoodNames(names) && (f.Listed? ==> f.list != [])
    ensures Dense(FieldText(f, names)) && FieldText(f, names) != []
  {
    if f.Listed? {
      ListDense(f.list, names);
    }
  }

  lemma DaysRead(field: string, f: Field)
    requires InAnyCase(field, FieldText(f, WEEK)) && (f.Listed? ==> f.list != []) && |field| < MAX_STR_LEN
    ensures DaysOfWeek(field) == if FieldPrintable(f, 0, 8) then Some(FieldMeans(f, 0, 8)) else None
  {
    TablesAgree();
    FieldDense(f, WEEK);
    UpperOf(field, FieldText(f, WEEK));
    FieldNamed(field, f, WEEK);
    UnmarkedReads(f, 0, 8);
  }

  lemma DenseIsSolid(field: string, text: string)
    requires Dense(text) && text != [] && InAnyCase(field, text)
    ensures Solid(field, ' ')
  {
    UpperOf(field, text);
  }

  /** No field is empty. */
  predicate Filled(s: Printed) {
    && s.seconds != [] && s.minutes != [] && s.hours != [] && s.months != []
    && (s.daysOfMonth.Listed? ==> s.daysOfMonth.list != []) && (s.daysOfWeek.Listed? ==> s.daysOfWeek.list != [])
  }

  lemma FieldsSolid(fields: seq<string>, s: Printed)
    requires Writes(fields, s) && Filled(s)
    ensures forall i :: 0 <= i < 6 ==> Solid(fields[i], ' ')
  {
    ListDense(s.seconds, []);
    ListDense(s.minutes, []);
    ListDense(s.hours, []);
    FieldDense(s.daysOfMonth, []);
    NamedSolid(fields[4], Listed(s.months), YEAR);
    NamedSolid(fields[5], s.daysOfWeek, WEEK);
  }

  lemma NamedSolid(field: string, f: Field, names: seq<string>)
    requires (names == WEEK || names == YEAR) && (f.Listed? ==> f.list != [])
    requires InAnyCase(field, FieldText(f, names))
    ensures Solid(field, ' ')
  {
    TablesAgree();
    FieldDense(f, names);
    DenseIsSolid(field, FieldText(f, names));
  }

  lemma {:induction false} JoinLonger(fields: seq<string>, i: nat)
    requires i < |fields|
    ensures |fields[i]| <= |Join(fields, ' ')|
    decreases |fields|
  {
    if i > 0 {
      JoinLonger(fields[1..], i - 1);
    }
  }

  /** A list is read as what it means, or not at all. */
  ghost predicate ListReads(field: string, list: seq<Entry>, min: nat, max: nat)
    requires max > 0
  {
    NumberHits(field, min, max) == if AllPrintable(list, min, max) then Some(Meanings(list, min, max)) else None
  }

  lemma ListsRead(fields: seq<string>, s: Printed)
    requires Writes(fields, s) && Filled(s) && forall i :: 0 <= i < 6 ==> |fields[i]| < MAX_STR_LEN
    ensures ListReads(fields[0], s.seconds, 0, 60) && ListReads(fields[1], s.minutes, 0, 60)
            && ListReads(fields[2], s.hours, 0, 24)
    ensures NumberHits(Unmarked(fields[3]), 1, 32)
            == if FieldPrintable(s.daysOfMonth, 1, 32) then Some(FieldMeans(s.daysOfMonth, 1, 32)) else None
  {
    PrintedReads(s.seconds, 0, 60);
    PrintedReads(s.minutes, 0, 60);
    PrintedReads(s.hours, 0, 24);
    UnmarkedReads(s.daysOfMonth, 1, 32);
  }

  lemma SixFields(text: string, fields: seq<string>, s: Printed)
    requires Writes(fields, s) && Filled(s) && Split(text, ' ') == fields
    requires forall i :: 0 <= i < 6 ==> |fields[i]| < MAX_STR_LEN
    ensures ParseExpr(text) == if SchedulePrintable(s) then Some(ScheduleMeans(s)) else None
  {
    ListsRead(fields, s);
    MonthsRead(fields[4], s.months);
    DaysRead(fields[5], s.daysOfWeek);
  }

  lemma JoinedIsSplit(fields: seq<string>, s: Printed)
    requires Writes(fields, s) && Filled(s) && |Join(fields, ' ')| < MAX_STR_LEN
    ensures Split(Join(fields, ' '), ' ') == fields && forall i :: 0 <= i < 6 ==> |fields[i]| < MAX_STR_LEN
  {
    FieldsSolid(fields, s);
    SplitJoined(fields, ' ');
    forall i | 0 <= i < 6
      ensures |fields[i]| < MAX_STR_LEN
    {
      JoinLonger(fields, i);
    }
  }

  lemma LongIsRefused(text: string)
    requires |text| > 255
    ensures ParseExpr(text) == None
  {
  }

  /**
    A schedule of six fields in any notation, printed, is read as what it means when it has at most 255 characters
    and all of it is within its bounds, and is an error otherwise: stars, question marks, numbers, ranges, steps,
    lists, and names in any case.
   */
  lemma ScheduleReads(fields: seq<string>, s: Printed)
    requires Writes(fields, s) && Filled(s)
    ensures ParseExpr(Join(fields, ' '))
            == if |Join(fields, ' ')| <= 255 && SchedulePrintable(s) then Some(ScheduleMeans(s)) else None
  {
    if |Join(fields, ' ')| > 255 {
      LongIsRefused(Join(fields, ' '));
    } else {
      JoinedIsSplit(fields, s);
      SixFields(Join(fields, ' '), fields, s);
    }
  }

  // ----- Every name -----

  lemma DayByName(field: string, n: nat)
    requires n < 7 && InAnyCase(field, WEEK[n])
    ensures DaysOfWeek(field) == Some([Item(n, n, 1)])
  {
    OneText(Exactly(Named(n)), WEEK, 0, 8);
    DaysRead(field, Listed(One(Exactly(Named(n)))));
    OneText(Exactly(Named(n)), [], 0, 8);
  }

  lemma MonthByName(field: string, n: nat)
    requires 1 <= n <= 12 && InAnyCase(field, YEAR[n])
    ensures Months(field) == Some([Item(n, n, 1)])
  {
    OneText(Exactly(Named(n)), YEAR, 1, 13);
    MonthsRead(field, One(Exactly(Named(n))));
    OneText(Exactly(Named(n)), [], 1, 13);
  }

  /** The names of a list in upper and in lower case. */
  predicate BothCases(upper: seq<string>, lower: seq<string>, names: seq<string>) {
    upper == names && |lower| == |names| && forall n :: 0 <= n < |names| ==> InAnyCase(lower[n], names[n])
  }

  /** Sunday is 0, and the rest follow. */
  lemma DaysByName(upper: seq<string>, lower: seq<string>)
    requires upper == ["SUN", "MON", "TUE", "WED", "THU", "FRI", "SAT"]
    requires lower == ["sun", "mon", "tue", "wed", "thu", "fri", "sat"]
    ensures forall n :: 0 <= n < 7 ==> DaysOfWeek(upper[n]) == DaysOfWeek(lower[n]) == Some([Item(n, n, 1)])
  {
    assert BothCases(upper, lower, WEEK);
    DaysInCase(upper, lower);
  }

  lemma DaysInCase(upper: seq<string>, lower: seq<string>)
    requires BothCases(upper, lower, WEEK)
    ensures forall n :: 0 <= n < 7 ==> DaysOfWeek(upper[n]) == DaysOfWeek(lower[n]) == Some([Item(n, n, 1)])
  {
    forall n | 0 <= n < 7
      ensures DaysOfWeek(upper[n]) == DaysOfWeek(lower[n]) == Some([Item(n, n, 1)])
    {
      DayByName(upper[n], n);
      DayByName(lower[n], n);
    }
  }

  /** January is 1, and the rest follow. */
  lemma MonthsByName(upper: seq<string>, lower: seq<string>)
    requires upper == ["FOO", "JAN", "FEB", "MAR", "APR", "MAY", "JUN", "JUL", "AUG", "SEP", "OCT", "NOV", "DEC"]
    requires lower == ["foo", "jan", "feb", "mar", "apr", "may", "jun", "jul", "aug", "sep", "oct", "nov", "dec"]
    ensures forall n :: 1 <= n <= 12 ==> Months(upper[n]) == Months(lower[n]) == Some([Item(n, n, 1)])
  {
    assert BothCases(upper, lower, YEAR);
    MonthsInCase(upper, lower);
  }

  lemma MonthsInCase(upper: seq<string>, lower: seq<string>)
    requires BothCases(upper, lower, YEAR)
    ensures forall n :: 1 <= n <= 12 ==> Months(upper[n]) == Months(lower[n]) == Some([Item(n, n, 1)])
  {
    forall n | 1 <= n <= 12
      ensures Months(upper[n]) == Months(lower[n]) == Some([Item(n, n, 1)])
    {
      MonthByName(upper[n], n);
      MonthByName(lower[n], n);
    }
  }

  // ----- The schedules the firmware builds -----

  /** "0 m h * * *" */
  function DailyText(h: nat, m: nat): string {
    "0 " + Digits(m) + " " + Digits(h) + " * * *"
  }

  lemma DailyTextIs(m: string, h: string)
    ensures "0 " + m + " " + h + " * * *" == "0" + " " + m + " " + h + " " + "*" + " " + "*" + " " + "*"
  {
    assert " * * *" == " " + "*" + " " + "*" + " " + "*";
  }

  lemma JoinSix(a: string, b: string, c: string, d: string, e: string, f: string)
    ensures Join([a, b, c, d, e, f], ' ') == a + " " + b + " " + c + " " + d + " " + e + " " + f
  {
    assert [a, b, c, d, e, f][1..] == [b, c, d, e, f];
    assert [b, c, d, e, f][1..] == [c, d, e, f];
    assert [c, d, e, f][1..] == [d, e, f];
    assert [d, e, f][1..] == [e, f];
    assert [e, f][1..] == [f];
    assert Join([e, f], ' ') == e + " " + f;
    assert Join([d, e, f], ' ') == d + " " + (e + " " + f);
    assert Join([c, d, e, f], ' ') == c + " " + (d + " " + (e + " " + f));
    assert Join([b, c, d, e, f], ' ') == b + " " + (c + " " + (d + " " + (e + " " + f)));
  }

  function Daily(h: nat, m: nat): Printed {
    var star := One(Every);
    Printed(One(Exactly(Plain(0))), One(Exactly(Plain(m))), One(Exactly(Plain(h))), Listed(star), star, Listed(star))
  }

  lemma DailyWrites(h: nat, m: nat)
    ensures Writes(["0", Digits(m), Digits(h), "*", "*", "*"], Daily(h, m))
  {
    OneText(Exactly(Plain(0)), [], 0, 60);
    OneText(Exactly(Plain(m)), [], 0, 60);
    OneText(Exactly(Plain(h)), [], 0, 24);
    OneText(Every, [], 1, 32);
    OneText(Every, YEAR, 1, 13);
    OneText(Every, WEEK, 0, 8);
  }

  lemma DailyMeans(h: nat, m: nat)
    ensures ScheduleMeans(Daily(h, m)) ==
              Schedule([Item(0, 0, 1)], [Item(m, m, 1)], [Item(h, h, 1)], [Item(0, 7, 1)], [Item(1, 31, 1)],
                  [Item(1, 12, 1)])
  {
    OneText(Exactly(Plain(0)), [], 0, 60);
    OneText(Exactly(Plain(m)), [], 0, 60);
    OneText(Exactly(Plain(h)), [], 0, 24);
    OneText(Every, [], 1, 32);
    OneText(Every, [], 1, 13);
    OneText(Every, [], 0, 8);
  }

  /** What add_cron of the firmware writes is read as second 0 of that minute and hour, every day. */
  lemma DailyParses(h: nat, m: nat)
    requires h < 24 && m < 60
    ensures ParseExpr(DailyText(h, m)) ==
              Some(Schedule([Item(0, 0, 1)], [Item(m, m, 1)], [Item(h, h, 1)], [Item(0, 7, 1)], [Item(1, 31, 1)],
                  [Item(1, 12, 1)]))
  {
    ShortNumber(m);
    ShortNumber(h);
    DailyTextIs(Digits(m), Digits(h));
    JoinSix("0", Digits(m), Digits(h), "*", "*", "*");
    DailyWrites(h, m);
    DailyMeans(h, m);
    ScheduleReads(["0", Digits(m), Digits(h), "*", "*", "*"], Daily(h, m));
  }
}
