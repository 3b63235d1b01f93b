/**
  Names that mdns.c appends (lines 746-807) and that are not read back as they were given: one for
  each way in which a match can mislead the writer.
 */
module DnsStale {
  import opened Bytes
  import opened DnsName
  import opened DnsRound
  import opened DnsFrame
  import opened DnsPlaces

  /** "x", "_http" and "_tcp". */
  const X: Label := [120]
  const HTTP: Label := [95, 104, 116, 116, 112]
  const TCP: Label := [95, 116, 99, 112]

  /** The packet buffer as it is before the first packet. */
  function Zeros(): (buf: seq<Byte>)
    ensures |buf| == MAX_PACKET && forall i :: 0 <= i < |buf| ==> buf[i] == 0
  {
    seq(MAX_PACKET, _ => 0)
  }

  lemma {:induction false} FindsNone(buf: seq<Byte>, index: nat, strings: seq<Label>, from: nat)
    requires from <= index <= |buf| && strings != []
    requires forall i :: from <= i < index ==> !Occurs(buf, i, strings[0])
    ensures Find(buf, index, strings, from) == index
    decreases index - from
  {
    if from < index {
      FindsNone(buf, index, strings, from + 1);
    }
  }

  lemma {:induction false} FindsFirst(buf: seq<Byte>, index: nat, strings: seq<Label>, from: nat, at: nat)
    requires from <= at < index <= |buf| && strings != [] && Candidate(buf, at, strings)
    requires forall i :: from <= i < at ==> buf[i] != |strings[0]|
    ensures Find(buf, index, strings, from) == at
    decreases at - from
  {
    if from < at {
      FindsFirst(buf, index, strings, from + 1, at);
    }
  }

  /** "local" and a terminator, wherever they are. */
  lemma LocalReads(buf: seq<Byte>, at: nat)
    requires at + 6 < |buf| && buf[at] == 5 && buf[at + 1..at + 6] == LOCAL && buf[at + 6] == 0
    ensures ReadWire(buf, at, at) == Good([Text(LOCAL)], at + 7, at + 7)
    ensures Candidate(buf, at, [LOCAL]) && forall index :: Whole(buf, at, at, index)
  {
    ReadLabel(buf, at, at, LOCAL);
    assert ReadWire(buf, at, at).items == [Text(LOCAL)];
    CStringWhole(LOCAL);
    assert [Text(LOCAL)][1..] == [];
    assert TakeAll(FRESH, [Text(LOCAL)]) == Take(FRESH, Text(LOCAL));
  }

  /** The first label of a name that is found nowhere is written, and the match is that of the rest. */
  lemma FirstWritten(p: Packet, name: seq<Label>)
    requires ValidPacket(p) && ValidLabels(name) && name != [] && p.index + |name[0]| + 1 < MAX_PACKET
    requires forall i :: 0 <= i < p.index ==> !Occurs(p.buf, i, name[0])
    ensures var one := One(p, name[0]);
            && (Append(one, name[1..]).ok ==> Append(p, name).ok) && Append(p, name).p == Append(one, name[1..]).p
            && MatchOf(p, name) == MatchOf(one, name[1..])
  {
    FindsNone(p.buf, p.index, name, 0);
  }

  /** A name whose first label is not elsewhere, but for one place that reads as it, is matched there. */
  lemma Matched(p: Packet, name: seq<Label>, at: nat)
    requires ValidPacket(p) && ValidLabels(name) && name != [] && at < p.index && p.index + 2 <= MAX_PACKET
    requires Candidate(p.buf, at, name) && forall i :: 0 <= i < at ==> p.buf[i] != |name[0]|
    ensures Append(p, name).ok && MatchOf(p, name) == At(p, at, name)
  {
    FindsFirst(p.buf, p.index, name, 0, at);
  }

  /** A packet that is empty but for the label "local" at 12. */
  lemma LocalWritten(p: Packet)
    requires p == Packet(Zeros(), 12)
    ensures One(p, LOCAL).index == 18 && Candidate(One(p, LOCAL).buf, 12, [LOCAL])
    ensures forall i :: 0 <= i < 12 ==> One(p, LOCAL).buf[i] == 0
    ensures ReadWire(One(p, LOCAL).buf, 12, 12) == Good([Text(LOCAL)], 19, 19) && Whole(One(p, LOCAL).buf, 12, 12, 18)
  {
    var one := One(p, LOCAL);
    PutBytes(p.buf, 12, [5] + LOCAL);
    assert one.buf[13..18] == LOCAL;
    LocalReads(one.buf, 12);
  }

  lemma LocalIsValid(name: seq<Label>)
    requires name == [LOCAL] || name == [LOCAL, LOCAL]
    ensures ValidName(name)
  {
  }

  /** What a match at 12 that was read past the index does to a name. */
  lemma ReadPast(p: Packet, name: seq<Label>, q: Packet)
    requires ValidPacket(p) && ValidName(name) && Append(p, name).ok
    requires ValidPacket(q) && 12 < q.index && MatchOf(p, name) == At(q, 12, [LOCAL])
    requires ReadWire(q.buf, 12, 12) == Good([Text(LOCAL)], 19, 19) && Whole(q.buf, 12, 12, q.index) && q.index < 19
    ensures !RoundTrips(p, name)
  {
    assert Reading(MatchOf(p, name)).touched == 19;
    CrossingIsLost(p, name);
  }

  lemma SecondIsFound(p: Packet, name: seq<Label>, rest: seq<Label>)
    requires p == Packet(Zeros(), 12) && ValidLabels(name) && name != [] && name[0] == LOCAL
    requires rest == name[1..] && rest == [LOCAL] && ValidLabels(rest)
    ensures Append(p, name).ok && MatchOf(p, name) == At(One(p, LOCAL), 12, rest)
  {
    LocalWritten(p);
    FirstWritten(p, name);
    Matched(One(p, LOCAL), rest, 12);
  }

  /** The host "local", in an empty packet: the second label is taken for the first one, which nothing has ended yet. */
  lemma EndlessMatch(p: Packet, name: seq<Label>)
    requires p == Packet(Zeros(), 12) && name == [LOCAL, LOCAL]
    ensures ValidName(name) && Append(p, name).ok && !RoundTrips(p, name)
  {
    LocalIsValid(name);
    SecondIsFound(p, name, name[1..]);
    LocalWritten(p);
    ReadPast(p, name, One(p, LOCAL));
  }

  // ----- A label that an earlier packet has left -----

  function TextItems(strings: seq<Label>): seq<Item> {
    if strings == [] then [] else [Text(strings[0])] + TextItems(strings[1..])
  }

  /** The labels of a valid name become its parts, whether or not a "_sub" has been met. */
  lemma {:induction false} TextsTaken(name: Name, items: seq<Item>, strings: seq<Label>, tail: seq<Item>)
    requires ValidName(strings) && !name.invalid && |name.parts| <= |strings| && name.parts == strings[..|name.parts|]
    requires items == TextItems(strings[|name.parts|..]) + tail
    ensures TakeAll(name, items) == TakeAll(name.(parts := strings), tail)
    decreases |strings| - |name.parts|
  {
    var j := |name.parts|;
    if j == |strings| {
      assert strings[j..] == [] && items == tail && strings[..j] == strings;
    } else {
      var s := strings[j];
      assert strings[j..][0] == s && strings[j..][1..] == strings[j + 1..];
      assert items[0] == Text(s) && items[1..] == TextItems(strings[j + 1..]) + tail;
      CStringWhole(s);
      TakeText(name, s, strings);
      assert strings[..j + 1] == strings[..j] + [s];
      TextsTaken(name.(parts := name.parts + [s]), items[1..], strings, tail);
    }
  }

  /** "esp32-a1b2c3", a label of twelve bytes. */
  const ESP: Label := [101, 115, 112, 51, 50, 45, 97, 49, 98, 50, 99, 51]

  /** "x.local" and a pointer to it at 12. */
  const WRITTEN: seq<Byte> := [1] + X + ([5] + LOCAL) + [0] + Pointer(12)

  /** What the last packet has left: "esp32-a1b2c3.local" without its first length. */
  const OLD: seq<Byte> := ESP + [5] + LOCAL + [0]

  function Stale(): (buf: seq<Byte>)
    ensures |buf| == MAX_PACKET
  {
    Put(Zeros(), 23, OLD)
  }

  /** The buffer behind those appends. */
  function Straddled(): (buf: seq<Byte>)
    ensures |buf| == MAX_PACKET
  {
    Put(Stale(), 12, WRITTEN)
  }

  lemma WrittenBytes()
    ensures |WRITTEN| == 11 && Occurs(WRITTEN, 0, X) && Occurs(WRITTEN, 2, LOCAL) && WRITTEN[8] == 0
            && WRITTEN[10] == 12
    ensures forall i :: 0 <= i < 10 ==> WRITTEN[i] != 12
    ensures |OLD| == 19 && OLD[..12] == ESP && Occurs(OLD, 12, LOCAL) && OLD[18] == 0
  {
    assert WRITTEN == [1, 120, 5, 108, 111, 99, 97, 108, 0, 0xC0, 12];
  }

  lemma StaleBytes(buf: seq<Byte>)
    requires buf == Stale() || buf == Straddled()
    ensures buf[23..42] == OLD && forall i :: 0 <= i < 12 ==> buf[i] == 0
    ensures buf == Straddled() ==> buf[12..23] == WRITTEN
  {
    WrittenBytes();
    PutBytes(Zeros(), 23, OLD);
    PutBytes(Stale(), 12, WRITTEN);
  }

  /** "x.local", twice: the first one is written, the second one is a pointer. */
  lemma Begin(p: Packet, first: seq<Label>, a: Packet)
    requires p == Packet(Stale(), 12) && first == [X, LOCAL]
    requires a == Packet(Put(Stale(), 12, [1] + X + ([5] + LOCAL) + [0]), 21)
    ensures ValidLabels(first) && Append(p, first).ok && Append(p, first).p == a
  {
    var one := Packet(Put(p.buf, 12, [1] + X), 14);
    FirstLabel(p, first, one);
    Second(one, first[1..]);
    Merged(p.buf);
  }

  lemma FirstLabel(p: Packet, first: seq<Label>, one: Packet)
    requires p == Packet(Stale(), 12) && first == [X, LOCAL] && one == Packet(Put(p.buf, 12, [1] + X), 14)
    ensures ValidLabels(first) && first[1..] == [LOCAL] && forall i :: 0 <= i < 14 ==> one.buf[i] != 5
    ensures Append(p, first).p == Append(one, first[1..]).p && (Append(one, first[1..]).ok ==> Append(p, first).ok)
  {
    StaleBytes(p.buf);
    PutBytes(p.buf, 12, [1] + X);
    FirstWritten(p, first);
  }

  lemma Merged(buf: seq<Byte>)
    requires |buf| == MAX_PACKET
    ensures Put(Put(Put(buf, 12, [1] + X), 14, [5] + LOCAL), 20, [0]) == Put(buf, 12, [1] + X + ([5] + LOCAL) + [0])
  {
    PutTwice(buf, 12, [1] + X, [5] + LOCAL);
    PutTwice(buf, 12, [1] + X + ([5] + LOCAL), [0]);
  }

  lemma Second(one: Packet, rest: seq<Label>)
    requires ValidPacket(one) && one.index == 14 && rest == [LOCAL] && ValidLabels(rest)
    requires forall i :: 0 <= i < 14 ==> one.buf[i] != 5
    ensures Append(one, rest).ok
    ensures Append(one, rest).p == Packet(Put(Put(one.buf, 14, [5] + LOCAL), 20, [0]), 21)
  {
    FirstWritten(one, rest);
    assert rest[1..] == [];
  }

  lemma TwoTexts(name: seq<Label>)
    requires |name| == 2
    ensures TextItems(name) == [Text(name[0]), Text(name[1])]
  {
    assert name[1..][1..] == name[2..] == [];
    assert TextItems(name[1..]) == [Text(name[1])];
  }

  lemma TwoLabels(buf: seq<Byte>, at: nat, a: Label, b: Label, end: nat)
    requires Occurs(buf, at, a) && Occurs(buf, at + 1 + |a|, b) && 1 <= |a| <= MAX_LABEL && 1 <= |b| <= MAX_LABEL
    requires end == at + 3 + |a| + |b| <= |buf| && buf[end - 1] == 0
    ensures ReadWire(buf, at, at) == Good([Text(a), Text(b)], end, end)
  {
    ReadLabel(buf, at, at, a);
    ReadLabel(buf, at, at + 1 + |a|, b);
  }

  /** Two labels and a terminator. */
  lemma TwoRead(buf: seq<Byte>, at: nat, name: seq<Label>)
    requires |name| == 2 && ValidName(name) && Occurs(buf, at, name[0]) && Occurs(buf, at + 1 + |name[0]|, name[1])
    requires at + 2 + |name[0]| + |name[1]| < |buf| && buf[at + 2 + |name[0]| + |name[1]|] == 0
    ensures var end := at + 3 + |name[0]| + |name[1]|; ReadWire(buf, at, at) == Good(TextItems(name), end, end)
    ensures Candidate(buf, at, name)
  {
    TwoTexts(name);
    TwoLabels(buf, at, name[0], name[1], at + 3 + |name[0]| + |name[1]|);
    assert name[0..] == name && name[..0] == [] && TextItems(name) + [] == TextItems(name);
    TextsTaken(FRESH, TextItems(name), name, []);
  }

  lemma Pointed(a: Packet, first: seq<Label>)
    requires first == [X, LOCAL] && a == Packet(Put(Stale(), 12, [1] + X + ([5] + LOCAL) + [0]), 21)
    ensures ValidName(first) && Append(a, first).ok && Append(a, first).p == Packet(Straddled(), 23)
  {
    FirstIsThere(a.buf);
    TwoRead(a.buf, 12, first);
    Matched(a, first, 12);
    AppendPoints(a, first);
    PutTwice(Stale(), 12, [1] + X + ([5] + LOCAL) + [0], Pointer(12));
  }

  lemma FirstIsThere(buf: seq<Byte>)
    requires buf == Put(Stale(), 12, [1] + X + ([5] + LOCAL) + [0])
    ensures Occurs(buf, 12, X) && Occurs(buf, 14, LOCAL) && buf[20] == 0 && forall i :: 0 <= i < 12 ==> buf[i] == 0
  {
    var data := [1] + X + ([5] + LOCAL) + [0];
    StaleBytes(Stale());
    PutBytes(Stale(), 12, data);
    assert Occurs(data, 0, X) && Occurs(data, 2, LOCAL) && data[8] == 0;
    OccursInside(buf, 12, data, 0, X);
    OccursInside(buf, 12, data, 2, LOCAL);
  }

  lemma EspOccurs(buf: seq<Byte>, s: Label)
    requires |buf| == MAX_PACKET && buf[22] == 12 && |s| == 12 && buf[23..35] == s && buf[35..42] == OLD[12..]
    ensures Occurs(buf, 22, s) && Occurs(buf, 35, LOCAL) && buf[41] == 0
  {
    WrittenBytes();
    assert buf[35] == buf[35..42][0] && buf[41] == buf[35..42][6];
    assert forall k :: 0 <= k < 7 ==> buf[35 + k] == OLD[12..][k] == OLD[12 + k];
    assert buf[36..41] == OLD[13..18];
  }

  lemma EspIsThere(buf: seq<Byte>)
    requires buf == Straddled()
    ensures Occurs(buf, 22, ESP) && Occurs(buf, 35, LOCAL) && buf[41] == 0
    ensures forall i :: 0 <= i < 22 ==> buf[i] != 12
  {
    WrittenBytes();
    StaleBytes(buf);
    assert buf[22] == buf[12..23][10];
    assert buf[23..35] == buf[23..42][..12] && buf[35..42] == buf[23..42][12..];
    EspOccurs(buf, ESP);
    forall i | 0 <= i < 22
      ensures buf[i] != 12
    {
      assert i >= 12 ==> buf[i] == buf[12..23][i - 12];
    }
  }

  lemma EspIsFound(q: Packet, name: seq<Label>)
    requires q == Packet(Straddled(), 23) && name == [ESP, LOCAL]
    ensures ValidName(name) && Append(q, name).ok && MatchOf(q, name) == At(q, 22, name)
    ensures ReadWire(q.buf, 22, 22) == Good(TextItems(name), 42, 42) && Whole(q.buf, 22, 22, 23)
  {
    EspIsThere(q.buf);
    TwoRead(q.buf, 22, name);
    Matched(q, name, 22);
    EspIsWhole(q.buf);
  }

  lemma EspIsWhole(buf: seq<Byte>)
    requires |buf| == MAX_PACKET && Occurs(buf, 22, ESP) && Occurs(buf, 35, LOCAL) && buf[41] == 0
    ensures Whole(buf, 22, 22, 23)
  {
    assert Whole(buf, 22, 35, 23);
  }

  /**
    A name behind a pointer whose second byte, 12, is the length of the name's first label, with the rest
    of the name left there by the last packet: the writer takes the pointer's byte for the name and
    appends a pointer to it, which overwrites the label that it points to.
   */
  lemma StraddlingMatch(p: Packet, first: seq<Label>, name: seq<Label>)
    requires p == Packet(Stale(), 12) && first == [X, LOCAL] && name == [ESP, LOCAL]
    ensures ValidLabels(first) && Append(p, first).ok && Append(Append(p, first).p, first).ok && ValidName(name)
    ensures var q := Append(Append(p, first).p, first).p;
            && Append(q, name).ok && !Closed(q, name) && !RoundTrips(q, name)
            && ReadWire(Append(q, name).p.buf, q.index, q.index)
               == Good([Jump, Text([0xC0, 22] + ESP[2..]), Text(LOCAL)], 42, 25)
  {
    var a := Packet(Put(Stale(), 12, [1] + X + ([5] + LOCAL) + [0]), 21);
    var q := Packet(Straddled(), 23);
    Begin(p, first, a);
    Pointed(a, first);
    EspIsFound(q, name);
    CrossingIsLost(q, name);
    MatchEnds(q, name);
    Overwritten(q.buf, Append(q, name).p.buf);
  }

  lemma Overwritten(buf: seq<Byte>, buf': seq<Byte>)
    requires buf == Straddled() && buf' == Put(buf, 23, Pointer(22))
    ensures ReadWire(buf', 23, 23) == Good([Jump, Text([0xC0, 22] + ESP[2..]), Text(LOCAL)], 42, 25)
  {
    var s := [0xC0, 22] + ESP[2..];
    OverwrittenBytes(buf, buf', s);
    EspOccurs(buf', s);
    ReadLabel(buf', 22, 35, LOCAL);
    ReadLabel(buf', 22, 22, s);
    PointerRead(buf', 23, 23, 22);
    assert [Jump] + ([Text(s)] + [Text(LOCAL)]) == [Jump, Text(s), Text(LOCAL)];
  }

  lemma OverwrittenBytes(buf: seq<Byte>, buf': seq<Byte>, s: Label)
    requires buf == Straddled() && buf' == Put(buf, 23, Pointer(22)) && s == [0xC0, 22] + ESP[2..]
    ensures buf'[22] == 12 && buf'[23..35] == s && buf'[35..42] == OLD[12..]
    ensures buf'[23] == Pointer(22)[0] && buf'[24] == Pointer(22)[1]
  {
    WrittenBytes();
    StaleBytes(buf);
    PutBytes(buf, 23, Pointer(22));
    assert buf[22] == buf[12..23][10];
    forall k | 0 <= k < 12
      ensures buf'[23 + k] == s[k]
    {
      assert buf[23 + k] == buf[23..42][k] == OLD[..12][k] == ESP[k];
    }
    forall i | 35 <= i < 42
      ensures buf'[i] == OLD[i - 23]
    {
      assert buf[i] == buf[23..42][i - 23];
    }
    assert buf'[35..42] == OLD[12..];
  }

  // ----- "_sub" and what follows the fourth label -----

  /** The items of a subtype's name, "_sub" behind its first label, make the name without it. */
  lemma SubtypeTaken(name: seq<Label>, items: seq<Item>)
    requires ValidName(name) && name != [] && items == [Text(name[0]), Text(SUB)] + TextItems(name[1..])
    ensures TakeAll(FRESH, items) == Name(name, true, false)
  {
    PlainWhole(name);
    SubIsWhole();
    var first, noted := Name([name[0]], false, false), Name([name[0]], true, false);
    assert name[..0] == [] && name[..1] == [name[0]] && [] + [name[0]] == [name[0]];
    TakeText(FRESH, name[0], name);
    var rest := items[1..];
    assert rest[0] == Text(SUB) && rest[1..] == TextItems(name[1..]) + [];
    assert TakeAll(FRESH, items) == TakeAll(first, rest);
    assert TakeAll(first, rest) == TakeAll(noted, rest[1..]);
    TextsTaken(noted, rest[1..], name, []);
  }

  lemma SubIsWhole()
    ensures CString(SUB) == SUB && Same(SUB, SUB) && SecondPart(SUB)
  {
    CStringWhole(SUB);
  }

  /** A jump behind the labels of a name of four makes it invalid. */
  lemma ExcessTaken(name: seq<Label>, items: seq<Item>)
    requires ValidName(name) && |name| == 4 && items == TextItems(name) + [Jump]
    ensures TakeAll(FRESH, items) == Name(name, false, true)
  {
    assert name[0..] == name && name[..0] == [];
    TextsTaken(FRESH, items, name, [Jump]);
    assert [Jump][1..] == [];
  }

  lemma NewIsNotFound(p: Packet, start: nat, names: Names, name: seq<Label>, j: nat, todo: seq<Label>)
    requires ValidPacket(p) && name in names && Distinct(name) && j < |name| && todo != [] && todo[0] == name[j]
            && name[j] != []
    requires start <= p.index && Under(p.buf, start, p.index, names, name[..j])
            && forall i :: 0 <= i < start ==> p.buf[i] == 0
    ensures Find(p.buf, p.index, todo, 0) == p.index
  {
    HasLabel(names, name, j);
    NotDone(name, j);
    FindsNone(p.buf, p.index, todo, 0);
  }

  /** A name of other labels in a packet that is empty but for it has no match. */
  lemma {:induction false} NewIsNowhere(p: Packet, start: nat, names: Names, name: seq<Label>, j: nat, todo: seq<Label>)
    requires ValidPacket(p) && Ordinary(names) && name in names && Distinct(name) && Rest(name, j, todo)
    requires start <= p.index && Under(p.buf, start, p.index, names, name[..j])
            && forall i :: 0 <= i < start ==> p.buf[i] == 0
    ensures MatchOf(p, todo).Nowhere?
    decreases |todo|
  {
    if todo != [] {
      RestStep(name, j, todo);
      NewIsNotFound(p, start, names, name, j, todo);
      if p.index + |todo[0]| + 1 < MAX_PACKET {
        UnderNext(p, start, names, name, j, todo[0]);
        PrefixAgrees(p.buf, One(p, todo[0]).buf, p.index);
        NewIsNowhere(One(p, todo[0]), start, names, name, j + 1, todo[1..]);
      }
    }
  }

  /** Without a match the labels are read one after the other. */
  lemma {:induction false} NowhereReads(p: Packet, strings: seq<Label>, buf: seq<Byte>, start: nat)
    requires ValidPacket(p) && ValidLabels(strings) && Append(p, strings).ok && |buf| == MAX_PACKET
    requires MatchOf(p, strings).Nowhere?
    ensures var x := Append(p, strings).p.index; Expected(p, strings, buf, start) == Good(TextItems(strings), x, x)
    decreases |strings|
  {
    if strings != [] {
      if Find(p.buf, p.index, strings, 0) < p.index {
        AppendPoints(p, strings);
      } else {
        AppendStep(p, strings);
        ExpectedStep(p, strings, buf, start);
        NowhereReads(One(p, strings[0]), strings[1..], buf, start);
      }
    }
  }

  lemma {:induction false} PlainBound(strings: seq<Label>)
    requires ValidLabels(strings)
    ensures PlainLength(strings) <= 64 * |strings| + 1
    decreases |strings|
  {
    if strings != [] {
      assert forall i :: 0 <= i < |strings| - 1 ==> strings[1..][i] == strings[i + 1];
      PlainBound(strings[1..]);
    }
  }

  lemma EmptyUnder(p: Packet, names: Names)
    requires ValidPacket(p) && p.index == 12 && Ordinary(names) && forall i :: 0 <= i < 12 ==> p.buf[i] == 0
    ensures Under(p.buf, 12, 12, names, [])
  {
    forall pos: nat | 0 <= pos < 12
      ensures !Looks(p.buf, pos, 12, names)
    {
      NotALength(p.buf, pos, 12, names);
    }
  }

  /** A packet with nothing before the index, and a name of different labels to be appended. */
  ghost predicate Starting(p: Packet, names: Names, name: seq<Label>) {
    && ValidPacket(p) && p.index == 12 && (forall i :: 0 <= i < 12 ==> p.buf[i] == 0)
    && Ordinary(names) && name in names && Distinct(name) && Rest(name, 0, name) && 0 < |name| <= 5
  }

  lemma NewFits(p: Packet, names: Names, name: seq<Label>)
    requires Starting(p, names, name)
    ensures Append(p, name).ok && MatchOf(p, name).Nowhere? && Find(p.buf, 12, name, 0) == 12
  {
    PlainBound(name);
    AppendFits(p, name);
    EmptyUnder(p, names);
    assert name[..0] == [];
    NewIsNowhere(p, 12, names, name, 0, name);
    NewIsNotFound(p, 12, names, name, 0, name);
  }

  /** It is written without pointers. */
  lemma NewIsWritten(p: Packet, names: Names, name: seq<Label>)
    requires Starting(p, names, name)
    ensures var q := Append(p, name);
            && q.ok && q.p.index <= 333 && Occurs(q.p.buf, 12, name[0]) && (forall i :: 0 <= i < 12 ==> q.p.buf[i] == 0)
            && ReadWire(q.p.buf, 12, 12) == Good(TextItems(name), q.p.index, q.p.index)
  {
    NewFits(p, names, name);
    PlainBound(name);
    AppendFits(p, name);
    LabelKept(p, name);
    AppendKeepsPrefix(p, name);
    var buf := Append(p, name).p.buf;
    PrefixAgrees(p.buf, buf, 12);
    NowhereReads(p, name, buf, 12);
    AppendReads(p, name, buf, 12);
  }

  predicate Lettered(s: Label) {
    1 <= |s| <= 5 && forall i :: 0 <= i < |s| ==> 95 <= s[i] <= 122
  }

  lemma LetteredIsOrdinary(names: Names)
    requires forall s :: Has(names, s) ==> Lettered(s)
    ensures Ordinary(names)
  {
    forall s | Has(names, s)
      ensures PlainLabel(s)
    {
      assert Lettered(s);
    }
  }

  lemma SubtypeLabels(sub: seq<Label>)
    requires sub == [X, SUB, HTTP, TCP, LOCAL]
    ensures ValidLabels(sub) && forall i :: 0 <= i < 5 ==> Lettered(sub[i])
    ensures Distinct(sub)
  {
    assert SUB[1] != TCP[1] && HTTP[0] != LOCAL[0];
  }

  lemma SubtypeStarts(p: Packet, sub: seq<Label>, names: Names)
    requires p == Packet(Zeros(), 12) && sub == [X, SUB, HTTP, TCP, LOCAL] && names == {sub}
    ensures Starting(p, names, sub)
  {
    SubtypeLabels(sub);
    assert sub[0..] == sub;
    LetteredIsOrdinary(names);
  }

  lemma SubtypeWritten(p: Packet, sub: seq<Label>)
    requires p == Packet(Zeros(), 12) && sub == [X, SUB, HTTP, TCP, LOCAL] && ValidLabels(sub)
    ensures var q := Append(p, sub);
            && q.ok && 12 < q.p.index <= 333 && Occurs(q.p.buf, 12, sub[0])
              && (forall i :: 0 <= i < 12 ==> q.p.buf[i] == 0)
            && ReadWire(q.p.buf, 12, 12) == Good(TextItems(sub), q.p.index, q.p.index)
  {
    var names := {sub};
    SubtypeStarts(p, sub, names);
    NewIsWritten(p, names, sub);
  }

  /** What the two names have in common with one another. */
  lemma SubtypeItems(sub: seq<Label>, name: seq<Label>)
    requires sub == [X, SUB, HTTP, TCP, LOCAL] && name == [X, HTTP, TCP, LOCAL]
    ensures ValidName(name) && TextItems(sub) == [Text(name[0]), Text(SUB)] + TextItems(name[1..])
  {
    assert sub[1..][0] == SUB && sub[1..][1..] == name[1..];
    assert SUB[1] != TCP[1];
  }

  /**
    A subtype "x" of a service and then an instance "x" of it: the reader drops "_sub", so the
    subtype's name passes for the instance's, which is then read back as a subtype.
   */
  lemma SubtypeMatch(p: Packet, sub: seq<Label>, name: seq<Label>)
    requires p == Packet(Zeros(), 12) && sub == [X, SUB, HTTP, TCP, LOCAL] && name == [X, HTTP, TCP, LOCAL]
    ensures ValidLabels(sub) && Append(p, sub).ok && ValidName(name)
    ensures var q := Append(p, sub).p; Append(q, name).ok && !RoundTrips(q, name)
  {
    SubtypeLabels(sub);
    SubtypeWritten(p, sub);
    SubtypeItems(sub, name);
    SubtypeIsFound(Append(p, sub).p, name, TextItems(sub));
  }

  lemma SubtypeIsFound(q: Packet, name: seq<Label>, items: seq<Item>)
    requires ValidPacket(q) && 12 < q.index <= 333 && ValidName(name) && name != []
    requires Occurs(q.buf, 12, name[0]) && forall i :: 0 <= i < 12 ==> q.buf[i] == 0
    requires ReadWire(q.buf, 12, 12) == Good(items, q.index, q.index)
    requires items == [Text(name[0]), Text(SUB)] + TextItems(name[1..])
    ensures Append(q, name).ok && !RoundTrips(q, name)
  {
    SubtypeTaken(name, items);
    Matched(q, name, 12);
    TouchedDecides(q, name);
  }

  /** The bytes of "x._http._tcp.local" with a pointer to a zero byte of the header behind them. */
  const EXCESS: seq<Byte> := [1] + X + [5] + HTTP + [4] + TCP + [5] + LOCAL + Pointer(3)

  function Excess(): (p: Packet)
    ensures ValidPacket(p)
  {
    Packet(Put(Zeros(), 12, EXCESS), 33)
  }

  lemma OccursInside(buf: seq<Byte>, at: nat, data: seq<Byte>, i: nat, s: Label)
    requires at + |data| <= |buf| && buf[at..at + |data|] == data && Occurs(data, i, s)
    ensures Occurs(buf, at + i, s)
  {
    assert buf[at + i] == buf[at..at + |data|][i];
    forall k | 0 <= k < |s|
      ensures buf[at + i + 1..at + i + 1 + |s|][k] == s[k]
    {
      assert s[k] == data[i + 1..i + 1 + |s|][k] == buf[at..at + |data|][i + 1 + k];
    }
  }

  lemma ExcessLabels()
    ensures |EXCESS| == 21 && Occurs(EXCESS, 0, X) && Occurs(EXCESS, 2, HTTP) && Occurs(EXCESS, 8, TCP)
            && Occurs(EXCESS, 13, LOCAL)
    ensures EXCESS[19..] == Pointer(3)
  {
  }

  lemma ExcessBytes(buf: seq<Byte>)
    requires buf == Excess().buf
    ensures Occurs(buf, 12, X) && Occurs(buf, 14, HTTP) && Occurs(buf, 20, TCP) && Occurs(buf, 25, LOCAL)
    ensures buf[31] == Pointer(3)[0] && buf[32] == Pointer(3)[1] && forall i :: 0 <= i < 12 ==> buf[i] == 0
  {
    ExcessLabels();
    PutBytes(Zeros(), 12, EXCESS);
    assert EXCESS[19] == EXCESS[19..][0] && EXCESS[20] == EXCESS[19..][1];
    OccursInside(buf, 12, EXCESS, 0, X);
    OccursInside(buf, 12, EXCESS, 2, HTTP);
    OccursInside(buf, 12, EXCESS, 8, TCP);
    OccursInside(buf, 12, EXCESS, 13, LOCAL);
  }

  lemma FourTexts(name: seq<Label>)
    requires |name| == 4
    ensures TextItems(name) == [Text(name[0]), Text(name[1]), Text(name[2]), Text(name[3])]
  {
    assert name[1..][1..] == name[2..] && name[2..][1..] == name[3..] && name[3..][1..] == [];
    assert TextItems(name[3..]) == [Text(name[3])];
    assert TextItems(name[2..]) == [Text(name[2]), Text(name[3])];
  }

  lemma ExcessReads(buf: seq<Byte>)
    requires buf == Excess().buf
    ensures ReadWire(buf, 12, 12) == Good([Text(X), Text(HTTP), Text(TCP), Text(LOCAL), Jump], 33, 33)
  {
    ExcessBytes(buf);
    PointerRead(buf, 12, 31, 3);
    ReadLabel(buf, 12, 25, LOCAL);
    ReadLabel(buf, 12, 20, TCP);
    ReadLabel(buf, 12, 14, HTTP);
    ReadLabel(buf, 12, 12, X);
  }

  /** "x._http._tcp.local" appended behind such bytes points to them, and reads back with a fifth item, as invalid. */
  lemma ExcessMatch(p: Packet, name: seq<Label>)
    requires p == Excess() && name == [X, HTTP, TCP, LOCAL]
    ensures ValidName(name) && Append(p, name).ok && !RoundTrips(p, name)
  {
    SubtypeItems([X, SUB, HTTP, TCP, LOCAL], name);
    ExcessBytes(p.buf);
    ExcessReads(p.buf);
    FourTexts(name);
    ExcessIsFound(p, name, TextItems(name) + [Jump]);
  }

  lemma ExcessIsFound(p: Packet, name: seq<Label>, items: seq<Item>)
    requires ValidPacket(p) && p.index == 33 && ValidName(name) && |name| == 4
    requires Occurs(p.buf, 12, name[0]) && forall i :: 0 <= i < 12 ==> p.buf[i] == 0
    requires ReadWire(p.buf, 12, 12) == Good(items, 33, 33) && items == TextItems(name) + [Jump]
    ensures Append(p, name).ok && !RoundTrips(p, name)
  {
    ExcessTaken(name, items);
    Matched(p, name, 12);
    TouchedDecides(p, name);
  }

  // ----- A label that is cut -----

  /** A label that is "local" as a C string, whatever its last two bytes. */
  function CutLabel(a: Byte, b: Byte): Label {
    LOCAL + [0, a, b]
  }

  function CutBytes(a: Byte, b: Byte): seq<Byte> {
    [1] + X + [8] + CutLabel(a, b) + [0]
  }

  lemma CutIsLocal(a: Byte, b: Byte)
    ensures CString(CutLabel(a, b)) == LOCAL
  {
    var s := CutLabel(a, b);
    FirstNulBehind(s, 4);
    assert s[5] == 0;
    NulAt(s, 5);
  }

  lemma {:induction false} NulAt(s: Label, k: nat)
    requires k < |s| && s[k] == 0
    ensures FirstNul(s) <= k
    decreases k
  {
    if k > 0 && s[0] != 0 {
      NulAt(s[1..], k - 1);
    }
  }

  lemma CutOccurs(a: Byte, b: Byte)
    ensures var data := CutBytes(a, b);
            |data| == 12 && Occurs(data, 0, X) && Occurs(data, 2, CutLabel(a, b)) && data[11] == 0
  {
    var data := CutBytes(a, b);
    assert data[3..11] == CutLabel(a, b);
  }

  lemma CutReads(buf: seq<Byte>, a: Byte, b: Byte)
    requires |buf| == MAX_PACKET && buf[12..24] == CutBytes(a, b)
    ensures ReadWire(buf, 12, 12) == Good([Text(X), Text(CutLabel(a, b))], 24, 24) && Occurs(buf, 12, X)
  {
    var data := CutBytes(a, b);
    CutOccurs(a, b);
    OccursInside(buf, 12, data, 0, X);
    OccursInside(buf, 12, data, 2, CutLabel(a, b));
    assert buf[23] == buf[12..24][11];
    ReadLabel(buf, 12, 14, CutLabel(a, b));
    ReadLabel(buf, 12, 12, X);
  }

  lemma CutTaken(name: seq<Label>, a: Byte, b: Byte, items: seq<Item>)
    requires name == [X, LOCAL] && items == [Text(X), Text(CutLabel(a, b))]
    ensures ValidName(name) && TakeAll(FRESH, items) == Name(name, false, false)
  {
    CStringWhole(X);
    CutIsLocal(a, b);
    var first := Name([X], false, false);
    assert Take(FRESH, items[0]) == first && Take(first, items[1]) == Name([X, LOCAL], false, false);
    assert items[1..][0] == items[1] && items[1..][1..] == [];
    assert TakeAll(first, items[1..]) == TakeAll(Take(first, items[1]), []);
  }

  /** A packet that ends behind the terminator inside such a label. */
  function Cut(): (p: Packet)
    ensures ValidPacket(p)
  {
    Packet(Put(Zeros(), 12, CutBytes(122, 122)), 21)
  }

  lemma CutBuffers(buf: seq<Byte>, buf': seq<Byte>)
    requires buf == Cut().buf && buf' == Put(buf, 21, Pointer(12))
    ensures buf[12..24] == CutBytes(122, 122) && buf'[12..24] == CutBytes(0xC0, 12)
    ensures forall i :: 0 <= i < 12 ==> buf[i] == 0
  {
    PutBytes(Zeros(), 12, CutBytes(122, 122));
    PutBytes(buf, 21, Pointer(12));
  }

  /**
    Such a match is one that the pointer overwrites, and yet the name is read back: the condition is only
    exact for matches of whole labels.
   */
  lemma CutMatch(p: Packet, name: seq<Label>)
    requires p == Cut() && name == [X, LOCAL]
    ensures ValidName(name) && Append(p, name).ok && !Sound(p, name) && !WholeMatch(p, name) && RoundTrips(p, name)
  {
    CutBuffers(p.buf, Put(p.buf, 21, Pointer(12)));
    CutReads(p.buf, 122, 122);
    CutTaken(name, 122, 122, [Text(X), Text(CutLabel(122, 122))]);
    Matched(p, name, 12);
    MatchEnds(p, name);
    CutReadsBack(Append(p, name).p.buf, name);
    CutIsNotWhole(p.buf);
  }

  lemma CutIsNotWhole(buf: seq<Byte>)
    requires |buf| == MAX_PACKET && buf[12..24] == CutBytes(122, 122)
    ensures !Whole(buf, 12, 12, 21)
  {
    CutOccurs(122, 122);
    OccursInside(buf, 12, CutBytes(122, 122), 0, X);
    OccursInside(buf, 12, CutBytes(122, 122), 2, CutLabel(122, 122));
    assert CutLabel(122, 122)[5] == 0;
  }

  lemma CutReadsBack(buf: seq<Byte>, name: seq<Label>)
    requires buf == Put(Cut().buf, 21, Pointer(12)) && name == [X, LOCAL]
    ensures var w := ReadWire(buf, 21, 21);
            w.Good? && w.next == 23 && Right(TakeAll(FRESH, w.items), name)
  {
    CutBuffers(Cut().buf, buf);
    CutReads(buf, 0xC0, 12);
    var items := [Text(X), Text(CutLabel(0xC0, 12))];
    CutTaken(name, 0xC0, 12, items);
    PutBytes(Cut().buf, 21, Pointer(12));
    PointerRead(buf, 21, 21, 12);
    assert ([Jump] + items)[1..] == items;
  }
}
