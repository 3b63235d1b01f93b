/**
  When a name that mdns.c appends (lines 746-807) is read back by its reader (lines 448-499): the
  round trip, and the matches of earlier bytes that break it.
 */
module DnsRound {
  import opened Bytes
  import opened DnsName

  // ----- What items make of a name -----

  /**
    The items are the labels of the name, up to case and as C strings, wherever the jumps are. Jumps
    behind the last label are for names that leave room for another part.
   */
  ghost predicate Makes(items: seq<Item>, name: seq<Label>, room: bool)
    decreases |items|
  {
    if items == [] then name == []
    else
      match items[0]
      case Jump => (room || name != []) && Makes(items[1..], name, room)
      case Text(chars) => name != [] && Same(name[0], CString(chars)) && Makes(items[1..], name[1..], room)
  }

  /** The reader's result is the name, with neither a subtype nor an excess label. */
  predicate Right(n: Name, strings: seq<Label>) {
    AllSame(strings, n.parts) && !n.sub && !n.invalid
  }

  predicate LabelLast(items: seq<Item>) {
    items == [] || items[|items| - 1].Text?
  }

  predicate Plain(strings: seq<Label>) {
    forall i, j :: 0 <= i < |strings| && 0 <= j < |strings[i]| ==> 0 < strings[i][j] < REF
  }

  /** Names whose labels keep their places in mdns_name_t: no "_sub", and a second label that is not a host part. */
  predicate ValidName(strings: seq<Label>) {
    && |strings| <= 4 && ValidLabels(strings) && Plain(strings) && NoSubs(strings)
    && (|strings| > 1 ==> SecondPart(strings[1]))
  }

  predicate NoSubs(strings: seq<Label>) {
    forall i :: 0 <= i < |strings| ==> !Same(strings[i], SUB)
  }

  // ----- One item at a time -----

  /** What no further item takes back. */
  ghost predicate Grown(name: Name, n: Name) {
    && (name.sub ==> n.sub) && (name.invalid ==> n.invalid) && |name.parts| <= |n.parts|
    && (forall i :: 1 <= i < |name.parts| ==> n.parts[i] == name.parts[i])
    && (name.parts != [] ==> name.parts[0] <= n.parts[0])
  }

  ghost predicate Bounded(name: Name) {
    && |name.parts| <= 4 && (name.parts != [] ==> |name.parts[0]| <= MAX_LABEL + 1)
    && (name.invalid ==> |name.parts| == 4)
  }

  lemma CatGrows(a: Label, b: Label)
    requires |a| <= MAX_LABEL + 1
    ensures a <= Cat(a, b) && |Cat(a, b)| <= MAX_LABEL + 1
    ensures |a| <= MAX_LABEL && b != [] ==> |a| < |Cat(a, b)|
  {
  }

  lemma Short(chars: Label)
    requires |chars| <= MAX_LABEL
    ensures |CString(chars)| <= MAX_LABEL
  {
  }

  predicate Lengths(items: seq<Item>) {
    forall i :: 0 <= i < |items| && items[i].Text? ==> |items[i].chars| <= MAX_LABEL
  }

  lemma TakeGrows(name: Name, item: Item)
    requires Bounded(name) && Lengths([item])
    ensures Grown(name, Take(name, item)) && Bounded(Take(name, item))
  {
    if item.Text? {
      assert [item][0] == item;
      Short(item.chars);
      if name.parts != [] {
        CatGrows(name.parts[0], [DOT]);
        CatGrows(Cat(name.parts[0], [DOT]), CString(item.chars));
      }
    }
  }

  lemma {:induction false} TakeAllGrows(name: Name, items: seq<Item>)
    requires Bounded(name) && Lengths(items)
    ensures Grown(name, TakeAll(name, items)) && Bounded(TakeAll(name, items))
    decreases |items|
  {
    if items != [] {
      TakeGrows(name, items[0]);
      TakeAllGrows(Take(name, items[0]), items[1..]);
    }
  }

  lemma LengthsTail(items: seq<Item>)
    requires items != [] && Lengths(items)
    ensures Lengths([items[0]]) && Lengths(items[1..])
  {
    assert forall i :: 0 <= i < |items| - 1 ==> items[1..][i] == items[i + 1];
  }

  // ----- The right result and the items that make it -----

  /** The parts so far are the first labels. */
  ghost predicate Begun(name: Name, strings: seq<Label>) {
    && Bounded(name) && !name.sub && !name.invalid && |name.parts| <= |strings|
    && forall i :: 0 <= i < |name.parts| ==> Same(strings[i], name.parts[i])
  }

  /** When a label follows and all is right in the end, it has become the next part. */
  lemma RightText(name: Name, chars: Label, strings: seq<Label>, n: Name)
    requires Begun(name, strings) && name.parts != [] && ValidLabels(strings) && Lengths([Text(chars)])
    requires Grown(Take(name, Text(chars)), n) && Right(n, strings)
    ensures |name.parts| < |strings| && Same(strings[|name.parts|], CString(chars))
    ensures Take(name, Text(chars)) == name.(parts := name.parts + [CString(chars)])
  {
    var s := CString(chars);
    assert [Text(chars)][0] == Text(chars);
    CatGrows(name.parts[0], [DOT]);
    CatGrows(Cat(name.parts[0], [DOT]), s);
    assert Same(strings[0], name.parts[0]) && Same(strings[0], n.parts[0]);
    assert |name.parts| < |strings|;
    assert Same(strings[|name.parts|], n.parts[|name.parts|]);
  }

  lemma {:induction false} TakenMakes(name: Name, items: seq<Item>, strings: seq<Label>)
    requires Begun(name, strings) && name.parts != [] && ValidLabels(strings) && |strings| <= 4 && Lengths(items)
    requires Right(TakeAll(name, items), strings)
    ensures Makes(items, strings[|name.parts|..], |strings| < 4)
    decreases |items|
  {
    if items != [] {
      var next := Take(name, items[0]);
      LengthsTail(items);
      TakeAllGrows(next, items[1..]) by { TakeGrows(name, items[0]); }
      TakeGrows(name, items[0]);
      match items[0]
      case Jump =>
        TakenMakes(name, items[1..], strings);
      case Text(chars) =>
        RightText(name, chars, strings, TakeAll(name, items));
        TakenMakes(next, items[1..], strings);
        assert strings[|name.parts|..][1..] == strings[|next.parts|..];
    }
  }

  /** A right result comes from the name, when its first label is the name's. */
  lemma FreshMakes(items: seq<Item>, strings: seq<Label>)
    requires strings != [] && ValidLabels(strings) && |strings| <= 4 && Lengths(items)
    requires items != [] && items[0] == Text(strings[0]) && CString(strings[0]) == strings[0]
    requires Right(TakeAll(FRESH, items), strings)
    ensures Makes(items, strings, |strings| < 4)
  {
    var next := Take(FRESH, items[0]);
    LengthsTail(items);
    TakeGrows(FRESH, items[0]);
    TakeAllGrows(next, items[1..]);
    TakenMakes(next, items[1..], strings);
  }

  // ----- The items that make a name and the result -----

  /** A label that is the j-th of a valid name becomes its j-th part. */
  lemma TakeText(name: Name, chars: Label, strings: seq<Label>)
    requires ValidName(strings) && |name.parts| < |strings| && !name.invalid
    requires Same(strings[|name.parts|], CString(chars))
    ensures Take(name, Text(chars)) == name.(parts := name.parts + [CString(chars)])
  {
    var s := strings[|name.parts|];
    if Same(CString(chars), SUB) {
      SameTransitive(s, CString(chars), SUB);
      assert false;
    }
    if |name.parts| == 1 {
      SecondPartUpToCase(s, CString(chars));
    }
  }

  lemma {:induction false} MakesTaken(name: Name, items: seq<Item>, strings: seq<Label>)
    requires ValidName(strings) && Begun(name, strings) && Lengths(items)
    requires Makes(items, strings[|name.parts|..], |strings| < 4)
    ensures Right(TakeAll(name, items), strings)
    decreases |items|
  {
    if items != [] {
      LengthsTail(items);
      TakeGrows(name, items[0]);
      match items[0]
      case Jump =>
        MakesTaken(name, items[1..], strings);
      case Text(chars) =>
        TakeText(name, chars, strings);
        assert strings[|name.parts|..][1..] == strings[|name.parts| + 1..];
        MakesTaken(Take(name, items[0]), items[1..], strings);
    }
  }

  /** No subtype comes up, and no excess label when nothing follows the last one or a part is left. */
  lemma {:induction false} MakesFlags(name: Name, items: seq<Item>, todo: seq<Label>, room: bool)
    requires Makes(items, todo, room) && NoSubs(todo) && !name.sub && !name.invalid
    requires |name.parts| + |todo| <= 4 && (room ==> |name.parts| + |todo| < 4)
    ensures !TakeAll(name, items).sub && !TakeAll(name, items).invalid
    decreases |items|
  {
    if items != [] {
      match items[0]
      case Jump => MakesFlags(name, items[1..], todo, room);
      case Text(chars) =>
        if Same(CString(chars), SUB) {
          SameTransitive(todo[0], CString(chars), SUB);
          assert false;
        }
        MakesFlags(Take(name, items[0]), items[1..], todo[1..], room);
    }
  }

  lemma {:induction false} MakesLast(items: seq<Item>, todo: seq<Label>)
    requires Makes(items, todo, false)
    ensures LabelLast(items)
    decreases |items|
  {
    if |items| > 1 {
      match items[0]
      case Jump => MakesLast(items[1..], todo);
      case Text(_) => MakesLast(items[1..], todo[1..]);
    }
  }

  lemma {:induction false} LastMakes(items: seq<Item>, todo: seq<Label>, room: bool)
    requires Makes(items, todo, room) && LabelLast(items)
    ensures Makes(items, todo, false)
    decreases |items|
  {
    if items != [] {
      match items[0]
      case Jump => LastMakes(items[1..], todo, room);
      case Text(_) => LastMakes(items[1..], todo[1..], room);
    }
  }

  lemma {:induction false} MakesMore(items: seq<Item>, todo: seq<Label>, room: bool)
    requires Makes(items, todo, false)
    ensures Makes(items, todo, room)
    decreases |items|
  {
    if items != [] {
      match items[0]
      case Jump => MakesMore(items[1..], todo, room);
      case Text(_) => MakesMore(items[1..], todo[1..], room);
    }
  }

  /**
    A place that has passed the writer's test makes the name exactly when its reading leaves no flag and
    no jump behind.
   */
  lemma MatchMakes(items: seq<Item>, strings: seq<Label>, room: bool)
    requires strings != [] && ValidLabels(strings) && |strings| <= 4 && NoSubs(strings) && Lengths(items)
    requires items != [] && items[0] == Text(strings[0]) && CString(strings[0]) == strings[0]
    requires AllSame(strings, TakeAll(FRESH, items).parts) && (room ==> |strings| < 4)
    ensures var n := TakeAll(FRESH, items);
            Makes(items, strings, room) <==> !n.sub && (!room ==> !n.invalid && LabelLast(items))
  {
    var n := TakeAll(FRESH, items);
    TakeAllGrows(FRESH, items);
    if Makes(items, strings, room) {
      MakesFlags(FRESH, items, strings, room);
      if !room {
        MakesLast(items, strings);
      }
    }
    if !n.sub && (!room ==> !n.invalid && LabelLast(items)) {
      FreshMakes(items, strings);
      if LabelLast(items) {
        LastMakes(items, strings, |strings| < 4);
        MakesMore(items, strings, room);
      }
    }
  }

  lemma SameTransitive(a: Label, b: Label, c: Label)
    requires Same(a, b) && Same(b, c)
    ensures Same(a, c)
  {
    forall i | 0 <= i < |a|
      ensures Lower(a[i]) == Lower(c[i])
    {
      assert Lower(a[i]) == Lower(b[i]);
    }
  }

  lemma SecondPartUpToCase(s: Label, t: Label)
    requires Same(s, t) && SecondPart(s)
    ensures SecondPart(t)
  {
    if s != [] && s[0] == UNDERSCORE {
      assert Lower(t[0]) == Lower(s[0]);
    } else if Same(s, LOCAL) {
      assert Same(t, LOCAL);
    } else if Same(s, ARPA) {
      assert Same(t, ARPA);
    } else if Same(s, IP6) {
      assert Same(t, IP6);
    } else {
      assert Same(t, IN_ADDR);
    }
  }

  // ----- Bytes that no label of a name has -----

  predicate HighByte(s: Label) {
    exists j :: 0 <= j < |s| && s[j] >= REF
  }

  /** Some label, as a C string, has a byte of a pointer. */
  ghost predicate Odd(items: seq<Item>)
    decreases |items|
  {
    items != [] && ((items[0].Text? && HighByte(CString(items[0].chars))) || Odd(items[1..]))
  }

  ghost predicate Spoiled(name: Name) {
    || name.invalid
    || (name.parts != [] && (|name.parts[0]| > MAX_LABEL || HighByte(name.parts[0])))
    || exists i :: 1 <= i < |name.parts| && HighByte(name.parts[i])
  }

  lemma StaysSpoiled(name: Name, n: Name)
    requires Spoiled(name) && Grown(name, n)
    ensures Spoiled(n)
  {
    if name.parts != [] && HighByte(name.parts[0]) {
      var j :| 0 <= j < |name.parts[0]| && name.parts[0][j] >= REF;
      assert n.parts[0][j] >= REF;
    }
  }

  lemma SpoiledIsWrong(name: Name, strings: seq<Label>)
    requires Spoiled(name) && ValidLabels(strings) && Plain(strings)
    ensures !Right(name, strings)
  {
    forall i | 0 <= i < |name.parts| && HighByte(name.parts[i]) && i < |strings|
      ensures !Same(strings[i], name.parts[i])
    {
      var j :| 0 <= j < |name.parts[i]| && name.parts[i][j] >= REF;
      assert j < |strings[i]| ==> Lower(strings[i][j]) != Lower(name.parts[i][j]);
    }
  }

  lemma CatHigh(a: Label, s: Label)
    requires |a| <= MAX_LABEL + 1 && HighByte(s)
    ensures |Cat(a, s)| > MAX_LABEL || HighByte(Cat(a, s))
  {
    var j :| 0 <= j < |s| && s[j] >= REF;
    assert (a + s)[|a| + j] >= REF;
  }

  lemma HighIsNotSub(s: Label)
    requires HighByte(s)
    ensures !Same(s, SUB)
  {
    assert forall k :: 0 <= k < |SUB| ==> Lower(SUB[k]) < REF;
    var j :| 0 <= j < |s| && s[j] >= REF;
    assert |s| == |SUB| ==> Lower(s[j]) != Lower(SUB[j]);
  }

  lemma OddTaken(name: Name, chars: Label)
    requires Bounded(name) && HighByte(CString(chars))
    ensures Spoiled(Take(name, Text(chars)))
  {
    var s := CString(chars);
    HighIsNotSub(s);
    if |name.parts| == 1 {
      CatGrows(name.parts[0], [DOT]);
      CatHigh(Cat(name.parts[0], [DOT]), s);
    }
    var n := Take(name, Text(chars));
    if !n.invalid && |n.parts| > |name.parts| {
      assert n.parts[|name.parts|] == s;
    }
  }

  lemma {:induction false} OddSpoils(name: Name, items: seq<Item>)
    requires Bounded(name) && Lengths(items) && Odd(items)
    ensures Spoiled(TakeAll(name, items))
    decreases |items|
  {
    LengthsTail(items);
    var next := Take(name, items[0]);
    TakeGrows(name, items[0]);
    if items[0].Text? && HighByte(CString(items[0].chars)) {
      OddTaken(name, items[0].chars);
      TakeAllGrows(next, items[1..]);
      StaysSpoiled(next, TakeAll(name, items));
    } else {
      OddSpoils(next, items[1..]);
    }
  }

  // ----- What an append leaves to be read -----

  /**
    Where the append of a name ends up pointing to: the packet at that moment, the place, and the labels
    it stands for.
   */
  datatype Match = Nowhere | At(q: Packet, at: nat, rest: seq<Label>)

  function MatchOf(p: Packet, strings: seq<Label>): (m: Match)
    requires ValidPacket(p) && ValidLabels(strings)
    ensures m.At? ==> ValidPacket(m.q) && p.index <= m.q.index && m.at < m.q.index && m.rest != []
    ensures m.At? ==> |m.rest| <= |strings| && m.rest == strings[|strings| - |m.rest|..]
    ensures m.At? ==> Candidate(m.q.buf, m.at, m.rest)
    decreases |strings|
  {
    if strings == [] then Nowhere
    else
      var at := Find(p.buf, p.index, strings, 0);
      if at < p.index then At(p, at, strings)
      else if p.index + |strings[0]| + 1 >= MAX_PACKET then Nowhere
      else MatchOf(AppendBytes(p, [|strings[0]| as Byte] + strings[0]).p, strings[1..])
  }

  /** The reading at the place of a match. */
  function Reading(m: Match): (w: Wire)
    requires m.At? && m.at <= |m.q.buf|
  {
    ReadWire(m.q.buf, m.at, m.at)
  }

  /** What the reader finds, from the index on, in the buffer that the append leaves. */
  ghost function Expected(p: Packet, strings: seq<Label>, buf: seq<Byte>, start: nat): Wire
    requires ValidPacket(p) && ValidLabels(strings) && |buf| == MAX_PACKET
    decreases |strings|
  {
    if strings == [] then Good([], p.index + 1, p.index + 1)
    else
      var at := Find(p.buf, p.index, strings, 0);
      if at < p.index then
        var rest := ReadWire(buf, at, at);
        if at >= start || rest.Bad? then Bad
        else Good([Jump] + rest.items, if rest.touched < p.index + 2 then p.index + 2 else rest.touched, p.index + 2)
      else if p.index + |strings[0]| + 1 >= MAX_PACKET then Bad
      else
        var rest := Expected(AppendBytes(p, [|strings[0]| as Byte] + strings[0]).p, strings[1..], buf, start);
        if rest.Bad? then Bad else rest.(items := [Text(strings[0])] + rest.items)
  }

  /** The packet after the first label has been written. */
  function One(p: Packet, s: Label): (q: Packet)
    requires ValidPacket(p) && |s| <= MAX_LABEL && p.index + |s| + 1 < MAX_PACKET
    ensures ValidPacket(q) && q.index == p.index + 1 + |s|
  {
    AppendBytes(p, [|s| as Byte] + s).p
  }

  /** When the name is not found, its first label is written and the rest is appended behind it. */
  lemma AppendStep(p: Packet, strings: seq<Label>)
    requires ValidPacket(p) && ValidLabels(strings) && strings != [] && Append(p, strings).ok
    requires Find(p.buf, p.index, strings, 0) == p.index
    ensures p.index + |strings[0]| + 1 < MAX_PACKET
    ensures var one := One(p, strings[0]);
            && Append(one, strings[1..]).ok && Append(one, strings[1..]).p == Append(p, strings).p
            && MatchOf(p, strings) == MatchOf(one, strings[1..])
  {
  }

  /** When it is found, a pointer is written. */
  lemma AppendPoints(p: Packet, strings: seq<Label>)
    requires ValidPacket(p) && ValidLabels(strings) && strings != [] && Append(p, strings).ok
    requires Find(p.buf, p.index, strings, 0) < p.index
    ensures var at := Find(p.buf, p.index, strings, 0);
            && p.index + 2 <= MAX_PACKET && MatchOf(p, strings) == At(p, at, strings)
            && Append(p, strings).p == AppendBytes(p, Pointer(at)).p
  {
  }

  lemma ExpectedStep(p: Packet, strings: seq<Label>, buf: seq<Byte>, start: nat)
    requires ValidPacket(p) && ValidLabels(strings) && |buf| == MAX_PACKET && strings != []
    requires Find(p.buf, p.index, strings, 0) == p.index && p.index + |strings[0]| + 1 < MAX_PACKET
    ensures var rest := Expected(One(p, strings[0]), strings[1..], buf, start);
            Expected(p, strings, buf, start) == if rest.Bad? then Bad
                else rest.(items := [Text(strings[0])] + rest.items)
  {
  }

  lemma LabelKept(p: Packet, strings: seq<Label>)
    requires ValidPacket(p) && ValidLabels(strings) && strings != []
    requires Find(p.buf, p.index, strings, 0) == p.index && Append(p, strings).ok
    ensures var s := strings[0];
            var r := Append(p, strings).p;
            r.buf[p.index] == |s| && r.buf[p.index + 1..p.index + 1 + |s|] == s
  {
    var s := strings[0];
    var data := [|s| as Byte] + s;
    var one := AppendBytes(p, data).p;
    AppendKeepsPrefix(one, strings[1..]);
    var buf := Append(p, strings).p.buf;
    assert buf[..one.index][p.index..] == one.buf[..one.index][p.index..];
    assert buf[p.index..one.index] == data;
    assert buf[p.index] == data[0];
    assert buf[p.index + 1..one.index] == data[1..];
  }

  lemma PointerBytes(p: Packet, at: nat)
    requires ValidPacket(p) && p.index + 2 <= MAX_PACKET && at < MAX_PACKET
    ensures var r := AppendBytes(p, Pointer(at)).p;
            r.buf[p.index] == Pointer(at)[0] && r.buf[p.index + 1] == Pointer(at)[1] && r.index == p.index + 2
    ensures var r := AppendBytes(p, Pointer(at)).p; r.buf[..p.index] == p.buf[..p.index]
  {
    var r := AppendBytes(p, Pointer(at)).p;
    assert r.buf[p.index] == r.buf[p.index..p.index + 2][0];
    assert r.buf[p.index + 1] == r.buf[p.index..p.index + 2][1];
  }

  lemma ReadLabel(buf: seq<Byte>, seg: nat, pos: nat, s: Label)
    requires seg <= pos && pos + 1 + |s| <= |buf| && 1 <= |s| <= MAX_LABEL
    requires buf[pos] == |s| && buf[pos + 1..pos + 1 + |s|] == s
    ensures var rest := ReadWire(buf, seg, pos + 1 + |s|);
            ReadWire(buf, seg, pos) == if rest.Bad? then Bad else rest.(items := [Text(s)] + rest.items)
  {
  }

  lemma PointerRead(buf: seq<Byte>, start: nat, pos: nat, at: nat)
    requires start <= pos && pos + 1 < |buf| && at < 0x4000 && at <= |buf|
    requires buf[pos] == Pointer(at)[0] && buf[pos + 1] == Pointer(at)[1]
    ensures var rest := ReadWire(buf, at, at);
            ReadWire(buf, start, pos) ==
              if at >= start || rest.Bad? then Bad
              else Good([Jump] + rest.items, if rest.touched < pos + 2 then pos + 2 else rest.touched, pos + 2)
  {
    ReadJump(buf, start, pos);
  }

  ghost predicate ReadsAs(p: Packet, strings: seq<Label>, buf: seq<Byte>, start: nat)
    requires ValidPacket(p) && ValidLabels(strings) && start <= p.index && |buf| == MAX_PACKET
  {
    ReadWire(buf, start, p.index) == Expected(p, strings, buf, start)
  }

  lemma PointerReadsAs(p: Packet, strings: seq<Label>, buf: seq<Byte>, start: nat)
    requires ValidPacket(p) && ValidLabels(strings) && strings != [] && start <= p.index
    requires Append(p, strings).ok && buf == Append(p, strings).p.buf && Find(p.buf, p.index, strings, 0) < p.index
    ensures ReadsAs(p, strings, buf, start)
  {
    var at := Find(p.buf, p.index, strings, 0);
    AppendPoints(p, strings);
    PointerBytes(p, at);
    PointerRead(buf, start, p.index, at);
  }

  lemma LabelReadsAs(p: Packet, strings: seq<Label>, buf: seq<Byte>, start: nat)
    requires ValidPacket(p) && ValidLabels(strings) && strings != [] && start <= p.index
    requires Append(p, strings).ok && buf == Append(p, strings).p.buf && Find(p.buf, p.index, strings, 0) == p.index
    requires p.index + |strings[0]| + 1 < MAX_PACKET && ReadsAs(One(p, strings[0]), strings[1..], buf, start)
    ensures ReadsAs(p, strings, buf, start)
  {
    LabelKept(p, strings);
    ReadLabel(buf, start, p.index, strings[0]);
    assert ReadWire(buf, start, p.index + 1 + |strings[0]|) == Expected(One(p, strings[0]), strings[1..], buf, start);
    ExpectedStep(p, strings, buf, start);
  }

  lemma {:induction false} AppendReads(p: Packet, strings: seq<Label>, buf: seq<Byte>, start: nat)
    requires ValidPacket(p) && ValidLabels(strings) && start <= p.index
    requires Append(p, strings).ok && buf == Append(p, strings).p.buf
    ensures ReadsAs(p, strings, buf, start)
    decreases |strings|
  {
    if strings == [] {
      assert buf[p.index] == buf[p.index..p.index + 1][0] == 0;
    } else if Find(p.buf, p.index, strings, 0) < p.index {
      PointerReadsAs(p, strings, buf, start);
    } else {
      AppendStep(p, strings);
      AppendReads(One(p, strings[0]), strings[1..], buf, start);
      LabelReadsAs(p, strings, buf, start);
    }
  }

  /** The pointer is the last thing that is written, at the index where the match was found. */
  lemma {:induction false} MatchEnds(p: Packet, strings: seq<Label>)
    requires ValidPacket(p) && ValidLabels(strings) && Append(p, strings).ok && MatchOf(p, strings).At?
    ensures var m := MatchOf(p, strings);
            m.q.index + 2 <= MAX_PACKET && Append(p, strings).p == AppendBytes(m.q, Pointer(m.at)).p
    decreases |strings|
  {
    if Find(p.buf, p.index, strings, 0) == p.index {
      AppendStep(p, strings);
      MatchEnds(One(p, strings[0]), strings[1..]);
    } else {
      AppendPoints(p, strings);
    }
  }

  /** Bytes that are neither terminators nor pointers. */
  ghost predicate Running(buf: seq<Byte>, lo: nat, hi: nat)
    requires hi <= |buf|
  {
    forall i :: lo <= i < hi ==> 0 < buf[i] < REF
  }

  lemma RunsOn(p: Packet, s: Label, start: nat)
    requires ValidPacket(p) && start <= p.index && Running(p.buf, start, p.index)
    requires 1 <= |s| <= MAX_LABEL && Plain([s]) && p.index + |s| + 1 < MAX_PACKET
    ensures var one := AppendBytes(p, [|s| as Byte] + s).p; Running(one.buf, start, one.index)
  {
    var one := AppendBytes(p, [|s| as Byte] + s).p;
    forall i | start <= i < one.index
      ensures 0 < one.buf[i] < REF
    {
      if i < p.index {
        assert one.buf[..p.index][i] == p.buf[i];
      } else {
        assert one.buf[i] == ([|s| as Byte] + s)[i - p.index];
        assert [s][0] == s;
      }
    }
  }

  lemma {:induction false} MatchRuns(p: Packet, strings: seq<Label>, start: nat)
    requires ValidPacket(p) && ValidLabels(strings) && Plain(strings)
    requires start <= p.index && Running(p.buf, start, p.index) && MatchOf(p, strings).At?
    ensures var m := MatchOf(p, strings); Running(m.q.buf, start, m.q.index)
    decreases |strings|
  {
    if Find(p.buf, p.index, strings, 0) == p.index {
      RunsOn(p, strings[0], start);
      MatchRuns(AppendBytes(p, [|strings[0]| as Byte] + strings[0]).p, strings[1..], start);
    }
  }

  /** A reading that starts in the unfinished name goes past its end. */
  lemma {:induction false} UnfinishedRunsOn(buf: seq<Byte>, seg: nat, pos: nat, lo: nat, index: nat)
    requires lo <= pos && seg <= pos <= index < |buf| && Running(buf, lo, index)
    requires ReadWire(buf, seg, pos).Good?
    ensures ReadWire(buf, seg, pos).touched > index
    decreases index - pos
  {
    if pos < index {
      var end := pos + 1 + buf[pos];
      if end <= index {
        UnfinishedRunsOn(buf, seg, end, lo, index);
      }
    }
  }

  // ----- The match decides -----

  lemma {:induction false} WireLengths(buf: seq<Byte>, seg: nat, pos: nat)
    requires seg <= pos <= |buf| && ReadWire(buf, seg, pos).Good?
    ensures Lengths(ReadWire(buf, seg, pos).items)
    decreases seg, |buf| - pos
  {
    if pos < |buf| && buf[pos] != 0 {
      if buf[pos] < REF {
        ReadText(buf, seg, pos);
        WireLengths(buf, seg, pos + 1 + buf[pos]);
      } else {
        var address := (buf[pos] - REF) * 256 + buf[pos + 1];
        ReadJump(buf, seg, pos);
        WireLengths(buf, address, address);
      }
    }
  }

  lemma {:induction false} CStringWhole(s: Label)
    requires forall i :: 0 <= i < |s| ==> s[i] != 0
    ensures CString(s) == s
    decreases |s|
  {
    if s != [] {
      CStringWhole(s[1..]);
    }
  }

  lemma PlainWhole(strings: seq<Label>)
    requires strings != [] && Plain(strings)
    ensures CString(strings[0]) == strings[0] && Plain(strings[1..])
  {
    CStringWhole(strings[0]);
    assert forall i :: 0 <= i < |strings| - 1 ==> strings[1..][i] == strings[i + 1];
  }

  lemma MakesText(s: Label, rest: seq<Item>, strings: seq<Label>, room: bool)
    requires strings != [] && s == strings[0] && CString(s) == s
    ensures Makes([Text(s)] + rest, strings, room) <==> Makes(rest, strings[1..], room)
  {
    assert ([Text(s)] + rest)[1..] == rest;
  }

  lemma MakesJump(rest: seq<Item>, strings: seq<Label>, room: bool)
    requires strings != []
    ensures Makes([Jump] + rest, strings, room) <==> Makes(rest, strings, room)
  {
    assert ([Jump] + rest)[1..] == rest;
  }

  /** The name can be read, in the buffer that the append leaves, and its items make it. */
  ghost predicate ReadMakes(w: Wire, strings: seq<Label>, room: bool) {
    w.Good? && Makes(w.items, strings, room)
  }

  /**
    Without a match the name stands there; with one it is read if and only if the place is read as the
    labels it stands for.
   */
  ghost predicate Decides(p: Packet, strings: seq<Label>, buf: seq<Byte>, start: nat, room: bool)
    requires ValidPacket(p) && ValidLabels(strings) && |buf| == MAX_PACKET
  {
    var m := MatchOf(p, strings);
    ReadMakes(Expected(p, strings, buf, start), strings, room)
    <==> (m.At? ==> m.at < start && ReadMakes(ReadWire(buf, m.at, m.at), m.rest, room))
  }

  lemma ExpectedPointer(p: Packet, strings: seq<Label>, buf: seq<Byte>, start: nat)
    requires ValidPacket(p) && ValidLabels(strings) && |buf| == MAX_PACKET
    requires strings != [] && Find(p.buf, p.index, strings, 0) < p.index
    ensures var at := Find(p.buf, p.index, strings, 0);
            var rest := ReadWire(buf, at, at);
            var w := Expected(p, strings, buf, start);
            && (w.Good? <==> at < start && rest.Good?)
            && (w.Good? ==> w.items == [Jump] + rest.items && w.next == p.index + 2)
            && (w.Good? ==> w.touched == if rest.touched < p.index + 2 then p.index + 2 else rest.touched)
  {
  }

  lemma PointerDecides(p: Packet, strings: seq<Label>, buf: seq<Byte>, start: nat, room: bool)
    requires ValidPacket(p) && ValidLabels(strings) && Append(p, strings).ok && |buf| == MAX_PACKET
    requires strings != [] && Find(p.buf, p.index, strings, 0) < p.index
    ensures Decides(p, strings, buf, start, room)
  {
    var at := Find(p.buf, p.index, strings, 0);
    AppendPoints(p, strings);
    ExpectedPointer(p, strings, buf, start);
    if ReadWire(buf, at, at).Good? {
      MakesJump(ReadWire(buf, at, at).items, strings, room);
    }
  }

  lemma LabelDecides(p: Packet, strings: seq<Label>, buf: seq<Byte>, start: nat, room: bool)
    requires ValidPacket(p) && ValidLabels(strings) && |buf| == MAX_PACKET
    requires strings != [] && Find(p.buf, p.index, strings, 0) == p.index && CString(strings[0]) == strings[0]
    requires p.index + |strings[0]| + 1 < MAX_PACKET && Decides(One(p, strings[0]), strings[1..], buf, start, room)
    requires MatchOf(p, strings) == MatchOf(One(p, strings[0]), strings[1..])
    ensures Decides(p, strings, buf, start, room)
  {
    ExpectedStep(p, strings, buf, start);
    var rest := Expected(One(p, strings[0]), strings[1..], buf, start);
    if rest.Good? {
      MakesText(strings[0], rest.items, strings, room);
    }
  }

  lemma {:induction false} MatchDecides(p: Packet, strings: seq<Label>, buf: seq<Byte>, start: nat, room: bool)
    requires ValidPacket(p) && ValidLabels(strings) && Plain(strings)
    requires Append(p, strings).ok && |buf| == MAX_PACKET
    ensures Decides(p, strings, buf, start, room)
    decreases |strings|
  {
    if strings != [] {
      if Find(p.buf, p.index, strings, 0) < p.index {
        PointerDecides(p, strings, buf, start, room);
      } else {
        AppendStep(p, strings);
        PlainWhole(strings);
        MatchDecides(One(p, strings[0]), strings[1..], buf, start, room);
        LabelDecides(p, strings, buf, start, room);
      }
    }
  }

  /** A name that is read ends where the writer's index is. */
  lemma {:induction false} ExpectedNext(p: Packet, strings: seq<Label>, buf: seq<Byte>, start: nat)
    requires ValidPacket(p) && ValidLabels(strings) && Append(p, strings).ok && |buf| == MAX_PACKET
    ensures var w := Expected(p, strings, buf, start);
            w.Good? ==> w.next == Append(p, strings).p.index
    decreases |strings|
  {
    if strings != [] {
      if Find(p.buf, p.index, strings, 0) < p.index {
        AppendPoints(p, strings);
        PointerBytes(p, Find(p.buf, p.index, strings, 0));
      } else {
        AppendStep(p, strings);
        ExpectedStep(p, strings, buf, start);
        ExpectedNext(One(p, strings[0]), strings[1..], buf, start);
      }
    }
  }

  // ----- A match that runs on past the index -----

  /**
    The reading is made of whole labels and whole pointers: no label has a terminator inside, and no
    pointer is cut by the index.
   */
  predicate Whole(buf: seq<Byte>, seg: nat, pos: nat, index: nat)
    requires seg <= pos <= |buf|
    decreases seg, |buf| - pos
  {
    if pos == |buf| || buf[pos] == 0 then true
    else if buf[pos] < REF then
      var end := pos + 1 + buf[pos];
      end <= |buf| && 0 !in buf[pos + 1..end] && Whole(buf, seg, end, index)
    else
      pos + 1 < |buf| && pos + 1 != index
      && var address := (buf[pos] - REF) * 256 + buf[pos + 1];
         address < seg && Whole(buf, address, address, index)
  }

  lemma OddText(chars: Label, rest: seq<Item>, k: nat)
    requires k < |chars| && chars[k] >= REF && 0 !in chars[..k]
    ensures Odd([Text(chars)] + rest)
  {
    FirstNulBehind(chars, k);
    assert CString(chars)[k] == chars[k];
  }

  lemma {:induction false} FirstNulBehind(s: Label, k: nat)
    requires k < |s| && s[k] != 0 && 0 !in s[..k]
    ensures k < FirstNul(s)
    decreases k
  {
    if k > 0 {
      assert s[..k][0] == s[0];
      assert s[1..][..k - 1] == s[..k][1..];
      FirstNulBehind(s[1..], k - 1);
    }
  }

  lemma OddMore(item: Item, rest: seq<Item>)
    requires Odd(rest)
    ensures Odd([item] + rest)
  {
    assert ([item] + rest)[1..] == rest;
  }

  /** What the reader meets in the buffer with the pointer: nothing readable, or a byte of the pointer in a label. */
  ghost predicate Broken(w: Wire) {
    w.Good? ==> Odd(w.items)
  }

  /** A label that reaches over the index takes in the pointer. */
  lemma StraddlingLabel(buf: seq<Byte>, buf': seq<Byte>, seg: nat, pos: nat, x: nat)
    requires seg <= pos < x < |buf| == |buf'| && buf[..x] == buf'[..x] && buf'[x] >= REF
    requires 0 < buf[pos] < REF && x < pos + 1 + buf[pos] <= |buf| && 0 !in buf[pos + 1..pos + 1 + buf[pos]]
    ensures Broken(ReadWire(buf', seg, pos))
  {
    assert buf'[pos] == buf'[..x][pos] == buf[pos];
    var end := pos + 1 + buf[pos];
    ReadText(buf', seg, pos);
    var chars := buf'[pos + 1..end];
    var k := x - pos - 1;
    assert chars[..k] == buf'[..x][pos + 1..] == buf[..x][pos + 1..] == buf[pos + 1..end][..k];
    if ReadWire(buf', seg, end).Good? {
      OddText(chars, ReadWire(buf', seg, end).items, k);
    }
  }

  lemma TextBreaks(buf': seq<Byte>, seg: nat, pos: nat)
    requires seg <= pos < |buf'| && 0 < buf'[pos] < REF
    requires pos + 1 + buf'[pos] <= |buf'| ==> Broken(ReadWire(buf', seg, pos + 1 + buf'[pos]))
    ensures Broken(ReadWire(buf', seg, pos))
  {
    ReadText(buf', seg, pos);
    var end := pos + 1 + buf'[pos];
    if end <= |buf'| && ReadWire(buf', seg, end).Good? {
      OddMore(Text(buf'[pos + 1..end]), ReadWire(buf', seg, end).items);
    }
  }

  lemma JumpBreaks(buf': seq<Byte>, seg: nat, pos: nat, address: nat)
    requires seg <= pos && pos + 1 < |buf'| && REF <= buf'[pos]
    requires address == (buf'[pos] - REF) * 256 + buf'[pos + 1]
    requires address >= seg || Broken(ReadWire(buf', address, address))
    ensures Broken(ReadWire(buf', seg, pos))
  {
    ReadJump(buf', seg, pos);
    if address < seg && ReadWire(buf', address, address).Good? {
      OddMore(Jump, ReadWire(buf', address, address).items);
    }
  }

  /** Past a pointer before the index, the reading still looks at the index or behind it. */
  lemma CrossingJump(buf: seq<Byte>, buf': seq<Byte>, seg: nat, pos: nat, x: nat) returns (address: nat)
    requires seg <= pos < x && x + 1 < |buf| == |buf'| && buf[..x] == buf'[..x] && REF <= buf[pos]
    requires ReadWire(buf, seg, pos).Good? && ReadWire(buf, seg, pos).touched > x && Whole(buf, seg, pos, x)
    ensures address < seg && buf'[pos] == buf[pos] && address == (buf'[pos] - REF) * 256 + buf'[pos + 1]
    ensures ReadWire(buf, address, address).Good? && ReadWire(buf, address, address).touched > x
            && Whole(buf, address, address, x)
  {
    address := (buf[pos] - REF) * 256 + buf[pos + 1];
    ReadJump(buf, seg, pos);
    assert buf'[pos] == buf'[..x][pos] == buf[pos];
    assert buf'[pos + 1] == buf'[..x][pos + 1] == buf[pos + 1];
  }

  /** A reading that looked at the index or behind it is broken by a pointer there to its own beginning. */
  lemma {:induction false} CrossingBreaks(buf: seq<Byte>, buf': seq<Byte>, seg: nat, pos: nat, x: nat, at: nat)
    requires seg <= pos <= x && x + 1 < |buf| == |buf'| && seg <= at && buf[..x] == buf'[..x]
    requires buf'[x] >= REF && (buf'[x] - REF) * 256 + buf'[x + 1] == at
    requires ReadWire(buf, seg, pos).Good? && ReadWire(buf, seg, pos).touched > x && Whole(buf, seg, pos, x)
    ensures Broken(ReadWire(buf', seg, pos))
    decreases seg, |buf| - pos
  {
    if pos == x {
      JumpBreaks(buf', seg, pos, at);
    } else {
      assert buf'[pos] == buf'[..x][pos] == buf[pos];
      if buf[pos] < REF {
        ReadText(buf, seg, pos);
        var end := pos + 1 + buf[pos];
        if end <= x {
          CrossingBreaks(buf, buf', seg, end, x, at);
          TextBreaks(buf', seg, pos);
        } else {
          StraddlingLabel(buf, buf', seg, pos, x);
        }
      } else {
        var address := CrossingJump(buf, buf', seg, pos, x);
        CrossingBreaks(buf, buf', address, address, x, at);
        JumpBreaks(buf', seg, pos, address);
      }
    }
  }

  lemma {:induction false} ExpectedBreaks(p: Packet, strings: seq<Label>, buf: seq<Byte>, start: nat)
    requires ValidPacket(p) && ValidLabels(strings) && Append(p, strings).ok && |buf| == MAX_PACKET
    requires var m := MatchOf(p, strings);
             m.At? && (m.at >= start || Broken(ReadWire(buf, m.at, m.at)))
    ensures Broken(Expected(p, strings, buf, start))
    decreases |strings|
  {
    if Find(p.buf, p.index, strings, 0) < p.index {
      var at := Find(p.buf, p.index, strings, 0);
      AppendPoints(p, strings);
      ExpectedPointer(p, strings, buf, start);
      if at < start && ReadWire(buf, at, at).Good? {
        OddMore(Jump, ReadWire(buf, at, at).items);
      }
    } else {
      AppendStep(p, strings);
      ExpectedStep(p, strings, buf, start);
      var rest := Expected(One(p, strings[0]), strings[1..], buf, start);
      ExpectedBreaks(One(p, strings[0]), strings[1..], buf, start);
      if rest.Good? {
        OddMore(Text(strings[0]), rest.items);
      }
    }
  }

  // ----- The round trip -----

  /**
    What a caller can check before the append: the match, if there is one, was read without looking at
    the index or behind it, came upon no "_sub", and, for a name of four labels, upon nothing behind them.
   */
  predicate Sound(p: Packet, strings: seq<Label>)
    requires ValidPacket(p) && ValidLabels(strings)
  {
    var m := MatchOf(p, strings);
    m.At? ==>
      var w := Reading(m);
      var n := TakeAll(FRESH, w.items);
      w.touched <= m.q.index && !n.sub && (|strings| == 4 ==> !n.invalid && LabelLast(w.items))
  }

  /** The appended name can be read at the index it was appended at: to its end, and as it was given. */
  predicate RoundTrips(p: Packet, strings: seq<Label>)
    requires ValidPacket(p) && ValidLabels(strings)
  {
    var r := Append(p, strings).p;
    var w := ReadWire(r.buf, p.index, p.index);
    w.Good? && w.next == r.index && Right(TakeAll(FRESH, w.items), strings)
  }

  lemma CandidateItems(buf: seq<Byte>, at: nat, strings: seq<Label>)
    requires at < |buf| && strings != [] && ValidLabels(strings) && Candidate(buf, at, strings)
    ensures var items := ReadWire(buf, at, at).items;
            items != [] && items[0] == Text(strings[0]) && Lengths(items) && |strings| <= 4
  {
    ReadText(buf, at, at);
    WireLengths(buf, at, at);
    TakeAllGrows(FRESH, ReadWire(buf, at, at).items);
  }

  /** A match that was read before the index reads the same behind the pointer, and lies before the name. */
  lemma PlaceKept(p: Packet, strings: seq<Label>, start: nat)
    requires ValidPacket(p) && ValidLabels(strings) && Plain(strings) && Append(p, strings).ok
    requires start <= p.index && Running(p.buf, start, p.index)
    requires var m := MatchOf(p, strings); m.At? && Reading(m).touched <= m.q.index
    ensures var m := MatchOf(p, strings); m.at < start && ReadWire(Append(p, strings).p.buf, m.at, m.at) == Reading(m)
  {
    var m := MatchOf(p, strings);
    MatchEnds(p, strings);
    MatchRuns(p, strings, start);
    if start <= m.at {
      UnfinishedRunsOn(m.q.buf, m.at, m.at, start, m.q.index);
    }
    PointerBytes(m.q, m.at);
    ReadBefore(m.q.buf, Append(p, strings).p.buf, m.at, m.q.index);
  }

  lemma TailOf(strings: seq<Label>, k: nat)
    requires k <= |strings| && ValidLabels(strings) && Plain(strings)
    ensures ValidLabels(strings[k..]) && Plain(strings[k..])
    ensures NoSubs(strings) ==> NoSubs(strings[k..])
  {
    assert forall i :: 0 <= i < |strings| - k ==> strings[k..][i] == strings[i + k];
  }

  /** For a match that was read before the index, the flags decide whether it makes the labels it stands for. */
  lemma FlagsDecide(p: Packet, strings: seq<Label>)
    requires ValidPacket(p) && ValidName(strings) && Append(p, strings).ok
    requires var m := MatchOf(p, strings); m.At? && Reading(m).touched <= m.q.index
    ensures Makes(Reading(MatchOf(p, strings)).items, MatchOf(p, strings).rest, |strings| < 4) <==> Sound(p, strings)
  {
    var m := MatchOf(p, strings);
    TailOf(strings, |strings| - |m.rest|);
    PlainWhole(m.rest);
    CandidateItems(m.q.buf, m.at, m.rest);
    MatchMakes(Reading(m).items, m.rest, |strings| < 4);
  }

  /** Past jumps, the first item is the first label, exactly. */
  ghost predicate FirstIs(items: seq<Item>, s: Label)
    decreases |items|
  {
    items != [] && (items[0] == Text(s) || (items[0].Jump? && FirstIs(items[1..], s)))
  }

  lemma {:induction false} RightMakes(items: seq<Item>, strings: seq<Label>)
    requires strings != [] && ValidLabels(strings) && |strings| <= 4 && Lengths(items)
    requires FirstIs(items, strings[0]) && CString(strings[0]) == strings[0]
    requires Right(TakeAll(FRESH, items), strings)
    ensures Makes(items, strings, |strings| < 4)
    decreases |items|
  {
    if items[0].Jump? {
      LengthsTail(items);
      RightMakes(items[1..], strings);
    } else {
      FreshMakes(items, strings);
    }
  }

  lemma ExpectedFirst(p: Packet, strings: seq<Label>, buf: seq<Byte>, start: nat)
    requires ValidPacket(p) && ValidLabels(strings) && strings != [] && Append(p, strings).ok && |buf| == MAX_PACKET
    requires var m := MatchOf(p, strings); m.At? ==> ReadWire(buf, m.at, m.at) == Reading(m)
    ensures var w := Expected(p, strings, buf, start); w.Good? ==> FirstIs(w.items, strings[0])
  {
    var at := Find(p.buf, p.index, strings, 0);
    if at < p.index {
      AppendPoints(p, strings);
      ExpectedPointer(p, strings, buf, start);
      CandidateItems(p.buf, at, strings);
      var items := Reading(MatchOf(p, strings)).items;
      assert FirstIs(items, strings[0]);
      assert ([Jump] + items)[1..] == items;
    } else {
      AppendStep(p, strings);
      ExpectedStep(p, strings, buf, start);
    }
  }

  /** When the match, if any, was read before the index, the name is read back just when its items make it. */
  lemma MakesRight(p: Packet, strings: seq<Label>)
    requires ValidPacket(p) && ValidName(strings) && Append(p, strings).ok
    requires var m := MatchOf(p, strings); m.At? ==> ReadWire(Append(p, strings).p.buf, m.at, m.at) == Reading(m)
    ensures ReadMakes(ReadWire(Append(p, strings).p.buf, p.index, p.index), strings, |strings| < 4) <==>
            RoundTrips(p, strings)
  {
    var buf := Append(p, strings).p.buf;
    var w := ReadWire(buf, p.index, p.index);
    AppendReads(p, strings, buf, p.index);
    ExpectedNext(p, strings, buf, p.index);
    if w.Good? {
      WireLengths(buf, p.index, p.index);
      if Makes(w.items, strings, |strings| < 4) {
        MakesTaken(FRESH, w.items, strings);
      }
      if strings != [] && Right(TakeAll(FRESH, w.items), strings) {
        ExpectedFirst(p, strings, buf, p.index);
        PlainWhole(strings);
        RightMakes(w.items, strings);
      }
    }
  }

  lemma TouchedDecides(p: Packet, strings: seq<Label>)
    requires ValidPacket(p) && ValidName(strings) && Append(p, strings).ok
    requires var m := MatchOf(p, strings); m.At? ==> Reading(m).touched <= m.q.index
    ensures RoundTrips(p, strings) <==> Sound(p, strings)
  {
    var buf := Append(p, strings).p.buf;
    AppendReads(p, strings, buf, p.index);
    MatchDecides(p, strings, buf, p.index, |strings| < 4);
    if MatchOf(p, strings).At? {
      PlaceKept(p, strings, p.index);
      FlagsDecide(p, strings);
    }
    MakesRight(p, strings);
  }

  /** The reading at the match, as far as it goes, is made of whole labels and whole pointers. */
  predicate WholeMatch(p: Packet, strings: seq<Label>)
    requires ValidPacket(p) && ValidLabels(strings)
  {
    var m := MatchOf(p, strings);
    m.At? ==> Whole(m.q.buf, m.at, m.at, m.q.index)
  }

  /** A match that was read at the index or behind it is lost. */
  lemma CrossingIsLost(p: Packet, strings: seq<Label>)
    requires ValidPacket(p) && ValidName(strings) && Append(p, strings).ok && WholeMatch(p, strings)
    requires var m := MatchOf(p, strings); m.At? && Reading(m).touched > m.q.index
    ensures !RoundTrips(p, strings)
  {
    var m := MatchOf(p, strings);
    var buf := Append(p, strings).p.buf;
    var w := ReadWire(buf, p.index, p.index);
    MatchEnds(p, strings);
    PointerBytes(m.q, m.at);
    CrossingBreaks(m.q.buf, buf, m.at, m.at, m.q.index, m.at);
    ExpectedBreaks(p, strings, buf, p.index);
    AppendReads(p, strings, buf, p.index);
    if w.Good? {
      WireLengths(buf, p.index, p.index);
      OddSpoils(FRESH, w.items);
      SpoiledIsWrong(TakeAll(FRESH, w.items), strings);
    }
  }

  /**
    The round trip of a name: from the index it was appended at, the reader returns just past it,
    and gives its parts back up to case, with neither a subtype nor an excess label.
   */
  lemma RoundTrip(p: Packet, strings: seq<Label>)
    requires ValidPacket(p) && ValidName(strings) && Append(p, strings).ok && Sound(p, strings)
    ensures RoundTrips(p, strings)
  {
    TouchedDecides(p, strings);
  }

  /**
    And it does so only then, as long as the match has no terminator inside a label and no pointer cut
    by the index.
   */
  lemma RoundTripExactly(p: Packet, strings: seq<Label>)
    requires ValidPacket(p) && ValidName(strings) && Append(p, strings).ok && WholeMatch(p, strings)
    ensures RoundTrips(p, strings) <==> Sound(p, strings)
  {
    var m := MatchOf(p, strings);
    if m.At? && Reading(m).touched > m.q.index {
      CrossingIsLost(p, strings);
    } else {
      TouchedDecides(p, strings);
    }
  }

  // ----- Names in packets -----

  /** What the items spell, label by label. */
  ghost predicate Reads(items: seq<Item>, name: seq<Label>)
    decreases |items|
  {
    if items == [] then name == []
    else
      && name != []
      && match items[0]
         case Jump => Reads(items[1..], name)
         case Text(chars) => Same(name[0], chars) && Reads(items[1..], name[1..])
  }

  /** No label has a terminator inside. */
  predicate Uncut(items: seq<Item>) {
    forall i :: 0 <= i < |items| && items[i].Text? ==> 0 !in items[i].chars
  }

  /**
    What framing asks of a match beyond a sound one: its labels are whole and the last item is one of
    them, so that nothing written later into the header or into a length can change the reading.
   */
  predicate Honest(p: Packet, strings: seq<Label>)
    requires ValidPacket(p) && ValidLabels(strings)
  {
    var m := MatchOf(p, strings);
    m.At? ==>
      var w := Reading(m);
      var n := TakeAll(FRESH, w.items);
      w.touched <= m.q.index && !n.sub && !n.invalid && LabelLast(w.items) && Uncut(w.items)
  }

  /** The label that a match begins with ends before the index: what lies behind does not complete it. */
  predicate Closed(p: Packet, strings: seq<Label>)
    requires ValidPacket(p) && ValidLabels(strings)
  {
    var m := MatchOf(p, strings);
    m.At? ==> m.at + 1 + |m.rest[0]| <= m.q.index
  }

  /** An honest match is closed, as its reading looks at its first label to the end. */
  lemma HonestIsClosed(p: Packet, strings: seq<Label>)
    requires ValidPacket(p) && ValidLabels(strings) && Honest(p, strings)
    ensures Closed(p, strings)
  {
    var m := MatchOf(p, strings);
    if m.At? {
      TextTouched(m.q.buf, m.at, m.at);
    }
  }

  lemma {:induction false} UncutReads(items: seq<Item>, name: seq<Label>)
    requires Makes(items, name, false) && Uncut(items)
    ensures Reads(items, name)
    decreases |items|
  {
    if items != [] {
      assert forall i :: 0 <= i < |items| - 1 ==> items[1..][i] == items[i + 1];
      match items[0]
      case Jump => UncutReads(items[1..], name);
      case Text(chars) =>
        assert forall i :: 0 <= i < |chars| ==> chars[i] in chars;
        CStringWhole(chars);
        UncutReads(items[1..], name[1..]);
    }
  }

  /** The name that the append wrote reads, from the index it began at, as the name it was given. */
  ghost predicate ReadsBack(p: Packet, strings: seq<Label>, start: nat)
    requires ValidPacket(p) && ValidLabels(strings) && start <= p.index
  {
    var r := Append(p, strings).p;
    var w := ReadWire(r.buf, start, p.index);
    w.Good? && Reads(w.items, strings) && w.next == r.index && w.touched <= r.index
  }

  /** The place of an honest match reads as the labels it stands for: the writer's own test says so. */
  lemma MatchReads(p: Packet, strings: seq<Label>)
    requires ValidPacket(p) && ValidLabels(strings) && Plain(strings)
    requires Honest(p, strings) && MatchOf(p, strings).At?
    ensures Reads(Reading(MatchOf(p, strings)).items, MatchOf(p, strings).rest)
  {
    var m := MatchOf(p, strings);
    var items := Reading(m).items;
    TailOf(strings, |strings| - |m.rest|);
    PlainWhole(m.rest);
    CandidateItems(m.q.buf, m.at, m.rest);
    FreshMakes(items, m.rest);
    LastMakes(items, m.rest, |m.rest| < 4);
    UncutReads(items, m.rest);
  }

  /** With its match as before, the whole name is read, and nothing behind it. */
  lemma {:induction false} ExpectedReads(p: Packet, strings: seq<Label>, buf: seq<Byte>, start: nat)
    requires ValidPacket(p) && ValidLabels(strings) && Append(p, strings).ok && |buf| == MAX_PACKET
    requires var m := MatchOf(p, strings);
             m.At? ==> var w := ReadWire(buf, m.at, m.at);
                       m.at < start && w.Good? && w.touched <= m.q.index && Reads(w.items, m.rest)
    ensures var w := Expected(p, strings, buf, start);
            w.Good? && Reads(w.items, strings) && w.touched <= w.next
    decreases |strings|
  {
    if strings != [] {
      if Find(p.buf, p.index, strings, 0) < p.index {
        AppendPoints(p, strings);
        ExpectedPointer(p, strings, buf, start);
        var w := Expected(p, strings, buf, start);
        assert w.items[1..] == ReadWire(buf, MatchOf(p, strings).at, MatchOf(p, strings).at).items;
      } else {
        AppendStep(p, strings);
        ExpectedStep(p, strings, buf, start);
        ExpectedReads(One(p, strings[0]), strings[1..], buf, start);
        var rest := Expected(One(p, strings[0]), strings[1..], buf, start);
        assert ([Text(strings[0])] + rest.items)[1..] == rest.items;
      }
    }
  }

  lemma AppendReadsBack(p: Packet, strings: seq<Label>, start: nat)
    requires ValidPacket(p) && ValidLabels(strings) && Plain(strings)
    requires start <= p.index && Running(p.buf, start, p.index)
    requires Append(p, strings).ok && Honest(p, strings)
    ensures ReadsBack(p, strings, start)
  {
    var buf := Append(p, strings).p.buf;
    if MatchOf(p, strings).At? {
      PlaceKept(p, strings, start);
      MatchReads(p, strings);
    }
    ExpectedReads(p, strings, buf, start);
    AppendReads(p, strings, buf, start);
    ExpectedNext(p, strings, buf, start);
  }
}
