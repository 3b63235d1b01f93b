/**
  Why the matches of mdns.c (lines 746-807) are honest in the packets of its responder: when no label
  has a byte that is the length of a label, the bytes before the index that look like a label of one of
  its names are that label.
 */
module DnsPlaces {
  import opened Bytes
  import opened DnsName
  import opened DnsRound
  import opened DnsFrame

  type Names = set<seq<Label>>

  // ----- Conditions on the names of a message -----

  ghost predicate Has(names: Names, s: Label) {
    exists n, k: nat :: n in names && k < |n| && n[k] == s
  }

  /** No label has a byte that is the length of a label. */
  ghost predicate Apart(names: Names) {
    forall s, t :: Has(names, s) && Has(names, t) ==> forall k :: 0 <= k < |t| ==> t[k] != |s|
  }

  /** From these labels on, both names have "_sub", or neither has. */
  ghost predicate Alike(n: seq<Label>, i: nat, m: seq<Label>, j: nat)
    requires i <= |n| && j <= |m|
  {
    NoSubs(n[i..]) <==> NoSubs(m[j..])
  }

  ghost predicate SubtypesApart(names: Names) {
    forall n, m, i: nat, j: nat {:trigger Alike(n, i, m, j)} ::
      n in names && m in names && i < |n| && j < |m| && n[i] == m[j] ==> Alike(n, i, m, j)
  }

  ghost predicate Distinct(name: seq<Label>) {
    forall i, j :: 0 <= i < j < |name| ==> name[i] != name[j]
  }

  /** From this label on, the name has "_sub", or at most four labels. */
  ghost predicate Room(name: seq<Label>, i: nat)
    requires i <= |name|
  {
    NoSubs(name[i..]) ==> |name| - i <= 4
  }

  ghost predicate Fits(name: seq<Label>) {
    GoodName(name) && Distinct(name) && forall i: nat :: i < |name| ==> Room(name, i)
  }

  ghost predicate Clear(names: Names) {
    Apart(names) && SubtypesApart(names) && forall n :: n in names ==> Fits(n)
  }

  /** A byte that is in no label. */
  ghost predicate Foreign(b: Byte, names: Names) {
    forall s :: Has(names, s) ==> b !in s
  }

  // ----- What a packet in the making holds -----

  /** The place reads as the end of a name from its k-th label on, and all of that lies before the index. */
  ghost predicate PlacedAs(buf: seq<Byte>, pos: nat, index: nat, name: seq<Label>, k: nat)
    requires pos <= |buf|
  {
    && k < |name| && Occurs(buf, pos, name[k])
    && var w := ReadWire(buf, pos, pos);
       w.Good? && w.touched <= index && Reads(w.items, name[k..])
  }

  ghost predicate Placed(buf: seq<Byte>, pos: nat, index: nat, names: Names)
    requires pos <= |buf|
  {
    exists n, k: nat :: n in names && PlacedAs(buf, pos, index, n, k)
  }

  /** The label stands here and ends before the index. */
  predicate EndsBy(buf: seq<Byte>, pos: nat, index: nat, s: Label) {
    Occurs(buf, pos, s) && pos + 1 + |s| <= index
  }

  /** Some label of the names stands here and ends before the index. */
  ghost predicate Looks(buf: seq<Byte>, pos: nat, index: nat, names: Names) {
    exists s :: Has(names, s) && EndsBy(buf, pos, index, s)
  }

  /** Whatever looks like a label before the index, from lo to hi, is one. */
  ghost predicate Known(buf: seq<Byte>, lo: nat, hi: nat, index: nat, names: Names)
    requires hi <= |buf|
  {
    forall pos: nat :: lo <= pos < hi && Looks(buf, pos, index, names) ==> Placed(buf, pos, index, names)
  }

  predicate PlainLabel(s: Label) {
    1 <= |s| <= MAX_LABEL && forall i :: 0 <= i < |s| ==> 0 < s[i] < REF
  }

  /** What the places of labels need to know of the names. */
  ghost predicate Ordinary(names: Names) {
    Apart(names) && forall s :: Has(names, s) ==> PlainLabel(s)
  }

  lemma ClearIsOrdinary(names: Names)
    requires Clear(names)
    ensures Ordinary(names)
  {
    forall s | Has(names, s)
      ensures PlainLabel(s)
    {
      var n, k: nat :| n in names && k < |n| && n[k] == s;
      assert Fits(n) && ValidLabels(n) && Plain(n);
    }
  }

  lemma HasLabel(names: Names, name: seq<Label>, k: nat)
    requires name in names && k < |name|
    ensures Has(names, name[k])
  {
  }

  lemma LengthIsForeign(names: Names, s: Label)
    requires Ordinary(names) && Has(names, s)
    ensures Foreign(|s|, names)
  {
  }

  lemma EndIsForeign(names: Names, b: Byte)
    requires Ordinary(names) && (b == 0 || b >= REF)
    ensures Foreign(b, names)
  {
    assert forall s :: Has(names, s) ==> PlainLabel(s);
  }

  lemma InLabel(buf: seq<Byte>, pos: nat, s: Label, x: nat)
    requires Occurs(buf, pos, s) && pos < x < pos + 1 + |s|
    ensures buf[x] in s
  {
    assert buf[pos + 1..pos + 1 + |s|][x - pos - 1] == buf[x];
  }

  /** A label that starts before a foreign byte ends before it. */
  lemma StopsBefore(buf: seq<Byte>, pos: nat, x: nat, names: Names, s: Label)
    requires pos < x < |buf| && Foreign(buf[x], names) && Has(names, s) && Occurs(buf, pos, s)
    ensures pos + 1 + |s| <= x
  {
    if x < pos + 1 + |s| {
      InLabel(buf, pos, s, x);
    }
  }

  lemma OccursEarlier(buf: seq<Byte>, buf': seq<Byte>, pos: nat, s: Label, x: nat)
    requires pos + 1 + |s| <= x <= |buf| && |buf| == |buf'| && buf[..x] == buf'[..x]
    ensures Occurs(buf, pos, s) <==> Occurs(buf', pos, s)
  {
    PrefixAgrees(buf, buf', x);
    SliceKept(buf, buf', 0, x, pos + 1, pos + 1 + |s|);
  }

  /** A label that is read is looked at to its end. */
  lemma TextEnds(buf: seq<Byte>, pos: nat, s: Label)
    requires Occurs(buf, pos, s) && 1 <= |s| <= MAX_LABEL && ReadWire(buf, pos, pos).Good?
    ensures pos + 1 + |s| <= ReadWire(buf, pos, pos).touched
  {
    TextTouched(buf, pos, pos);
  }

  lemma PlacedAsKept(buf: seq<Byte>, buf': seq<Byte>, pos: nat, x: nat, index: nat, n: seq<Label>, k: nat)
    requires pos < x <= |buf| == |buf'| && x <= index && buf[..x] == buf'[..x] && PlacedAs(buf, pos, x, n, k)
    requires 1 <= |n[k]| <= MAX_LABEL
    ensures PlacedAs(buf', pos, index, n, k)
  {
    ReadBefore(buf, buf', pos, x);
    TextEnds(buf, pos, n[k]);
    OccursEarlier(buf, buf', pos, n[k], x);
  }

  lemma PlacedKept(buf: seq<Byte>, buf': seq<Byte>, pos: nat, x: nat, index: nat, names: Names)
    requires pos < x <= |buf| == |buf'| && x <= index && buf[..x] == buf'[..x]
    requires Ordinary(names) && Placed(buf, pos, x, names)
    ensures Placed(buf', pos, index, names)
  {
    var n, k: nat :| n in names && PlacedAs(buf, pos, x, n, k);
    HasLabel(names, n, k);
    assert PlainLabel(n[k]);
    PlacedAsKept(buf, buf', pos, x, index, n, k);
  }

  /** With a foreign byte behind it, what was known stays known. */
  lemma OldKnown(buf: seq<Byte>, buf': seq<Byte>, x: nat, index: nat, names: Names)
    requires x < |buf| == |buf'| && x <= index && buf[..x] == buf'[..x]
    requires Ordinary(names) && Known(buf, 0, x, x, names) && Foreign(buf'[x], names)
    ensures Known(buf', 0, x, index, names)
  {
    forall pos: nat | 0 <= pos < x && Looks(buf', pos, index, names)
      ensures Placed(buf', pos, index, names)
    {
      var s :| Has(names, s) && EndsBy(buf', pos, index, s);
      StopsBefore(buf', pos, x, names, s);
      OccursEarlier(buf, buf', pos, s, x);
      assert EndsBy(buf, pos, x, s);
      PlacedKept(buf, buf', pos, x, index, names);
    }
  }

  // ----- Appending a name -----

  lemma NotALength(buf: seq<Byte>, pos: nat, index: nat, names: Names)
    requires Ordinary(names) && pos < |buf| && (buf[pos] == 0 || buf[pos] > MAX_LABEL || index <= pos + 1)
    ensures !Looks(buf, pos, index, names)
  {
    assert forall s :: Has(names, s) ==> PlainLabel(s);
  }

  lemma EndKnown(buf: seq<Byte>, at: nat, names: Names)
    requires Ordinary(names) && at < |buf| && buf[at] == 0
    ensures Known(buf, at, at + 1, at + 1, names)
  {
    NotALength(buf, at, at + 1, names);
  }

  lemma PointerKnown(buf: seq<Byte>, at: nat, names: Names)
    requires at + 2 <= |buf| && buf[at] >= REF && Ordinary(names)
    ensures Known(buf, at, at + 2, at + 2, names)
  {
    NotALength(buf, at, at + 2, names);
    NotALength(buf, at + 1, at + 2, names);
  }

  /** A label that is in its place, and nothing inside it. */
  lemma LabelKnown(buf: seq<Byte>, at: nat, s: Label, hi: nat, index: nat, names: Names)
    requires Ordinary(names) && Has(names, s) && Occurs(buf, at, s) && at + 1 + |s| <= hi <= |buf|
    requires Placed(buf, at, index, names) && Known(buf, at + 1 + |s|, hi, index, names)
    ensures Known(buf, at, hi, index, names)
  {
    forall pos: nat | at <= pos < hi && Looks(buf, pos, index, names)
      ensures Placed(buf, pos, index, names)
    {
      if at < pos < at + 1 + |s| {
        InLabel(buf, at, s, pos);
      }
    }
  }

  lemma NewPlace(p: Packet, names: Names, name: seq<Label>, j: nat, todo: seq<Label>)
    requires ValidPacket(p) && name in names && j < |name| && todo == name[j..] && todo[0] == name[j]
    requires ValidLabels(todo) && Plain(todo) && Append(p, todo).ok && Honest(p, todo)
    requires Find(p.buf, p.index, todo, 0) == p.index
    ensures var r := Append(p, todo).p; Occurs(r.buf, p.index, name[j]) && Placed(r.buf, p.index, r.index, names)
  {
    var r := Append(p, todo).p;
    LabelKept(p, todo);
    AppendReadsBack(p, todo, p.index);
    assert PlacedAs(r.buf, p.index, r.index, name, j);
  }

  lemma ClosedStep(p: Packet, strings: seq<Label>)
    requires ValidPacket(p) && ValidLabels(strings) && strings != []
    requires Find(p.buf, p.index, strings, 0) == p.index && p.index + |strings[0]| + 1 < MAX_PACKET
    ensures Closed(p, strings) <==> Closed(One(p, strings[0]), strings[1..])
  {
  }

  lemma HonestStep(p: Packet, strings: seq<Label>)
    requires ValidPacket(p) && ValidLabels(strings) && strings != []
    requires Find(p.buf, p.index, strings, 0) == p.index && p.index + |strings[0]| + 1 < MAX_PACKET
    ensures Honest(p, strings) <==> Honest(One(p, strings[0]), strings[1..])
  {
  }

  /** The end of a name from its j-th label on. */
  ghost predicate Rest(name: seq<Label>, j: nat, todo: seq<Label>) {
    j <= |name| && todo == name[j..] && ValidLabels(todo) && Plain(todo)
  }

  lemma RestStep(name: seq<Label>, j: nat, todo: seq<Label>)
    requires Rest(name, j, todo) && todo != []
    ensures j < |name| && todo[0] == name[j] && Rest(name, j + 1, todo[1..]) && 1 <= |todo[0]| <= MAX_LABEL
  {
    TailOf(todo, 1);
  }

  lemma RestOf(name: seq<Label>, j: nat)
    requires j <= |name| && Fits(name)
    ensures Rest(name, j, name[j..])
  {
    TailOf(name, j);
  }

  /** All that an append writes is known. */
  ghost predicate Leaves(p: Packet, todo: seq<Label>, names: Names)
    requires ValidPacket(p) && ValidLabels(todo)
  {
    var r := Append(p, todo).p;
    Known(r.buf, p.index, r.index, r.index, names)
  }

  lemma EndLeaves(p: Packet, names: Names, todo: seq<Label>)
    requires ValidPacket(p) && Ordinary(names) && todo == [] && Append(p, todo).ok
    ensures Leaves(p, todo, names)
  {
    var r := AppendBytes(p, [0]).p;
    assert r.buf[p.index] == r.buf[p.index..p.index + 1][0];
    EndKnown(r.buf, p.index, names);
  }

  lemma PointerLeaves(p: Packet, names: Names, todo: seq<Label>)
    requires ValidPacket(p) && Ordinary(names)
    requires todo != [] && ValidLabels(todo) && Append(p, todo).ok && Find(p.buf, p.index, todo, 0) < p.index
    ensures Leaves(p, todo, names)
  {
    var at := Find(p.buf, p.index, todo, 0);
    AppendPoints(p, todo);
    PointerBytes(p, at);
    PointerKnown(AppendBytes(p, Pointer(at)).p.buf, p.index, names);
  }

  lemma LabelLeaves(p: Packet, names: Names, name: seq<Label>, j: nat, todo: seq<Label>)
    requires ValidPacket(p) && Ordinary(names) && name in names && Rest(name, j, todo) && todo != []
            && todo[0] == name[j]
    requires Append(p, todo).ok && Honest(p, todo) && Find(p.buf, p.index, todo, 0) == p.index
    requires p.index + |todo[0]| + 1 < MAX_PACKET && |todo[0]| <= MAX_LABEL && ValidLabels(todo[1..])
    requires Append(One(p, todo[0]), todo[1..]).p == Append(p, todo).p && Leaves(One(p, todo[0]), todo[1..], names)
    ensures Leaves(p, todo, names)
  {
    var r := Append(p, todo).p;
    NewPlace(p, names, name, j, todo);
    HasLabel(names, name, j);
    LabelKnown(r.buf, p.index, name[j], r.index, r.index, names);
  }

  /** Whatever looks like a label in an appended name, whatever stands behind it, is one. */
  lemma {:induction false} TailKnown(p: Packet, names: Names, name: seq<Label>, j: nat, todo: seq<Label>)
    requires ValidPacket(p) && Ordinary(names) && name in names && Rest(name, j, todo)
    requires Append(p, todo).ok && Honest(p, todo)
    ensures Leaves(p, todo, names)
    decreases |todo|
  {
    if todo == [] {
      EndLeaves(p, names, todo);
    } else if Find(p.buf, p.index, todo, 0) < p.index {
      PointerLeaves(p, names, todo);
    } else {
      RestStep(name, j, todo);
      AppendStep(p, todo);
      HonestStep(p, todo);
      TailKnown(One(p, todo[0]), names, name, j + 1, todo[1..]);
      LabelLeaves(p, names, name, j, todo);
    }
  }

  // ----- The match of a name -----

  lemma {:induction false} ReadsMakes(items: seq<Item>, name: seq<Label>)
    requires Reads(items, name) && Plain(name)
    ensures Makes(items, name, false) && Uncut(items)
    decreases |items|
  {
    if items != [] {
      match items[0]
      case Jump => ReadsMakes(items[1..], name);
      case Text(chars) =>
        SameIsPlain(name, chars);
        TailPlain(name);
        ReadsMakes(items[1..], name[1..]);
      UncutMore(items);
    }
  }

  lemma UncutMore(items: seq<Item>)
    requires items != [] && Uncut(items[1..]) && (items[0].Text? ==> 0 !in items[0].chars)
    ensures Uncut(items)
  {
    forall i | 0 <= i < |items| && items[i].Text?
      ensures 0 !in items[i].chars
    {
      if i > 0 {
        assert items[i] == items[1..][i - 1];
      }
    }
  }

  lemma TailPlain(name: seq<Label>)
    requires name != [] && Plain(name)
    ensures Plain(name[1..])
  {
    assert forall i :: 0 <= i < |name| - 1 ==> name[1..][i] == name[i + 1];
  }

  lemma SameIsPlain(name: seq<Label>, chars: Label)
    requires name != [] && Plain(name) && Same(name[0], chars)
    ensures 0 !in chars && CString(chars) == chars
  {
    forall i | 0 <= i < |chars|
      ensures chars[i] != 0
    {
      assert Lower(name[0][i]) == Lower(chars[i]);
    }
    CStringWhole(chars);
  }

  ghost predicate SubFree(name: Name) {
    NoSubs(name.parts)
  }

  /** "_sub" has no dot. */
  lemma DottedIsNoSub(a: Label, s: Label)
    ensures !Same(Cat(Cat(a, [DOT]), s), SUB)
  {
    var c := Cat(Cat(a, [DOT]), s);
    assert forall i :: 0 <= i < |SUB| ==> Lower(SUB[i]) != DOT;
    if |a| < 4 {
      assert c[|a|] == DOT;
      assert |c| == |SUB| ==> Lower(c[|a|]) != Lower(SUB[|a|]);
    }
  }

  lemma TakeSubFree(name: Name, item: Item)
    requires SubFree(name)
    ensures SubFree(Take(name, item))
  {
    if item.Text? && name.parts != [] {
      DottedIsNoSub(name.parts[0], CString(item.chars));
    }
  }

  /** "_sub" never becomes a part. */
  lemma {:induction false} TakeAllSubFree(name: Name, items: seq<Item>)
    requires SubFree(name)
    ensures SubFree(TakeAll(name, items))
    decreases |items|
  {
    if items != [] {
      TakeSubFree(name, items[0]);
      TakeAllSubFree(Take(name, items[0]), items[1..]);
    }
  }

  /** So a name with "_sub" in it is found nowhere. */
  lemma SubtypeIsNoCandidate(buf: seq<Byte>, at: nat, strings: seq<Label>)
    requires at < |buf| && strings != [] && Candidate(buf, at, strings)
    ensures NoSubs(strings)
  {
    var n := TakeAll(FRESH, ReadWire(buf, at, at).items);
    TakeAllSubFree(FRESH, ReadWire(buf, at, at).items);
    forall i | 0 <= i < |strings|
      ensures !Same(strings[i], SUB)
    {
      if Same(strings[i], SUB) {
        SameBack(strings[i], n.parts[i], SUB);
      }
    }
  }

  lemma SameBack(a: Label, b: Label, c: Label)
    requires Same(a, b) && Same(a, c)
    ensures Same(b, c)
  {
    forall i | 0 <= i < |b|
      ensures Lower(b[i]) == Lower(c[i])
    {
      assert Lower(a[i]) == Lower(b[i]);
    }
  }

  /** What Honest asks of the reading at a match. */
  predicate HonestReading(w: Wire, index: nat) {
    w.Good? &&
    var n := TakeAll(FRESH, w.items);
    w.touched <= index && !n.sub && !n.invalid && LabelLast(w.items) && Uncut(w.items)
  }

  lemma ReadingIsHonest(w: Wire, index: nat, name: seq<Label>)
    requires w.Good? && w.touched <= index && Reads(w.items, name) && Plain(name) && NoSubs(name) && |name| <= 4
    ensures HonestReading(w, index)
  {
    ReadsMakes(w.items, name);
    MakesFlags(FRESH, w.items, name, false);
    MakesLast(w.items, name);
  }

  /** A place that is known and passes the writer's test for a name of the message is honest. */
  lemma PlaceIsHonest(buf: seq<Byte>, at: nat, index: nat, names: Names, name: seq<Label>, j: nat, todo: seq<Label>)
    requires Clear(names) && name in names && Rest(name, j, todo) && todo != []
    requires at < |buf| && Candidate(buf, at, todo) && Placed(buf, at, index, names)
    ensures HonestReading(ReadWire(buf, at, at), index)
  {
    var n, k: nat :| n in names && PlacedAs(buf, at, index, n, k);
    SubtypeIsNoCandidate(buf, at, todo);
    OccursOnce(buf, at, n[k], todo[0]);
    RestStep(name, j, todo);
    SharedLabel(names, n, k, name, j);
    PlacedIsHonest(buf, at, index, n, k);
  }

  lemma OccursOnce(buf: seq<Byte>, at: nat, s: Label, t: Label)
    requires Occurs(buf, at, s) && Occurs(buf, at, t)
    ensures s == t
  {
  }

  lemma PlacedIsHonest(buf: seq<Byte>, at: nat, index: nat, n: seq<Label>, k: nat)
    requires at <= |buf| && PlacedAs(buf, at, index, n, k) && Plain(n[k..]) && NoSubs(n[k..]) && |n[k..]| <= 4
    ensures HonestReading(ReadWire(buf, at, at), index)
  {
    ReadingIsHonest(ReadWire(buf, at, at), index, n[k..]);
  }

  /**
    Two names that share a label: when one has no "_sub" from there on, the other is an ordinary name
    from there on.
   */
  lemma SharedLabel(names: Names, n: seq<Label>, k: nat, m: seq<Label>, j: nat)
    requires Clear(names) && n in names && m in names && k < |n| && j < |m| && n[k] == m[j] && NoSubs(m[j..])
    ensures Plain(n[k..]) && NoSubs(n[k..]) && |n[k..]| <= 4
  {
    assert Alike(n, k, m, j);
    FitsTail(n, k);
  }

  lemma FitsTail(n: seq<Label>, k: nat)
    requires Fits(n) && k < |n| && NoSubs(n[k..])
    ensures Plain(n[k..]) && |n[k..]| <= 4
  {
    assert Room(n, k);
    TailOf(n, k);
  }

  /** What is known while a name is being written from `start` on, with some labels done. */
  ghost predicate Under(buf: seq<Byte>, start: nat, index: nat, names: Names, done: seq<Label>)
    requires start <= index <= |buf|
  {
    && Known(buf, 0, start, start, names)
    && (start < index ==> Foreign(buf[start], names))
    && DoneFrom(buf, start, index, names, done)
  }

  /** From `start` on only the labels that are done begin before the index. */
  ghost predicate DoneFrom(buf: seq<Byte>, start: nat, index: nat, names: Names, done: seq<Label>) {
    forall pos: nat, s :: start <= pos < index && Has(names, s) && Occurs(buf, pos, s) ==> s in done
  }

  lemma DoneStep(p: Packet, start: nat, names: Names, done: seq<Label>, s: Label)
    requires ValidPacket(p) && Ordinary(names) && Has(names, s) && |s| <= MAX_LABEL && p.index + |s| + 1 < MAX_PACKET
    requires start <= p.index && DoneFrom(p.buf, start, p.index, names, done)
    requires Occurs(One(p, s).buf, p.index, s) && One(p, s).buf[..p.index] == p.buf[..p.index]
    ensures DoneFrom(One(p, s).buf, start, One(p, s).index, names, done + [s])
  {
    var one := One(p, s);
    LengthIsForeign(names, s);
    forall pos: nat, t | start <= pos < one.index && Has(names, t) && Occurs(one.buf, pos, t)
      ensures t in done + [s]
    {
      if pos < p.index {
        StopsBefore(one.buf, pos, p.index, names, t);
        OccursEarlier(p.buf, one.buf, pos, t, p.index);
      } else if pos > p.index {
        InLabel(one.buf, p.index, s, pos);
      } else {
        OccursOnce(one.buf, pos, s, t);
      }
    }
  }

  lemma UnderStep(p: Packet, start: nat, names: Names, done: seq<Label>, s: Label)
    requires ValidPacket(p) && Ordinary(names) && Has(names, s) && |s| <= MAX_LABEL && p.index + |s| + 1 < MAX_PACKET
    requires start <= p.index && Under(p.buf, start, p.index, names, done)
    ensures Under(One(p, s).buf, start, One(p, s).index, names, done + [s])
  {
    var one := One(p, s);
    assert one.buf[..p.index] == p.buf[..p.index];
    PutBytes(p.buf, p.index, [|s| as Byte] + s);
    assert one.buf[p.index] == |s| && one.buf[p.index + 1..one.index] == s;
    LengthIsForeign(names, s);
    DoneStep(p, start, names, done, s);
    assert one.buf[..start] == one.buf[..p.index][..start] == p.buf[..p.index][..start] == p.buf[..start];
    BeginningKnown(p.buf, one.buf, start, names);
    assert start < p.index ==> one.buf[start] == one.buf[..p.index][start] == p.buf[start];
  }

  /** What is known up to an index depends on nothing behind it. */
  lemma BeginningKnown(buf: seq<Byte>, buf': seq<Byte>, start: nat, names: Names)
    requires start <= |buf| == |buf'| && buf[..start] == buf'[..start]
    requires Ordinary(names) && Known(buf, 0, start, start, names)
    ensures Known(buf', 0, start, start, names)
  {
    forall pos: nat | 0 <= pos < start && Looks(buf', pos, start, names)
      ensures Placed(buf', pos, start, names)
    {
      var s :| Has(names, s) && EndsBy(buf', pos, start, s);
      OccursEarlier(buf, buf', pos, s, start);
      assert EndsBy(buf, pos, start, s);
      PlacedKept(buf, buf', pos, start, start, names);
    }
  }

  lemma NotDone(name: seq<Label>, j: nat)
    requires Distinct(name) && j < |name|
    ensures name[j] !in name[..j]
  {
  }

  lemma MatchIsHonest(p: Packet, start: nat, names: Names, name: seq<Label>, j: nat, todo: seq<Label>)
    requires ValidPacket(p) && Clear(names) && name in names && Fits(name) && Rest(name, j, todo) && todo != []
    requires start <= p.index && Under(p.buf, start, p.index, names, name[..j])
    requires Find(p.buf, p.index, todo, 0) < p.index && Closed(p, todo)
    ensures Honest(p, todo)
  {
    var at := Find(p.buf, p.index, todo, 0);
    RestStep(name, j, todo);
    HasLabel(names, name, j);
    NotDone(name, j);
    assert at < start;
    if start < p.index {
      StopsBefore(p.buf, at, start, names, todo[0]);
    }
    assert EndsBy(p.buf, at, start, todo[0]);
    PlaceIsHonest(p.buf, at, start, names, name, j, todo);
    assert MatchOf(p, todo) == At(p, at, todo);
  }

  lemma NowhereIsHonest(p: Packet, todo: seq<Label>)
    requires ValidPacket(p) && ValidLabels(todo)
    requires todo != [] ==> Find(p.buf, p.index, todo, 0) == p.index && p.index + |todo[0]| + 1 >= MAX_PACKET
    ensures Honest(p, todo)
  {
  }

  lemma UnderNext(p: Packet, start: nat, names: Names, name: seq<Label>, j: nat, s: Label)
    requires ValidPacket(p) && Ordinary(names) && name in names && j < |name| && s == name[j]
    requires |s| <= MAX_LABEL && p.index + |s| + 1 < MAX_PACKET
    requires start <= p.index && Under(p.buf, start, p.index, names, name[..j])
    ensures Under(One(p, s).buf, start, One(p, s).index, names, name[..j + 1])
  {
    HasLabel(names, name, j);
    UnderStep(p, start, names, name[..j], s);
    assert name[..j + 1] == name[..j] + [s];
  }

  /** A name of the message is matched honestly, or not at all. */
  lemma {:induction false} UnderIsHonest(p: Packet, start: nat, names: Names, name: seq<Label>, j: nat,
                                         todo: seq<Label>)
    requires ValidPacket(p) && Clear(names) && Ordinary(names) && name in names && Fits(name) && Rest(name, j, todo)
    requires start <= p.index && Under(p.buf, start, p.index, names, name[..j]) && Closed(p, todo)
    ensures Honest(p, todo)
    decreases |todo|
  {
    if todo == [] {
      NowhereIsHonest(p, todo);
    } else if Find(p.buf, p.index, todo, 0) < p.index {
      MatchIsHonest(p, start, names, name, j, todo);
    } else if p.index + |todo[0]| + 1 >= MAX_PACKET {
      NowhereIsHonest(p, todo);
    } else {
      RestStep(name, j, todo);
      UnderNext(p, start, names, name, j, todo[0]);
      ClosedStep(p, todo);
      UnderIsHonest(One(p, todo[0]), start, names, name, j + 1, todo[1..]);
      HonestStep(p, todo);
    }
  }

  /** Everything before the index is known. */
  ghost predicate Settled(p: Packet, names: Names) {
    ValidPacket(p) && HEAD <= p.index && Known(p.buf, 0, p.index, p.index, names)
  }

  /** An appended name begins with a byte that is in no label. */
  lemma FirstIsForeign(p: Packet, names: Names, name: seq<Label>)
    requires ValidPacket(p) && Ordinary(names) && name != [] && Has(names, name[0]) && ValidLabels(name)
    requires Append(p, name).ok
    ensures p.index < MAX_PACKET && Foreign(Append(p, name).p.buf[p.index], names)
  {
    var at := Find(p.buf, p.index, name, 0);
    if at < p.index {
      AppendPoints(p, name);
      PointerBytes(p, at);
      EndIsForeign(names, Pointer(at)[0]);
    } else {
      LabelKept(p, name);
      LengthIsForeign(names, name[0]);
    }
  }

  lemma KnownBoth(buf: seq<Byte>, mid: nat, hi: nat, names: Names)
    requires mid <= hi <= |buf| && Known(buf, 0, mid, hi, names) && Known(buf, mid, hi, hi, names)
    ensures Known(buf, 0, hi, hi, names)
  {
  }

  lemma NoneUnder(buf: seq<Byte>, index: nat, names: Names)
    requires index <= |buf| && Known(buf, 0, index, index, names)
    ensures Under(buf, index, index, names, [])
  {
  }

  lemma NameIsHonest(p: Packet, names: Names, name: seq<Label>)
    requires Settled(p, names) && Clear(names) && Ordinary(names) && name in names && Fits(name)
    requires ValidLabels(name) && Closed(p, name)
    ensures Honest(p, name)
  {
    NoneUnder(p.buf, p.index, names);
    RestOf(name, 0);
    assert name[0..] == name && name[..0] == [];
    UnderIsHonest(p, p.index, names, name, 0, name);
  }

  /** A name that is appended to a settled packet leaves it settled. */
  lemma NameSettles(p: Packet, names: Names, name: seq<Label>)
    requires Settled(p, names) && Ordinary(names)
    requires name in names && name != [] && Rest(name, 0, name) && Honest(p, name) && Append(p, name).ok
    ensures Settled(Append(p, name).p, names)
  {
    var r := Append(p, name).p;
    HasLabel(names, name, 0);
    FirstIsForeign(p, names, name);
    AppendKeepsPrefix(p, name);
    OldKnown(p.buf, r.buf, p.index, r.index, names);
    TailKnown(p, names, name, 0, name);
    KnownBoth(r.buf, p.index, r.index, names);
  }
}
