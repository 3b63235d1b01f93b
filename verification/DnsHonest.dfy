/**
  The packets that the responder of mdns.c dispatches (lines 1486-1530), whatever the buffer still holds:
  with conditions on the names and the fixed bytes of a message, its matches are honest just when they
  are closed.
 */
module DnsHonest {
  import opened Bytes
  import opened DnsName
  import opened DnsRound
  import opened DnsFrame
  import opened DnsWalk
  import opened DnsPlaces
  import opened DnsClosed

  // ----- Bytes that are not names -----

  /** No label stands in the bytes, and their first byte is in none. */
  ghost predicate Quiet(data: seq<Byte>, names: Names) {
    data != [] && Foreign(data[0], names) && forall i: nat :: !Looks(data, i, |data|, names)
  }

  /** The bytes stand between the two indices, and before them nothing has changed. */
  ghost predicate Added(p: Packet, r: Packet, data: seq<Byte>) {
    && ValidPacket(p) && ValidPacket(r) && r.index == p.index + |data|
    && r.buf[..p.index] == p.buf[..p.index] && r.buf[p.index..r.index] == data
  }

  lemma OccursInside(buf: seq<Byte>, at: nat, data: seq<Byte>, pos: nat, s: Label)
    requires at <= pos && at + |data| <= |buf| && buf[at..at + |data|] == data && EndsBy(buf, pos, at + |data|, s)
    ensures EndsBy(data, pos - at, |data|, s)
  {
    assert forall k :: 0 <= k < |data| ==> data[k] == buf[at + k];
    assert data[pos - at + 1..pos - at + 1 + |s|] == buf[pos + 1..pos + 1 + |s|];
  }

  lemma QuietMeans(data: seq<Byte>, i: nat, names: Names, s: Label)
    requires Quiet(data, names) && Has(names, s)
    ensures !EndsBy(data, i, |data|, s)
  {
    assert !Looks(data, i, |data|, names);
  }

  lemma QuietPlace(buf: seq<Byte>, at: nat, data: seq<Byte>, pos: nat, names: Names)
    requires at <= pos && at + |data| <= |buf| && buf[at..at + |data|] == data && Quiet(data, names)
    ensures !Looks(buf, pos, at + |data|, names)
  {
    forall s | Has(names, s)
      ensures !EndsBy(buf, pos, at + |data|, s)
    {
      if EndsBy(buf, pos, at + |data|, s) {
        OccursInside(buf, at, data, pos, s);
        QuietMeans(data, pos - at, names, s);
      }
    }
  }

  /** Quiet bytes leave a settled packet settled. */
  lemma QuietSettles(p: Packet, r: Packet, data: seq<Byte>, names: Names)
    requires Settled(p, names) && Added(p, r, data)
    requires Ordinary(names) && Quiet(data, names)
    ensures Settled(r, names)
  {
    assert r.buf[p.index] == r.buf[p.index..r.index][0];
    OldKnown(p.buf, r.buf, p.index, r.index, names);
    forall pos: nat | p.index <= pos < r.index
      ensures !Looks(r.buf, pos, r.index, names)
    {
      QuietPlace(r.buf, p.index, data, pos, names);
    }
    KnownBoth(r.buf, p.index, r.index, names);
  }

  // ----- What is written over later -----

  /**
    A length that is filled in: only its second byte may be other than zero, and a byte that is in no
    label is behind it.
   */
  lemma GapKept(buf: seq<Byte>, buf': seq<Byte>, z: nat, pos: nat, names: Names, s: Label)
    requires GapShape(buf, z) && AgreeButLength(buf, buf', z) && z + 5 < |buf| && buf'[z + 3] == 0
            && Foreign(buf[z + 5], names)
    requires Ordinary(names) && Has(names, s) && Occurs(buf', pos, s)
    ensures (pos + 1 + |s| <= z + 3 || z + 5 <= pos) && Occurs(buf, pos, s)
  {
    assert PlainLabel(s);
    EndIsForeign(names, 0);
    if pos < z + 3 {
      StopsBefore(buf', pos, z + 3, names, s);
    } else if pos == z + 4 {
      InLabel(buf', z + 4, s, z + 5);
    }
    assert buf[pos + 1..pos + 1 + |s|] == buf'[pos + 1..pos + 1 + |s|];
  }

  /** The label that is read at a known place is none of the gap's. */
  lemma GapPlace(buf: seq<Byte>, buf': seq<Byte>, z: nat, pos: nat, index: nat, name: seq<Label>, k: nat)
    requires GapShape(buf, z) && AgreeButLength(buf, buf', z) && GoodName(name)
    requires pos <= |buf| && PlacedAs(buf, pos, index, name, k) && Occurs(buf', pos, name[k])
    requires pos + 1 + |name[k]| <= z + 3 || z + 5 <= pos
    ensures PlacedAs(buf', pos, index, name, k)
  {
    LongTail(name, k);
    if z <= pos < z + 5 {
      GapHasNoName(buf, z, pos, pos, name[k..]);
    }
    GapFree(buf, buf', z, pos, pos, name[k..]);
  }

  lemma LongTail(name: seq<Label>, k: nat)
    requires GoodName(name) && k < |name|
    ensures LongEnd(name[k..]) && name[k..] != []
  {
    assert forall i :: 0 <= i < |name| - k ==> name[k..][i] == name[i + k];
  }

  ghost predicate AllGood(names: Names) {
    forall n :: n in names ==> GoodName(n)
  }

  lemma KnownAs(buf: seq<Byte>, pos: nat, index: nat, names: Names, s: Label) returns (name: seq<Label>, k: nat)
    requires pos < index <= |buf| && Known(buf, 0, index, index, names) && Has(names, s)
    requires EndsBy(buf, pos, index, s)
    ensures name in names && PlacedAs(buf, pos, index, name, k) && name[k] == s
  {
    assert Looks(buf, pos, index, names);
    name, k :| name in names && PlacedAs(buf, pos, index, name, k);
    OccursOnce(buf, pos, s, name[k]);
  }

  lemma GapStays(buf: seq<Byte>, buf': seq<Byte>, z: nat, pos: nat, index: nat, names: Names, s: Label)
    requires GapShape(buf, z) && AgreeButLength(buf, buf', z) && z + 5 < |buf| && buf'[z + 3] == 0
            && Foreign(buf[z + 5], names)
    requires pos < index <= |buf| && Ordinary(names) && AllGood(names) && Known(buf, 0, index, index, names)
    requires Has(names, s) && EndsBy(buf', pos, index, s)
    ensures Placed(buf', pos, index, names)
  {
    GapKept(buf, buf', z, pos, names, s);
    var name, k := KnownAs(buf, pos, index, names, s);
    GapPlace(buf, buf', z, pos, index, name, k);
  }

  lemma GapKnown(buf: seq<Byte>, buf': seq<Byte>, z: nat, index: nat, names: Names)
    requires GapShape(buf, z) && AgreeButLength(buf, buf', z) && z + 5 < |buf| && buf'[z + 3] == 0
            && Foreign(buf[z + 5], names)
    requires index <= |buf| && Ordinary(names) && AllGood(names) && Known(buf, 0, index, index, names)
    ensures Known(buf', 0, index, index, names)
  {
    forall pos: nat | 0 <= pos < index && Looks(buf', pos, index, names)
      ensures Placed(buf', pos, index, names)
    {
      var s :| Has(names, s) && EndsBy(buf', pos, index, s);
      GapStays(buf, buf', z, pos, index, names, s);
    }
  }

  lemma GapSettles(p: Packet, z: nat, n: nat, names: Names)
    requires Settled(p, names) && Ordinary(names) && AllGood(names) && n < 256
    requires z + 5 < p.index && GapShape(p.buf, z) && Foreign(p.buf[z + 5], names)
    ensures Settled(Packet(Set16(p.buf, z + 3, n), p.index), names)
  {
    var buf' := Set16(p.buf, z + 3, n);
    SetLength(p.buf, z + 3, n, z);
    assert buf'[z + 3] == buf'[z + 3..z + 5][0] == 0;
    GapKnown(p.buf, buf', z, p.index, names);
  }

  /** The id of the packet is no label: it is zero, or the labels reach the zero byte of the flags. */
  ghost predicate QuietId(buf: seq<Byte>, names: Names)
    requires |buf| > 1
  {
    (buf[0] == 0 && buf[1] == 0) || forall s :: Has(names, s) ==> |s| >= 3
  }

  /** Nothing in the header looks like a label. */
  lemma HeaderLooks(buf: seq<Byte>, pos: nat, index: nat, names: Names)
    requires HeaderShape(buf) && Ordinary(names) && QuietId(buf, names) && pos < HEAD
    ensures !Looks(buf, pos, index, names)
  {
    EndIsForeign(names, 0);
    forall s | Has(names, s)
      ensures !Occurs(buf, pos, s)
    {
      assert PlainLabel(s);
      if Occurs(buf, pos, s) {
        ZeroIsZero(buf, pos);
        StopsBefore(buf, pos, ZeroAfter(pos), names, s);
      }
    }
  }

  /** A packet to which the next name can be appended. */
  ghost predicate Ready(p: Packet, names: Names) {
    Settled(p, names) && HeaderShape(p.buf) && QuietId(p.buf, names)
  }

  lemma CountPlace(buf: seq<Byte>, buf': seq<Byte>, pos: nat, index: nat, names: Names, s: Label)
    requires HeaderShape(buf) && HEAD <= pos < index <= |buf| == |buf'| && Agree(buf, buf', HEAD, |buf|)
    requires AllGood(names) && Known(buf, 0, index, index, names) && Has(names, s) && EndsBy(buf', pos, index, s)
    ensures Placed(buf', pos, index, names)
  {
    SliceKept(buf, buf', HEAD, |buf|, pos + 1, pos + 1 + |s|);
    var name, k := KnownAs(buf, pos, index, names, s);
    LongTail(name, k);
    HeaderFree(buf, buf', pos, pos, name[k..]);
    assert PlacedAs(buf', pos, index, name, k);
  }

  lemma CountStays(buf: seq<Byte>, buf': seq<Byte>, pos: nat, index: nat, names: Names, s: Label)
    requires HeaderShape(buf) && HeaderShape(buf') && |buf| == |buf'| && Agree(buf, buf', HEAD, |buf|)
    requires pos < index <= |buf| && Ordinary(names) && AllGood(names) && QuietId(buf', names)
    requires Known(buf, 0, index, index, names) && Has(names, s) && EndsBy(buf', pos, index, s)
    ensures Placed(buf', pos, index, names)
  {
    if pos < HEAD {
      HeaderLooks(buf', pos, index, names);
      assert false;
    }
    CountPlace(buf, buf', pos, index, names, s);
  }

  lemma CountKnown(buf: seq<Byte>, buf': seq<Byte>, index: nat, names: Names)
    requires HeaderShape(buf) && HeaderShape(buf') && |buf| == |buf'| && Agree(buf, buf', HEAD, |buf|)
    requires index <= |buf| && Ordinary(names) && AllGood(names) && QuietId(buf', names)
    requires Known(buf, 0, index, index, names)
    ensures Known(buf', 0, index, index, names)
  {
    forall pos: nat | 0 <= pos < index && Looks(buf', pos, index, names)
      ensures Placed(buf', pos, index, names)
    {
      var s :| Has(names, s) && EndsBy(buf', pos, index, s);
      CountStays(buf, buf', pos, index, names, s);
    }
  }

  lemma CountShape(buf: seq<Byte>, at: nat, n: nat, names: Names)
    requires HeaderShape(buf) && QuietId(buf, names) && (at == 4 || at == 6 || at == 8) && n < 256
    ensures var buf' := Set16(buf, at, n);
            HeaderShape(buf') && QuietId(buf', names) && Agree(buf, buf', HEAD, |buf|)
  {
    SetBytes(buf, at, n);
  }

  /** A count that is written into the header leaves a packet ready. */
  lemma CountReady(p: Packet, at: nat, n: nat, names: Names)
    requires Ready(p, names) && Ordinary(names) && AllGood(names) && (at == 4 || at == 6 || at == 8) && n < 256
    ensures Ready(Packet(Set16(p.buf, at, n), p.index), names)
  {
    CountShape(p.buf, at, n, names);
    CountKnown(p.buf, Set16(p.buf, at, n), p.index, names);
  }

  // ----- Appending to a ready packet -----

  /** What the appends need to know of the names of a message. */
  ghost predicate Given(names: Names) {
    Ordinary(names) && AllGood(names)
  }

  lemma ReadyKept(p: Packet, r: Packet, names: Names)
    requires Ready(p, names) && Settled(r, names) && r.buf[..p.index] == p.buf[..p.index]
    ensures Ready(r, names)
  {
    ShapeKept(p.buf, r.buf, p.index);
    PrefixAgrees(p.buf, r.buf, p.index);
  }

  lemma NameReady(p: Packet, names: Names, name: seq<Label>)
    requires Ready(p, names) && Given(names) && Clear(names) && name in names && GoodName(name) && Closed(p, name)
    ensures Honest(p, name)
    ensures AppendName(p, name).Done? ==> Ready(AppendName(p, name).p, names)
  {
    assert Fits(name);
    NameIsHonest(p, names, name);
    if AppendName(p, name).Done? {
      RestOf(name, 0);
      assert name[0..] == name;
      NameSettles(p, names, name);
      AppendKeepsPrefix(p, name);
      ReadyKept(p, AppendName(p, name).p, names);
    }
  }

  lemma QuietReady(p: Packet, r: Packet, data: seq<Byte>, names: Names)
    requires Ready(p, names) && Given(names) && Added(p, r, data) && Quiet(data, names)
    ensures Ready(r, names)
  {
    QuietSettles(p, r, data, names);
    ReadyKept(p, r, names);
  }

  lemma CheckedAdds(p: Packet, data: seq<Byte>, spare: nat)
    requires ValidPacket(p) && AppendChecked(p, data, spare).Done?
    ensures var r := AppendChecked(p, data, spare).p; Added(p, r, data)
  {
  }

  lemma AddedTwice(p: Packet, t: Packet, r: Packet, a: seq<Byte>, b: seq<Byte>)
    requires Added(p, t, a) && Added(t, r, b)
    ensures Added(p, r, a + b)
  {
    KeepTwice(p, t, r);
    PrefixAgrees(t.buf, r.buf, t.index);
    SliceKept(t.buf, r.buf, 0, t.index, p.index, t.index);
    assert r.buf[p.index..r.index] == r.buf[p.index..t.index] + r.buf[t.index..r.index];
  }

  // ----- Questions -----

  ghost predicate QuietQuestion(q: Question, names: Names) {
    q.name in names && Quiet(U16(q.qtype) + U16(q.qclass), names)
  }

  lemma TypesAdd(p: Packet, q: Question)
    requires ValidPacket(p) && GoodName(q.name) && AppendQuestion(p, q).Done?
    ensures AppendName(p, q.name).Done?
    ensures Added(AppendName(p, q.name).p, AppendQuestion(p, q).p, U16(q.qtype) + U16(q.qclass))
  {
    var a := AppendName(p, q.name).p;
    var t := AppendChecked(a, U16(q.qtype), 0).p;
    CheckedAdds(a, U16(q.qtype), 0);
    CheckedAdds(t, U16(q.qclass), 0);
    AddedTwice(a, t, AppendQuestion(p, q).p, U16(q.qtype), U16(q.qclass));
  }

  lemma QuestionReady(p: Packet, q: Question, names: Names)
    requires Ready(p, names) && Given(names) && Clear(names) && GoodName(q.name)
    requires QuietQuestion(q, names) && Closed(p, q.name)
    ensures Honest(p, q.name)
    ensures AppendQuestion(p, q).Done? ==> Ready(AppendQuestion(p, q).p, names)
  {
    NameReady(p, names, q.name);
    if AppendQuestion(p, q).Done? {
      TypesAdd(p, q);
      QuietReady(AppendName(p, q.name).p, AppendQuestion(p, q).p, U16(q.qtype) + U16(q.qclass), names);
    }
  }

  ghost predicate GoodQuestions(qs: seq<Question>, names: Names) {
    forall q :: q in qs ==> GoodName(q.name) && QuietQuestion(q, names)
  }

  lemma QuestionsTail(qs: seq<Question>, names: Names)
    requires qs != [] && GoodQuestions(qs, names)
    ensures GoodName(qs[0].name) && QuietQuestion(qs[0], names) && GoodQuestions(qs[1..], names)
  {
  }

  lemma QuestionsStep(p: Packet, qs: seq<Question>)
    requires ValidPacket(p) && qs != [] && GoodName(qs[0].name) && forall q :: q in qs ==> GoodName(q.name)
    ensures Honest(p, qs[0].name)
            && (AppendQuestion(p, qs[0]).Done? ==> HonestQuestions(AppendQuestion(p, qs[0]).p, qs[1..]))
            ==> HonestQuestions(p, qs)
    ensures AppendQuestions(p, qs).Done? ==>
              var a := AppendQuestion(p, qs[0]);
              a.Done? && AppendQuestions(a.p, qs[1..]).Done?
              && AppendQuestions(p, qs).p == AppendQuestions(a.p, qs[1..]).p
  {
  }

  lemma {:induction false} QuestionsReady(p: Packet, qs: seq<Question>, names: Names)
    requires Ready(p, names) && Given(names) && Clear(names)
    requires GoodQuestions(qs, names) && ClosedQuestions(p, qs)
    ensures HonestQuestions(p, qs)
    ensures AppendQuestions(p, qs).Done? ==> Ready(AppendQuestions(p, qs).p, names)
    decreases |qs|
  {
    if qs != [] {
      QuestionsTail(qs, names);
      QuestionReady(p, qs[0], names);
      if AppendQuestion(p, qs[0]).Done? {
        QuestionsReady(AppendQuestion(p, qs[0]).p, qs[1..], names);
      }
      QuestionsStep(p, qs);
    }
  }

  // ----- Records -----

  /** The data of a record that holds no name. */
  function RawBytes(d: Data): seq<Byte> {
    match d
    case Strings(entries) => if entries == [] then [0] else TextBytes(entries)
    case Ip4(address) => address
    case Ip6(address) => address
    case _ => []
  }

  /** The bytes from a record's type on, its length filled in. */
  function FinalBytes(r: Record): seq<Byte> {
    TypeBytes(r)[..8] + U16(|RawBytes(r.data)|) + RawBytes(r.data)
  }

  /** The fixed bytes of a record do not look like a label. */
  ghost predicate QuietRecord(r: Record, names: Names) {
    r.name in names &&
    match r.data
    case Target(host) => host in names && Quiet(TypeBytes(r), names)
    case Service(priority, weight, port, host) =>
      && host in names && PlainLength(host) < 250 && Foreign(BeforeHost(r)[0], names)
      && Quiet(TypeBytes(r) + BeforeHost(r), names)
    case _ => Quiet(FinalBytes(r), names)
  }

  lemma {:induction false} TextsAdd(p: Packet, entries: seq<seq<Byte>>)
    requires ValidPacket(p) && AppendTexts(p, entries).Done?
    ensures var r := AppendTexts(p, entries).p; Added(p, r, TextBytes(entries))
    decreases |entries|
  {
    if entries != [] {
      var first := [(|entries[0]| % 256) as Byte] + entries[0];
      var a := AppendChecked(p, first, 1).p;
      CheckedAdds(p, first, 1);
      TextsAdd(a, entries[1..]);
      AddedTwice(p, a, AppendTexts(p, entries).p, first, TextBytes(entries[1..]));
    }
  }

  lemma RawAdds(p: Packet, d: Data)
    requires ValidPacket(p) && p.index < MAX_PACKET && GoodData(d) && AppendData(p, d).Done?
    requires !d.Target? && !d.Service?
    ensures var b := AppendData(p, d); Added(p, b.p, RawBytes(d)) && b.len == |RawBytes(d)|
  {
    match d
    case Strings(entries) =>
      if entries == [] {
      } else {
        TextsAdd(p, entries);
      }
    case Ip4(address) => CheckedAdds(p, address, 0);
    case Ip6(address) => CheckedAdds(p, address, 0);
  }

  /** Setting the length makes the final bytes of a record without names. */
  lemma RawFinal(a: Packet, t: Packet, d: Packet, b: Packet, r: Record, raw: seq<Byte>)
    requires Added(a, t, TypeBytes(r)) && Added(t, d, raw)
    requires b == Packet(Set16(d.buf, t.index - 2, |raw|), d.index)
    ensures Added(a, b, TypeBytes(r)[..8] + U16(|raw|) + raw)
  {
    AddedTwice(a, t, d, TypeBytes(r), raw);
    var at, all, final := t.index - 2, TypeBytes(r) + raw, TypeBytes(r)[..8] + U16(|raw|) + raw;
    SetBytes(d.buf, at, |raw|);
    forall k | 0 <= k < |final|
      ensures b.buf[a.index + k] == final[k]
    {
      assert d.buf[a.index..d.index][k] == d.buf[a.index + k];
    }
    assert b.buf[a.index..b.index] == final;
    assert b.buf[..a.index] == d.buf[..a.index];
  }

  lemma SetBehind(buf: seq<Byte>, at: nat, n: nat, names: Names)
    requires HeaderShape(buf) && QuietId(buf, names) && HEAD <= at && at + 1 < |buf|
    ensures HeaderShape(Set16(buf, at, n)) && QuietId(Set16(buf, at, n), names)
  {
    SetBytes(buf, at, n);
  }

  /** Setting the length leaves a record with a name in its data ready. */
  lemma LengthReady(a: Packet, d: Packet, r: Record, n: nat, names: Names)
    requires Ready(d, names) && Given(names) && GoodRecord(r) && n < 256
    requires HEAD <= a.index && a.index + 10 < d.index && d.buf[a.index..a.index + 10] == TypeBytes(r)
    requires Foreign(d.buf[a.index + 10], names)
    ensures Ready(Packet(Set16(d.buf, a.index + 8, n), d.index), names)
  {
    TypeShape(d.buf, a.index, r);
    GapSettles(d, a.index + 5, n, names);
    SetBehind(d.buf, a.index + 8, n, names);
  }

  // ----- Records with a name in their data -----

  /** What the appends of such a record do up to its length. */
  lemma NamedData(t: Packet, names: Names, host: seq<Label>)
    requires Ready(t, names) && Given(names) && Clear(names) && host in names && GoodName(host) && Closed(t, host)
    requires AppendName(t, host).Done?
    ensures var d := AppendName(t, host);
            Ready(d.p, names) && d.p.buf[..t.index] == t.buf[..t.index] && t.index < d.p.index
            && Foreign(d.p.buf[t.index], names)
  {
    NameReady(t, names, host);
    NameLength(t, host);
    HasLabel(names, host, 0);
    FirstIsForeign(t, names, host);
  }

  /** The bytes from the type on, with the name behind them, and then the length is set. */
  lemma NamedReady(a: Packet, t: Packet, d: Packet, r: Record, extra: seq<Byte>, n: nat, names: Names)
    requires HEAD <= a.index && Added(a, t, TypeBytes(r) + extra) && GoodRecord(r) && n < 256
    requires Ready(d, names) && Given(names) && d.buf[..t.index] == t.buf[..t.index]
            && t.index < d.index
    requires Foreign(if extra == [] then d.buf[t.index] else extra[0], names)
    ensures Ready(Packet(Set16(d.buf, a.index + 8, n), d.index), names)
  {
    HeadBytes(a, t, d, r, extra);
    LengthReady(a, d, r, n, names);
  }

  lemma HeadBytes(a: Packet, t: Packet, d: Packet, r: Record, extra: seq<Byte>)
    requires Added(a, t, TypeBytes(r) + extra) && ValidPacket(d)
    requires d.buf[..t.index] == t.buf[..t.index] && t.index < d.index
    ensures d.buf[a.index..a.index + 10] == TypeBytes(r)
    ensures extra != [] ==> d.buf[a.index + 10] == extra[0]
  {
    var data := TypeBytes(r) + extra;
    PrefixAgrees(t.buf, d.buf, t.index);
    SliceKept(t.buf, d.buf, 0, t.index, a.index, t.index);
    assert d.buf[a.index..t.index] == data;
    assert d.buf[a.index..a.index + 10] == d.buf[a.index..t.index][..10] == data[..10] == TypeBytes(r);
    assert extra != [] ==> data[10] == d.buf[a.index..t.index][10];
  }

  /** The bytes up to a record's host name. */
  function BeforeHost(r: Record): seq<Byte> {
    match r.data
    case Service(priority, weight, port, _) => U16(priority) + U16(weight) + U16(port)
    case _ => []
  }

  /** A host name of the message behind those bytes, and then the length. */
  lemma HostReady(a: Packet, t: Packet, r: Record, extra: seq<Byte>, host: seq<Label>, names: Names)
    requires HEAD <= a.index && Added(a, t, TypeBytes(r) + extra) && GoodRecord(r)
    requires Ready(t, names) && Given(names) && Clear(names) && host in names && GoodName(host) && Closed(t, host)
    requires AppendName(t, host).Done? && PlainLength(host) + |extra| < 256
            && (extra != [] ==> Foreign(extra[0], names))
    ensures var d := AppendName(t, host);
            Ready(Packet(Set16(d.p.buf, a.index + 8, d.len + |extra|), d.p.index), names)
  {
    var d := AppendName(t, host);
    NamedData(t, names, host);
    ShortName(t, host);
    NamedReady(a, t, d.p, r, extra, d.len + |extra|, names);
  }

  lemma ShortName(p: Packet, name: seq<Label>)
    requires ValidPacket(p) && GoodName(name) && AppendName(p, name).Done?
    ensures AppendName(p, name).len <= PlainLength(name)
  {
    Written(p, name);
    SmallByte(Append(p, name).written);
  }

  /** The host name is appended honestly, and with the length set the packet is ready. */
  ghost predicate HostGood(a: Packet, t: Packet, host: seq<Label>, more: nat, names: Names)
    requires ValidPacket(a) && ValidPacket(t) && GoodName(host) && a.index + 10 <= t.index
  {
    && Honest(t, host)
    && var d := AppendName(t, host);
       d.Done? ==> Ready(Packet(Set16(d.p.buf, a.index + 8, d.len + more), d.p.index), names)
  }

  /** A record's type and the rest up to its host name, the name, and the length. */
  lemma HostHonest(a: Packet, t: Packet, r: Record, head: seq<Byte>, extra: seq<Byte>, host: seq<Label>, names: Names)
    requires head == TypeBytes(r) + extra && Added(a, t, head) && GoodRecord(r)
    requires Ready(a, names) && Given(names) && Clear(names) && host in names && GoodName(host)
    requires Quiet(head, names) && PlainLength(host) + |extra| < 256 && (extra != [] ==> Foreign(extra[0], names))
    requires Closed(t, host)
    ensures HostGood(a, t, host, |extra|, names)
  {
    QuietReady(a, t, head, names);
    NameReady(t, names, host);
    if AppendName(t, host).Done? {
      HostReady(a, t, r, extra, host, names);
    }
  }

  // ----- A record behind its name -----

  /** The type of a record, its data, and the length, behind its name. */
  function Body(a: Packet, r: Record): (b: Build)
    requires ValidPacket(a) && GoodRecord(r)
  {
    var t := AppendChecked(a, TypeBytes(r), 1);
    if t.Fail? then Fail
    else
      var d := AppendData(t.p, r.data);
      if d.Fail? then Fail else Done(Packet(Set16(d.p.buf, a.index + 8, d.len), d.p.index), 10 + d.len)
  }

  ghost predicate HonestBody(a: Packet, r: Record)
    requires ValidPacket(a) && GoodRecord(r)
  {
    var t := AppendChecked(a, TypeBytes(r), 1);
    t.Done? ==> HonestData(t.p, r.data)
  }

  lemma RecordIs(p: Packet, r: Record)
    requires ValidPacket(p) && GoodRecord(r)
    ensures var a := AppendName(p, r.name);
            && (HonestRecord(p, r) <==> Honest(p, r.name) && (a.Done? ==> HonestBody(a.p, r)))
            && (AppendRecord(p, r).Done? ==> a.Done? && Body(a.p, r).Done? && AppendRecord(p, r).p == Body(a.p, r).p)
  {
  }

  ghost predicate BodyGood(a: Packet, r: Record, names: Names)
    requires ValidPacket(a) && GoodRecord(r)
  {
    HonestBody(a, r) && (Body(a, r).Done? ==> Ready(Body(a, r).p, names))
  }

  lemma TargetBody(a: Packet, r: Record, t: Packet, names: Names)
    requires ValidPacket(a) && GoodRecord(r) && r.data.Target? && AppendChecked(a, TypeBytes(r), 1) == Done(t, 10)
    requires HostGood(a, t, r.data.host, 0, names)
    ensures BodyGood(a, r, names)
  {
  }

  lemma ServiceData(t: Packet, u: Packet, d: Data)
    requires ValidPacket(t) && t.index < MAX_PACKET && GoodData(d) && d.Service?
    requires AppendChecked(t, U16(d.priority) + U16(d.weight) + U16(d.port), 0) == Done(u, 6)
    ensures HonestData(t, d) <==> Honest(u, d.host)
    ensures var b, n := AppendData(t, d), AppendName(u, d.host);
            (b.Done? <==> n.Done?) && (b.Done? ==> b.p == n.p && b.len == n.len + 6)
  {
  }

  lemma BodyFrom(a: Packet, r: Record, t: Packet, d: Build)
    requires ValidPacket(a) && GoodRecord(r) && AppendChecked(a, TypeBytes(r), 1) == Done(t, 10)
            && d == AppendData(t, r.data)
    ensures HonestBody(a, r) <==> HonestData(t, r.data)
    ensures Body(a, r).Done? <==> d.Done?
    ensures d.Done? ==> Body(a, r).p == Packet(Set16(d.p.buf, a.index + 8, d.len), d.p.index)
  {
  }

  lemma ServiceBody(a: Packet, r: Record, t: Packet, u: Packet, names: Names)
    requires ValidPacket(a) && GoodRecord(r) && r.data.Service? && AppendChecked(a, TypeBytes(r), 1) == Done(t, 10)
    requires AppendChecked(t, BeforeHost(r), 0) == Done(u, 6) && HostGood(a, u, r.data.host, 6, names)
    ensures BodyGood(a, r, names)
  {
    ServiceData(t, u, r.data);
    BodyFrom(a, r, t, AppendData(t, r.data));
  }

  /** The fixed bytes before the record's host name do not fit. */
  predicate FailsEarly(a: Packet, r: Record)
    requires ValidPacket(a)
  {
    var t := AppendChecked(a, TypeBytes(r), 1);
    t.Fail? || (r.data.Service? && AppendChecked(t.p, BeforeHost(r), 0).Fail?)
  }

  lemma BodyFails(a: Packet, r: Record, names: Names)
    requires ValidPacket(a) && GoodRecord(r) && FailsEarly(a, r)
    ensures BodyGood(a, r, names)
  {
  }

  lemma ServiceAdds(a: Packet, t: Packet, u: Packet, r: Record)
    requires ValidPacket(a) && r.data.Service?
    requires AppendChecked(a, TypeBytes(r), 1) == Done(t, 10) && AppendChecked(t, BeforeHost(r), 0) == Done(u, 6)
    ensures Added(a, u, TypeBytes(r) + BeforeHost(r))
  {
    CheckedAdds(a, TypeBytes(r), 1);
    CheckedAdds(t, BeforeHost(r), 0);
    AddedTwice(a, t, u, TypeBytes(r), BeforeHost(r));
  }

  lemma NothingMore(r: Record)
    requires r.data.Target?
    ensures TypeBytes(r) == TypeBytes(r) + BeforeHost(r) && BeforeHost(r) == []
  {
  }

  lemma TargetReady(a: Packet, t: Packet, r: Record, names: Names)
    requires Ready(a, names) && Given(names) && Clear(names)
    requires GoodRecord(r) && r.data.Target? && r.data.host in names && Quiet(TypeBytes(r), names)
    requires AppendChecked(a, TypeBytes(r), 1) == Done(t, 10) && Closed(t, r.data.host)
    ensures BodyGood(a, r, names)
  {
    CheckedAdds(a, TypeBytes(r), 1);
    NothingMore(r);
    HostHonest(a, t, r, TypeBytes(r), BeforeHost(r), r.data.host, names);
    TargetBody(a, r, t, names);
  }

  lemma ServiceReady(a: Packet, t: Packet, u: Packet, r: Record, names: Names)
    requires Ready(a, names) && Given(names) && Clear(names)
    requires GoodRecord(r) && r.data.Service? && r.data.host in names && PlainLength(r.data.host) < 250
    requires Quiet(TypeBytes(r) + BeforeHost(r), names) && Foreign(BeforeHost(r)[0], names)
    requires AppendChecked(a, TypeBytes(r), 1) == Done(t, 10) && AppendChecked(t, BeforeHost(r), 0) == Done(u, 6)
    requires Closed(u, r.data.host)
    ensures BodyGood(a, r, names)
  {
    ServiceAdds(a, t, u, r);
    HostHonest(a, u, r, TypeBytes(r) + BeforeHost(r), BeforeHost(r), r.data.host, names);
    ServiceBody(a, r, t, u, names);
  }

  lemma RawAdded(a: Packet, r: Record)
    requires ValidPacket(a) && GoodRecord(r) && Body(a, r).Done?
    requires !r.data.Target? && !r.data.Service?
    ensures var b := Body(a, r).p; Added(a, b, FinalBytes(r))
  {
    var t := AppendChecked(a, TypeBytes(r), 1).p;
    var d := AppendData(t, r.data).p;
    CheckedAdds(a, TypeBytes(r), 1);
    RawAdds(t, r.data);
    RawFinal(a, t, d, Body(a, r).p, r, RawBytes(r.data));
  }

  lemma RawReady(a: Packet, r: Record, names: Names)
    requires Ready(a, names) && Given(names)
    requires GoodRecord(r) && QuietRecord(r, names) && !r.data.Target? && !r.data.Service?
    ensures BodyGood(a, r, names)
  {
    if Body(a, r).Done? {
      RawAdded(a, r);
      QuietReady(a, Body(a, r).p, FinalBytes(r), names);
    }
  }

  lemma BodyReady(a: Packet, r: Record, names: Names)
    requires Ready(a, names) && Given(names) && Clear(names) && GoodRecord(r) && QuietRecord(r, names)
    requires ClosedBody(a, r)
    ensures BodyGood(a, r, names)
  {
    if FailsEarly(a, r) {
      BodyFails(a, r, names);
    } else if r.data.Target? {
      TargetReady(a, AppendChecked(a, TypeBytes(r), 1).p, r, names);
    } else if r.data.Service? {
      var t := AppendChecked(a, TypeBytes(r), 1).p;
      ServiceReady(a, t, AppendChecked(t, BeforeHost(r), 0).p, r, names);
    } else {
      RawReady(a, r, names);
    }
  }

  lemma BodyRecord(p: Packet, r: Record, names: Names)
    requires ValidPacket(p) && GoodRecord(r) && Honest(p, r.name)
    requires AppendName(p, r.name).Done? ==> BodyGood(AppendName(p, r.name).p, r, names)
    ensures HonestRecord(p, r)
    ensures AppendRecord(p, r).Done? ==> Ready(AppendRecord(p, r).p, names)
  {
    RecordIs(p, r);
  }

  /** A record of any kind is appended honestly, and leaves the packet ready for the next. */
  lemma RecordReady(p: Packet, r: Record, names: Names)
    requires Ready(p, names) && Given(names) && Clear(names) && GoodRecord(r) && QuietRecord(r, names)
    requires ClosedRecord(p, r)
    ensures HonestRecord(p, r)
    ensures AppendRecord(p, r).Done? ==> Ready(AppendRecord(p, r).p, names)
  {
    NameReady(p, names, r.name);
    if AppendName(p, r.name).Done? {
      BodyReady(AppendName(p, r.name).p, r, names);
    }
    BodyRecord(p, r, names);
  }

  ghost predicate GoodRecords(rs: seq<Record>, names: Names) {
    forall r :: r in rs ==> GoodRecord(r) && QuietRecord(r, names)
  }

  lemma RecordsTail(rs: seq<Record>, names: Names)
    requires rs != [] && GoodRecords(rs, names)
    ensures GoodRecord(rs[0]) && QuietRecord(rs[0], names) && GoodRecords(rs[1..], names)
  {
  }

  lemma RecordsStep(p: Packet, rs: seq<Record>)
    requires ValidPacket(p) && rs != [] && forall r :: r in rs ==> GoodRecord(r)
    ensures HonestRecord(p, rs[0])
            && (AppendRecord(p, rs[0]).Done? ==> HonestRecords(AppendRecord(p, rs[0]).p, rs[1..]))
            ==> HonestRecords(p, rs)
    ensures AppendRecords(p, rs).Done? ==>
              var a := AppendRecord(p, rs[0]);
              a.Done? && AppendRecords(a.p, rs[1..]).Done? && AppendRecords(p, rs).p == AppendRecords(a.p, rs[1..]).p
  {
  }

  lemma {:induction false} RecordsReady(p: Packet, rs: seq<Record>, names: Names)
    requires Ready(p, names) && Given(names) && Clear(names) && GoodRecords(rs, names) && ClosedRecords(p, rs)
    ensures HonestRecords(p, rs)
    ensures AppendRecords(p, rs).Done? ==> Ready(AppendRecords(p, rs).p, names)
    decreases |rs|
  {
    if rs != [] {
      RecordsTail(rs, names);
      RecordReady(p, rs[0], names);
      if AppendRecord(p, rs[0]).Done? {
        RecordsReady(AppendRecord(p, rs[0]).p, rs[1..], names);
      }
      RecordsStep(p, rs);
    }
  }

  // ----- Whole messages -----

  /**
    What a caller can check of a message: its names are among the given ones, and nothing else in it
    looks like a label.
   */
  ghost predicate QuietMessage(m: Message, names: Names) {
    && (m.id == 0 || forall s :: Has(names, s) ==> |s| >= 3)
    && GoodQuestions(m.questions, names)
    && GoodRecords(m.answers, names) && GoodRecords(m.servers, names) && GoodRecords(m.additional, names)
  }

  lemma HeaderBytes(buffer: seq<Byte>, m: Message)
    requires |buffer| == MAX_PACKET
    ensures m.id == 0 ==> Header(buffer, m)[0] == 0 && Header(buffer, m)[1] == 0
  {
    var zero := Put(buffer, 0, seq(HEAD, _ => 0));
    var a := Set16(zero, 2, m.flags);
    PutBytes(buffer, 0, seq(HEAD, _ => 0));
    SetBytes(zero, 2, m.flags);
    SetBytes(a, 0, m.id);
  }

  lemma HeaderReady(buffer: seq<Byte>, m: Message, names: Names)
    requires |buffer| == MAX_PACKET && m.flags % 256 == 0 && Ordinary(names)
    requires m.id == 0 || forall s :: Has(names, s) ==> |s| >= 3
    ensures Ready(Packet(Header(buffer, m), HEAD), names)
  {
    var buf := Header(buffer, m);
    HeaderIsShaped(buffer, m);
    HeaderBytes(buffer, m);
    assert QuietId(buf, names);
    forall pos: nat | 0 <= pos < HEAD
      ensures !Looks(buf, pos, HEAD, names)
    {
      HeaderLooks(buf, pos, HEAD, names);
    }
  }

  lemma CountedReady(b: Build, at: nat, n: nat, names: Names)
    requires b.Done? && Ready(b.p, names) && Ordinary(names) && AllGood(names)
            && (at == 4 || at == 6 || at == 8)
    ensures Ready(SetCount(b, at, n).p, names)
  {
    CountReady(b.p, at, n % 256, names);
  }

  lemma SectionReady(p: Packet, rs: seq<Record>, at: nat, names: Names)
    requires Ready(p, names) && Given(names) && Clear(names) && GoodRecords(rs, names)
    requires (at == 6 || at == 8) && (forall r :: r in rs ==> GoodRecord(r)) && ClosedRecords(p, rs)
    ensures HonestRecords(p, rs)
    ensures Section(p, rs, at).Done? ==> Ready(Section(p, rs, at).p, names)
  {
    RecordsReady(p, rs, names);
    if AppendRecords(p, rs).Done? {
      CountedReady(AppendRecords(p, rs), at, |rs|, names);
    }
  }

  lemma QuestionsCounted(p: Packet, qs: seq<Question>, names: Names)
    requires Ready(p, names) && Given(names) && Clear(names) && GoodQuestions(qs, names) && ClosedQuestions(p, qs)
    ensures HonestQuestions(p, qs)
    ensures AppendQuestions(p, qs).Done? ==> Ready(SetCount(AppendQuestions(p, qs), 4, |qs|).p, names)
  {
    QuestionsReady(p, qs, names);
    if AppendQuestions(p, qs).Done? {
      CountedReady(AppendQuestions(p, qs), 4, |qs|, names);
    }
  }

  lemma ClearIsGiven(names: Names)
    requires Clear(names)
    ensures Given(names)
  {
    ClearIsOrdinary(names);
    forall n | n in names
      ensures GoodName(n)
    {
      assert Fits(n);
    }
  }

  lemma SectionsHonest(p: Packet, m: Message, names: Names)
    requires Ready(p, names) && Given(names) && Clear(names) && GoodMessage(m)
    requires GoodRecords(m.answers, names) && GoodRecords(m.servers, names) && GoodRecords(m.additional, names)
    requires ClosedSections(p, m)
    ensures HonestSections(p, m)
  {
    SectionReady(p, m.answers, 6, names);
    var b := Section(p, m.answers, 6);
    if b.Done? {
      SectionReady(b.p, m.servers, 8, names);
      var c := Section(b.p, m.servers, 8);
      if c.Done? {
        RecordsReady(c.p, m.additional, names);
      }
    }
  }

  lemma ClosedIsHonest(buffer: seq<Byte>, m: Message, names: Names)
    requires |buffer| == MAX_PACKET && GoodMessage(m)
    requires Clear(names) && QuietMessage(m, names) && ClosedMessage(buffer, m)
    ensures HonestMessage(buffer, m)
  {
    ClearIsGiven(names);
    HeaderReady(buffer, m, names);
    QuestionsCounted(Packet(Header(buffer, m), HEAD), m.questions, names);
    if AfterQuestions(buffer, m).Done? {
      SectionsHonest(AfterQuestions(buffer, m).p, m, names);
    }
  }

  /**
    Whatever the last packet has left in the buffer, every match of such a message is honest if and only
    if none is completed by what lies behind the index.
   */
  lemma MessageIsHonest(buffer: seq<Byte>, m: Message, names: Names)
    requires |buffer| == MAX_PACKET && GoodMessage(m) && Clear(names) && QuietMessage(m, names)
    ensures HonestMessage(buffer, m) <==> ClosedMessage(buffer, m)
  {
    if ClosedMessage(buffer, m) {
      ClosedIsHonest(buffer, m, names);
    }
    if HonestMessage(buffer, m) {
      HonestMessageIsClosed(buffer, m);
    }
  }

  /** So the parser walks the whole packet. */
  lemma MessageWalks(buffer: seq<Byte>, m: Message, names: Names)
    requires |buffer| == MAX_PACKET && GoodMessage(m) && Dispatch(buffer, m).Done?
    requires Clear(names) && QuietMessage(m, names) && ClosedMessage(buffer, m)
    ensures WalksWhole(buffer, m)
  {
    MessageIsHonest(buffer, m, names);
    PacketWalks(buffer, m);
  }
}
