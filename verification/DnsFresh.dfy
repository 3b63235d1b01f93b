/**
  The first packets of mdns.c (lines 1486-1530): while the bytes behind the index are in no label, as
  the zeros of the static buffer are, every match of a message is closed.
 */
module DnsFresh {
  import opened Bytes
  import opened DnsName
  import opened DnsRound
  import opened DnsFrame
  import opened DnsWalk
  import opened DnsPlaces
  import opened DnsClosed
  import opened DnsHonest

  /** No byte from the index on is in a label. */
  ghost predicate Fresh(p: Packet, names: Names) {
    ValidPacket(p) && forall i :: p.index <= i < MAX_PACKET ==> Foreign(p.buf[i], names)
  }

  /** Appended bytes are between the two indices; behind the second one nothing has changed. */
  ghost predicate Beyond(p: Packet, r: Packet) {
    && ValidPacket(p) && ValidPacket(r) && p.index <= r.index
    && forall i :: r.index <= i < MAX_PACKET ==> r.buf[i] == p.buf[i]
  }

  lemma StaysFresh(p: Packet, r: Packet, names: Names)
    requires Fresh(p, names) && Beyond(p, r)
    ensures Fresh(r, names)
  {
  }

  lemma BytesBeyond(p: Packet, data: seq<Byte>)
    requires ValidPacket(p) && p.index + |data| <= MAX_PACKET
    ensures Beyond(p, AppendBytes(p, data).p)
  {
    PutBytes(p.buf, p.index, data);
  }

  lemma {:induction false} AppendBeyond(p: Packet, strings: seq<Label>)
    requires ValidPacket(p) && ValidLabels(strings) && Append(p, strings).ok
    ensures Beyond(p, Append(p, strings).p)
    decreases |strings|
  {
    if strings == [] {
      BytesBeyond(p, [0]);
    } else if Find(p.buf, p.index, strings, 0) < p.index {
      AppendPoints(p, strings);
      BytesBeyond(p, Pointer(Find(p.buf, p.index, strings, 0)));
    } else {
      AppendStep(p, strings);
      BytesBeyond(p, [|strings[0]| as Byte] + strings[0]);
      AppendBeyond(One(p, strings[0]), strings[1..]);
    }
  }

  lemma {:induction false} TextsBeyond(p: Packet, entries: seq<seq<Byte>>)
    requires ValidPacket(p) && AppendTexts(p, entries).Done?
    ensures Beyond(p, AppendTexts(p, entries).p)
    decreases |entries|
  {
    if entries != [] {
      var first := [(|entries[0]| % 256) as Byte] + entries[0];
      BytesBeyond(p, first);
      TextsBeyond(AppendChecked(p, first, 1).p, entries[1..]);
    }
  }

  lemma DataBeyond(p: Packet, d: Data)
    requires ValidPacket(p) && p.index < MAX_PACKET && GoodData(d) && AppendData(p, d).Done?
    ensures Beyond(p, AppendData(p, d).p)
  {
    match d
    case Target(host) => AppendBeyond(p, host);
    case Service(priority, weight, port, host) =>
      var data := U16(priority) + U16(weight) + U16(port);
      BytesBeyond(p, data);
      AppendBeyond(AppendBytes(p, data).p, host);
    case Strings(entries) =>
      if entries == [] {
        BytesBeyond(p, [0]);
      } else {
        TextsBeyond(p, entries);
      }
    case Ip4(address) => BytesBeyond(p, address);
    case Ip6(address) => BytesBeyond(p, address);
  }

  lemma SetBeyond(p: Packet, r: Packet, at: nat, n: nat)
    requires Beyond(p, r) && at + 2 <= r.index
    ensures Beyond(p, Packet(Set16(r.buf, at, n), r.index))
  {
    SetBytes(r.buf, at, n);
  }

  /** Without a label behind the index, none reaches over it. */
  lemma {:induction false} FreshCloses(p: Packet, names: Names, strings: seq<Label>)
    requires Fresh(p, names) && ValidLabels(strings) && forall i :: 0 <= i < |strings| ==> Has(names, strings[i])
    ensures Closed(p, strings)
    decreases |strings|
  {
    if strings != [] {
      var at := Find(p.buf, p.index, strings, 0);
      if at < p.index {
        FreshEnds(p, names, at, strings[0]);
      } else if p.index + |strings[0]| + 1 < MAX_PACKET {
        BytesBeyond(p, [|strings[0]| as Byte] + strings[0]);
        StaysFresh(p, One(p, strings[0]), names);
        assert forall i :: 0 <= i < |strings| - 1 ==> strings[1..][i] == strings[i + 1];
        FreshCloses(One(p, strings[0]), names, strings[1..]);
        ClosedStep(p, strings);
      }
    }
  }

  lemma FreshEnds(p: Packet, names: Names, at: nat, s: Label)
    requires Fresh(p, names) && Has(names, s) && at < p.index && Occurs(p.buf, at, s)
    ensures at + 1 + |s| <= p.index
  {
    if p.index < at + 1 + |s| {
      InLabel(p.buf, at, s, p.index);
    }
  }

  lemma NameCloses(p: Packet, names: Names, name: seq<Label>)
    requires Fresh(p, names) && name in names && ValidLabels(name)
    ensures Closed(p, name)
  {
    forall i | 0 <= i < |name|
      ensures Has(names, name[i])
    {
      HasLabel(names, name, i);
    }
    FreshCloses(p, names, name);
  }

  lemma QuestionFresh(p: Packet, q: Question, names: Names)
    requires Fresh(p, names) && GoodName(q.name) && q.name in names
    ensures Closed(p, q.name) && (AppendQuestion(p, q).Done? ==> Fresh(AppendQuestion(p, q).p, names))
  {
    NameCloses(p, names, q.name);
    if AppendQuestion(p, q).Done? {
      var a := AppendName(p, q.name).p;
      AppendBeyond(p, q.name);
      BytesBeyond(a, U16(q.qtype));
      BytesBeyond(AppendBytes(a, U16(q.qtype)).p, U16(q.qclass));
      StaysFresh(p, AppendQuestion(p, q).p, names);
    }
  }

  lemma {:induction false} QuestionsFresh(p: Packet, qs: seq<Question>, names: Names)
    requires Fresh(p, names) && (forall q :: q in qs ==> GoodName(q.name)) && forall q :: q in qs ==> q.name in names
    ensures ClosedQuestions(p, qs) && (AppendQuestions(p, qs).Done? ==> Fresh(AppendQuestions(p, qs).p, names))
    decreases |qs|
  {
    if qs != [] {
      QuestionFresh(p, qs[0], names);
      if AppendQuestion(p, qs[0]).Done? {
        QuestionsFresh(AppendQuestion(p, qs[0]).p, qs[1..], names);
      }
    }
  }

  lemma DataCloses(p: Packet, r: Record, names: Names)
    requires Fresh(p, names) && GoodRecord(r) && QuietRecord(r, names)
    ensures ClosedData(p, r.data)
  {
    match r.data
    case Target(host) => NameCloses(p, names, host);
    case Service(priority, weight, port, host) =>
      var data := U16(priority) + U16(weight) + U16(port);
      if AppendChecked(p, data, 0).Done? {
        BytesBeyond(p, data);
        StaysFresh(p, AppendBytes(p, data).p, names);
        NameCloses(AppendBytes(p, data).p, names, host);
      }
    case _ =>
  }

  lemma BodyFresh(a: Packet, r: Record, names: Names)
    requires Fresh(a, names) && GoodRecord(r) && QuietRecord(r, names)
    ensures ClosedBody(a, r) && (Body(a, r).Done? ==> Fresh(Body(a, r).p, names))
  {
    var t := AppendChecked(a, TypeBytes(r), 1);
    if t.Done? {
      BytesBeyond(a, TypeBytes(r));
      StaysFresh(a, t.p, names);
      DataCloses(t.p, r, names);
      var d := AppendData(t.p, r.data);
      if d.Done? {
        DataBeyond(t.p, r.data);
        SetBeyond(t.p, d.p, a.index + 8, d.len);
        StaysFresh(t.p, Body(a, r).p, names);
      }
    }
  }

  lemma RecordFresh(p: Packet, r: Record, names: Names)
    requires Fresh(p, names) && GoodRecord(r) && QuietRecord(r, names)
    ensures ClosedRecord(p, r) && (AppendRecord(p, r).Done? ==> Fresh(AppendRecord(p, r).p, names))
  {
    NameCloses(p, names, r.name);
    RecordIs(p, r);
    if AppendName(p, r.name).Done? {
      AppendBeyond(p, r.name);
      StaysFresh(p, AppendName(p, r.name).p, names);
      BodyFresh(AppendName(p, r.name).p, r, names);
    }
  }

  lemma {:induction false} RecordsFresh(p: Packet, rs: seq<Record>, names: Names)
    requires Fresh(p, names) && GoodRecords(rs, names)
    ensures ClosedRecords(p, rs) && (AppendRecords(p, rs).Done? ==> Fresh(AppendRecords(p, rs).p, names))
    decreases |rs|
  {
    if rs != [] {
      RecordsTail(rs, names);
      RecordFresh(p, rs[0], names);
      if AppendRecord(p, rs[0]).Done? {
        RecordsFresh(AppendRecord(p, rs[0]).p, rs[1..], names);
      }
    }
  }

  lemma CountFresh(p: Packet, at: nat, n: nat, names: Names)
    requires Fresh(p, names) && at + 2 <= p.index
    ensures Fresh(Packet(Set16(p.buf, at, n), p.index), names)
  {
    SetBeyond(p, p, at, n);
    StaysFresh(p, Packet(Set16(p.buf, at, n), p.index), names);
  }

  lemma SectionFresh(p: Packet, rs: seq<Record>, at: nat, names: Names)
    requires Fresh(p, names) && GoodRecords(rs, names) && (forall r :: r in rs ==> GoodRecord(r))
    requires HEAD <= p.index && at + 1 < HEAD
    ensures ClosedRecords(p, rs)
    ensures Section(p, rs, at).Done? ==> HEAD <= Section(p, rs, at).p.index && Fresh(Section(p, rs, at).p, names)
  {
    RecordsFresh(p, rs, names);
    if AppendRecords(p, rs).Done? {
      CountFresh(AppendRecords(p, rs).p, at, |rs| % 256, names);
    }
  }

  lemma SectionsFresh(p: Packet, m: Message, names: Names)
    requires Fresh(p, names) && GoodMessage(m) && QuietMessage(m, names) && HEAD <= p.index
    ensures ClosedSections(p, m)
  {
    SectionFresh(p, m.answers, 6, names);
    var b := Section(p, m.answers, 6);
    if b.Done? {
      SectionFresh(b.p, m.servers, 8, names);
      var c := Section(b.p, m.servers, 8);
      if c.Done? {
        RecordsFresh(c.p, m.additional, names);
      }
    }
  }

  lemma HeaderFresh(buffer: seq<Byte>, m: Message, names: Names)
    requires |buffer| == MAX_PACKET && forall i :: HEAD <= i < MAX_PACKET ==> Foreign(buffer[i], names)
    ensures Fresh(Packet(Header(buffer, m), HEAD), names)
  {
    var zero := Put(buffer, 0, seq(HEAD, _ => 0));
    PutBytes(buffer, 0, seq(HEAD, _ => 0));
    SetBytes(zero, 2, m.flags);
    SetBytes(Set16(zero, 2, m.flags), 0, m.id);
  }

  /** As long as the buffer behind the header has no byte of a label, no match reaches over the index. */
  lemma FreshIsClosed(buffer: seq<Byte>, m: Message, names: Names)
    requires |buffer| == MAX_PACKET && forall i :: HEAD <= i < MAX_PACKET ==> Foreign(buffer[i], names)
    requires GoodMessage(m) && QuietMessage(m, names)
    ensures ClosedMessage(buffer, m)
  {
    var p := Packet(Header(buffer, m), HEAD);
    HeaderFresh(buffer, m, names);
    QuestionsFresh(p, m.questions, names);
    if AfterQuestions(buffer, m).Done? {
      CountFresh(AppendQuestions(p, m.questions).p, 4, |m.questions| % 256, names);
      SectionsFresh(AfterQuestions(buffer, m).p, m, names);
    }
  }
}
