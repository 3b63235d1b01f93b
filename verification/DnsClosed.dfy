/**
  Packets of mdns.c (lines 819-1230 and 1486-1530) in which no match is completed by what the packet
  before has left behind the index: a condition on single matches, for every append of a message.
 */
module DnsClosed {
  import opened Bytes
  import opened DnsName
  import opened DnsRound
  import opened DnsFrame
  import opened DnsWalk

  // ----- The matches of a message -----

  ghost predicate ClosedQuestions(p: Packet, qs: seq<Question>)
    requires ValidPacket(p) && forall q :: q in qs ==> GoodName(q.name)
    decreases |qs|
  {
    qs == [] || (GoodName(qs[0].name) && Closed(p, qs[0].name) &&
                 (AppendQuestion(p, qs[0]).Done? ==> ClosedQuestions(AppendQuestion(p, qs[0]).p, qs[1..])))
  }

  ghost predicate ClosedData(p: Packet, d: Data)
    requires ValidPacket(p) && GoodData(d)
  {
    match d
    case Target(host) => Closed(p, host)
    case Service(priority, weight, port, host) =>
      var a := AppendChecked(p, U16(priority) + U16(weight) + U16(port), 0);
      a.Done? ==> Closed(a.p, host)
    case _ => true
  }

  /** What a record appends behind its name. */
  ghost predicate ClosedBody(a: Packet, r: Record)
    requires ValidPacket(a) && GoodRecord(r)
  {
    var t := AppendChecked(a, TypeBytes(r), 1);
    t.Done? ==> ClosedData(t.p, r.data)
  }

  ghost predicate ClosedRecord(p: Packet, r: Record)
    requires ValidPacket(p) && GoodRecord(r)
  {
    && Closed(p, r.name)
    && (AppendName(p, r.name).Done? ==> ClosedBody(AppendName(p, r.name).p, r))
  }

  ghost predicate ClosedRecords(p: Packet, rs: seq<Record>)
    requires ValidPacket(p) && forall r :: r in rs ==> GoodRecord(r)
    decreases |rs|
  {
    rs == [] || (ClosedRecord(p, rs[0]) &&
                 (AppendRecord(p, rs[0]).Done? ==> ClosedRecords(AppendRecord(p, rs[0]).p, rs[1..])))
  }

  ghost predicate ClosedSections(p: Packet, m: Message)
    requires ValidPacket(p) && GoodMessage(m)
  {
    && ClosedRecords(p, m.answers)
    && var b := Section(p, m.answers, 6);
       b.Done? ==>
         && ClosedRecords(b.p, m.servers)
         && var c := Section(b.p, m.servers, 8);
            c.Done? ==> ClosedRecords(c.p, m.additional)
  }

  /** Every match that the appends of a message find ends its first label before the index. */
  ghost predicate ClosedMessage(buffer: seq<Byte>, m: Message)
    requires |buffer| == MAX_PACKET && GoodMessage(m)
  {
    && ClosedQuestions(Packet(Header(buffer, m), HEAD), m.questions)
    && (AfterQuestions(buffer, m).Done? ==> ClosedSections(AfterQuestions(buffer, m).p, m))
  }

  // ----- Honest matches are closed -----

  lemma DataClosed(p: Packet, d: Data)
    requires ValidPacket(p) && GoodData(d) && HonestData(p, d)
    ensures ClosedData(p, d)
  {
    match d
    case Target(host) => HonestIsClosed(p, host);
    case Service(priority, weight, port, host) =>
      var a := AppendChecked(p, U16(priority) + U16(weight) + U16(port), 0);
      if a.Done? {
        HonestIsClosed(a.p, host);
      }
    case _ =>
  }

  lemma RecordClosed(p: Packet, r: Record)
    requires ValidPacket(p) && GoodRecord(r) && HonestRecord(p, r)
    ensures ClosedRecord(p, r)
  {
    HonestIsClosed(p, r.name);
    var a := AppendName(p, r.name);
    if a.Done? && AppendChecked(a.p, TypeBytes(r), 1).Done? {
      DataClosed(AppendChecked(a.p, TypeBytes(r), 1).p, r.data);
    }
  }

  lemma {:induction false} RecordsClosed(p: Packet, rs: seq<Record>)
    requires ValidPacket(p) && (forall r :: r in rs ==> GoodRecord(r)) && HonestRecords(p, rs)
    ensures ClosedRecords(p, rs)
    decreases |rs|
  {
    if rs != [] {
      RecordClosed(p, rs[0]);
      if AppendRecord(p, rs[0]).Done? {
        RecordsClosed(AppendRecord(p, rs[0]).p, rs[1..]);
      }
    }
  }

  lemma {:induction false} QuestionsClosed(p: Packet, qs: seq<Question>)
    requires ValidPacket(p) && (forall q :: q in qs ==> GoodName(q.name)) && HonestQuestions(p, qs)
    ensures ClosedQuestions(p, qs)
    decreases |qs|
  {
    if qs != [] {
      HonestIsClosed(p, qs[0].name);
      if AppendQuestion(p, qs[0]).Done? {
        QuestionsClosed(AppendQuestion(p, qs[0]).p, qs[1..]);
      }
    }
  }

  lemma SectionsClosed(p: Packet, m: Message)
    requires ValidPacket(p) && GoodMessage(m) && HonestSections(p, m)
    ensures ClosedSections(p, m)
  {
    RecordsClosed(p, m.answers);
    var b := Section(p, m.answers, 6);
    if b.Done? {
      RecordsClosed(b.p, m.servers);
      var c := Section(b.p, m.servers, 8);
      if c.Done? {
        RecordsClosed(c.p, m.additional);
      }
    }
  }

  lemma HonestMessageIsClosed(buffer: seq<Byte>, m: Message)
    requires |buffer| == MAX_PACKET && GoodMessage(m) && HonestMessage(buffer, m)
    ensures ClosedMessage(buffer, m)
  {
    QuestionsClosed(Packet(Header(buffer, m), HEAD), m.questions);
    if AfterQuestions(buffer, m).Done? {
      SectionsClosed(AfterQuestions(buffer, m).p, m);
    }
  }
}
