/**
  When _mdns_dispatch_tx_packet of mdns.c (lines 1486-1530) gets everything into a packet: whatever matches are
  found, a message that would fit without pointers does, and its packet is never longer than that.
 */
module DnsFits {
  import opened Bytes
  import opened DnsName
  import opened DnsRound
  import opened DnsFrame
  import opened DnsWalk

  function QuestionsSize(qs: seq<Question>): nat {
    if qs == [] then 0 else PlainLength(qs[0].name) + 4 + QuestionsSize(qs[1..])
  }

  function TextSize(entries: seq<seq<Byte>>): nat {
    if entries == [] then 0 else |entries[0]| + 1 + TextSize(entries[1..])
  }

  function DataSize(d: Data): nat {
    match d
    case Target(host) => PlainLength(host)
    case Service(_, _, _, host) => 6 + PlainLength(host)
    case Strings(entries) => if entries == [] then 1 else TextSize(entries)
    case Ip4(_) => 4
    case Ip6(_) => 16
  }

  function RecordSize(r: Record): nat {
    PlainLength(r.name) + 10 + DataSize(r.data)
  }

  function RecordsSize(rs: seq<Record>): nat {
    if rs == [] then 0 else RecordSize(rs[0]) + RecordsSize(rs[1..])
  }

  /** Header, questions and records, every name in full. */
  function MessageSize(m: Message): nat {
    12 + QuestionsSize(m.questions) + RecordsSize(m.answers) + RecordsSize(m.servers) + RecordsSize(m.additional)
  }

  /** It succeeds, and takes no more than so many bytes. */
  ghost predicate Takes(p: Packet, b: Build, size: nat) {
    b.Done? && ValidPacket(b.p) && b.p.index <= p.index + size
  }

  lemma TakesBoth(p: Packet, a: Build, b: Build, m: nat, n: nat)
    requires Takes(p, a, m) && Takes(a.p, b, n)
    ensures Takes(p, b, m + n)
  {
  }

  /** Room for so many bytes, and one to spare. */
  predicate Room(p: Packet, size: nat) {
    ValidPacket(p) && p.index + size < MAX_PACKET
  }

  lemma BytesFit(p: Packet, data: seq<Byte>, spare: nat)
    requires Room(p, |data|) && spare <= 1
    ensures Takes(p, AppendChecked(p, data, spare), |data|)
  {
  }

  lemma InByte(n: nat)
    requires 1 <= n <= 255
    ensures n % 256 == n
  {
  }

  lemma NameIs(p: Packet, name: seq<Label>, size: nat)
    requires ValidPacket(p) && ValidLabels(name) && size <= 255
    requires var r := Append(p, name); r.ok && r.written == r.p.index - p.index && 1 <= r.written <= size
    ensures Takes(p, AppendName(p, name), size) && 1 <= AppendName(p, name).len <= size
  {
    InByte(Append(p, name).written);
  }

  lemma NameFits(p: Packet, name: seq<Label>)
    requires GoodName(name) && Room(p, PlainLength(name))
    ensures Takes(p, AppendName(p, name), PlainLength(name)) && 1 <= AppendName(p, name).len <= PlainLength(name)
  {
    AppendFits(p, name);
    NameIs(p, name, PlainLength(name));
  }

  lemma QuestionFits(p: Packet, q: Question)
    requires GoodName(q.name) && PlainLength(q.name) < 252 && Room(p, PlainLength(q.name) + 4)
    ensures Takes(p, AppendQuestion(p, q), PlainLength(q.name) + 4)
  {
    var a := AppendName(p, q.name);
    NameFits(p, q.name);
    BytesFit(a.p, U16(q.qtype), 0);
    BytesFit(AppendChecked(a.p, U16(q.qtype), 0).p, U16(q.qclass), 0);
  }

  lemma {:induction false} QuestionsFit(p: Packet, qs: seq<Question>)
    requires (forall q :: q in qs ==> GoodName(q.name) && PlainLength(q.name) < 252) && Room(p, QuestionsSize(qs))
    ensures Takes(p, AppendQuestions(p, qs), QuestionsSize(qs))
    decreases |qs|
  {
    if qs != [] {
      QuestionFits(p, qs[0]);
      var a := AppendQuestion(p, qs[0]);
      QuestionsFit(a.p, qs[1..]);
      TakesBoth(p, a, AppendQuestions(a.p, qs[1..]), PlainLength(qs[0].name) + 4, QuestionsSize(qs[1..]));
    }
  }

  lemma {:induction false} TextsFit(p: Packet, entries: seq<seq<Byte>>)
    requires Room(p, TextSize(entries))
    ensures Takes(p, AppendTexts(p, entries), TextSize(entries))
    decreases |entries|
  {
    if entries != [] {
      var entry := [(|entries[0]| % 256) as Byte] + entries[0];
      BytesFit(p, entry, 1);
      TextsFit(AppendChecked(p, entry, 1).p, entries[1..]);
    }
  }

  lemma DataFits(p: Packet, d: Data)
    requires GoodData(d) && Room(p, DataSize(d))
    ensures Takes(p, AppendData(p, d), DataSize(d))
  {
    match d
    case Target(host) => NameFits(p, host);
    case Service(priority, weight, port, host) =>
      var numbers := U16(priority) + U16(weight) + U16(port);
      BytesFit(p, numbers, 0);
      NameFits(AppendChecked(p, numbers, 0).p, host);
    case Strings(entries) =>
      if entries != [] {
        TextsFit(p, entries);
      }
    case Ip4(address) => BytesFit(p, address, 0);
    case Ip6(address) => BytesFit(p, address, 0);
  }

  lemma RecordFits(p: Packet, r: Record)
    requires GoodRecord(r) && Room(p, RecordSize(r))
    ensures Takes(p, AppendRecord(p, r), RecordSize(r))
  {
    NameFits(p, r.name);
    var a := AppendName(p, r.name);
    BytesFit(a.p, TypeBytes(r), 1);
    DataFits(AppendChecked(a.p, TypeBytes(r), 1).p, r.data);
  }

  lemma {:induction false} RecordsFit(p: Packet, rs: seq<Record>)
    requires (forall r :: r in rs ==> GoodRecord(r)) && Room(p, RecordsSize(rs))
    ensures Takes(p, AppendRecords(p, rs), RecordsSize(rs))
    decreases |rs|
  {
    if rs != [] {
      RecordFits(p, rs[0]);
      var a := AppendRecord(p, rs[0]);
      RecordsFit(a.p, rs[1..]);
      TakesBoth(p, a, AppendRecords(a.p, rs[1..]), RecordSize(rs[0]), RecordsSize(rs[1..]));
    }
  }

  lemma SectionFits(p: Packet, rs: seq<Record>, at: nat, before: nat, after: nat)
    requires (forall r :: r in rs ==> GoodRecord(r)) && at + 1 < HEAD
    requires ValidPacket(p) && p.index <= before && before + RecordsSize(rs) + after < MAX_PACKET
    ensures var b := Section(p, rs, at); b.Done? && ValidPacket(b.p) && b.p.index <= before + RecordsSize(rs)
  {
    RecordsFit(p, rs);
  }

  /**
    Whatever the buffer holds, a message whose questions, with names of at most 251 bytes, and records take fewer
    than 1460 bytes without pointers is dispatched, in no more than that many.
   */
  lemma MessageFits(buffer: seq<Byte>, m: Message)
    requires |buffer| == MAX_PACKET && GoodMessage(m)
    requires MessageSize(m) < 1460 && forall q :: q in m.questions ==> PlainLength(q.name) <= 251
    ensures Dispatch(buffer, m).Done? && Dispatch(buffer, m).p.index <= MessageSize(m)
  {
    var questions, answers, servers := QuestionsSize(m.questions), RecordsSize(m.answers), RecordsSize(m.servers);
    var additional := RecordsSize(m.additional);
    QuestionsFit(Packet(Header(buffer, m), HEAD), m.questions);
    var a := AfterQuestions(buffer, m);
    SectionFits(a.p, m.answers, 6, 12 + questions, servers + additional);
    var b := Section(a.p, m.answers, 6);
    SectionFits(b.p, m.servers, 8, 12 + questions + answers, additional);
    var c := Section(b.p, m.servers, 8);
    SectionFits(c.p, m.additional, 10, 12 + questions + answers + servers, 0);
  }
}
