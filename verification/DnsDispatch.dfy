/**
  Building and walking whole packets in place: the append functions of mdns.c over the writer's buffer,
  _mdns_dispatch_tx_packet, and the two loops of mdns_parse_packet.
 */
module DnsDispatch {
  import opened Bytes
  import opened DnsName
  import opened DnsCodec
  import opened DnsFrame
  import opened DnsWalk

  /** The packet after the type and the class of a question, if both fit. */
  function Typed(p: Packet, q: Question): (b: Build)
    requires ValidPacket(p)
    ensures b.Done? ==> b.len == 4
  {
    var t := AppendChecked(p, U16(q.qtype), 0);
    if t.Fail? then Fail
    else
      var c := AppendChecked(t.p, U16(q.qclass), 0);
      if c.Fail? then Fail else Done(c.p, 4)
  }

  lemma QuestionIs(p: Packet, q: Question, name: Build)
    requires ValidPacket(p) && GoodName(q.name) && name == DnsFrame.AppendName(p, q.name)
    ensures name.Fail? ==> PutQuestion(p, q).Fail?
    ensures name.Done? ==>
              var t := Typed(name.p, q);
              PutQuestion(p, q) == if t.Fail? then Fail else Done(t.p, (name.len + t.len) % 256)
  {
  }

  class Dispatcher {
    const writer: Writer

    constructor (writer: Writer)
      ensures this.writer == writer
    {
      this.writer := writer;
    }

    /** Bytes one by one, where there is room for all of them. */
    method AppendBytesOf(data: seq<Byte>)
      requires writer.Valid() && writer.index + |data| <= MAX_PACKET
      modifies writer`index, writer.packet
      ensures writer.Valid() && writer.View() == AppendBytes(old(writer.View()), data).p
    {
      ghost var before, start := writer.packet[..], writer.index;
      var n := 0;
      assert Put(before, start, data[..0]) == before;
      while n < |data|
        invariant n <= |data| && writer.Valid() && writer.index == start + n
        invariant writer.packet[..] == Put(before, start, data[..n])
      {
        var one := writer.AppendU8(data[n]);
        PutTwice(before, start, data[..n], [data[n]]);
        assert data[..n + 1] == data[..n] + [data[n]];
        n := n + 1;
      }
      assert data[..n] == data;
    }

    method AppendName(name: seq<Label>) returns (len: nat)
      requires writer.Valid() && ValidLabels(name)
      modifies writer`index, writer.packet
      ensures writer.Valid()
      ensures var b := DnsFrame.AppendName(old(writer.View()), name);
              b.Done? ==> writer.View() == b.p && len == b.len && len != 0
    {
      var written := writer.AppendFqdn(name);
      len := written % 256;
    }

    /** The tests of the fixed-length appends, and the bytes. */
    method AppendRoom(data: seq<Byte>, spare: nat) returns (len: nat)
      requires writer.Valid()
      modifies writer`index, writer.packet
      ensures writer.Valid()
      ensures var b := AppendChecked(old(writer.View()), data, spare);
              if b.Done? then writer.View() == b.p && len == b.len else writer.View() == old(writer.View()) && len == 0
    {
      if writer.index + |data| + spare > MAX_PACKET {
        return 0;
      }
      AppendBytesOf(data);
      len := |data|;
    }

    method AppendTypes(q: Question) returns (len: nat)
      requires writer.Valid()
      modifies writer`index, writer.packet
      ensures writer.Valid()
      ensures var b := Typed(old(writer.View()), q); b.Done? ==> writer.View() == b.p && len == b.len
    {
      var a := AppendRoom(U16(q.qtype), 0);
      var b := AppendRoom(U16(q.qclass), 0);
      len := a + b;
    }

    /** _mdns_append_question */
    method AppendQuestion(q: Question) returns (len: nat)
      requires writer.Valid() && GoodName(q.name)
      modifies writer`index, writer.packet
      ensures writer.Valid()
      ensures var b := PutQuestion(old(writer.View()), q);
              b.Done? ==> writer.View() == b.p && len == b.len
    {
      QuestionIs(writer.View(), q, DnsFrame.AppendName(writer.View(), q.name));
      len := AppendName(q.name);
      if len != 0 {
        var types := AppendTypes(q);
        len := (len + types) % 256;
      }
    }

    /** The loop of _mdns_append_txt_record over the entries. */
    method AppendEntries(entries: seq<seq<Byte>>) returns (fits: bool, len: nat)
      requires writer.Valid()
      modifies writer`index, writer.packet
      ensures writer.Valid()
      ensures var b := AppendTexts(old(writer.View()), entries);
              if b.Done? then fits && writer.View() == b.p && len == b.len else !fits
    {
      len := 0;
      var n := 0;
      while n < |entries|
        invariant n <= |entries| && writer.Valid()
        invariant var all := AppendTexts(old(writer.View()), entries);
                  var rest := AppendTexts(writer.View(), entries[n..]);
                  if rest.Fail? then all.Fail? else all == Done(rest.p, len + rest.len)
        decreases |entries| - n
      {
        assert entries[n..][0] == entries[n] && entries[n..][1..] == entries[n + 1..];
        var l := AppendRoom([(|entries[n]| % 256) as Byte] + entries[n], 1);
        if l == 0 {
          return false, 0;
        }
        len := len + l;
        n := n + 1;
      }
      fits := true;
    }

    method AppendRecordData(d: Data) returns (fits: bool, len: nat)
      requires writer.Valid() && writer.index < MAX_PACKET && GoodData(d)
      modifies writer`index, writer.packet
      ensures writer.Valid()
      ensures var b := AppendData(old(writer.View()), d);
              b.Done? ==> fits && writer.View() == b.p && len == b.len
    {
      match d
      case Target(host) =>
        len := AppendName(host);
        fits := len != 0;
      case Service(priority, weight, port, host) =>
        var six := AppendRoom(U16(priority) + U16(weight) + U16(port), 0);
        if six != 6 {
          return false, 0;
        }
        len := AppendName(host);
        fits := len != 0;
        len := len + 6;
      case Strings(entries) =>
        fits, len := AppendEntries(entries);
        if fits && len == 0 {
          AppendBytesOf([0]);
          len := 1;
        }
      case Ip4(address) =>
        len := AppendRoom(address, 0);
        fits := len != 0;
      case Ip6(address) =>
        len := AppendRoom(address, 0);
        fits := len != 0;
    }

    /** _mdns_set_u16 */
    method SetU16(at: nat, v: nat)
      requires writer.Valid() && at + 1 < MAX_PACKET
      modifies writer.packet
      ensures writer.View() == old(writer.View()).(buf := Set16(old(writer.packet[..]), at, v))
    {
      ghost var before := writer.packet[..];
      writer.packet[at] := v / 256 % 256;
      writer.packet[at + 1] := v % 256;
      SetBytes(before, at, v);
      assert writer.packet[..] == Set16(before, at, v);
    }

    /** The append functions of the records: _mdns_append_ptr_record and its fellows. */
    method AppendRecord(r: Record) returns (fits: bool)
      requires writer.Valid() && GoodRecord(r)
      modifies writer`index, writer.packet
      ensures writer.Valid()
      ensures var b := DnsFrame.AppendRecord(old(writer.View()), r);
              b.Done? ==> fits && writer.View() == b.p
    {
      var part := AppendName(r.name);
      if part == 0 {
        return false;
      }
      part := AppendRoom(TypeBytes(r), 1);
      if part == 0 {
        return false;
      }
      var lengthAt := writer.index - 2;
      var len;
      fits, len := AppendRecordData(r.data);
      if fits {
        SetU16(lengthAt, len);
      }
    }

    /** One of the loops of _mdns_dispatch_tx_packet over answers; the count is kept in a byte. */
    method AppendSection(rs: seq<Record>, at: nat)
      requires writer.Valid() && at + 1 < HEAD && forall r :: r in rs ==> GoodRecord(r)
      modifies writer`index, writer.packet
      ensures writer.Valid()
      ensures Section(old(writer.View()), rs, at).Done? ==> writer.View() == Section(old(writer.View()), rs, at).p
    {
      var count: nat, n: nat := 0, 0;
      ghost var all := AppendRecords(writer.View(), rs);
      assert rs[0..] == rs;
      while n < |rs|
        invariant n <= |rs| && writer.Valid() && count < 256
        invariant RecordsSoFar(writer.View(), rs, n, count, all)
        decreases |rs| - n
      {
        RecordsStep(writer.View(), rs, n, count, all);
        var fits := AppendRecord(rs[n]);
        if fits {
          count := Counted(count);
        }
        n := n + 1;
      }
      SetU16(at, count);
    }

    /** The loop over the questions. */
    method AppendAllQuestions(qs: seq<Question>)
      requires writer.Valid() && forall q :: q in qs ==> GoodName(q.name)
      modifies writer`index, writer.packet
      ensures writer.Valid()
      ensures var b := SetCount(AppendQuestions(old(writer.View()), qs), 4, |qs|);
              b.Done? ==> writer.View() == b.p
    {
      var count: nat, n: nat := 0, 0;
      ghost var all := AppendQuestions(writer.View(), qs);
      assert qs[0..] == qs;
      while n < |qs|
        invariant n <= |qs| && writer.Valid() && count < 256
        invariant QuestionsSoFar(writer.View(), qs, n, count, all)
        decreases |qs| - n
      {
        QuestionsStep(writer.View(), qs, n, count, all);
        var len := AppendQuestion(qs[n]);
        if len != 0 {
          count := Counted(count);
        }
        n := n + 1;
      }
      SetU16(4, count);
    }

    method ClearHeader(m: Message)
      requires writer.Valid()
      modifies writer`index, writer.packet
      ensures writer.Valid() && writer.View() == Packet(Header(old(writer.packet[..]), m), HEAD)
    {
      ghost var buffer := writer.packet[..];
      forall i | 0 <= i < HEAD {
        writer.packet[i] := 0;
      }
      assert writer.packet[..] == Put(buffer, 0, seq(HEAD, _ => 0));
      writer.index := HEAD;
      SetU16(2, m.flags);
      SetU16(0, m.id);
    }

    /** _mdns_dispatch_tx_packet up to the sending; the buffer still has the bytes of the packet before. */
    method Dispatch(m: Message)
      requires writer.Valid() && GoodMessage(m)
      modifies writer`index, writer.packet
      ensures writer.Valid()
      ensures var b := DnsWalk.Dispatch(old(writer.packet[..]), m);
              b.Done? ==> writer.View() == b.p
    {
      ClearHeader(m);
      AppendAllQuestions(m.questions);
      AppendSection(m.answers, 6);
      AppendSection(m.servers, 8);
      AppendSection(m.additional, 10);
    }
  }

  /** A count in a byte. */
  function Counted(count: nat): (c: nat)
    requires count < 256
    ensures c < 256
  {
    if count == 255 then 0 else count + 1
  }

  function Byte8(n: nat): (c: nat)
    ensures c == n % 256 && c < 256
  {
    if n == 0 then 0 else Counted(Byte8(n - 1))
  }

  /** The records still to be appended all fit, and lead to the given packet. */
  ghost predicate GoesOn(p: Packet, rs: seq<Record>, end: Packet)
    requires ValidPacket(p)
  {
    (forall r :: r in rs ==> GoodRecord(r)) && AppendRecords(p, rs).Done? && AppendRecords(p, rs).p == end
  }

  /** After n records, when all of them fit. */
  ghost predicate RecordsSoFar(p: Packet, rs: seq<Record>, n: nat, count: nat, all: Build)
    requires ValidPacket(p) && n <= |rs|
  {
    all.Done? ==> count == Byte8(n) && GoesOn(p, rs[n..], all.p)
  }

  lemma RecordsStep(p: Packet, rs: seq<Record>, n: nat, count: nat, all: Build)
    requires ValidPacket(p) && n < |rs| && GoodRecord(rs[n]) && count < 256 && RecordsSoFar(p, rs, n, count, all)
    ensures var one := DnsFrame.AppendRecord(p, rs[n]);
            all.Done? ==> one.Done? && RecordsSoFar(one.p, rs, n + 1, Counted(count), all)
  {
    if all.Done? {
      var todo := rs[n..];
      assert todo[0] == rs[n] && todo[1..] == rs[n + 1..];
    }
  }

  ghost predicate AsksOn(p: Packet, qs: seq<Question>, end: Packet)
    requires ValidPacket(p)
  {
    (forall q :: q in qs ==> GoodName(q.name)) && AppendQuestions(p, qs).Done? && AppendQuestions(p, qs).p == end
  }

  ghost predicate QuestionsSoFar(p: Packet, qs: seq<Question>, n: nat, count: nat, all: Build)
    requires ValidPacket(p) && n <= |qs|
  {
    all.Done? ==> count == Byte8(n) && AsksOn(p, qs[n..], all.p)
  }

  lemma QuestionsStep(p: Packet, qs: seq<Question>, n: nat, count: nat, all: Build)
    requires ValidPacket(p) && n < |qs| && GoodName(qs[n].name) && count < 256 && QuestionsSoFar(p, qs, n, count, all)
    ensures var one := DnsFrame.AppendQuestion(p, qs[n]);
            all.Done? ==> one.Done? && QuestionsSoFar(one.p, qs, n + 1, Counted(count), all)
  {
    if all.Done? {
      var todo := qs[n..];
      assert todo[0] == qs[n] && todo[1..] == qs[n + 1..];
    }
  }

  /** With n more questions at `content`, the walk ends as `whole`. */
  ghost predicate AsksFrom(data: seq<Byte>, content: nat, n: nat, whole: Visit) {
    content <= |data| && WalkQuestions(data, content, n) == whole
  }

  lemma WalkGoesOn(data: seq<Byte>, content: nat, n: nat, next: int, whole: Visit)
    requires AsksFrom(data, content, n, whole) && n > 0
    requires var w := ReadWire(data, content, content); if w.Bad? then next == -1 else next == w.next
    ensures next == -1 || next + 3 >= |data| ==> whole.Malformed?
    ensures next != -1 && next + 3 < |data| ==> 0 <= next && AsksFrom(data, next + 4, n - 1, whole)
  {
  }

  lemma WalkEnds(data: seq<Byte>, content: nat, whole: Visit)
    requires AsksFrom(data, content, 0, whole)
    ensures whole == Visited(content)
  {
  }

  /** The question loop of mdns_parse_packet; -1 stands for a malformed packet. */
  method ParseQuestions(data: array<Byte>, start: nat, count: nat) returns (content: int)
    requires start <= data.Length
    ensures match WalkQuestions(data[..], start, count)
            case Malformed => content == -1
            case Visited(at) => content == at
  {
    content := start;
    ghost var packet := data[..];
    ghost var whole := WalkQuestions(packet, start, count);
    var qs := count;
    while qs > 0
      invariant 0 <= content <= data.Length && AsksFrom(packet, content, qs, whole)
    {
      var name := new NameRecord();
      var next := ReadFqdn(data, content, name);
      WalkGoesOn(packet, content, qs, next, whole);
      if next == -1 || next + 3 >= data.Length {
        return -1;
      }
      content := next + 4;
      qs := qs - 1;
    }
    WalkEnds(packet, content, whole);
  }

  /** What has been read and what is still to come make up the walk. */
  ghost predicate Completes(all: Records, spans: seq<Span>, rest: Records) {
    match rest
    case Broken => all.Broken?
    case Read(more) => all == Read(spans + more)
  }

  lemma CompletesMore(all: Records, spans: seq<Span>, span: Span, here: Records, rest: Records)
    requires Completes(all, spans, here)
    requires match rest case Broken => here.Broken? case Read(more) => here == Read([span] + more)
    ensures Completes(all, spans + [span], rest)
  {
    if rest.Read? {
      assert spans + ([span] + rest.spans) == (spans + [span]) + rest.spans;
    }
  }

  /** From `content` on, after these spans, the walk ends as `whole`. */
  ghost predicate ReadsFrom(data: seq<Byte>, spans: seq<Span>, content: nat, whole: Records) {
    content <= |data| && Completes(whole, spans, WalkRecords(data, content))
  }

  lemma ReadsFromStart(data: seq<Byte>, start: nat)
    requires start <= |data|
    ensures ReadsFrom(data, [], start, WalkRecords(data, start))
  {
    var all := WalkRecords(data, start);
    assert all.Read? ==> [] + all.spans == all.spans;
  }

  lemma RoundRead(data: seq<Byte>, content: nat, body: nat, len: nat)
    requires content < |data| && ReadWire(data, content, content).Good? && ReadWire(data, content, content).next == body
    requires body + 10 + len <= |data| && Read16(data, body + 8) == len
    ensures match WalkRecords(data, body + 10 + len)
            case Broken => WalkRecords(data, content).Broken?
            case Read(rest) => WalkRecords(data, content) == Read([Span(body + 10, len)] + rest)
  {
  }

  lemma RoundBroken(data: seq<Byte>, content: nat)
    requires content < |data|
    requires var w := ReadWire(data, content, content);
             w.Bad? || w.next + 9 >= |data| || w.next + 10 + Read16(data, w.next + 8) > |data|
    ensures WalkRecords(data, content).Broken?
  {
  }

  /** One round: the walk is broken here, or goes on behind the record. */
  lemma ReadsOn(data: seq<Byte>, spans: seq<Span>, content: nat, body: int, whole: Records)
    requires content < |data| && ReadsFrom(data, spans, content, whole)
    requires var w := ReadWire(data, content, content); if w.Bad? then body == -1 else body == w.next
    ensures body == -1 || body + 9 >= |data| ==> whole.Broken?
    ensures body != -1 && body + 9 < |data| ==>
              var len := Read16(data, body + 8);
              if body + 10 + len > |data| then whole.Broken?
              else ReadsFrom(data, spans + [Span(body + 10, len)], body + 10 + len, whole)
  {
    if body == -1 || body + 9 >= |data| || body + 10 + Read16(data, body + 8) > |data| {
      RoundBroken(data, content);
    } else {
      var len := Read16(data, body + 8);
      RoundRead(data, content, body, len);
      CompletesMore(whole, spans, Span(body + 10, len), WalkRecords(data, content), WalkRecords(data, body + 10 + len));
    }
  }

  lemma ReadsToEnd(data: seq<Byte>, spans: seq<Span>, whole: Records)
    requires ReadsFrom(data, spans, |data|, whole)
    ensures whole == Read(spans)
  {
    assert spans + [] == spans;
  }

  /** _mdns_read_u16 */
  method Read16In(data: array<Byte>, at: nat) returns (v: nat)
    requires at + 1 < data.Length
    ensures v == Read16(data[..], at)
  {
    v := (data[at] as int) * 256 + data[at + 1];
  }

  /** The record loop of mdns_parse_packet: the data of every record. */
  method ParseRecords(data: array<Byte>, start: nat) returns (ok: bool, spans: seq<Span>)
    requires start <= data.Length
    ensures match WalkRecords(data[..], start)
            case Broken => !ok
            case Read(all) => ok && spans == all
  {
    ok, spans := true, [];
    ghost var packet := data[..];
    ghost var whole := WalkRecords(packet, start);
    var content: int := start;
    ReadsFromStart(packet, start);
    while content < data.Length
      invariant 0 <= content <= data.Length && ReadsFrom(packet, spans, content, whole)
      decreases data.Length - content
    {
      var name := new NameRecord();
      var body := ReadFqdn(data, content, name);
      ReadsOn(packet, spans, content, body, whole);
      if body == -1 || body + 9 >= data.Length {
        return false, [];
      }
      var len := Read16In(data, body + 8);
      if body + 10 + len > data.Length {
        return false, [];
      }
      spans := spans + [Span(body + 10, len)];
      content := body + 10 + len;
    }
    ReadsToEnd(packet, spans, whole);
  }
}
