/**
  The walk of the mDNS parser over a packet as the responder dispatches it (mdns.c lines 1486-1530
  and 3687-3811): it visits what was appended, with the lengths that were written, and ends at the end.
 */
module DnsWalk {
  import opened Bytes
  import opened DnsName
  import opened DnsRound
  import opened DnsFrame

  // ----- Records stand one after the other -----

  ghost predicate RecordsStand(buf: seq<Byte>, at: nat, rs: seq<Record>, end: nat)
    decreases |rs|
  {
    if rs == [] then at == end <= |buf|
    else
      exists body: nat, mid: nat ::
        RecordStands(buf, at, rs[0], body, mid) && mid <= end && RecordsStand(buf, mid, rs[1..], end)
  }

  ghost predicate HonestRecords(p: Packet, rs: seq<Record>)
    requires ValidPacket(p) && forall r :: r in rs ==> GoodRecord(r)
    decreases |rs|
  {
    rs == [] || (GoodRecord(rs[0]) && HonestRecord(p, rs[0]) &&
                 (AppendRecord(p, rs[0]).Done? ==> HonestRecords(AppendRecord(p, rs[0]).p, rs[1..])))
  }

  lemma {:induction false} RecordsAppended(p: Packet, rs: seq<Record>)
    requires ValidPacket(p) && HEAD <= p.index && HeaderShape(p.buf) && forall r :: r in rs ==> GoodRecord(r)
    requires HonestRecords(p, rs) && AppendRecords(p, rs).Done?
    ensures var r := AppendRecords(p, rs).p;
            RecordsStand(r.buf, p.index, rs, r.index) && HeaderShape(r.buf) && p.index + 12 * |rs| <= r.index
    decreases |rs|
  {
    if rs != [] {
      var a := AppendRecord(p, rs[0]).p;
      var r := AppendRecords(p, rs).p;
      var body := AppendName(p, rs[0].name).p.index;
      RecordAppended(p, rs[0]);
      RecordsAppended(a, rs[1..]);
      PrefixAgrees(a.buf, r.buf, a.index);
      RecordKept(a.buf, r.buf, p.index, rs[0], body, a.index);
    }
  }

  lemma {:induction false} RecordsKept(buf: seq<Byte>, buf': seq<Byte>, at: nat, rs: seq<Record>, end: nat)
    requires HeaderShape(buf) && HEAD <= at && |buf| == |buf'| && (forall r :: r in rs ==> GoodRecord(r))
    requires RecordsStand(buf, at, rs, end) && end <= |buf| && Agree(buf, buf', HEAD, end)
    ensures RecordsStand(buf', at, rs, end)
    decreases |rs|
  {
    if rs != [] {
      var body: nat, mid: nat :|
        RecordStands(buf, at, rs[0], body, mid) && mid <= end && RecordsStand(buf, mid, rs[1..], end);
      RecordKept(buf, buf', at, rs[0], body, mid);
      RecordsKept(buf, buf', mid, rs[1..], end);
    }
  }

  lemma {:induction false} RecordsJoin(buf: seq<Byte>, at: nat, a: seq<Record>, mid: nat, b: seq<Record>, end: nat)
    requires RecordsStand(buf, at, a, mid) && RecordsStand(buf, mid, b, end) && mid <= end
    ensures RecordsStand(buf, at, a + b, end)
    decreases |a|
  {
    if a == [] {
      assert a + b == b;
    } else {
      assert (a + b)[0] == a[0] && (a + b)[1..] == a[1..] + b;
      var body: nat, next: nat :|
        RecordStands(buf, at, a[0], body, next) && next <= mid && RecordsStand(buf, next, a[1..], mid);
      RecordsJoin(buf, next, a[1..], mid, b, end);
    }
  }

  // ----- What is received -----

  lemma DataCut(buf: seq<Byte>, cut: seq<Byte>, at: nat, d: Data, end: nat)
    requires at <= end <= |cut| <= |buf| && Agree(buf, cut, 0, |cut|) && DataStands(buf, at, d, end)
    ensures DataStands(cut, at, d, end)
  {
    SliceKept(buf, cut, 0, |cut|, at, end);
    match d
    case Target(host) => NameCut(buf, cut, at, host, end);
    case Service(_, _, _, host) =>
      SliceKept(buf, cut, 0, |cut|, at, at + 6);
      NameCut(buf, cut, at + 6, host, end);
    case _ =>
  }

  lemma RecordCut(buf: seq<Byte>, cut: seq<Byte>, at: nat, r: Record, body: nat, mid: nat)
    requires mid <= |cut| <= |buf| && Agree(buf, cut, 0, |cut|) && RecordStands(buf, at, r, body, mid)
    ensures RecordStands(cut, at, r, body, mid)
  {
    NameCut(buf, cut, at, r.name, body);
    HeadCut(buf, cut, body);
    DataCut(buf, cut, body + 10, r.data, mid);
  }

  lemma HeadCut(buf: seq<Byte>, cut: seq<Byte>, body: nat)
    requires body + 10 <= |cut| <= |buf| && Agree(buf, cut, 0, |cut|)
    ensures cut[body..body + 8] == buf[body..body + 8] && cut[body + 8..body + 10] == buf[body + 8..body + 10]
  {
    SliceKept(buf, cut, 0, |cut|, body, body + 8);
    SliceKept(buf, cut, 0, |cut|, body + 8, body + 10);
  }

  lemma {:induction false} RecordsCut(buf: seq<Byte>, cut: seq<Byte>, at: nat, rs: seq<Record>, end: nat)
    requires end <= |cut| <= |buf| && Agree(buf, cut, 0, |cut|) && RecordsStand(buf, at, rs, end)
    ensures RecordsStand(cut, at, rs, end)
    decreases |rs|
  {
    if rs != [] {
      var body: nat, mid: nat :|
        RecordStands(buf, at, rs[0], body, mid) && mid <= end && RecordsStand(buf, mid, rs[1..], end);
      RecordCut(buf, cut, at, rs[0], body, mid);
      RecordsCut(buf, cut, mid, rs[1..], end);
    }
  }

  lemma {:induction false} QuestionsCut(buf: seq<Byte>, cut: seq<Byte>, at: nat, qs: seq<Question>, end: nat)
    requires end <= |cut| <= |buf| && Agree(buf, cut, 0, |cut|) && QuestionsStand(buf, at, qs, end)
    ensures QuestionsStand(cut, at, qs, end)
    decreases |qs|
  {
    if qs != [] {
      var mid: nat :| QuestionStands(buf, at, qs[0], mid) && mid <= end && QuestionsStand(buf, mid, qs[1..], end);
      NameCut(buf, cut, at, qs[0].name, mid - 4);
      SliceKept(buf, cut, 0, |cut|, mid - 4, mid - 2);
      SliceKept(buf, cut, 0, |cut|, mid - 2, mid);
      assert QuestionStands(cut, at, qs[0], mid);
      QuestionsCut(buf, cut, mid, qs[1..], end);
    }
  }

  // ----- The walk -----

  datatype Visit = Malformed | Visited(at: nat)

  /** The question loop of mdns_parse_packet, for n more questions. */
  function WalkQuestions(data: seq<Byte>, content: nat, n: nat): (v: Visit)
    requires content <= |data|
    ensures v.Visited? ==> v.at <= |data|
    decreases n
  {
    if n == 0 then Visited(content)
    else
      var w := ReadWire(data, content, content);
      if w.Bad? || w.next + 3 >= |data| then Malformed else WalkQuestions(data, w.next + 4, n - 1)
  }

  /** A record's data, as far as the parser takes it. */
  datatype Span = Span(at: nat, len: nat)

  datatype Records = Broken | Read(spans: seq<Span>)

  /** The record loop, until the content pointer has reached the end. */
  function WalkRecords(data: seq<Byte>, content: nat): Records
    requires content <= |data|
    decreases |data| - content
  {
    if content == |data| then Read([])
    else
      var w := ReadWire(data, content, content);
      if w.Bad? || w.next + 9 >= |data| then Broken
      else
        var span := Span(w.next + 10, Read16(data, w.next + 8));
        if span.at + span.len > |data| then Broken
        else
          match WalkRecords(data, span.at + span.len)
          case Broken => Broken
          case Read(rest) => Read([span] + rest)
  }

  /** One round of the question loop. */
  lemma QuestionWalked(data: seq<Byte>, at: nat, q: Question, mid: nat, n: nat)
    requires at <= |data| && QuestionStands(data, at, q, mid)
    ensures WalkQuestions(data, at, n + 1) == WalkQuestions(data, mid, n)
  {
  }

  lemma {:induction false} QuestionsWalked(data: seq<Byte>, at: nat, qs: seq<Question>, end: nat)
    requires at <= |data| && QuestionsStand(data, at, qs, end)
    ensures WalkQuestions(data, at, |qs|) == Visited(end)
    decreases |qs|
  {
    if qs != [] {
      var mid: nat :| QuestionStands(data, at, qs[0], mid) && mid <= end && QuestionsStand(data, mid, qs[1..], end);
      QuestionsWalked(data, mid, qs[1..], end);
      QuestionWalked(data, at, qs[0], mid, |qs| - 1);
    }
  }

  /** Type, class and time to live, as they are read. */
  predicate TypeStands(buf: seq<Byte>, body: nat, r: Record) {
    && body + 8 <= |buf|
    && Read16(buf, body) == r.rtype % 0x1_0000 && Read16(buf, body + 2) == r.rclass % 0x1_0000
    && Read16(buf, body + 4) * 0x1_0000 + Read16(buf, body + 6) == r.ttl
  }

  lemma WordAt(data: seq<Byte>, at: nat, v: nat)
    requires at + 2 <= |data| && data[at] == U16(v)[0] && data[at + 1] == U16(v)[1]
    ensures Read16(data, at) == v % 0x1_0000
  {
    WordReads(v);
  }

  lemma WordReads(v: nat)
    ensures v / 256 % 256 * 256 + v % 256 == v % 0x1_0000
  {
  }

  lemma TypeIsRead(data: seq<Byte>, body: nat, r: Record)
    requires body + 8 <= |data| && data[body..body + 8] == TypeBytes(r)[..8] && r.ttl < 0xC000
    ensures TypeStands(data, body, r)
  {
    var s := data[body..body + 8];
    assert forall i :: 0 <= i < 8 ==> s[i] == data[body + i];
    assert forall i :: 0 <= i < 8 ==> s[i] == TypeBytes(r)[i];
    WordAt(data, body, r.rtype);
    WordAt(data, body + 2, r.rclass);
    WordAt(data, body + 4, r.ttl / 0x1_0000);
    WordAt(data, body + 6, r.ttl);
  }

  /** The data of a record, as they are read. */
  ghost predicate DataTold(buf: seq<Byte>, at: nat, d: Data, end: nat)
    requires at <= |buf|
  {
    match d
    case Service(priority, weight, port, host) =>
      && at + 6 <= end <= |buf|
      && Read16(buf, at) == priority % 0x1_0000 && Read16(buf, at + 2) == weight % 0x1_0000
      && Read16(buf, at + 4) == port % 0x1_0000 && NameStands(buf, at + 6, host, end)
    case _ => DataStands(buf, at, d, end)
  }

  lemma DataIsTold(buf: seq<Byte>, at: nat, d: Data, end: nat)
    requires at <= |buf| && DataStands(buf, at, d, end)
    ensures DataTold(buf, at, d, end)
  {
    match d
    case Service(priority, weight, port, host) =>
      var s, t := buf[at..at + 6], U16(priority) + U16(weight) + U16(port);
      assert forall i :: 0 <= i < 6 ==> buf[at + i] == s[i] == t[i];
      WordAt(buf, at, priority);
      WordAt(buf, at + 2, weight);
      WordAt(buf, at + 4, port);
    case _ =>
  }

  /** At `at` the reader finds the name of the record, and behind it type, class, time to live, length and data. */
  ghost predicate TellsAt(data: seq<Byte>, at: nat, r: Record, span: Span)
    requires at <= |data|
  {
    var w := ReadWire(data, at, at);
    && w.Good? && Reads(w.items, r.name) && w.next + 10 == span.at && span.at + span.len <= |data|
    && TypeStands(data, w.next, r) && Read16(data, w.next + 8) == span.len
    && DataTold(data, span.at, r.data, span.at + span.len)
  }

  /** One after the other, up to the end of the packet. */
  ghost predicate Tells(data: seq<Byte>, at: nat, rs: seq<Record>, spans: seq<Span>)
    decreases |rs|
  {
    if rs == [] then spans == [] && at == |data|
    else
      && at <= |data| && spans != [] && TellsAt(data, at, rs[0], spans[0])
      && Tells(data, spans[0].at + spans[0].len, rs[1..], spans[1..])
  }

  lemma {:induction false} TellsLength(data: seq<Byte>, at: nat, rs: seq<Record>, spans: seq<Span>)
    requires Tells(data, at, rs, spans)
    ensures |spans| == |rs|
    decreases |rs|
  {
    if rs != [] {
      TellsLength(data, spans[0].at + spans[0].len, rs[1..], spans[1..]);
    }
  }

  /** From `at` up to `end` the reader finds the names of the questions, each with its type and class. */
  ghost predicate Asks(data: seq<Byte>, at: nat, qs: seq<Question>, end: nat)
    decreases |qs|
  {
    if qs == [] then at == end
    else
      && at <= |data|
      && var w := ReadWire(data, at, at);
      && w.Good? && Reads(w.items, qs[0].name) && w.next + 4 <= |data|
      && Read16(data, w.next) == qs[0].qtype % 0x1_0000 && Read16(data, w.next + 2) == qs[0].qclass % 0x1_0000
      && Asks(data, w.next + 4, qs[1..], end)
  }

  lemma QuestionIsRead(data: seq<Byte>, at: nat, q: Question, mid: nat)
    requires at <= |data| && QuestionStands(data, at, q, mid)
    ensures Read16(data, mid - 4) == q.qtype % 0x1_0000 && Read16(data, mid - 2) == q.qclass % 0x1_0000
  {
    var t, c := data[mid - 4..mid - 2], data[mid - 2..mid];
    assert data[mid - 4] == t[0] && data[mid - 3] == t[1] && data[mid - 2] == c[0] && data[mid - 1] == c[1];
    WordAt(data, mid - 4, q.qtype);
    WordAt(data, mid - 2, q.qclass);
  }

  lemma {:induction false} QuestionsAsk(data: seq<Byte>, at: nat, qs: seq<Question>, end: nat)
    requires at <= |data| && QuestionsStand(data, at, qs, end)
    ensures Asks(data, at, qs, end)
    decreases |qs|
  {
    if qs != [] {
      var mid: nat :| QuestionStands(data, at, qs[0], mid) && mid <= end && QuestionsStand(data, mid, qs[1..], end);
      QuestionIsRead(data, at, qs[0], mid);
      QuestionsAsk(data, mid, qs[1..], end);
    }
  }

  lemma LengthReads(data: seq<Byte>, at: nat, to: nat, v: nat)
    requires to == at + 2 <= |data| && v < 0x1_0000 && data[at..to] == U16(v)
    ensures Read16(data, at) == v
  {
    var s := data[at..to];
    assert data[at] == s[0] && data[at + 1] == s[1];
    WordAt(data, at, v);
  }

  /** One round of the record loop. */
  lemma RoundOfRecords(data: seq<Byte>, at: nat, body: nat, len: nat)
    requires at < |data| && ReadWire(data, at, at).Good? && ReadWire(data, at, at).next == body
    requires body + 10 + len <= |data| && Read16(data, body + 8) == len
    ensures WalkRecords(data, body + 10 + len).Read? ==>
              WalkRecords(data, at) == Read([Span(body + 10, len)] + WalkRecords(data, body + 10 + len).spans)
  {
  }

  lemma RecordLength(data: seq<Byte>, at: nat, r: Record, body: nat, mid: nat)
    requires RecordStands(data, at, r, body, mid)
    ensures Read16(data, body + 8) == mid - (body + 10)
  {
    var len := mid - (body + 10);
    LengthReads(data, body + 8, body + 10, len);
  }

  lemma RecordWalked(data: seq<Byte>, at: nat, r: Record, body: nat, mid: nat)
    requires RecordStands(data, at, r, body, mid)
    ensures at < |data| && body + 10 <= mid <= |data|
    ensures WalkRecords(data, mid).Read? ==>
              WalkRecords(data, at) == Read([Span(body + 10, mid - (body + 10))] + WalkRecords(data, mid).spans)
  {
    RecordLength(data, at, r, body, mid);
    RoundOfRecords(data, at, body, mid - (body + 10));
  }

  lemma RecordFields(data: seq<Byte>, at: nat, r: Record, body: nat, mid: nat)
    requires RecordStands(data, at, r, body, mid) && r.ttl < 0xC000
    ensures TypeStands(data, body, r) && Read16(data, body + 8) == mid - (body + 10)
    ensures body + 10 <= mid <= |data| && DataTold(data, body + 10, r.data, mid)
  {
    RecordLength(data, at, r, body, mid);
    TypeIsRead(data, body, r);
    DataIsTold(data, body + 10, r.data, mid);
  }

  lemma RecordTold(data: seq<Byte>, at: nat, r: Record, body: nat, mid: nat, span: Span)
    requires at <= |data| && RecordStands(data, at, r, body, mid) && r.ttl < 0xC000
    requires span.at == body + 10 && span.at + span.len == mid
    ensures TellsAt(data, at, r, span)
  {
    RecordFields(data, at, r, body, mid);
  }

  lemma TellsMore(data: seq<Byte>, at: nat, rs: seq<Record>, span: Span, rest: seq<Span>, next: nat)
    requires rs != [] && at <= |data| && TellsAt(data, at, rs[0], span) && next == span.at + span.len
    requires Tells(data, next, rs[1..], rest)
    ensures Tells(data, at, rs, [span] + rest)
  {
    assert ([span] + rest)[1..] == rest;
  }

  lemma {:induction false} RecordsWalked(data: seq<Byte>, at: nat, rs: seq<Record>)
    requires at <= |data| && RecordsStand(data, at, rs, |data|) && forall r :: r in rs ==> GoodRecord(r)
    ensures WalkRecords(data, at).Read? && Tells(data, at, rs, WalkRecords(data, at).spans)
    decreases |rs|
  {
    if rs != [] {
      var body: nat, mid: nat :|
        RecordStands(data, at, rs[0], body, mid) && mid <= |data| && RecordsStand(data, mid, rs[1..], |data|);
      RecordsWalked(data, mid, rs[1..]);
      var span := NextIsTold(data, at, rs[0], body, mid);
      TellsMore(data, at, rs, span, WalkRecords(data, mid).spans, mid);
    }
  }

  lemma NextIsTold(data: seq<Byte>, at: nat, r: Record, body: nat, mid: nat) returns (span: Span)
    requires at <= |data| && RecordStands(data, at, r, body, mid) && GoodRecord(r)
    ensures TellsAt(data, at, r, span) && span.at + span.len == mid <= |data|
    ensures WalkRecords(data, mid).Read? ==> WalkRecords(data, at) == Read([span] + WalkRecords(data, mid).spans)
  {
    RecordWalked(data, at, r, body, mid);
    span := Span(body + 10, mid - (body + 10));
    RecordTold(data, at, r, body, mid, span);
  }

  // ----- The dispatched packet -----

  /** The header before anything is appended: flags and id. */
  function Header(buffer: seq<Byte>, m: Message): seq<Byte>
    requires |buffer| == MAX_PACKET
  {
    Set16(Set16(Put(buffer, 0, seq(HEAD, _ => 0)), 2, m.flags), 0, m.id)
  }

  function SetCount(b: Build, at: nat, n: nat): Build
    requires at + 1 < HEAD && (b.Done? ==> ValidPacket(b.p))
  {
    if b.Fail? then Fail else b.(p := b.p.(buf := Set16(b.p.buf, at, n % 256)))
  }

  /** One section of records with its count. */
  function Section(p: Packet, rs: seq<Record>, at: nat): Build
    requires ValidPacket(p) && at + 1 < HEAD && forall r :: r in rs ==> GoodRecord(r)
  {
    SetCount(AppendRecords(p, rs), at, |rs|)
  }

  /** The flags of mdns.c have a low byte of zero. */
  predicate GoodMessage(m: Message) {
    && m.flags % 256 == 0 && (forall q :: q in m.questions ==> GoodName(q.name))
    && (forall r :: r in m.answers ==> GoodRecord(r)) && (forall r :: r in m.servers ==> GoodRecord(r))
    && (forall r :: r in m.additional ==> GoodRecord(r))
  }

  function AfterQuestions(buffer: seq<Byte>, m: Message): Build
    requires |buffer| == MAX_PACKET && GoodMessage(m)
  {
    SetCount(AppendQuestions(Packet(Header(buffer, m), HEAD), m.questions), 4, |m.questions|)
  }

  /** _mdns_dispatch_tx_packet, as long as everything fits; `buffer` is what the last packet left behind. */
  function Dispatch(buffer: seq<Byte>, m: Message): Build
    requires |buffer| == MAX_PACKET && GoodMessage(m)
  {
    var a := AfterQuestions(buffer, m);
    if a.Fail? then Fail
    else
      var b := Section(a.p, m.answers, 6);
      if b.Fail? then Fail
      else
        var c := Section(b.p, m.servers, 8);
        if c.Fail? then Fail else Section(c.p, m.additional, 10)
  }

  /** Every match that the records find is honest. */
  ghost predicate HonestSections(p: Packet, m: Message)
    requires ValidPacket(p) && GoodMessage(m)
  {
    && HonestRecords(p, m.answers)
    && var b := Section(p, m.answers, 6);
       b.Done? ==>
         && HonestRecords(b.p, m.servers)
         && var c := Section(b.p, m.servers, 8);
            c.Done? ==> HonestRecords(c.p, m.additional)
  }

  /** Every match that the appends find is honest. */
  ghost predicate HonestMessage(buffer: seq<Byte>, m: Message)
    requires |buffer| == MAX_PACKET && GoodMessage(m)
  {
    && HonestQuestions(Packet(Header(buffer, m), HEAD), m.questions)
    && (AfterQuestions(buffer, m).Done? ==> HonestSections(AfterQuestions(buffer, m).p, m))
  }

  lemma SetBytes(buf: seq<Byte>, at: nat, v: nat)
    requires at + 1 < |buf|
    ensures var r := Set16(buf, at, v);
            r[at] == v / 256 % 256 && r[at + 1] == v % 256
            && forall i :: 0 <= i < |buf| && i != at && i != at + 1 ==> r[i] == buf[i]
  {
    var r := Set16(buf, at, v);
    assert r[at] == r[at..at + 2][0] && r[at + 1] == r[at..at + 2][1];
    forall i | 0 <= i < |buf| && i != at && i != at + 1
      ensures r[i] == buf[i]
    {
      if i < at {
        assert r[i] == r[..at][i] == buf[..at][i];
      } else {
        assert r[i] == r[at + 2..][i - at - 2] == buf[at + 2..][i - at - 2];
      }
    }
  }

  lemma HeaderIsShaped(buffer: seq<Byte>, m: Message)
    requires |buffer| == MAX_PACKET && m.flags % 256 == 0
    ensures HeaderShape(Header(buffer, m)) && |Header(buffer, m)| == MAX_PACKET
  {
    var zero := Put(buffer, 0, seq(HEAD, _ => 0));
    assert forall i :: 0 <= i < HEAD ==> zero[i] == zero[0..HEAD][i] == 0;
    var a := Set16(zero, 2, m.flags);
    SetBytes(zero, 2, m.flags);
    SetBytes(a, 0, m.id);
  }

  /** What a section adds, and what it leaves. */
  ghost predicate Adds(p: Packet, r: Packet, at: nat, n: nat)
    requires ValidPacket(p) && at + 1 < HEAD
  {
    && ValidPacket(r) && HEAD <= p.index <= r.index && Read16(r.buf, at) == n
    && forall i :: 0 <= i < p.index && i != at && i != at + 1 ==> r.buf[i] == p.buf[i]
  }

  lemma CountSet(p: Packet, q: Packet, at: nat, n: nat)
    requires ValidPacket(p) && ValidPacket(q) && HEAD <= p.index <= q.index && at + 1 < HEAD && n < 256
    requires q.buf[..p.index] == p.buf[..p.index] && HeaderShape(q.buf)
    ensures Adds(p, q.(buf := Set16(q.buf, at, n)), at, n) && Agree(q.buf, Set16(q.buf, at, n), HEAD, q.index)
    ensures at == 4 || at == 6 || at == 8 ==> HeaderShape(Set16(q.buf, at, n))
  {
    SetBytes(q.buf, at, n);
    PrefixAgrees(p.buf, q.buf, p.index);
  }

  lemma SectionStands(p: Packet, rs: seq<Record>, at: nat)
    requires ValidPacket(p) && HEAD <= p.index && HeaderShape(p.buf) && at + 1 < HEAD
            && forall r :: r in rs ==> GoodRecord(r)
    requires HonestRecords(p, rs) && Section(p, rs, at).Done?
    ensures var r := Section(p, rs, at).p;
            RecordsStand(r.buf, p.index, rs, r.index) && Adds(p, r, at, |rs|)
            && (at == 4 || at == 6 || at == 8 ==> HeaderShape(r.buf))
  {
    var q := AppendRecords(p, rs).p;
    RecordsAppended(p, rs);
    SmallCount(|rs|);
    CountSet(p, q, at, |rs|);
    RecordsKept(q.buf, Set16(q.buf, at, |rs|), p.index, rs, q.index);
  }

  /** The header begins with the id and the flags. */
  lemma HeaderReads(buffer: seq<Byte>, m: Message)
    requires |buffer| == MAX_PACKET
    ensures Read16(Header(buffer, m), 0) == m.id % 0x1_0000 && Read16(Header(buffer, m), 2) == m.flags % 0x1_0000
  {
    var zero := Put(buffer, 0, seq(HEAD, _ => 0));
    SetBytes(zero, 2, m.flags);
    SetBytes(Set16(zero, 2, m.flags), 0, m.id);
    WordReads(m.id);
    WordReads(m.flags);
  }

  lemma SmallCount(n: nat)
    requires 6 * n <= MAX_PACKET
    ensures n < 256 && n % 256 == n
  {
  }

  lemma FieldKept(p: Packet, r: Packet, at: nat, n: nat, field: nat)
    requires ValidPacket(p) && at + 1 < HEAD && Adds(p, r, at, n) && field + 1 < at
    ensures Read16(r.buf, field) == Read16(p.buf, field)
  {
  }

  /** Id and flags stand in the first four bytes. */
  predicate Begins(buf: seq<Byte>, m: Message) {
    |buf| >= 4 && Read16(buf, 0) == m.id % 0x1_0000 && Read16(buf, 2) == m.flags % 0x1_0000
  }

  lemma BeginningKept(p: Packet, q: Packet, at: nat, n: nat, m: Message)
    requires ValidPacket(p) && ValidPacket(q) && HEAD <= p.index <= q.index && q.buf[..p.index] == p.buf[..p.index]
    requires 4 <= at && at + 1 < HEAD && Begins(p.buf, m)
    ensures Begins(Set16(q.buf, at, n), m)
  {
    PrefixAgrees(p.buf, q.buf, p.index);
    SetBytes(q.buf, at, n);
  }

  lemma SectionBegins(p: Packet, rs: seq<Record>, at: nat, m: Message)
    requires ValidPacket(p) && HEAD <= p.index && (forall r :: r in rs ==> GoodRecord(r)) && Begins(p.buf, m)
    requires 4 <= at && at + 1 < HEAD && Section(p, rs, at).Done?
    ensures var r := Section(p, rs, at).p; ValidPacket(r) && HEAD <= r.index && Begins(r.buf, m)
  {
    BeginningKept(p, AppendRecords(p, rs).p, at, |rs| % 256, m);
  }

  /** Every dispatched packet begins with its id and flags. */
  lemma DispatchBegins(buffer: seq<Byte>, m: Message)
    requires |buffer| == MAX_PACKET && GoodMessage(m) && Dispatch(buffer, m).Done?
    ensures Begins(Dispatch(buffer, m).p.buf, m)
  {
    var p := Packet(Header(buffer, m), HEAD);
    HeaderReads(buffer, m);
    BeginningKept(p, AppendQuestions(p, m.questions).p, 4, |m.questions| % 256, m);
    var a := AfterQuestions(buffer, m).p;
    SectionBegins(a, m.answers, 6, m);
    var b := Section(a, m.answers, 6).p;
    SectionBegins(b, m.servers, 8, m);
    SectionBegins(Section(b, m.servers, 8).p, m.additional, 10, m);
  }

  lemma QuestionsSection(buffer: seq<Byte>, m: Message)
    requires |buffer| == MAX_PACKET && GoodMessage(m) && HonestMessage(buffer, m) && AfterQuestions(buffer, m).Done?
    ensures var r := AfterQuestions(buffer, m).p;
            ValidPacket(r) && HEAD <= r.index && QuestionsStand(r.buf, HEAD, m.questions, r.index)
            && Read16(r.buf, 4) == |m.questions| && HeaderShape(r.buf)
  {
    var p := Packet(Header(buffer, m), HEAD);
    var q := AppendQuestions(p, m.questions).p;
    HeaderIsShaped(buffer, m);
    QuestionsAppended(p, m.questions);
    SmallCount(|m.questions|);
    CountSet(p, q, 4, |m.questions|);
    QuestionsKept(q.buf, Set16(q.buf, 4, |m.questions|), HEAD, m.questions, q.index);
  }

  /** What stood before a section stands after it. */
  lemma SectionKeeps(p: Packet, r: Packet, at: nat, n: nat, qs: seq<Question>, mid: nat, rs: seq<Record>)
    requires ValidPacket(p) && HeaderShape(p.buf) && 6 <= at && at + 1 < HEAD && Adds(p, r, at, n)
            && HEAD <= mid <= p.index
    requires (forall q :: q in qs ==> GoodName(q.name)) && (forall x :: x in rs ==> GoodRecord(x))
    requires QuestionsStand(p.buf, HEAD, qs, mid) && RecordsStand(p.buf, mid, rs, p.index)
    ensures QuestionsStand(r.buf, HEAD, qs, mid) && RecordsStand(r.buf, mid, rs, p.index)
  {
    QuestionsKept(p.buf, r.buf, HEAD, qs, mid);
    RecordsKept(p.buf, r.buf, mid, rs, p.index);
  }

  ghost predicate Stands(p: Packet, qs: seq<Question>, mid: nat, rs: seq<Record>) {
    && ValidPacket(p) && HEAD <= mid <= p.index
    && QuestionsStand(p.buf, HEAD, qs, mid) && RecordsStand(p.buf, mid, rs, p.index)
  }

  lemma NextSection(p: Packet, at: nat, qs: seq<Question>, mid: nat, rs: seq<Record>, more: seq<Record>)
    requires Stands(p, qs, mid, rs) && HeaderShape(p.buf) && 6 <= at && at + 1 < HEAD
    requires (forall q :: q in qs ==> GoodName(q.name)) && (forall x :: x in rs ==> GoodRecord(x))
            && (forall x :: x in more ==> GoodRecord(x))
    requires HonestRecords(p, more) && Section(p, more, at).Done?
    ensures var r := Section(p, more, at).p;
            Stands(r, qs, mid, rs + more) && Adds(p, r, at, |more|) && (at == 6 || at == 8 ==> HeaderShape(r.buf))
  {
    var r := Section(p, more, at).p;
    SectionStands(p, more, at);
    SectionKeeps(p, r, at, |more|, qs, mid, rs);
    RecordsJoin(r.buf, mid, rs, p.index, more, r.index);
  }

  /** Everything stands in the dispatched packet, and the header has the counts. */
  lemma DispatchStands(buffer: seq<Byte>, m: Message) returns (mid: nat)
    requires |buffer| == MAX_PACKET && GoodMessage(m) && HonestMessage(buffer, m) && Dispatch(buffer, m).Done?
    ensures var r := Dispatch(buffer, m).p;
            Stands(r, m.questions, mid, m.answers + m.servers + m.additional)
            && Read16(r.buf, 4) == |m.questions| && Read16(r.buf, 6) == |m.answers|
            && Read16(r.buf, 8) == |m.servers| && Read16(r.buf, 10) == |m.additional|
  {
    var a := AfterQuestions(buffer, m).p;
    QuestionsSection(buffer, m);
    mid := a.index;
    assert Stands(a, m.questions, mid, []);
    var b := Section(a, m.answers, 6).p;
    NextSection(a, 6, m.questions, mid, [], m.answers);
    assert [] + m.answers == m.answers;
    var c := Section(b, m.servers, 8).p;
    NextSection(b, 8, m.questions, mid, m.answers, m.servers);
    NextSection(c, 10, m.questions, mid, m.answers + m.servers, m.additional);
    var d := Section(c, m.additional, 10).p;
    FieldKept(a, b, 6, |m.answers|, 4);
    FieldKept(b, c, 8, |m.servers|, 4);
    FieldKept(b, c, 8, |m.servers|, 6);
    FieldKept(c, d, 10, |m.additional|, 4);
    FieldKept(c, d, 10, |m.additional|, 6);
    FieldKept(c, d, 10, |m.additional|, 8);
  }

  /**
    The walk over a whole packet: it visits as many questions as the header says, and then as many
    records as the header's three counts add up to, and what it meets on its way are the questions and the
    records, with all of their fields. The record loop only ends where the packet ends.
   */
  ghost predicate Walks(data: seq<Byte>, qs: seq<Question>, rs: seq<Record>)
    requires HEAD <= |data|
  {
    var questions := WalkQuestions(data, HEAD, Read16(data, 4));
    && questions.Visited? && Asks(data, HEAD, qs, questions.at)
    && var records := WalkRecords(data, questions.at);
       && records.Read? && Tells(data, questions.at, rs, records.spans)
       && |records.spans| == Read16(data, 6) + Read16(data, 8) + Read16(data, 10)
  }

  lemma WalkWhole(data: seq<Byte>, qs: seq<Question>, mid: nat, rs: seq<Record>)
    requires HEAD <= mid <= |data| && QuestionsStand(data, HEAD, qs, mid) && RecordsStand(data, mid, rs, |data|)
    requires forall r :: r in rs ==> GoodRecord(r)
    requires Read16(data, 4) == |qs| && Read16(data, 6) + Read16(data, 8) + Read16(data, 10) == |rs|
    ensures Walks(data, qs, rs)
  {
    QuestionsWalked(data, HEAD, qs, mid);
    QuestionsAsk(data, HEAD, qs, mid);
    RecordsWalked(data, mid, rs);
    TellsLength(data, mid, rs, WalkRecords(data, mid).spans);
  }

  /** What is received is what stood before the index. */
  lemma CutStands(p: Packet, qs: seq<Question>, mid: nat, rs: seq<Record>)
    requires Stands(p, qs, mid, rs)
    ensures var data := p.buf[..p.index];
            && QuestionsStand(data, HEAD, qs, mid) && RecordsStand(data, mid, rs, |data|)
            && forall i :: 0 <= i && i + 1 < HEAD ==> Read16(data, i) == Read16(p.buf, i)
  {
    var data := p.buf[..p.index];
    QuestionsCut(p.buf, data, HEAD, qs, mid);
    RecordsCut(p.buf, data, mid, rs, p.index);
  }

  /**
    The dispatched packet is within the packet size, its header has the id, the flags and the counts, and the
    walk visits everything.
   */
  ghost predicate WalksWhole(buffer: seq<Byte>, m: Message)
    requires |buffer| == MAX_PACKET && GoodMessage(m) && Dispatch(buffer, m).Done?
  {
    var r := Dispatch(buffer, m).p;
    && 12 <= r.index <= 1460 == |r.buf|
    && Walks(r.buf[..r.index], m.questions, m.answers + m.servers + m.additional)
    && Read16(r.buf, 0) == m.id % 0x1_0000 && Read16(r.buf, 2) == m.flags % 0x1_0000
    && Read16(r.buf, 4) == |m.questions| && Read16(r.buf, 6) == |m.answers|
    && Read16(r.buf, 8) == |m.servers| && Read16(r.buf, 10) == |m.additional|
  }

  /**
    Whatever the responder dispatches, when everything fits, is walked completely by the parser: header
    counts, record lengths and end agree, within the packet size.
   */
  lemma PacketWalks(buffer: seq<Byte>, m: Message)
    requires |buffer| == MAX_PACKET && GoodMessage(m) && HonestMessage(buffer, m) && Dispatch(buffer, m).Done?
    ensures WalksWhole(buffer, m)
  {
    var r := Dispatch(buffer, m).p;
    var mid := DispatchStands(buffer, m);
    DispatchBegins(buffer, m);
    var rs := m.answers + m.servers + m.additional;
    CutStands(r, m.questions, mid, rs);
    WalkWhole(r.buf[..r.index], m.questions, mid, rs);
  }
}
