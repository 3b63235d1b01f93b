/**
  Whole packets of mdns.c: what _mdns_dispatch_tx_packet puts behind the header (lines 508-697,
  819-1230 and 1486-1530), and the walk of mdns_parse_packet over what it receives (lines 3687-3811).
 */
module DnsFrame {
  import opened Bytes
  import opened DnsName
  import opened DnsRound

  const HEAD := 12

  /** The data of a record, as far as its layout goes. */
  datatype Data =
    | Target(host: seq<Label>)
    | Service(priority: nat, weight: nat, port: nat, host: seq<Label>)
    | Strings(entries: seq<seq<Byte>>)
    | Ip4(address: seq<Byte>)
    | Ip6(address: seq<Byte>)

  datatype Question = Question(name: seq<Label>, qtype: nat, qclass: nat)

  datatype Record = Record(name: seq<Label>, rtype: nat, rclass: nat, ttl: nat, data: Data)

  /** A packet to be sent. */
  datatype Message = Message(id: nat, flags: nat, questions: seq<Question>, answers: seq<Record>,
                             servers: seq<Record>, additional: seq<Record>)

  /** `len` is the length that the source adds up as it goes. */
  datatype Build = Fail | Done(p: Packet, len: nat)

  function Read16(buf: seq<Byte>, at: nat): (v: nat)
    requires at + 1 < |buf|
    ensures v < 0x1_0000
  {
    (buf[at] as int) * 256 + buf[at + 1]
  }

  /** Nothing before the index is changed. */
  ghost predicate Extends(p: Packet, b: Build)
    requires p.index <= |p.buf|
  {
    b.Done? ==> ValidPacket(b.p) && p.index <= b.p.index && b.p.buf[..p.index] == p.buf[..p.index]
  }

  // ----- Building -----

  /** A number of bytes, after a test of the source that leaves `spare` bytes unused. */
  function AppendChecked(p: Packet, data: seq<Byte>, spare: nat): (b: Build)
    requires ValidPacket(p)
    ensures Extends(p, b)
    ensures b.Done? ==> b.p.index == p.index + |data| && b.p.buf[p.index..b.p.index] == data && b.len == |data|
  {
    if p.index + |data| + spare > MAX_PACKET then Fail else Done(AppendBytes(p, data).p, |data|)
  }

  /** A name; its length comes back in a byte, and 0 counts as an error. */
  function AppendName(p: Packet, name: seq<Label>): (b: Build)
    requires ValidPacket(p) && ValidLabels(name)
    ensures Extends(p, b)
  {
    AppendKeepsPrefix(p, name);
    var a := Append(p, name);
    if !a.ok || a.written % 256 == 0 then Fail else Done(a.p, a.written % 256)
  }

  predicate GoodName(name: seq<Label>) {
    && ValidLabels(name) && Plain(name) && PlainLength(name) <= 255
    && name != [] && |name[|name| - 1]| >= 3
  }

  predicate GoodData(d: Data) {
    match d
    case Target(host) => GoodName(host)
    case Service(_, _, _, host) => GoodName(host)
    case Strings(entries) => true
    case Ip4(address) => |address| == 4
    case Ip6(address) => |address| == 16
  }

  /** The times to live of mdns.c are 4500, 120, 10 and 0. */
  predicate GoodRecord(r: Record) {
    GoodName(r.name) && GoodData(r.data) && r.ttl < 0xC000 && r.ttl % 256 < REF
  }

  /** The bytes of a question; their length is added up in a byte. */
  function PutQuestion(p: Packet, q: Question): (b: Build)
    requires ValidPacket(p) && GoodName(q.name)
    ensures Extends(p, b)
  {
    var a := AppendName(p, q.name);
    if a.Fail? then Fail
    else
      var t := AppendChecked(a.p, U16(q.qtype), 0);
      if t.Fail? then Fail
      else
        KeepTwice(p, a.p, t.p);
        var c := AppendChecked(t.p, U16(q.qclass), 0);
        if c.Fail? then Fail else KeepTwice(p, t.p, c.p); Done(c.p, (a.len + 4) % 256)
  }

  /** A question that is counted: its length is not 0. */
  function AppendQuestion(p: Packet, q: Question): (b: Build)
    requires ValidPacket(p) && GoodName(q.name)
    ensures Extends(p, b)
  {
    var b := PutQuestion(p, q);
    if b.Fail? || b.len == 0 then Fail else b
  }

  lemma KeepTwice(p: Packet, a: Packet, b: Packet)
    requires ValidPacket(p) && ValidPacket(a) && ValidPacket(b) && p.index <= a.index <= b.index
    requires a.buf[..p.index] == p.buf[..p.index] && b.buf[..a.index] == a.buf[..a.index]
    ensures b.buf[..p.index] == p.buf[..p.index]
  {
    assert b.buf[..p.index] == b.buf[..a.index][..p.index];
    assert a.buf[..p.index] == a.buf[..a.index][..p.index];
  }

  /** The entries of a TXT record, each with its length in a byte before it. */
  function AppendTexts(p: Packet, entries: seq<seq<Byte>>): (b: Build)
    requires ValidPacket(p)
    ensures Extends(p, b)
    ensures b.Done? ==> b.p.index == p.index + b.len
    decreases |entries|
  {
    if entries == [] then Done(p, 0)
    else
      var a := AppendChecked(p, [(|entries[0]| % 256) as Byte] + entries[0], 1);
      if a.Fail? then Fail
      else
        var b := AppendTexts(a.p, entries[1..]);
        if b.Fail? then Fail else KeepTwice(p, a.p, b.p); Done(b.p, a.len + b.len)
  }

  /** An empty TXT record is a single zero byte. */
  function AppendData(p: Packet, d: Data): (b: Build)
    requires ValidPacket(p) && p.index < MAX_PACKET && GoodData(d)
    ensures Extends(p, b)
  {
    match d
    case Target(host) => AppendName(p, host)
    case Service(priority, weight, port, host) =>
      (var a := AppendChecked(p, U16(priority) + U16(weight) + U16(port), 0);
       if a.Fail? then Fail
       else
         var b := AppendName(a.p, host);
         if b.Fail? then Fail else KeepTwice(p, a.p, b.p); Done(b.p, b.len + 6))
    case Strings(entries) => if entries == [] then Done(AppendBytes(p, [0]).p, 1) else AppendTexts(p, entries)
    case Ip4(address) => AppendChecked(p, address, 0)
    case Ip6(address) => AppendChecked(p, address, 0)
  }

  /** _mdns_set_u16 */
  function Set16(buf: seq<Byte>, at: nat, v: nat): (r: seq<Byte>)
    requires at + 1 < |buf|
    ensures |r| == |buf| && r[..at] == buf[..at] && r[at + 2..] == buf[at + 2..] && r[at..at + 2] == U16(v)
  {
    Put(buf, at, U16(v))
  }

  /** Type, class, time to live, and a length of 0. */
  function TypeBytes(r: Record): (s: seq<Byte>)
    ensures |s| == 10
  {
    U16(r.rtype) + U16(r.rclass) + U16(r.ttl / 0x1_0000) + U16(r.ttl) + U16(0)
  }

  /** Name and type, then the data, and then its length. */
  function AppendRecord(p: Packet, r: Record): (b: Build)
    requires ValidPacket(p) && GoodRecord(r)
    ensures Extends(p, b)
  {
    var a := AppendName(p, r.name);
    if a.Fail? then Fail
    else
      var t := AppendChecked(a.p, TypeBytes(r), 1);
      if t.Fail? then Fail
      else
        KeepTwice(p, a.p, t.p);
        var d := AppendData(t.p, r.data);
        if d.Fail? then Fail
        else
          KeepTwice(p, t.p, d.p);
          var buf := Set16(d.p.buf, t.p.index - 2, d.len);
          assert buf[..p.index] == buf[..t.p.index - 2][..p.index] == d.p.buf[..t.p.index - 2][..p.index]
              == d.p.buf[..p.index];
          Done(d.p.(buf := buf), a.len + 10 + d.len)
  }

  function AppendQuestions(p: Packet, qs: seq<Question>): (b: Build)
    requires ValidPacket(p) && forall q :: q in qs ==> GoodName(q.name)
    ensures Extends(p, b)
    decreases |qs|
  {
    if qs == [] then Done(p, 0)
    else
      var a := AppendQuestion(p, qs[0]);
      if a.Fail? then Fail
      else
        var b := AppendQuestions(a.p, qs[1..]);
        if b.Fail? then Fail else KeepTwice(p, a.p, b.p); Done(b.p, a.len + b.len)
  }

  function AppendRecords(p: Packet, rs: seq<Record>): (b: Build)
    requires ValidPacket(p) && forall r :: r in rs ==> GoodRecord(r)
    ensures Extends(p, b)
    decreases |rs|
  {
    if rs == [] then Done(p, 0)
    else
      var a := AppendRecord(p, rs[0]);
      if a.Fail? then Fail
      else
        var b := AppendRecords(a.p, rs[1..]);
        if b.Fail? then Fail else KeepTwice(p, a.p, b.p); Done(b.p, a.len + b.len)
  }

  // ----- One step of a name that is read -----

  lemma TextReads(chars: Label, rest: seq<Item>, name: seq<Label>)
    ensures Reads([Text(chars)] + rest, name) <==> name != [] && Same(name[0], chars) && Reads(rest, name[1..])
  {
    assert ([Text(chars)] + rest)[1..] == rest;
  }

  lemma JumpReads(rest: seq<Item>, name: seq<Label>)
    ensures Reads([Jump] + rest, name) <==> name != [] && Reads(rest, name)
  {
    assert ([Jump] + rest)[1..] == rest;
  }

  /** Reading a name from a label on: the label is its first, and the rest is read behind it. */
  lemma TextRest(buf: seq<Byte>, seg: nat, pos: nat, name: seq<Label>)
    requires seg <= pos < |buf| && 0 < buf[pos] < REF && ReadWire(buf, seg, pos).Good?
    requires Reads(ReadWire(buf, seg, pos).items, name)
    ensures var end := pos + 1 + buf[pos];
            end <= |buf| && name != [] && Same(name[0], buf[pos + 1..end])
            && ReadWire(buf, seg, end).Good? && Reads(ReadWire(buf, seg, end).items, name[1..])
            && ReadWire(buf, seg, end).touched == ReadWire(buf, seg, pos).touched
  {
    var end := pos + 1 + buf[pos];
    ReadText(buf, seg, pos);
    TextReads(buf[pos + 1..end], ReadWire(buf, seg, end).items, name);
  }

  /** Reading a name from a pointer on: all of it is read where that leads. */
  lemma JumpRest(buf: seq<Byte>, seg: nat, pos: nat, name: seq<Label>)
    requires seg <= pos < |buf| && REF <= buf[pos] && ReadWire(buf, seg, pos).Good?
    requires Reads(ReadWire(buf, seg, pos).items, name)
    ensures pos + 1 < |buf| && name != []
    ensures var address := (buf[pos] - REF) * 256 + buf[pos + 1];
            address < seg && ReadWire(buf, address, address).Good? && Reads(ReadWire(buf, address, address).items, name)
            && ReadWire(buf, address, address).touched <= ReadWire(buf, seg, pos).touched
                && pos + 2 <= ReadWire(buf, seg, pos).touched
  {
    ReadJump(buf, seg, pos);
    var address := (buf[pos] - REF) * 256 + buf[pos + 1];
    JumpReads(ReadWire(buf, address, address).items, name);
  }

  // ----- The header is no name -----

  /** The bytes of the header that are zero while a packet is built. */
  predicate HeaderShape(buf: seq<Byte>) {
    |buf| > HEAD && buf[3] == buf[4] == buf[6] == buf[8] == buf[10] == buf[11] == 0
  }

  /** Names as they end: with a label of at least three bytes. */
  predicate LongEnd(name: seq<Label>) {
    Plain(name) && (name != [] ==> |name[|name| - 1]| >= 3)
  }

  lemma ZeroDiffers(s: Label, t: Label, i: nat)
    requires i < |t| && t[i] == 0 && forall j :: 0 <= j < |s| ==> 0 < s[j]
    ensures !Same(s, t)
  {
    assert |s| == |t| ==> Lower(s[i]) != Lower(t[i]);
  }

  /** A zero byte that a label starting in the header would have to take in. */
  function ZeroAfter(pos: nat): nat {
    if pos <= 2 then 3 else if pos <= 5 then 6 else if pos <= 7 then 8 else if pos <= 9 then 10 else 11
  }

  lemma ZeroLabel(chars: Label, i: int, rest: seq<Item>, name: seq<Label>)
    requires LongEnd(name)
    ensures 0 <= i < |chars| && chars[i] == 0 ==> !Reads([Text(chars)] + rest, name)
  {
    TextReads(chars, rest, name);
    if name != [] && 0 <= i < |chars| && chars[i] == 0 {
      ZeroDiffers(name[0], chars, i);
    }
  }

  lemma ShortLabel(chars: Label, rest: seq<Item>, name: seq<Label>)
    requires |chars| < 3 && LongEnd(name) && name != [] && (rest == [] || |name| == 1)
    ensures !Reads([Text(chars)] + rest, name)
  {
    TextReads(chars, rest, name);
  }

  lemma Inside(buf: seq<Byte>, pos: nat, end: nat, z: nat)
    ensures pos < z < end <= |buf| ==> buf[pos + 1..end][z - pos - 1] == buf[z]
  {
  }

  /** No name that ends in a long label can be read from the header. */
  lemma {:induction false} HeaderHasNoName(buf: seq<Byte>, seg: nat, pos: nat, name: seq<Label>)
    requires HeaderShape(buf) && seg <= pos < HEAD && LongEnd(name) && name != []
    ensures ReadWire(buf, seg, pos).Good? ==> !Reads(ReadWire(buf, seg, pos).items, name)
    decreases seg, HEAD - pos
  {
    if buf[pos] != 0 {
      if buf[pos] < REF {
        if pos == 0 && buf[0] == 1 && |name| > 1 {
          PlainTail(name);
          HeaderHasNoName(buf, seg, 2, name[1..]);
          NoNameByText(buf, seg, 0, name);
        } else {
          HeaderLabel(buf, seg, pos, name);
        }
      } else {
        var address := (buf[pos] - REF) * 256 + buf[pos + 1];
        if address < seg {
          HeaderHasNoName(buf, address, address, name);
        }
        NoNameByJump(buf, seg, pos, name);
      }
    }
  }

  lemma NoNameByText(buf: seq<Byte>, seg: nat, pos: nat, name: seq<Label>)
    requires seg <= pos < |buf| && 0 < buf[pos] < REF && name != []
    requires var end := pos + 1 + buf[pos];
             end <= |buf| && (ReadWire(buf, seg, end).Good? ==> !Reads(ReadWire(buf, seg, end).items, name[1..]))
    ensures ReadWire(buf, seg, pos).Good? ==> !Reads(ReadWire(buf, seg, pos).items, name)
  {
    ReadText(buf, seg, pos);
    var end := pos + 1 + buf[pos];
    if ReadWire(buf, seg, end).Good? {
      TextReads(buf[pos + 1..end], ReadWire(buf, seg, end).items, name);
    }
  }

  lemma NoNameByJump(buf: seq<Byte>, seg: nat, pos: nat, name: seq<Label>)
    requires seg <= pos && pos + 1 < |buf| && REF <= buf[pos] && name != []
    requires var address := (buf[pos] - REF) * 256 + buf[pos + 1];
             address < seg && ReadWire(buf, address, address).Good? ==>
                 !Reads(ReadWire(buf, address, address).items, name)
    ensures ReadWire(buf, seg, pos).Good? ==> !Reads(ReadWire(buf, seg, pos).items, name)
  {
    ReadJump(buf, seg, pos);
    var address := (buf[pos] - REF) * 256 + buf[pos + 1];
    if address < seg && ReadWire(buf, address, address).Good? {
      JumpReads(ReadWire(buf, address, address).items, name);
    }
  }

  /** A label that takes in a zero byte is none of a name's. */
  lemma ZeroLabelAt(buf: seq<Byte>, seg: nat, pos: nat, z: nat, name: seq<Label>)
    requires seg <= pos < |buf| && 0 < buf[pos] < REF && LongEnd(name)
    requires pos < z < pos + 1 + buf[pos] && z < |buf| && buf[z] == 0
    ensures ReadWire(buf, seg, pos).Good? ==> !Reads(ReadWire(buf, seg, pos).items, name)
  {
    ReadText(buf, seg, pos);
    var end := pos + 1 + buf[pos];
    if end <= |buf| && ReadWire(buf, seg, end).Good? {
      Inside(buf, pos, end, z);
      ZeroLabel(buf[pos + 1..end], z - pos - 1, ReadWire(buf, seg, end).items, name);
    }
  }

  /** A label of one or two bytes does not end a name. */
  lemma ShortLabelAt(buf: seq<Byte>, seg: nat, pos: nat, name: seq<Label>)
    requires seg <= pos < |buf| && 0 < buf[pos] < 3 && LongEnd(name) && name != [] && pos + 1 + buf[pos] < |buf|
    requires buf[pos + 1 + buf[pos]] == 0 || |name| == 1
    ensures ReadWire(buf, seg, pos).Good? ==> !Reads(ReadWire(buf, seg, pos).items, name)
  {
    ReadText(buf, seg, pos);
    var end := pos + 1 + buf[pos];
    if ReadWire(buf, seg, end).Good? {
      ShortLabel(buf[pos + 1..end], ReadWire(buf, seg, end).items, name);
    }
  }

  /** A label in the header has a zero byte, or is too short for the end of a name. */
  lemma HeaderLabel(buf: seq<Byte>, seg: nat, pos: nat, name: seq<Label>)
    requires HeaderShape(buf) && seg <= pos < HEAD && LongEnd(name) && name != []
    requires 0 < buf[pos] < REF && !(pos == 0 && buf[0] == 1 && |name| > 1)
    ensures ReadWire(buf, seg, pos).Good? ==> !Reads(ReadWire(buf, seg, pos).items, name)
  {
    ZeroIsZero(buf, pos);
    if ZeroAfter(pos) < pos + 1 + buf[pos] {
      ZeroLabelAt(buf, seg, pos, ZeroAfter(pos), name);
    } else {
      ZeroIsFar(buf, pos);
      ShortLabelAt(buf, seg, pos, name);
    }
  }

  lemma ZeroIsZero(buf: seq<Byte>, pos: nat)
    requires HeaderShape(buf) && pos < HEAD && buf[pos] != 0
    ensures pos < ZeroAfter(pos) < HEAD && buf[ZeroAfter(pos)] == 0
  {
  }

  lemma ZeroIsFar(buf: seq<Byte>, pos: nat)
    requires HeaderShape(buf) && pos < HEAD && 0 < buf[pos] < REF && pos + 1 + buf[pos] <= ZeroAfter(pos)
    ensures pos + 1 + buf[pos] == 3 || (pos == 0 && buf[0] == 1)
  {
  }

  lemma PlainTail(name: seq<Label>)
    requires name != [] && LongEnd(name)
    ensures LongEnd(name[1..])
  {
  }

  /** Equal bytes from the header's end on. */
  ghost predicate Agree(buf: seq<Byte>, buf': seq<Byte>, lo: nat, hi: nat)
    requires hi <= |buf| && hi <= |buf'|
  {
    forall i :: lo <= i < hi ==> buf[i] == buf'[i]
  }

  lemma AgreeLabel(buf: seq<Byte>, buf': seq<Byte>, lo: nat, hi: nat, a: nat, b: nat)
    requires lo <= a <= b <= hi <= |buf| && hi <= |buf'| && Agree(buf, buf', lo, hi)
    ensures buf[a..b] == buf'[a..b]
  {
  }

  /** A name that lies behind the header reads the same when the header changes. */
  lemma {:induction false} HeaderFree(buf: seq<Byte>, buf': seq<Byte>, seg: nat, pos: nat, name: seq<Label>)
    requires HeaderShape(buf) && HEAD <= seg <= pos <= |buf| == |buf'| && LongEnd(name)
    requires ReadWire(buf, seg, pos).Good? && Reads(ReadWire(buf, seg, pos).items, name)
    requires Agree(buf, buf', HEAD, ReadWire(buf, seg, pos).touched)
    ensures ReadWire(buf', seg, pos) == ReadWire(buf, seg, pos)
    decreases seg, |buf| - pos
  {
    if pos < |buf| && buf[pos] != 0 {
      if buf[pos] < REF {
        var end := pos + 1 + buf[pos];
        TextRest(buf, seg, pos, name);
        TextTouched(buf, seg, pos);
        PlainTail(name);
        AgreeLabel(buf, buf', HEAD, ReadWire(buf, seg, pos).touched, pos + 1, end);
        HeaderFree(buf, buf', seg, end, name[1..]);
        SameText(buf, buf', seg, pos);
      } else {
        var address := (buf[pos] - REF) * 256 + buf[pos + 1];
        JumpRest(buf, seg, pos, name);
        JumpsBehindHeader(buf, address, name);
        HeaderFree(buf, buf', address, address, name);
        SameJump(buf, buf', seg, pos, address);
      }
    }
  }

  lemma JumpsBehindHeader(buf: seq<Byte>, address: nat, name: seq<Label>)
    requires HeaderShape(buf) && LongEnd(name) && name != [] && address <= |buf|
    requires ReadWire(buf, address, address).Good? && Reads(ReadWire(buf, address, address).items, name)
    ensures HEAD <= address
  {
    if address < HEAD {
      HeaderHasNoName(buf, address, address, name);
    }
  }

  lemma CutText(buf: seq<Byte>, cut: seq<Byte>, seg: nat, pos: nat)
    requires seg <= pos < |cut| <= |buf| && Agree(buf, cut, 0, |cut|) && 0 < buf[pos] < REF
    requires ReadWire(buf, seg, pos).Good? && pos + 1 + buf[pos] <= |cut|
    requires ReadWire(cut, seg, pos + 1 + buf[pos]) == ReadWire(buf, seg, pos + 1 + buf[pos])
    ensures ReadWire(cut, seg, pos) == ReadWire(buf, seg, pos)
  {
    AgreeLabel(buf, cut, 0, |cut|, pos + 1, pos + 1 + buf[pos]);
    ReadText(buf, seg, pos);
    ReadText(cut, seg, pos);
  }

  lemma CutJump(buf: seq<Byte>, cut: seq<Byte>, seg: nat, pos: nat, address: nat)
    requires seg <= pos && pos + 1 < |cut| <= |buf| && Agree(buf, cut, 0, |cut|) && REF <= buf[pos]
    requires ReadWire(buf, seg, pos).Good? && address == (buf[pos] - REF) * 256 + buf[pos + 1] && address < seg
    requires ReadWire(cut, address, address) == ReadWire(buf, address, address)
    ensures ReadWire(cut, seg, pos) == ReadWire(buf, seg, pos)
  {
    ReadJump(buf, seg, pos);
    ReadJump(cut, seg, pos);
  }

  /** What the reader looks at is all that it needs. */
  lemma {:induction false} ReadCut(buf: seq<Byte>, cut: seq<Byte>, seg: nat, pos: nat)
    requires seg <= pos <= |cut| <= |buf| && Agree(buf, cut, 0, |cut|)
    requires ReadWire(buf, seg, pos).Good? && ReadWire(buf, seg, pos).touched <= |cut|
    ensures ReadWire(cut, seg, pos) == ReadWire(buf, seg, pos)
    decreases seg, |buf| - pos
  {
    if pos < |cut| && buf[pos] != 0 {
      if buf[pos] < REF {
        TextTouched(buf, seg, pos);
        ReadText(buf, seg, pos);
        ReadCut(buf, cut, seg, pos + 1 + buf[pos]);
        CutText(buf, cut, seg, pos);
      } else {
        var address := (buf[pos] - REF) * 256 + buf[pos + 1];
        ReadJump(buf, seg, pos);
        ReadCut(buf, cut, address, address);
        CutJump(buf, cut, seg, pos, address);
      }
    }
  }

  // ----- Names stand -----

  /** From `at` the reader reads this name, up to case, and stops at `next`. */
  ghost predicate NameStands(buf: seq<Byte>, at: nat, name: seq<Label>, next: nat)
    requires at <= |buf|
  {
    var w := ReadWire(buf, at, at);
    w.Good? && Reads(w.items, name) && w.next == next && w.touched <= next
  }

  lemma NameLong(name: seq<Label>)
    requires GoodName(name)
    ensures LongEnd(name)
  {
  }

  lemma NameKept(buf: seq<Byte>, buf': seq<Byte>, at: nat, name: seq<Label>, next: nat)
    requires HeaderShape(buf) && HEAD <= at <= |buf| == |buf'| && GoodName(name) && NameStands(buf, at, name, next)
    requires next <= |buf| && Agree(buf, buf', HEAD, next)
    ensures NameStands(buf', at, name, next)
  {
    NameLong(name);
    HeaderFree(buf, buf', at, at, name);
  }

  lemma NameCut(buf: seq<Byte>, cut: seq<Byte>, at: nat, name: seq<Label>, next: nat)
    requires at <= |cut| <= |buf| && Agree(buf, cut, 0, |cut|) && NameStands(buf, at, name, next) && next <= |cut|
    ensures NameStands(cut, at, name, next)
  {
    ReadCut(buf, cut, at, at);
  }

  /** A name that fitted takes as many bytes as the writer says, and no more than without pointers. */
  lemma {:induction false} Written(p: Packet, name: seq<Label>)
    requires ValidPacket(p) && ValidLabels(name) && Append(p, name).ok
    ensures var r := Append(p, name);
            r.written == r.p.index - p.index && 1 <= r.written <= PlainLength(name) && (name != [] ==> 2 <= r.written)
    decreases |name|
  {
    if name != [] && Find(p.buf, p.index, name, 0) == p.index {
      Written(AppendBytes(p, [|name[0]| as Byte] + name[0]).p, name[1..]);
    }
  }

  lemma NameWritten(p: Packet, name: seq<Label>)
    requires ValidPacket(p) && GoodName(name) && AppendName(p, name).Done? && Honest(p, name)
    ensures NameStands(AppendName(p, name).p.buf, p.index, name, AppendName(p, name).p.index)
  {
    AppendReadsBack(p, name, p.index);
  }

  lemma NameLength(p: Packet, name: seq<Label>)
    requires ValidPacket(p) && ValidLabels(name) && PlainLength(name) <= 255 && name != [] && AppendName(p, name).Done?
    ensures var b := AppendName(p, name); b.p.index == p.index + b.len && 2 <= b.len <= 255
  {
    Written(p, name);
    SmallByte(Append(p, name).written);
  }

  lemma SmallByte(n: nat)
    requires n <= 255
    ensures n % 256 == n
  {
  }

  lemma NameAppended(p: Packet, name: seq<Label>)
    requires ValidPacket(p) && GoodName(name) && AppendName(p, name).Done? && Honest(p, name)
    ensures var b := AppendName(p, name);
            NameStands(b.p.buf, p.index, name, b.p.index) && b.p.index == p.index + b.len && 2 <= b.len <= 255
  {
    NameWritten(p, name);
    NameLength(p, name);
  }

  // ----- Questions stand -----

  ghost predicate QuestionStands(buf: seq<Byte>, at: nat, q: Question, end: nat) {
    && at + 4 <= end <= |buf| && NameStands(buf, at, q.name, end - 4)
    && buf[end - 4..end - 2] == U16(q.qtype) && buf[end - 2..end] == U16(q.qclass)
  }

  lemma SliceKept(buf: seq<Byte>, buf': seq<Byte>, lo: nat, hi: nat, a: nat, b: nat)
    requires lo <= a <= b <= hi <= |buf| && hi <= |buf'| && Agree(buf, buf', lo, hi)
    ensures buf'[a..b] == buf[a..b]
  {
  }

  lemma PrefixAgrees(buf: seq<Byte>, buf': seq<Byte>, n: nat)
    requires n <= |buf| && n <= |buf'| && buf[..n] == buf'[..n]
    ensures Agree(buf, buf', 0, n) && Agree(buf, buf', HEAD, n)
  {
    forall i | 0 <= i < n
      ensures buf[i] == buf'[i]
    {
      assert buf[..n][i] == buf'[..n][i];
    }
  }

  lemma ShapeKept(buf: seq<Byte>, buf': seq<Byte>, n: nat)
    requires HeaderShape(buf) && HEAD < |buf'| && HEAD <= n <= |buf| && n <= |buf'| && buf[..n] == buf'[..n]
    ensures HeaderShape(buf')
  {
    PrefixAgrees(buf, buf', n);
  }

  lemma QuestionKept(buf: seq<Byte>, buf': seq<Byte>, at: nat, q: Question, end: nat)
    requires HeaderShape(buf) && HEAD <= at && |buf| == |buf'| && GoodName(q.name) && QuestionStands(buf, at, q, end)
    requires Agree(buf, buf', HEAD, end)
    ensures QuestionStands(buf', at, q, end)
  {
    NameKept(buf, buf', at, q.name, end - 4);
    SliceKept(buf, buf', HEAD, end, end - 4, end - 2);
    SliceKept(buf, buf', HEAD, end, end - 2, end);
  }

  lemma QuestionAppended(p: Packet, q: Question)
    requires ValidPacket(p) && HEAD <= p.index && HeaderShape(p.buf)
    requires GoodName(q.name) && Honest(p, q.name) && AppendQuestion(p, q).Done?
    ensures var r := AppendQuestion(p, q).p;
            QuestionStands(r.buf, p.index, q, r.index) && HeaderShape(r.buf) && p.index + 6 <= r.index
  {
    var a := AppendName(p, q.name).p;
    var t := AppendChecked(a, U16(q.qtype), 0).p;
    var r := AppendQuestion(p, q).p;
    NameAppended(p, q.name);
    ShapeKept(p.buf, a.buf, p.index);
    KeepTwice(a, t, r);
    PrefixAgrees(a.buf, r.buf, a.index);
    NameKept(a.buf, r.buf, p.index, q.name, a.index);
    PrefixAgrees(t.buf, r.buf, t.index);
    SliceKept(t.buf, r.buf, 0, t.index, a.index, t.index);
    ShapeKept(p.buf, r.buf, p.index);
  }

  /** The questions stand one after the other. */
  ghost predicate QuestionsStand(buf: seq<Byte>, at: nat, qs: seq<Question>, end: nat)
    decreases |qs|
  {
    if qs == [] then at == end <= |buf|
    else exists mid: nat :: QuestionStands(buf, at, qs[0], mid) && mid <= end && QuestionsStand(buf, mid, qs[1..], end)
  }

  ghost predicate HonestQuestions(p: Packet, qs: seq<Question>)
    requires ValidPacket(p) && forall q :: q in qs ==> GoodName(q.name)
    decreases |qs|
  {
    qs == [] || (GoodName(qs[0].name) && Honest(p, qs[0].name) &&
                 (AppendQuestion(p, qs[0]).Done? ==> HonestQuestions(AppendQuestion(p, qs[0]).p, qs[1..])))
  }

  lemma {:induction false} QuestionsAppended(p: Packet, qs: seq<Question>)
    requires ValidPacket(p) && HEAD <= p.index && HeaderShape(p.buf) && forall q :: q in qs ==> GoodName(q.name)
    requires HonestQuestions(p, qs) && AppendQuestions(p, qs).Done?
    ensures var r := AppendQuestions(p, qs).p;
            QuestionsStand(r.buf, p.index, qs, r.index) && HeaderShape(r.buf) && p.index + 6 * |qs| <= r.index
    decreases |qs|
  {
    if qs != [] {
      var a := AppendQuestion(p, qs[0]).p;
      var r := AppendQuestions(p, qs).p;
      QuestionAppended(p, qs[0]);
      QuestionsAppended(a, qs[1..]);
      PrefixAgrees(a.buf, r.buf, a.index);
      QuestionKept(a.buf, r.buf, p.index, qs[0], a.index);
    }
  }

  lemma {:induction false} QuestionsKept(buf: seq<Byte>, buf': seq<Byte>, at: nat, qs: seq<Question>, end: nat)
    requires HeaderShape(buf) && HEAD <= at && |buf| == |buf'| && (forall q :: q in qs ==> GoodName(q.name))
    requires QuestionsStand(buf, at, qs, end) && end <= |buf| && Agree(buf, buf', HEAD, end)
    ensures QuestionsStand(buf', at, qs, end)
    decreases |qs|
  {
    if qs != [] {
      var mid: nat :| QuestionStands(buf, at, qs[0], mid) && mid <= end && QuestionsStand(buf, mid, qs[1..], end);
      QuestionKept(buf, buf', at, qs[0], mid);
      QuestionsKept(buf, buf', mid, qs[1..], end);
    }
  }

  // ----- Records stand -----

  /** The bytes of the entries of a TXT record. */
  function TextBytes(entries: seq<seq<Byte>>): seq<Byte> {
    if entries == [] then [] else [(|entries[0]| % 256) as Byte] + entries[0] + TextBytes(entries[1..])
  }

  /** The data lies between `at` and `end`. */
  ghost predicate DataStands(buf: seq<Byte>, at: nat, d: Data, end: nat)
    requires at <= |buf|
  {
    at <= end <= |buf| &&
    match d
    case Target(host) => NameStands(buf, at, host, end)
    case Service(priority, weight, port, host) =>
      at + 6 <= end && buf[at..at + 6] == U16(priority) + U16(weight) + U16(port) && NameStands(buf, at + 6, host, end)
    case Strings(entries) => buf[at..end] == if entries == [] then [0] else TextBytes(entries)
    case Ip4(address) => buf[at..end] == address
    case Ip6(address) => buf[at..end] == address
  }

  /** A record whose name ends at `body`; the length before the data is that of the data. */
  ghost predicate RecordStands(buf: seq<Byte>, at: nat, r: Record, body: nat, end: nat) {
    && at <= body && body + 10 <= end <= |buf|
    && NameStands(buf, at, r.name, body)
    && buf[body..body + 8] == TypeBytes(r)[..8]
    && buf[body + 8..body + 10] == U16(end - (body + 10)) && end - (body + 10) < 0x1_0000
    && DataStands(buf, body + 10, r.data, end)
  }

  lemma {:induction false} TextsAppended(p: Packet, entries: seq<seq<Byte>>)
    requires ValidPacket(p) && AppendTexts(p, entries).Done?
    ensures var b := AppendTexts(p, entries); b.p.buf[p.index..b.p.index] == TextBytes(entries)
    decreases |entries|
  {
    if entries != [] {
      var first := [(|entries[0]| % 256) as Byte] + entries[0];
      var a, r := AppendChecked(p, first, 1).p, AppendTexts(p, entries).p;
      TextsAppended(a, entries[1..]);
      PrefixAgrees(a.buf, r.buf, a.index);
      SliceKept(a.buf, r.buf, 0, a.index, p.index, a.index);
      assert r.buf[p.index..r.index] == r.buf[p.index..a.index] + r.buf[a.index..r.index];
    }
  }

  ghost predicate HonestData(p: Packet, d: Data)
    requires ValidPacket(p) && GoodData(d)
  {
    match d
    case Target(host) => Honest(p, host)
    case Service(priority, weight, port, host) =>
      var a := AppendChecked(p, U16(priority) + U16(weight) + U16(port), 0);
      a.Done? ==> Honest(a.p, host)
    case _ => true
  }

  lemma ServiceIs(p: Packet, d: Data, a: Packet)
    requires ValidPacket(p) && p.index < MAX_PACKET && GoodData(d) && d.Service? && AppendData(p, d).Done?
    requires a == AppendChecked(p, U16(d.priority) + U16(d.weight) + U16(d.port), 0).p
    ensures AppendName(a, d.host).Done? && AppendData(p, d).p == AppendName(a, d.host).p
    ensures AppendData(p, d).len == AppendName(a, d.host).len + 6 && a.index == p.index + 6
    ensures a.buf[p.index..a.index] == U16(d.priority) + U16(d.weight) + U16(d.port)
            && a.buf[..p.index] == p.buf[..p.index]
    ensures HonestData(p, d) ==> Honest(a, d.host)
  {
  }

  lemma ServiceAppended(p: Packet, d: Data)
    requires ValidPacket(p) && p.index < MAX_PACKET && GoodData(d) && d.Service?
    requires HEAD <= p.index && HeaderShape(p.buf) && HonestData(p, d) && AppendData(p, d).Done?
    ensures var b := AppendData(p, d); DataStands(b.p.buf, p.index, d, b.p.index) && b.p.index == p.index + b.len
  {
    var a := AppendChecked(p, U16(d.priority) + U16(d.weight) + U16(d.port), 0).p;
    var r := AppendData(p, d).p;
    ServiceIs(p, d, a);
    NameAppended(a, d.host);
    AppendKeepsPrefix(a, d.host);
    PrefixAgrees(a.buf, r.buf, a.index);
    SliceKept(a.buf, r.buf, 0, a.index, p.index, a.index);
  }

  lemma DataAppended(p: Packet, d: Data)
    requires ValidPacket(p) && p.index < MAX_PACKET && GoodData(d)
    requires HEAD <= p.index && HeaderShape(p.buf) && HonestData(p, d) && AppendData(p, d).Done?
    ensures var b := AppendData(p, d); DataStands(b.p.buf, p.index, d, b.p.index) && b.p.index == p.index + b.len
  {
    match d
    case Target(host) => NameAppended(p, host);
    case Service(_, _, _, _) => ServiceAppended(p, d);
    case Strings(entries) => TextsAppended(p, entries);
    case Ip4(_) =>
    case Ip6(_) =>
  }

  lemma DataKept(buf: seq<Byte>, buf': seq<Byte>, at: nat, d: Data, end: nat)
    requires HeaderShape(buf) && HEAD <= at <= |buf| == |buf'| && GoodData(d) && DataStands(buf, at, d, end)
    requires Agree(buf, buf', HEAD, end)
    ensures DataStands(buf', at, d, end)
  {
    SliceKept(buf, buf', HEAD, end, at, end);
    match d
    case Target(host) => NameKept(buf, buf', at, host, end);
    case Service(_, _, _, host) =>
      SliceKept(buf, buf', HEAD, end, at, at + 6);
      NameKept(buf, buf', at + 6, host, end);
    case _ =>
  }

  lemma HeadKept(buf: seq<Byte>, buf': seq<Byte>, body: nat, end: nat)
    requires HEAD <= body && body + 10 <= end <= |buf| == |buf'| && Agree(buf, buf', HEAD, end)
    ensures buf'[body..body + 8] == buf[body..body + 8] && buf'[body + 8..body + 10] == buf[body + 8..body + 10]
  {
    SliceKept(buf, buf', HEAD, end, body, body + 8);
    SliceKept(buf, buf', HEAD, end, body + 8, body + 10);
  }

  lemma RecordKept(buf: seq<Byte>, buf': seq<Byte>, at: nat, r: Record, body: nat, end: nat)
    requires HeaderShape(buf) && HEAD <= at && |buf| == |buf'| && GoodRecord(r) && RecordStands(buf, at, r, body, end)
    requires Agree(buf, buf', HEAD, end)
    ensures RecordStands(buf', at, r, body, end)
  {
    NameKept(buf, buf', at, r.name, body);
    HeadKept(buf, buf', body, end);
    DataKept(buf, buf', body + 10, r.data, end);
  }

  // ----- The length before the data is no name -----

  /** The time to live and the length of 0 of a record, from the second byte of the former on. */
  predicate GapShape(buf: seq<Byte>, z: nat) {
    z + 5 <= |buf| && buf[z] == buf[z + 3] == buf[z + 4] == 0 && buf[z + 1] < REF && buf[z + 2] < REF
  }

  lemma GapHasNoName(buf: seq<Byte>, z: nat, seg: nat, pos: nat, name: seq<Label>)
    requires GapShape(buf, z) && seg <= pos && z <= pos < z + 5 && LongEnd(name) && name != []
    ensures ReadWire(buf, seg, pos).Good? ==> !Reads(ReadWire(buf, seg, pos).items, name)
  {
    if buf[pos] != 0 {
      if z + 3 < pos + 1 + buf[pos] {
        ZeroLabelAt(buf, seg, pos, z + 3, name);
      } else {
        ShortLabelAt(buf, seg, pos, name);
      }
    }
  }

  /** Equal but for the two bytes of the length. */
  ghost predicate AgreeButLength(buf: seq<Byte>, buf': seq<Byte>, z: nat) {
    |buf| == |buf'| && forall i :: 0 <= i < |buf| && i != z + 3 && i != z + 4 ==> buf[i] == buf'[i]
  }

  lemma LabelBesideGap(buf: seq<Byte>, buf': seq<Byte>, z: nat, seg: nat, pos: nat, name: seq<Label>)
    requires GapShape(buf, z) && AgreeButLength(buf, buf', z) && LongEnd(name)
    requires seg <= pos < |buf| && (pos < z || z + 5 <= pos) && 0 < buf[pos] < REF
    requires ReadWire(buf, seg, pos).Good? && Reads(ReadWire(buf, seg, pos).items, name)
    ensures var end := pos + 1 + buf[pos];
            end <= |buf| && (end <= z || z + 5 <= end) && buf'[pos + 1..end] == buf[pos + 1..end]
  {
    TextRest(buf, seg, pos, name);
    if pos < z < pos + 1 + buf[pos] {
      ZeroLabelAt(buf, seg, pos, z, name);
    }
  }

  lemma JumpBesideGap(buf: seq<Byte>, z: nat, address: nat, name: seq<Label>)
    requires GapShape(buf, z) && LongEnd(name) && name != [] && address <= |buf|
    requires ReadWire(buf, address, address).Good? && Reads(ReadWire(buf, address, address).items, name)
    ensures address < z || z + 5 <= address
  {
    if z <= address < z + 5 {
      GapHasNoName(buf, z, address, address, name);
    }
  }

  lemma GapText(buf: seq<Byte>, buf': seq<Byte>, z: nat, seg: nat, pos: nat, end: nat)
    requires GapShape(buf, z) && AgreeButLength(buf, buf', z) && seg <= pos < |buf| && (pos < z || z + 5 <= pos)
    requires 0 < buf[pos] < REF && end == pos + 1 + buf[pos] && end <= |buf| && buf'[pos + 1..end] == buf[pos + 1..end]
    requires ReadWire(buf, seg, pos).Good? && ReadWire(buf', seg, end) == ReadWire(buf, seg, end)
    ensures ReadWire(buf', seg, pos) == ReadWire(buf, seg, pos)
  {
    assert buf'[pos] == buf[pos];
    SameText(buf, buf', seg, pos);
  }

  lemma GapJump(buf: seq<Byte>, buf': seq<Byte>, z: nat, seg: nat, pos: nat, address: nat)
    requires GapShape(buf, z) && AgreeButLength(buf, buf', z) && seg <= pos && pos + 1 < |buf|
            && (pos < z || z + 5 <= pos)
    requires REF <= buf[pos] && address == (buf[pos] - REF) * 256 + buf[pos + 1] && address < seg
    requires ReadWire(buf, seg, pos).Good? && ReadWire(buf', address, address) == ReadWire(buf, address, address)
    ensures ReadWire(buf', seg, pos) == ReadWire(buf, seg, pos)
  {
    PointerBesideGap(buf, z, pos);
    assert buf'[pos] == buf[pos] && buf'[pos + 1] == buf[pos + 1];
    SameJump(buf, buf', seg, pos, address);
  }

  lemma GapTextRest(buf: seq<Byte>, buf': seq<Byte>, z: nat, seg: nat, pos: nat, name: seq<Label>)
    returns (end: nat, rest: seq<Label>)
    requires GapShape(buf, z) && AgreeButLength(buf, buf', z) && LongEnd(name)
    requires seg <= pos < |buf| && (pos <= z || z + 5 <= pos) && 0 < buf[pos] < REF
    requires ReadWire(buf, seg, pos).Good? && Reads(ReadWire(buf, seg, pos).items, name)
    ensures end == pos + 1 + buf[pos] && end <= |buf| && (end <= z || z + 5 <= end)
            && buf'[pos + 1..end] == buf[pos + 1..end]
    ensures LongEnd(rest) && ReadWire(buf, seg, end).Good? && Reads(ReadWire(buf, seg, end).items, rest)
  {
    end := pos + 1 + buf[pos];
    TextRest(buf, seg, pos, name);
    LabelBesideGap(buf, buf', z, seg, pos, name);
    PlainTail(name);
    rest := name[1..];
  }

  lemma GapJumpRest(buf: seq<Byte>, z: nat, seg: nat, pos: nat, name: seq<Label>) returns (address: nat)
    requires GapShape(buf, z) && LongEnd(name) && seg <= pos < |buf| && REF <= buf[pos]
    requires ReadWire(buf, seg, pos).Good? && Reads(ReadWire(buf, seg, pos).items, name)
    ensures pos + 1 < |buf| && address == (buf[pos] - REF) * 256 + buf[pos + 1] && address < seg
    ensures (address < z || z + 5 <= address) && ReadWire(buf, address, address).Good?
            && Reads(ReadWire(buf, address, address).items, name)
  {
    JumpRest(buf, seg, pos, name);
    address := (buf[pos] - REF) * 256 + buf[pos + 1];
    JumpBesideGap(buf, z, address, name);
  }

  /** Filling in the length changes no name. */
  lemma {:induction false} GapFree(buf: seq<Byte>, buf': seq<Byte>, z: nat, seg: nat, pos: nat, name: seq<Label>)
    requires GapShape(buf, z) && AgreeButLength(buf, buf', z) && LongEnd(name)
    requires seg <= pos <= |buf| && (pos <= z || z + 5 <= pos)
    requires ReadWire(buf, seg, pos).Good? && Reads(ReadWire(buf, seg, pos).items, name)
    ensures ReadWire(buf', seg, pos) == ReadWire(buf, seg, pos)
    decreases seg, |buf| - pos
  {
    if pos < |buf| && buf[pos] != 0 {
      if buf[pos] < REF {
        var end, rest := GapTextRest(buf, buf', z, seg, pos, name);
        GapFree(buf, buf', z, seg, end, rest);
        GapText(buf, buf', z, seg, pos, end);
      } else {
        var address := GapJumpRest(buf, z, seg, pos, name);
        GapFree(buf, buf', z, address, address, name);
        GapJump(buf, buf', z, seg, pos, address);
      }
    }
  }

  /** A pointer does not take in the length. */
  lemma PointerBesideGap(buf: seq<Byte>, z: nat, pos: nat)
    requires GapShape(buf, z) && pos < |buf| && buf[pos] >= REF && (pos < z || z + 5 <= pos)
    ensures pos != z + 3 && pos != z + 4 && pos + 1 != z + 3 && pos + 1 != z + 4
  {
  }

  lemma NameBesideGap(buf: seq<Byte>, buf': seq<Byte>, z: nat, at: nat, name: seq<Label>, next: nat)
    requires GapShape(buf, z) && AgreeButLength(buf, buf', z) && GoodName(name)
    requires z + 5 <= at <= |buf| && NameStands(buf, at, name, next)
    ensures NameStands(buf', at, name, next)
  {
    NameLong(name);
    GapFree(buf, buf', z, at, at, name);
  }

  lemma SliceBesideGap(buf: seq<Byte>, buf': seq<Byte>, z: nat, a: nat, b: nat)
    requires AgreeButLength(buf, buf', z) && z + 5 <= a <= b <= |buf|
    ensures buf'[a..b] == buf[a..b]
  {
  }

  lemma DataBesideGap(buf: seq<Byte>, buf': seq<Byte>, z: nat, at: nat, d: Data, end: nat)
    requires GapShape(buf, z) && AgreeButLength(buf, buf', z) && GoodData(d)
    requires z + 5 <= at <= |buf| && DataStands(buf, at, d, end)
    ensures DataStands(buf', at, d, end)
  {
    SliceBesideGap(buf, buf', z, at, end);
    match d
    case Target(host) => NameBesideGap(buf, buf', z, at, host, end);
    case Service(_, _, _, host) =>
      SliceBesideGap(buf, buf', z, at, at + 6);
      NameBesideGap(buf, buf', z, at + 6, host, end);
    case _ =>
  }

  ghost predicate HonestRecord(p: Packet, r: Record)
    requires ValidPacket(p) && GoodRecord(r)
  {
    && Honest(p, r.name)
    && var a := AppendName(p, r.name);
       a.Done? ==>
         var t := AppendChecked(a.p, TypeBytes(r), 1);
         t.Done? ==> HonestData(t.p, r.data)
  }

  /** Bytes of the record's head, once more. */
  lemma TypeShape(buf: seq<Byte>, body: nat, r: Record)
    requires body + 10 <= |buf| && buf[body..body + 10] == TypeBytes(r) && r.ttl < 0xC000 && r.ttl % 256 < REF
    ensures GapShape(buf, body + 5) && buf[body..body + 8] == TypeBytes(r)[..8]
  {
    var s := buf[body..body + 10];
    assert s[5] == buf[body + 5] && s[6] == buf[body + 6] && s[7] == buf[body + 7] && s[8] == buf[body + 8]
        && s[9] == buf[body + 9];
    assert s[..8] == buf[body..body + 8];
    assert r.ttl / 256 < 0xC0;
  }

  lemma SetLength(buf: seq<Byte>, at: nat, v: nat, z: nat)
    requires at + 1 < |buf| && at == z + 3
    ensures AgreeButLength(buf, Set16(buf, at, v), z) && Set16(buf, at, v)[at..at + 2] == U16(v)
    ensures forall a, b :: 0 <= a <= b <= at ==> Set16(buf, at, v)[a..b] == buf[a..b]
  {
    var buf' := Set16(buf, at, v);
    forall i | 0 <= i < |buf| && i != at && i != at + 1
      ensures buf[i] == buf'[i]
    {
      if i < at {
        assert buf[..at][i] == buf'[..at][i];
      } else {
        assert buf[at + 2..][i - at - 2] == buf'[at + 2..][i - at - 2];
      }
    }
  }

  /** The bytes before the length, after the data has been appended and the length set. */
  lemma RecordHead(p: Packet, r: Record)
    requires ValidPacket(p) && HEAD <= p.index && HeaderShape(p.buf)
    requires GoodRecord(r) && HonestRecord(p, r) && AppendRecord(p, r).Done?
    ensures var a := AppendName(p, r.name).p;
            var t := AppendChecked(a, TypeBytes(r), 1).p;
            var d := AppendData(t, r.data).p;
            NameStands(a.buf, p.index, r.name, a.index) && HeaderShape(a.buf) && HeaderShape(t.buf)
                && HeaderShape(d.buf)
            && t.index == a.index + 10 && p.index + 2 <= a.index
            && d.buf[..a.index] == a.buf[..a.index] && d.buf[a.index..a.index + 10] == TypeBytes(r)
  {
    var a := AppendName(p, r.name).p;
    var t := AppendChecked(a, TypeBytes(r), 1).p;
    var d := AppendData(t, r.data).p;
    NameAppended(p, r.name);
    ShapeKept(p.buf, a.buf, p.index);
    ShapeKept(a.buf, t.buf, a.index);
    ShapeKept(t.buf, d.buf, t.index);
    KeepTwice(a, t, d);
    PrefixAgrees(t.buf, d.buf, t.index);
    SliceKept(t.buf, d.buf, 0, t.index, a.index, t.index);
  }

  /** Setting the length leaves the type and the data as they are. */
  lemma LengthSet(buf: seq<Byte>, body: nat, r: Record, end: nat, n: nat)
    requires GoodRecord(r) && body + 10 <= end <= |buf| && buf[body..body + 10] == TypeBytes(r)
    requires DataStands(buf, body + 10, r.data, end)
    ensures var buf' := Set16(buf, body + 8, n);
            && DataStands(buf', body + 10, r.data, end) && buf'[..body] == buf[..body]
            && buf'[body..body + 8] == TypeBytes(r)[..8] && buf'[body + 8..body + 10] == U16(n)
  {
    TypeShape(buf, body, r);
    SetLength(buf, body + 8, n, body + 5);
    var buf' := Set16(buf, body + 8, n);
    DataBesideGap(buf, buf', body + 5, body + 10, r.data, end);
    assert buf'[..body] == buf'[0..body] == buf[0..body] == buf[..body];
  }

  /** Name, type, length and data together are the record. */
  lemma RecordComplete(a: Packet, buf: seq<Byte>, at: nat, r: Record, end: nat, n: nat)
    requires ValidPacket(a) && |buf| == MAX_PACKET && GoodRecord(r) && HEAD <= at && at + 2 <= a.index
    requires a.index + 10 + n == end <= |buf| && n < 0x1_0000
    requires NameStands(a.buf, at, r.name, a.index) && HeaderShape(a.buf) && buf[..a.index] == a.buf[..a.index]
    requires buf[a.index..a.index + 8] == TypeBytes(r)[..8] && buf[a.index + 8..a.index + 10] == U16(n)
    requires DataStands(buf, a.index + 10, r.data, end)
    ensures HeaderShape(buf) && RecordStands(buf, at, r, a.index, end)
  {
    PrefixAgrees(a.buf, buf, a.index);
    NameKept(a.buf, buf, at, r.name, a.index);
    ShapeKept(a.buf, buf, a.index);
  }

  lemma RecordIsSet(p: Packet, r: Record, a: Packet, t: Packet, d: Build)
    requires ValidPacket(p) && GoodRecord(r) && AppendRecord(p, r).Done?
    requires a == AppendName(p, r.name).p && t == AppendChecked(a, TypeBytes(r), 1).p && d == AppendData(t, r.data)
    ensures d.Done? && AppendRecord(p, r).p == Packet(Set16(d.p.buf, a.index + 8, d.len), d.p.index)
  {
  }

  lemma RecordEnds(a: Packet, d: Packet, at: nat, r: Record, n: nat)
    requires ValidPacket(a) && ValidPacket(d) && GoodRecord(r) && HEAD <= at && at + 2 <= a.index
    requires a.index + 10 + n == d.index && NameStands(a.buf, at, r.name, a.index) && HeaderShape(a.buf)
    requires d.buf[..a.index] == a.buf[..a.index] && d.buf[a.index..a.index + 10] == TypeBytes(r)
    requires DataStands(d.buf, a.index + 10, r.data, d.index)
    ensures var buf := Set16(d.buf, a.index + 8, n);
            HeaderShape(buf) && RecordStands(buf, at, r, a.index, d.index)
  {
    LengthSet(d.buf, a.index, r, d.index, n);
    RecordComplete(a, Set16(d.buf, a.index + 8, n), at, r, d.index, n);
  }

  lemma RecordAppended(p: Packet, r: Record)
    requires ValidPacket(p) && HEAD <= p.index && HeaderShape(p.buf)
    requires GoodRecord(r) && HonestRecord(p, r) && AppendRecord(p, r).Done?
    ensures var b := AppendRecord(p, r).p;
            HeaderShape(b.buf) && p.index + 12 <= b.index
            && RecordStands(b.buf, p.index, r, AppendName(p, r.name).p.index, b.index)
  {
    var a := AppendName(p, r.name).p;
    var t := AppendChecked(a, TypeBytes(r), 1).p;
    var d := AppendData(t, r.data);
    RecordHead(p, r);
    DataAppended(t, r.data);
    RecordEnds(a, d.p, p.index, r, d.len);
    RecordIsSet(p, r, a, t, d);
  }
}
