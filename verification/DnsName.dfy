/**
  DNS names in an mDNS packet: the reader and the compressing writer of
  managed_components/espressif__mdns/mdns.c (lines 448-499 and 746-807), which follow section 4.1.4
  of RFC 1035. Here are the functions that say what they compute; DnsCodec has their in-place form.
 */
module DnsName {

  import opened Bytes

  type Label = seq<Byte>

  const MAX_PACKET := 1460
  const REF := 0xC0
  const MAX_LABEL := 63
  const UNDERSCORE := 95
  const DOT := 46

  /** "local", "arpa", "ip6", "in-addr" and "_sub". */
  const LOCAL: Label := [108, 111, 99, 97, 108]
  const ARPA: Label := [97, 114, 112, 97]
  const IP6: Label := [105, 112, 54]
  const IN_ADDR: Label := [105, 110, 45, 97, 100, 100, 114]
  const SUB: Label := [95, 115, 117, 98]

  function Lower(b: Byte): Byte {
    if 65 <= b <= 90 then b + 32 else b
  }

  /** strcasecmp(a, b) == 0, for strings without a terminator inside. */
  predicate Same(a: Label, b: Label) {
    |a| == |b| && forall i :: 0 <= i < |a| ==> Lower(a[i]) == Lower(b[i])
  }

  predicate AllSame(a: seq<Label>, b: seq<Label>) {
    |a| == |b| && forall i :: 0 <= i < |a| ==> Same(a[i], b[i])
  }

  // ----- The wire: labels and compression pointers -----

  /** What the reader meets: a label, or a jump through a pointer. */
  datatype Item = Text(chars: Label) | Jump

  /** `next` is the address the reader returns; `touched` is one past the last byte it has looked at. */
  datatype Wire = Bad | Good(items: seq<Item>, touched: int, next: int)

  /**
    Reads the name at `pos`, in a run of labels that began at `seg`. A pointer must lead to before
    its run, so the reading ends.
   */
  function ReadWire(buf: seq<Byte>, seg: nat, pos: nat): (w: Wire)
    requires seg <= pos <= |buf|
    ensures w.Good? ==> pos <= w.touched <= |buf| && pos < w.next <= |buf| + 1
    decreases seg, |buf| - pos
  {
    if pos == |buf| then Good([], |buf|, |buf| + 1)
    else if buf[pos] == 0 then Good([], pos + 1, pos + 1)
    else if buf[pos] < REF then
      var end := pos + 1 + buf[pos];
      if buf[pos] > MAX_LABEL || end > |buf| then Bad
      else
        var rest := ReadWire(buf, seg, end);
        if rest.Bad? then Bad else rest.(items := [Text(buf[pos + 1..end])] + rest.items)
    else if pos + 1 >= |buf| then Bad
    else
      var address := (buf[pos] - REF) * 256 + buf[pos + 1];
      if address >= seg then Bad
      else
        var rest := ReadWire(buf, address, address);
        if rest.Bad? then Bad
        else Good([Jump] + rest.items, if rest.touched < pos + 2 then pos + 2 else rest.touched, pos + 2)
  }

  // ----- One step of the reader -----

  /** A label is read, and then the rest. */
  lemma ReadText(buf: seq<Byte>, seg: nat, pos: nat)
    requires seg <= pos < |buf| && 0 < buf[pos] < REF
    ensures var end := pos + 1 + buf[pos];
            var w := ReadWire(buf, seg, pos);
            w.Good? <==> buf[pos] <= MAX_LABEL && end <= |buf| && ReadWire(buf, seg, end).Good?
    ensures var end := pos + 1 + buf[pos];
            var w := ReadWire(buf, seg, pos);
            w.Good? ==> var rest := ReadWire(buf, seg, end); w == rest.(items := [Text(buf[pos + 1..end])] + rest.items)
  {
  }

  /** A pointer is followed, and reading goes on behind it. */
  lemma ReadJump(buf: seq<Byte>, seg: nat, pos: nat)
    requires seg <= pos < |buf| && REF <= buf[pos]
    ensures var w := ReadWire(buf, seg, pos);
            w.Good? <==> pos + 1 < |buf| && (buf[pos] - REF) * 256 + buf[pos + 1] < seg
                         && ReadWire(buf, (buf[pos] - REF) * 256 + buf[pos + 1],
                             (buf[pos] - REF) * 256 + buf[pos + 1]).Good?
    ensures var w := ReadWire(buf, seg, pos);
            w.Good? ==>
              var address := (buf[pos] - REF) * 256 + buf[pos + 1];
              var rest := ReadWire(buf, address, address);
              w == Good([Jump] + rest.items, if rest.touched < pos + 2 then pos + 2 else rest.touched, pos + 2)
  {
  }

  lemma SameText(buf: seq<Byte>, buf': seq<Byte>, seg: nat, pos: nat)
    requires seg <= pos < |buf| == |buf'| && 0 < buf[pos] == buf'[pos] < REF && ReadWire(buf, seg, pos).Good?
    requires var end := pos + 1 + buf[pos];
             end <= |buf| && buf[pos + 1..end] == buf'[pos + 1..end]
                 && ReadWire(buf', seg, end) == ReadWire(buf, seg, end)
    ensures ReadWire(buf', seg, pos) == ReadWire(buf, seg, pos)
  {
    ReadText(buf, seg, pos);
    ReadText(buf', seg, pos);
  }

  lemma SameJump(buf: seq<Byte>, buf': seq<Byte>, seg: nat, pos: nat, address: nat)
    requires seg <= pos && pos + 1 < |buf| == |buf'| && REF <= buf[pos] == buf'[pos] && buf[pos + 1] == buf'[pos + 1]
    requires address == (buf[pos] - REF) * 256 + buf[pos + 1] && address < seg && ReadWire(buf, seg, pos).Good?
    requires ReadWire(buf', address, address) == ReadWire(buf, address, address)
    ensures ReadWire(buf', seg, pos) == ReadWire(buf, seg, pos)
  {
    ReadJump(buf, seg, pos);
    ReadJump(buf', seg, pos);
  }

  /** A label is looked at to its end. */
  lemma TextTouched(buf: seq<Byte>, seg: nat, pos: nat)
    requires seg <= pos < |buf| && 0 < buf[pos] < REF && ReadWire(buf, seg, pos).Good?
    ensures pos + 1 + buf[pos] <= ReadWire(buf, seg, pos).touched
  {
    ReadText(buf, seg, pos);
  }

  lemma SliceAgrees(buf: seq<Byte>, buf': seq<Byte>, a: nat, b: nat)
    requires a <= b <= |buf| == |buf'| && forall i :: a <= i < b ==> buf[i] == buf'[i]
    ensures buf[a..b] == buf'[a..b]
  {
  }

  ghost predicate AgreeTo(buf: seq<Byte>, buf': seq<Byte>, end: int) {
    |buf| == |buf'| && forall i :: 0 <= i < end && i < |buf| ==> buf[i] == buf'[i]
  }

  lemma AgreesPastText(buf: seq<Byte>, buf': seq<Byte>, seg: nat, pos: nat)
    requires seg <= pos < |buf| && 0 < buf[pos] < REF && ReadWire(buf, seg, pos).Good?
    requires AgreeTo(buf, buf', ReadWire(buf, seg, pos).touched)
    ensures var end := pos + 1 + buf[pos];
            && end <= |buf| && buf'[pos] == buf[pos] && buf[pos + 1..end] == buf'[pos + 1..end]
            && ReadWire(buf, seg, end).Good? && AgreeTo(buf, buf', ReadWire(buf, seg, end).touched)
  {
    ReadText(buf, seg, pos);
    TextTouched(buf, seg, pos);
    SliceAgrees(buf, buf', pos + 1, pos + 1 + buf[pos]);
  }

  lemma AgreesPastJump(buf: seq<Byte>, buf': seq<Byte>, seg: nat, pos: nat) returns (address: nat)
    requires seg <= pos < |buf| && REF <= buf[pos] && ReadWire(buf, seg, pos).Good?
    requires AgreeTo(buf, buf', ReadWire(buf, seg, pos).touched)
    ensures pos + 1 < |buf| && buf'[pos] == buf[pos] && buf'[pos + 1] == buf[pos + 1]
    ensures address == (buf[pos] - REF) * 256 + buf[pos + 1] && address < seg
    ensures ReadWire(buf, address, address).Good? && AgreeTo(buf, buf', ReadWire(buf, address, address).touched)
  {
    ReadJump(buf, seg, pos);
    address := (buf[pos] - REF) * 256 + buf[pos + 1];
  }

  lemma {:induction false} ReadAgreeing(buf: seq<Byte>, buf': seq<Byte>, seg: nat, pos: nat)
    requires seg <= pos <= |buf| && ReadWire(buf, seg, pos).Good?
    requires AgreeTo(buf, buf', ReadWire(buf, seg, pos).touched)
    ensures ReadWire(buf', seg, pos) == ReadWire(buf, seg, pos)
    decreases seg, |buf| - pos
  {
    if pos < |buf| && buf[pos] != 0 {
      if buf[pos] < REF {
        AgreesPastText(buf, buf', seg, pos);
        ReadAgreeing(buf, buf', seg, pos + 1 + buf[pos]);
        SameText(buf, buf', seg, pos);
      } else {
        var address := AgreesPastJump(buf, buf', seg, pos);
        ReadAgreeing(buf, buf', address, address);
        SameJump(buf, buf', seg, pos, address);
      }
    }
  }

  /** The reading depends on nothing past the bytes it has touched. */
  lemma ReadLocal(buf: seq<Byte>, buf': seq<Byte>, seg: nat, pos: nat)
    requires seg <= pos <= |buf| == |buf'|
    requires ReadWire(buf, seg, pos).Good?
    requires buf[..ReadWire(buf, seg, pos).touched] == buf'[..ReadWire(buf, seg, pos).touched]
    ensures ReadWire(buf', seg, pos) == ReadWire(buf, seg, pos)
  {
    var t := ReadWire(buf, seg, pos).touched;
    forall i | 0 <= i < t
      ensures buf[i] == buf'[i]
    {
      assert buf[..t][i] == buf'[..t][i];
    }
    ReadAgreeing(buf, buf', seg, pos);
  }

  // ----- The name: what the reader makes of the labels -----

  /** mdns_name_t: up to four parts, and whether a "_sub" label or a fifth label was met. */
  datatype Name = Name(parts: seq<Label>, sub: bool, invalid: bool)

  const FRESH := Name([], false, false)

  function FirstNul(s: Label): (n: nat)
    ensures n <= |s|
  {
    if s == [] || s[0] == 0 then 0 else 1 + FirstNul(s[1..])
  }

  /** A label as a C string. */
  function CString(s: Label): Label {
    s[..FirstNul(s)]
  }

  /** strlcat into a name part. */
  function Cat(a: Label, b: Label): Label {
    var c := a + b;
    if |c| <= MAX_LABEL + 1 then c else c[..MAX_LABEL + 1]
  }

  /** A second label that is not appended to the host. */
  predicate SecondPart(s: Label) {
    (s != [] && s[0] == UNDERSCORE) || Same(s, LOCAL) || Same(s, ARPA) || Same(s, IP6) || Same(s, IN_ADDR)
  }

  /** One round of the reader's loop. */
  function Take(name: Name, item: Item): Name {
    var n := if |name.parts| == 4 then name.(invalid := true) else name;
    match item
    case Jump => n
    case Text(chars) =>
      var s := CString(chars);
      if |n.parts| == 1 && !SecondPart(s) then
        n.(parts := [Cat(Cat(n.parts[0], [DOT]), s)])
      else if Same(s, SUB) then n.(sub := true)
      else if !n.invalid then n.(parts := n.parts + [s])
      else n
  }

  function TakeAll(name: Name, items: seq<Item>): Name
    decreases |items|
  {
    if items == [] then name else TakeAll(Take(name, items[0]), items[1..])
  }

  // ----- Appending -----

  datatype Packet = Packet(buf: seq<Byte>, index: nat)

  predicate ValidPacket(p: Packet) {
    |p.buf| == MAX_PACKET && p.index <= MAX_PACKET
  }

  predicate ValidLabels(strings: seq<Label>) {
    forall i :: 0 <= i < |strings| ==> 1 <= |strings[i]| <= MAX_LABEL
  }

  /** The length byte of a label at `at`, and the label behind it. */
  predicate Occurs(buf: seq<Byte>, at: nat, s: Label) {
    at + 1 + |s| <= |buf| && buf[at] == |s| && buf[at + 1..at + 1 + |s|] == s
  }

  /** The place `at` reads as the given name, in the writer's eyes. */
  predicate Candidate(buf: seq<Byte>, at: nat, strings: seq<Label>)
    requires at < |buf| && strings != []
  {
    Occurs(buf, at, strings[0])
    && var w := ReadWire(buf, at, at);
       w.Good? && AllSame(strings, TakeAll(FRESH, w.items).parts)
  }

  /** The first place from `from` on, before `index`, to point to; index when there is none. */
  function Find(buf: seq<Byte>, index: nat, strings: seq<Label>, from: nat): (r: nat)
    requires from <= index <= |buf| && strings != []
    ensures from <= r <= index && (r < index ==> Candidate(buf, r, strings))
    ensures forall i :: from <= i < r ==> !Candidate(buf, i, strings)
    decreases index - from
  {
    if from == index || Candidate(buf, from, strings) then from else Find(buf, index, strings, from + 1)
  }

  /** `ok` says that every step fitted; `written` is the length that the writer returns. */
  datatype Appended = Appended(p: Packet, ok: bool, written: nat)

  function AppendBytes(p: Packet, data: seq<Byte>): (r: Appended)
    requires ValidPacket(p) && p.index + |data| <= MAX_PACKET
    ensures ValidPacket(r.p)
  {
    Appended(Packet(Put(p.buf, p.index, data), p.index + |data|), true, |data|)
  }

  /** The two bytes of a compression pointer. */
  function Pointer(at: nat): (s: seq<Byte>)
    requires at < 0x4000
    ensures |s| == 2 && s[0] >= REF && (s[0] - REF) * 256 + s[1] == at
  {
    [REF + at / 256, at % 256]
  }

  /** Appends a name, pointing to an earlier copy of it or of its tail when there is one. */
  function Append(p: Packet, strings: seq<Label>): (r: Appended)
    requires ValidPacket(p) && ValidLabels(strings)
    ensures ValidPacket(r.p) && p.index <= r.p.index
    decreases |strings|
  {
    if strings == [] then
      if p.index >= MAX_PACKET then Appended(p, false, 0) else AppendBytes(p, [0])
    else
      var at := Find(p.buf, p.index, strings, 0);
      if at < p.index then
        if p.index + 1 >= MAX_PACKET then Appended(p, false, 0)
        else AppendBytes(p, Pointer(at))
      else if p.index + |strings[0]| + 1 >= MAX_PACKET then Appended(p, false, 0)
      else
        var one := AppendBytes(p, [|strings[0]| as Byte] + strings[0]);
        var rest := Append(one.p, strings[1..]);
        rest.(written := one.written + rest.written)
  }

  lemma {:induction false} AppendKeepsPrefix(p: Packet, strings: seq<Label>)
    requires ValidPacket(p) && ValidLabels(strings)
    ensures Append(p, strings).p.buf[..p.index] == p.buf[..p.index]
    decreases |strings|
  {
    if strings != [] && Find(p.buf, p.index, strings, 0) == p.index
       && p.index + |strings[0]| + 1 < MAX_PACKET {
      var one := AppendBytes(p, [|strings[0]| as Byte] + strings[0]);
      AppendKeepsPrefix(one.p, strings[1..]);
      var r := Append(p, strings).p.buf;
      assert r[..p.index] == r[..one.p.index][..p.index];
    }
  }

  /** A reading that stays before an index depends on nothing from there on. */
  lemma ReadBefore(buf: seq<Byte>, buf': seq<Byte>, at: nat, index: nat)
    requires at <= |buf| == |buf'| && index <= |buf| && buf[..index] == buf'[..index]
    requires var w := ReadWire(buf, at, at); w.Good? && w.touched <= index
    ensures ReadWire(buf', at, at) == ReadWire(buf, at, at)
  {
    var t := ReadWire(buf, at, at).touched;
    assert buf[..t] == buf[..index][..t] == buf'[..index][..t] == buf'[..t];
    ReadLocal(buf, buf', at, at);
  }

  /** Every name that was complete before an append reads the same after it. */
  lemma EarlierNamesKept(p: Packet, strings: seq<Label>, at: nat)
    requires ValidPacket(p) && ValidLabels(strings) && at <= |p.buf|
    requires var w := ReadWire(p.buf, at, at); w.Good? && w.touched <= p.index
    ensures ReadWire(Append(p, strings).p.buf, at, at) == ReadWire(p.buf, at, at)
  {
    AppendKeepsPrefix(p, strings);
    ReadBefore(p.buf, Append(p, strings).p.buf, at, p.index);
  }

  // ----- Space -----

  /** The length of a name that is written without pointers. */
  function PlainLength(strings: seq<Label>): nat {
    if strings == [] then 1 else |strings[0]| + 1 + PlainLength(strings[1..])
  }

  /** An append that has room for the plain name succeeds and never takes more than that. */
  lemma {:induction false} AppendFits(p: Packet, strings: seq<Label>)
    requires ValidPacket(p) && ValidLabels(strings) && p.index + PlainLength(strings) <= MAX_PACKET
    ensures var r := Append(p, strings);
            r.ok && r.written == r.p.index - p.index && 1 <= r.written <= PlainLength(strings)
    decreases |strings|
  {
    if strings != [] && Find(p.buf, p.index, strings, 0) == p.index {
      AppendFits(AppendBytes(p, [|strings[0]| as Byte] + strings[0]).p, strings[1..]);
    }
  }

  /**
    Without room for the rest, a name is left without its end, and yet the returned length is not 0,
    which is all that the callers look at.
   */
  lemma PartialNameCounts(p: Packet, strings: seq<Label>)
    requires ValidPacket(p) && ValidLabels(strings) && |strings| > 1
    requires Find(p.buf, p.index, strings, 0) == p.index && p.index + |strings[0]| + 1 < MAX_PACKET
    requires var one := AppendBytes(p, [|strings[0]| as Byte] + strings[0]).p;
             && Find(one.buf, one.index, strings[1..], 0) == one.index
             && one.index + |strings[1]| + 1 >= MAX_PACKET
    ensures var r := Append(p, strings); !r.ok && r.written > 0 && r.p.index > p.index
  {
  }
}
