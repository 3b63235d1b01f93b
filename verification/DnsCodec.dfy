/**
  The reader and the compressing writer of DnsName in the form that mdns.c has them: a byte array
  with an index that advances, and a name record that is filled label by label.
 */
module DnsCodec {
  import opened Bytes
  import opened DnsName

  /** mdns_name_t */
  class NameRecord {
    var parts: seq<Label>
    var sub: bool
    var invalid: bool

    ghost function View(): Name
      reads this
    {
      Name(parts, sub, invalid)
    }

    constructor ()
      ensures View() == FRESH
    {
      parts, sub, invalid := [], false, false;
    }

    /** Files one label under the next part, the host or the subtype flag. */
    method File(chars: Label)
      requires |parts| == 4 ==> invalid
      modifies this
      ensures View() == Take(old(View()), Text(chars))
    {
      var s := CString(chars);
      if |parts| == 1 && !SecondPart(s) {
        parts := [Cat(Cat(parts[0], [DOT]), s)];
      } else if Same(s, SUB) {
        sub := true;
      } else if !invalid {
        parts := parts + [s];
      }
    }
  }

  lemma {:induction false} TakeAllAppend(name: Name, a: seq<Item>, item: Item)
    ensures TakeAll(name, a + [item]) == Take(TakeAll(name, a), item)
    decreases |a|
  {
    if a == [] {
      assert [item][1..] == [];
    } else {
      assert (a + [item])[1..] == a[1..] + [item];
      TakeAllAppend(Take(name, a[0]), a[1..], item);
    }
  }

  lemma {:induction false} TakeAllConcat(name: Name, a: seq<Item>, b: seq<Item>)
    ensures TakeAll(name, a + b) == TakeAll(TakeAll(name, a), b)
    decreases |a|
  {
    if a == [] {
      assert a + b == b;
    } else {
      assert (a + b)[1..] == a[1..] + b;
      TakeAllConcat(Take(name, a[0]), a[1..], b);
    }
  }

  /** What is left to read at `pos` completes what has been read since `start`. */
  ghost predicate Halfway(buf: seq<Byte>, start: nat, pos: nat, done: seq<Item>)
    requires start <= pos <= |buf|
  {
    var all, rest := ReadWire(buf, start, start), ReadWire(buf, start, pos);
    && (all.Good? <==> rest.Good?)
    && (all.Good? ==> all.items == done + rest.items && all.next == rest.next)
  }

  lemma PastLabel(buf: seq<Byte>, start: nat, pos: nat, done: seq<Item>)
    requires start <= pos < |buf| && Halfway(buf, start, pos, done)
    requires 0 < buf[pos] <= MAX_LABEL && pos + 1 + buf[pos] <= |buf|
    ensures Halfway(buf, start, pos + 1 + buf[pos], done + [Text(buf[pos + 1..pos + 1 + buf[pos]])])
  {
    var chars := buf[pos + 1..pos + 1 + buf[pos]];
    var rest := ReadWire(buf, start, pos + 1 + buf[pos]);
    if rest.Good? {
      assert done + ([Text(chars)] + rest.items) == done + [Text(chars)] + rest.items;
    }
  }

  lemma AtJump(buf: seq<Byte>, start: nat, pos: nat, done: seq<Item>, before: Name)
    requires start <= pos && pos + 1 < |buf| && Halfway(buf, start, pos, done)
    requires REF <= buf[pos] && (buf[pos] - REF) * 256 + buf[pos + 1] < start
    ensures var address := (buf[pos] - REF) * 256 + buf[pos + 1];
            var all, rest := ReadWire(buf, start, start), ReadWire(buf, address, address);
            && (all.Good? <==> rest.Good?)
            && (all.Good? ==> all.next == pos + 2 &&
                              TakeAll(before, all.items) == TakeAll(Take(TakeAll(before, done), Jump), rest.items))
  {
    var address := (buf[pos] - REF) * 256 + buf[pos + 1];
    var all, rest := ReadWire(buf, start, start), ReadWire(buf, address, address);
    if rest.Good? {
      assert all.items == done + [Jump] + rest.items;
      TakeAllAppend(before, done, Jump);
      TakeAllConcat(before, done + [Jump], rest.items);
    }
  }

  lemma AtEnd(buf: seq<Byte>, start: nat, pos: nat, done: seq<Item>)
    requires start <= pos <= |buf| && Halfway(buf, start, pos, done)
    requires pos == |buf| || buf[pos] == 0
    ensures ReadWire(buf, start, start).Good? && ReadWire(buf, start, start).next == pos + 1
    ensures ReadWire(buf, start, start).items == done
  {
    assert done + [] == done;
  }

  lemma Unreadable(buf: seq<Byte>, start: nat, pos: nat, done: seq<Item>)
    requires start <= pos < |buf| && Halfway(buf, start, pos, done) && ReadWire(buf, start, pos).Bad?
    ensures ReadWire(buf, start, start).Bad?
  {
  }

  /** What a reading returns and makes of the name record: -1 stands for NULL. */
  ghost predicate ReadsInto(w: Wire, before: Name, after: Name, next: int) {
    if w.Bad? then next == -1 else next == w.next && after == TakeAll(before, w.items)
  }

  lemma Followed(buf: seq<Byte>, start: nat, pos: nat, address: nat, done: seq<Item>, before: Name, after: Name,
                 next: int)
    requires start <= pos && pos + 1 < |buf| && Halfway(buf, start, pos, done)
    requires REF <= buf[pos] && address == (buf[pos] - REF) * 256 + buf[pos + 1] && address < start
    requires ReadsInto(ReadWire(buf, address, address), Take(TakeAll(before, done), Jump), after, next)
    ensures ReadsInto(ReadWire(buf, start, start), before, after, if next == -1 then -1 else pos + 2)
  {
    AtJump(buf, start, pos, done, before);
  }

  /** _mdns_read_fqdn */
  method ReadFqdn(packet: array<Byte>, start: nat, name: NameRecord) returns (next: int)
    requires start <= packet.Length
    modifies name
    ensures ReadsInto(ReadWire(packet[..], start, start), old(name.View()), name.View(), next)
    decreases start, 1
  {
    var pos := start;
    ghost var buf, before, done: seq<Item> := packet[..], name.View(), [];
    while pos < packet.Length && packet[pos] != 0
      invariant start <= pos <= packet.Length && Halfway(buf, start, pos, done)
      invariant name.View() == TakeAll(before, done)
      decreases packet.Length - pos
    {
      if |name.parts| == 4 {
        name.invalid := true;
      }
      var len := packet[pos];
      if len >= REF {
        next := FollowPointer(packet, start, pos, name, before, done);
        return;
      }
      if len > MAX_LABEL || pos + 1 + len > packet.Length {
        Unreadable(buf, start, pos, done);
        return -1;
      }
      var chars := packet[pos + 1..pos + 1 + len];
      assert chars == buf[pos + 1..pos + 1 + len];
      PastLabel(buf, start, pos, done);
      TakeAllAppend(before, done, Text(chars));
      done := done + [Text(chars)];
      name.File(chars);
      pos := pos + 1 + len;
    }
    AtEnd(buf, start, pos, done);
    next := pos + 1;
  }

  /** The end of a reading, at a pointer. */
  method FollowPointer(packet: array<Byte>, start: nat, pos: nat, name: NameRecord,
                       ghost before: Name, ghost done: seq<Item>)
    returns (next: int)
    requires start <= pos < packet.Length && packet[pos] >= REF && Halfway(packet[..], start, pos, done)
    requires name.View() == Take(TakeAll(before, done), Jump)
    modifies name
    ensures ReadsInto(ReadWire(packet[..], start, start), before, name.View(), next)
    decreases start, 0
  {
    ghost var buf := packet[..];
    if pos + 1 >= packet.Length {
      Unreadable(buf, start, pos, done);
      return -1;
    }
    var address := (packet[pos] - REF) * 256 + packet[pos + 1];
    if address >= start {
      Unreadable(buf, start, pos, done);
      return -1;
    }
    next := ReadFqdn(packet, address, name);
    Followed(buf, start, pos, address, done, before, name.View(), next);
    if next != -1 {
      next := pos + 2;
    }
  }

  // ----- The writer -----

  /** A length byte and then the label, byte by byte. */
  lemma LabelPut(before: seq<Byte>, mid: seq<Byte>, after: seq<Byte>, at: nat, s: Label)
    requires at + 1 + |s| <= |before| == |after| && |s| <= MAX_LABEL && mid == Put(before, at, [|s| as Byte])
    requires forall i :: 0 <= i < |s| ==> after[at + 1 + i] == s[i]
    requires forall i :: 0 <= i < |after| && !(at + 1 <= i < at + 1 + |s|) ==> after[i] == mid[i]
    ensures after == Put(before, at, [|s| as Byte] + s)
  {
    var data := [|s| as Byte] + s;
    PutBytes(before, at, [|s| as Byte]);
    PutBytes(before, at, data);
    forall i | 0 <= i < |after|
      ensures after[i] == Put(before, at, data)[i]
    {
      if at + 1 <= i < at + 1 + |s| {
        assert data[i - at] == s[i - at - 1] == after[at + 1 + (i - at - 1)];
      }
    }
  }

  lemma NotCandidate(buf: seq<Byte>, at: nat, strings: seq<Label>, len: nat)
    requires at < |buf| && strings != [] && len == |strings[0]|
    requires !(buf[at] == len && at + 1 + len <= |buf| && buf[at + 1..at + 1 + len] == strings[0])
    ensures !Candidate(buf, at, strings)
  {
  }

  lemma CandidateReads(buf: seq<Byte>, at: nat, strings: seq<Label>, len: nat)
    requires at < |buf| && strings != [] && len == |strings[0]|
    requires buf[at] == len && at + 1 + len <= |buf| && buf[at + 1..at + 1 + len] == strings[0]
    ensures var w := ReadWire(buf, at, at);
            Candidate(buf, at, strings) <==> w.Good? && AllSame(strings, TakeAll(FRESH, w.items).parts)
  {
  }

  lemma FindGoesOn(buf: seq<Byte>, index: nat, strings: seq<Label>, at: nat)
    requires at < index <= |buf| && strings != []
    ensures Candidate(buf, at, strings) ==> Find(buf, index, strings, at) == at
    ensures !Candidate(buf, at, strings) ==> Find(buf, index, strings, at) == Find(buf, index, strings, at + 1)
  {
  }

  /** What appending a name leaves and returns. */
  ghost predicate AppendedAs(p: Packet, strings: seq<Label>, view: Packet, written: nat)
    requires ValidPacket(p) && ValidLabels(strings)
  {
    view == Append(p, strings).p && written == Append(p, strings).written
  }

  /** Bytes that are written only when there is room for them. */
  ghost predicate Wrote(p: Packet, data: seq<Byte>, room: bool, view: Packet, written: nat)
    requires ValidPacket(p)
  {
    if !room then view == p && written == 0
    else p.index + |data| <= MAX_PACKET && view == AppendBytes(p, data).p && written == |data|
  }

  lemma AppendsNothing(p: Packet, view: Packet, written: nat)
    requires ValidPacket(p) && Wrote(p, [0], p.index < MAX_PACKET, view, written)
    ensures AppendedAs(p, [], view, written)
  {
  }

  lemma AppendsPointer(p: Packet, strings: seq<Label>, at: nat, hi: Byte, lo: Byte, view: Packet, written: nat)
    requires ValidPacket(p) && ValidLabels(strings) && strings != [] && at == Find(p.buf, p.index, strings, 0) < p.index
    requires hi == REF + at / 256 && lo == at % 256 && Wrote(p, [hi, lo], p.index + 1 < MAX_PACKET, view, written)
    ensures AppendedAs(p, strings, view, written)
  {
  }

  lemma LabelDoesNotFit(p: Packet, strings: seq<Label>)
    requires ValidPacket(p) && ValidLabels(strings) && strings != [] && Find(p.buf, p.index, strings, 0) == p.index
    requires p.index + |strings[0]| + 1 >= MAX_PACKET
    ensures AppendedAs(p, strings, p, 0)
  {
  }

  lemma AppendsLabel(p: Packet, strings: seq<Label>, one: Packet, view: Packet, rest: nat)
    requires ValidPacket(p) && ValidLabels(strings) && strings != [] && Find(p.buf, p.index, strings, 0) == p.index
    requires p.index + |strings[0]| + 1 < MAX_PACKET && one == AppendBytes(p, [|strings[0]| as Byte] + strings[0]).p
    requires AppendedAs(one, strings[1..], view, rest)
    ensures AppendedAs(p, strings, view, |strings[0]| + 1 + rest)
  {
  }

  /** The packet being built, and the index that every append advances. */
  class Writer {
    const packet: array<Byte>
    var index: nat

    ghost predicate Valid()
      reads this
    {
      packet.Length == MAX_PACKET && index <= MAX_PACKET
    }

    ghost function View(): Packet
      reads this, packet
    {
      Packet(packet[..], index)
    }

    constructor ()
      ensures Valid() && fresh(packet) && index == 0
    {
      packet := new Byte[MAX_PACKET];
      index := 0;
    }

    method AppendU8(value: Byte) returns (written: nat)
      requires Valid()
      modifies this`index, packet
      ensures Valid()
      ensures Wrote(old(View()), [value], old(index) < MAX_PACKET, View(), written)
    {
      if index >= MAX_PACKET {
        return 0;
      }
      ghost var before := packet[..];
      packet[index] := value;
      index := index + 1;
      written := 1;
      assert packet[..] == Put(before, index - 1, [value]);
    }

    method AppendU16(hi: Byte, lo: Byte) returns (written: nat)
      requires Valid()
      modifies this`index, packet
      ensures Valid()
      ensures Wrote(old(View()), [hi, lo], old(index) + 1 < MAX_PACKET, View(), written)
    {
      if index + 1 >= MAX_PACKET {
        return 0;
      }
      ghost var before := packet[..];
      var a := AppendU8(hi);
      var b := AppendU8(lo);
      written := 2;
      assert packet[..] == Put(before, index - 2, [hi, lo]);
    }

    method AppendString(s: Label) returns (written: nat)
      requires Valid() && |s| <= MAX_LABEL
      modifies this`index, packet
      ensures Valid()
      ensures Wrote(old(View()), [|s| as Byte] + s, old(index) + |s| + 1 < MAX_PACKET, View(), written)
    {
      if index + |s| + 1 >= MAX_PACKET {
        return 0;
      }
      ghost var before, start := packet[..], index;
      written := AppendU8(|s|);
      ghost var mid := packet[..];
      forall i | 0 <= i < |s| {
        packet[index + i] := s[i];
      }
      index := index + |s|;
      written := |s| + 1;
      LabelPut(before, mid, packet[..], start, s);
    }

    /** memchr and memcmp, and the reading back of what they find. */
    method FindName(strings: seq<Label>) returns (at: nat)
      requires Valid() && ValidLabels(strings) && strings != []
      ensures at == Find(packet[..], index, strings, 0)
    {
      at := 0;
      var len := |strings[0]|;
      ghost var buf := packet[..];
      while at < index
        invariant at <= index && Find(buf, index, strings, 0) == Find(buf, index, strings, at)
      {
        FindGoesOn(buf, index, strings, at);
        if packet[at] == len && at + 1 + len <= packet.Length && packet[at + 1..at + 1 + len] == strings[0] {
          CandidateReads(buf, at, strings, len);
          var name := new NameRecord();
          var content := ReadFqdn(packet, at, name);
          if content != -1 && AllSame(strings, name.parts) {
            return;
          }
        } else {
          NotCandidate(buf, at, strings, len);
        }
        at := at + 1;
      }
    }

    /** _mdns_append_fqdn */
    method AppendFqdn(strings: seq<Label>) returns (written: nat)
      requires Valid() && ValidLabels(strings)
      modifies this`index, packet
      ensures Valid() && AppendedAs(old(View()), strings, View(), written)
      decreases |strings|
    {
      ghost var p := View();
      if |strings| == 0 {
        written := AppendU8(0);
        AppendsNothing(p, View(), written);
        return;
      }
      var at := FindName(strings);
      if at == index {
        written := AppendString(strings[0]);
        if written == 0 {
          LabelDoesNotFit(p, strings);
          return;
        }
        ghost var one := View();
        var rest := AppendFqdn(strings[1..]);
        AppendsLabel(p, strings, one, View(), rest);
        written := written + rest;
        return;
      }
      var hi: Byte, lo: Byte := REF + at / 256, at % 256;
      written := AppendU16(hi, lo);
      AppendsPointer(p, strings, at, hi, lo, View(), written);
    }
  }
}
