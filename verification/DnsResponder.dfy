/**
  The names that the responder of mdns.c puts into its packets (lines 819-1230): with usual labels
  they meet what MessageWalks asks for, and so do the fixed bytes of its questions, PTR and SRV records.
 */
module DnsResponder {
  import opened Bytes
  import opened DnsName
  import opened DnsRound
  import opened DnsFrame
  import opened DnsWalk
  import opened DnsPlaces
  import opened DnsClosed
  import opened DnsHonest
  import opened DnsFresh

  /** "_services", "_dns-sd" and "_udp". */
  const SERVICES: Label := [95, 115, 101, 114, 118, 105, 99, 101, 115]
  const DNS_SD: Label := [95, 100, 110, 115, 45, 115, 100]
  const UDP: Label := [95, 117, 100, 112]

  datatype Entry = Entry(instance: Label, service: Label, proto: Label, subtypes: set<Label>)

  /** One of the names for some hosts and services. */
  ghost predicate IsName(hosts: set<Label>, entries: set<Entry>, n: seq<Label>) {
    || (exists h :: h in hosts && n == [h, LOCAL])
    || n == [SERVICES, DNS_SD, UDP, LOCAL]
    || exists e :: e in entries && IsEntryName(e, n)
  }

  ghost predicate IsEntryName(e: Entry, n: seq<Label>) {
    || n == [e.instance, e.service, e.proto, LOCAL]
    || n == [e.service, e.proto, LOCAL]
    || exists t :: t in e.subtypes && n == [t, SUB, e.service, e.proto, LOCAL]
  }

  /** Up to 31 printable characters of ASCII, and not "_sub". */
  predicate Usual(s: Label) {
    1 <= |s| <= 31 && (forall i :: 0 <= i < |s| ==> 32 <= s[i] < 128) && !Same(s, SUB)
  }

  /** A label that is not a subtype. */
  ghost predicate Main(hosts: set<Label>, entries: set<Entry>, s: Label) {
    s in hosts || s == LOCAL || s == SERVICES || s == DNS_SD || s == UDP
    || exists e :: e in entries && (s == e.instance || s == e.service || s == e.proto)
  }

  ghost predicate UsualEntry(hosts: set<Label>, entries: set<Entry>, e: Entry) {
    && Usual(e.instance) && Usual(e.service) && Usual(e.proto)
    && e.instance != e.service && e.instance != e.proto && e.instance != LOCAL
    && e.service != e.proto && e.service != LOCAL && e.proto != LOCAL
    && forall t :: t in e.subtypes ==> Usual(t) && !Main(hosts, entries, t)
  }

  /** Usual labels, all different within a name, and subtypes that are nothing else. */
  ghost predicate UsualHosts(hosts: set<Label>, entries: set<Entry>) {
    (forall h :: h in hosts ==> Usual(h) && h != LOCAL) && forall e :: e in entries ==> UsualEntry(hosts, entries, e)
  }

  /** A name of main labels, or a subtype, "_sub" and main labels. */
  ghost predicate Shaped(hosts: set<Label>, entries: set<Entry>, n: seq<Label>) {
    && 2 <= |n| <= 5 && n[|n| - 1] == LOCAL && Distinct(n)
    && (forall i :: 0 <= i < |n| && (|n| < 5 || 2 <= i) ==> Usual(n[i]) && Main(hosts, entries, n[i]))
    && (|n| == 5 ==> Usual(n[0]) && !Main(hosts, entries, n[0]) && n[1] == SUB)
  }

  lemma UsualConstants()
    ensures Usual(LOCAL) && Usual(SERVICES) && Usual(DNS_SD) && Usual(UDP)
    ensures forall s :: Usual(s) ==> s != SUB
  {
    assert Same(SUB, SUB);
    assert Lower(UDP[1]) != Lower(SUB[1]);
  }

  lemma SubtypeShaped(hosts: set<Label>, entries: set<Entry>, e: Entry, t: Label, n: seq<Label>)
    requires UsualEntry(hosts, entries, e) && e in entries && t in e.subtypes
            && n == [t, SUB, e.service, e.proto, LOCAL]
    ensures Shaped(hosts, entries, n)
  {
    UsualConstants();
    assert Main(hosts, entries, e.service) && Main(hosts, entries, e.proto) && Main(hosts, entries, LOCAL);
    assert Usual(t) && !Main(hosts, entries, t);
  }

  lemma EntryShaped(hosts: set<Label>, entries: set<Entry>, e: Entry, n: seq<Label>)
    requires UsualEntry(hosts, entries, e) && e in entries && IsEntryName(e, n)
    ensures Shaped(hosts, entries, n)
  {
    if t :| t in e.subtypes && n == [t, SUB, e.service, e.proto, LOCAL] {
      SubtypeShaped(hosts, entries, e, t, n);
    } else {
      UsualConstants();
      assert Main(hosts, entries, e.instance) && Main(hosts, entries, e.service) && Main(hosts, entries, e.proto);
    }
  }

  lemma NameShaped(hosts: set<Label>, entries: set<Entry>, n: seq<Label>)
    requires UsualHosts(hosts, entries) && IsName(hosts, entries, n)
    ensures Shaped(hosts, entries, n)
  {
    UsualConstants();
    if e :| e in entries && IsEntryName(e, n) {
      EntryShaped(hosts, entries, e, n);
    }
  }

  // ----- Shaped names are clear -----

  predicate Printable(s: Label) {
    1 <= |s| <= 31 && forall i :: 0 <= i < |s| ==> 32 <= s[i] < 128
  }

  lemma ShapedPrintable(hosts: set<Label>, entries: set<Entry>, n: seq<Label>, i: nat)
    requires Shaped(hosts, entries, n) && i < |n|
    ensures Printable(n[i])
  {
  }

  lemma {:induction false} ShortLabels(n: seq<Label>)
    requires forall i :: 0 <= i < |n| ==> Printable(n[i])
    ensures PlainLength(n) <= 32 * |n| + 1
    decreases |n|
  {
    if n != [] {
      assert forall i :: 0 <= i < |n| - 1 ==> n[1..][i] == n[i + 1];
      ShortLabels(n[1..]);
    }
  }

  /** From a label on there is a "_sub" just when it is one of the first two of a subtype's name. */
  lemma TailSubs(hosts: set<Label>, entries: set<Entry>, n: seq<Label>, i: nat)
    requires Shaped(hosts, entries, n) && i < |n|
    ensures NoSubs(n[i..]) <==> !(|n| == 5 && i < 2)
  {
    if |n| == 5 && i < 2 {
      assert n[i..][1 - i] == SUB && Same(SUB, SUB);
    } else {
      forall k | 0 <= k < |n| - i
        ensures !Same(n[i..][k], SUB)
      {
        assert n[i..][k] == n[i + k] && Usual(n[i + k]);
      }
    }
  }

  lemma ShapedFits(hosts: set<Label>, entries: set<Entry>, n: seq<Label>)
    requires Shaped(hosts, entries, n)
    ensures Fits(n)
  {
    forall i | 0 <= i < |n|
      ensures Printable(n[i])
    {
      ShapedPrintable(hosts, entries, n, i);
    }
    ShortLabels(n);
    forall i: nat | i < |n|
      ensures Room(n, i)
    {
      TailSubs(hosts, entries, n, i);
    }
  }

  lemma ShapedAlike(hosts: set<Label>, entries: set<Entry>, n: seq<Label>, i: nat, m: seq<Label>, j: nat)
    requires Shaped(hosts, entries, n) && Shaped(hosts, entries, m) && i < |n| && j < |m| && n[i] == m[j]
    ensures Alike(n, i, m, j)
  {
    UsualConstants();
    TailSubs(hosts, entries, n, i);
    TailSubs(hosts, entries, m, j);
  }

  /** The responder's names are clear: with usual labels no match can mislead it. */
  lemma ResponderIsClear(hosts: set<Label>, entries: set<Entry>, names: Names)
    requires UsualHosts(hosts, entries) && forall n :: n in names ==> IsName(hosts, entries, n)
    ensures Clear(names)
    ensures forall s :: Has(names, s) ==> Printable(s)
  {
    forall n | n in names
      ensures Shaped(hosts, entries, n) && Fits(n)
    {
      NameShaped(hosts, entries, n);
      ShapedFits(hosts, entries, n);
    }
    forall s | Has(names, s)
      ensures Printable(s)
    {
      var n, k: nat :| n in names && k < |n| && n[k] == s;
      ShapedPrintable(hosts, entries, n, k);
    }
    forall n, m, i: nat, j: nat | n in names && m in names && i < |n| && j < |m| && n[i] == m[j]
      ensures Alike(n, i, m, j)
    {
      ShapedAlike(hosts, entries, n, i, m, j);
    }
    PrintableApart(names);
  }

  lemma PrintableApart(names: Names)
    requires forall s :: Has(names, s) ==> Printable(s)
    ensures Apart(names)
  {
  }

  // ----- The fixed bytes -----

  ghost predicate AllPrintable(names: Names) {
    forall s :: Has(names, s) ==> Printable(s)
  }

  /** A byte that cannot be a length in front of a printable character. */
  predicate Mute(b: Byte, next: Byte) {
    b == 0 || b > 31 || next < 32 || next >= 128
  }

  ghost predicate MuteEnd(b: Byte, next: Byte, names: Names) {
    b != 1 || Mute(b, next) || forall s :: Has(names, s) ==> |s| > 1
  }

  lemma EndsMeans(data: seq<Byte>, i: nat, s: Label)
    requires s != []
    ensures EndsBy(data, i, |data|, s) ==> i + 1 < |data| && data[i] == |s| && data[i + 1] == s[0]
  {
    if EndsBy(data, i, |data|, s) {
      assert data[i + 1..i + 1 + |s|][0] == data[i + 1];
    }
  }

  /**
    No label stands in bytes none of which can be a length in front of the next one. In front of the last
    byte only a label of one byte could stand.
   */
  lemma MuteIsQuiet(data: seq<Byte>, names: Names)
    requires AllPrintable(names) && data != [] && data[0] == 0
    requires forall i :: 0 <= i && i + 2 < |data| ==> Mute(data[i], data[i + 1])
    requires |data| > 1 ==> MuteEnd(data[|data| - 2], data[|data| - 1], names)
    ensures Quiet(data, names)
  {
    forall i: nat, s | Has(names, s)
      ensures !EndsBy(data, i, |data|, s)
    {
      assert Printable(s);
      EndsMeans(data, i, s);
    }
  }

  /** Types, classes and times to live as the responder has them. */
  predicate UsualType(rtype: nat, rclass: nat) {
    rtype < 256 && rclass % 256 < 32 && (rclass / 256 % 256 == 0 || rclass / 256 % 256 >= 128)
  }

  predicate UsualTimes(r: Record) {
    UsualType(r.rtype, r.rclass) && (r.ttl == 0 || r.ttl == 10 || r.ttl == 120 || r.ttl == 4500)
  }

  lemma QuestionIsQuiet(q: Question, names: Names)
    requires AllPrintable(names) && q.name in names && UsualType(q.qtype, q.qclass)
    ensures QuietQuestion(q, names)
  {
    MuteIsQuiet(U16(q.qtype) + U16(q.qclass), names);
  }

  lemma TypeIsMute(r: Record)
    requires UsualTimes(r)
    ensures var data := TypeBytes(r);
            data[0] == 0 && data[8] == data[9] == 0
                && forall i :: 0 <= i && i + 1 < |data| ==> Mute(data[i], data[i + 1])
  {
    var data := TypeBytes(r);
    assert data == [r.rtype / 256 % 256, r.rtype % 256, r.rclass / 256 % 256, r.rclass % 256, 0, 0, r.ttl / 256 % 256,
        r.ttl % 256, 0, 0];
  }

  lemma PtrIsQuiet(r: Record, names: Names)
    requires AllPrintable(names) && r.name in names && r.data.Target? && r.data.host in names && UsualTimes(r)
    ensures QuietRecord(r, names)
  {
    TypeIsMute(r);
    MuteIsQuiet(TypeBytes(r), names);
  }

  /** The two bytes of the port are not a label of one byte, as they could be for the ports from 288 to 383. */
  lemma SrvIsQuiet(r: Record, names: Names)
    requires AllPrintable(names) && r.name in names && UsualTimes(r)
    requires r.data.Service? && r.data.host in names && PlainLength(r.data.host) < 250
    requires r.data.priority == 0 && r.data.weight == 0
    requires !(288 <= r.data.port < 384) || (forall s :: Has(names, s) ==> |s| > 1)
    requires r.data.port < 0x1_0000
    ensures QuietRecord(r, names)
  {
    var port := U16(r.data.port);
    var data := TypeBytes(r) + BeforeHost(r);
    TypeIsMute(r);
    assert BeforeHost(r) == [0, 0, 0, 0, port[0], port[1]];
    forall i | 0 <= i && i + 2 < |data|
      ensures Mute(data[i], data[i + 1])
    {
      if i < 9 {
        assert data[i] == TypeBytes(r)[i] && data[i + 1] == TypeBytes(r)[i + 1];
      }
    }
    MuteIsQuiet(data, names);
    assert forall s :: Has(names, s) ==> Printable(s);
  }

  // ----- Its packets -----

  /**
    Every packet of a responder with usual labels is walked completely, whatever it answers and whatever
    the packet before has left in the buffer, unless a match is completed by that.
   */
  lemma ResponderWalks(buffer: seq<Byte>, m: Message, hosts: set<Label>, entries: set<Entry>, names: Names)
    requires |buffer| == MAX_PACKET && GoodMessage(m) && QuietMessage(m, names) && Dispatch(buffer, m).Done?
    requires UsualHosts(hosts, entries) && forall n :: n in names ==> IsName(hosts, entries, n)
    requires ClosedMessage(buffer, m)
    ensures WalksWhole(buffer, m)
  {
    ResponderIsClear(hosts, entries, names);
    MessageWalks(buffer, m, names);
  }

  lemma FirstIsClosed(buffer: seq<Byte>, m: Message, names: Names)
    requires |buffer| == MAX_PACKET && forall i :: HEAD <= i < |buffer| ==> buffer[i] == 0
    requires GoodMessage(m) && QuietMessage(m, names) && Ordinary(names)
    ensures ClosedMessage(buffer, m)
  {
    EndIsForeign(names, 0);
    FreshIsClosed(buffer, m, names);
  }

  /** In the first packet none is. */
  lemma FirstPacketWalks(buffer: seq<Byte>, m: Message, hosts: set<Label>, entries: set<Entry>, names: Names)
    requires |buffer| == MAX_PACKET && (forall i :: HEAD <= i < |buffer| ==> buffer[i] == 0)
    requires GoodMessage(m) && QuietMessage(m, names) && Dispatch(buffer, m).Done?
    requires UsualHosts(hosts, entries) && forall n :: n in names ==> IsName(hosts, entries, n)
    ensures ClosedMessage(buffer, m) && WalksWhole(buffer, m)
  {
    ResponderIsClear(hosts, entries, names);
    ClearIsOrdinary(names);
    FirstIsClosed(buffer, m, names);
    ResponderWalks(buffer, m, hosts, entries, names);
  }
}
