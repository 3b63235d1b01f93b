/**
  What the bytes in the names of mdns.c (lines 448-499 and 746-807) are as characters: the labels that it
  treats specially, letters of either case, the dot between the labels of a host, and the lengths and
  pointers of section 4.1.4 of RFC 1035.
 */
module DnsText {
  import opened Bytes
  import opened DnsName
  import opened DnsRound
  import DnsFrame
  import DnsWalk
  import TxtRecord

  function Ascii(s: string): Label
    requires forall i :: 0 <= i < |s| ==> s[i] < 256 as char
  {
    seq(|s|, i requires 0 <= i < |s| => s[i] as int)
  }

  lemma SpecialLabels()
    ensures LOCAL == Ascii("local") && ARPA == Ascii("arpa") && IP6 == Ascii("ip6")
    ensures IN_ADDR == Ascii("in-addr") && SUB == Ascii("_sub")
  {
  }

  /** Two bytes of the same letter, one in upper and one in lower case. */
  predicate Cases(a: Byte, b: Byte) {
    'A' as int <= a <= 'Z' as int && b - a == 'a' as int - 'A' as int
  }

  /** Labels are the same when each byte is, or is the same letter. */
  lemma SameMeans(a: Label, b: Label)
    ensures Same(a, b) <==>
              |a| == |b| && forall i :: 0 <= i < |a| ==> a[i] == b[i] || Cases(a[i], b[i]) || Cases(b[i], a[i])
  {
    forall x: Byte, y: Byte
      ensures Lower(x) == Lower(y) <==> x == y || Cases(x, y) || Cases(y, x)
    {
      LowerMeans(x, y);
    }
  }

  lemma LowerMeans(x: Byte, y: Byte)
    ensures Lower(x) == Lower(y) <==> x == y || Cases(x, y) || Cases(y, x)
  {
  }

  /** A label that may belong to the host: not empty, with no terminator. */
  predicate HostLabel(s: Label) {
    s != [] && 0 !in s
  }

  /** A second label that is neither a service nor the beginning of a domain. */
  predicate Joins(s: Label) {
    HostLabel(s) && s[0] != '_' as int
    && !Same(s, Ascii("local")) && !Same(s, Ascii("arpa")) && !Same(s, Ascii("ip6")) && !Same(s, Ascii("in-addr"))
  }

  /** Two labels before the domain are one host, with a dot between them. */
  lemma HostJoins(a: Label, b: Label)
    requires HostLabel(a) && Joins(b) && !Same(a, Ascii("_sub")) && |a| + 1 + |b| <= 64
    ensures TakeAll(FRESH, [Text(a), Text(b), Text(Ascii("local"))])
            == Name([a + Ascii(".") + b, Ascii("local")], false, false)
  {
    SpecialLabels();
    CStringWhole(a);
    CStringWhole(b);
    CStringWhole(LOCAL);
    var items := [Text(a), Text(b), Text(LOCAL)];
    var first, host := Name([a], false, false), Name([a + Ascii(".") + b], false, false);
    assert Take(FRESH, items[0]) == first && FRESH.parts + [a] == [a];
    JoinedHost(a, b);
    assert items[1..] == [Text(b), Text(LOCAL)] && items[1..][1..] == [Text(LOCAL)];
    assert Take(host, Text(LOCAL)) == Name([a + Ascii(".") + b, LOCAL], false, false);
    assert TakeAll(host, [Text(LOCAL)]) == TakeAll(Take(host, Text(LOCAL)), []);
    assert TakeAll(first, items[1..]) == TakeAll(Take(first, Text(b)), [Text(LOCAL)]);
  }

  lemma JoinedHost(a: Label, b: Label)
    requires HostLabel(a) && Joins(b) && |a| + 1 + |b| <= 64 && CString(b) == b
    ensures Take(Name([a], false, false), Text(b)) == Name([a + Ascii(".") + b], false, false)
  {
    SpecialLabels();
    assert Ascii(".") == [46];
  }

  /** A byte of a name is its end, the length of a label of up to 63 bytes, not allowed, or a pointer. */
  lemma WireBytes(buf: seq<Byte>, seg: nat, pos: nat)
    requires seg <= pos < |buf|
    ensures buf[pos] == 0 ==> ReadWire(buf, seg, pos) == Good([], pos + 1, pos + 1)
    ensures 1 <= buf[pos] <= 63 && ReadWire(buf, seg, pos).Good? ==>
              pos + 1 + buf[pos] <= |buf|
              && ReadWire(buf, seg, pos).items[0] == Text(buf[pos + 1..pos + 1 + buf[pos]])
    ensures 64 <= buf[pos] < 192 ==> ReadWire(buf, seg, pos).Bad?
    ensures 192 <= buf[pos] && ReadWire(buf, seg, pos).Good? ==>
              pos + 1 < |buf| && ReadWire(buf, seg, pos).items[0] == Jump && ReadWire(buf, seg, pos).next == pos + 2
              && (buf[pos] - 192) * 256 + buf[pos + 1] < seg
  {
  }

  /** Numbers go out with the higher byte first. */
  lemma NetworkOrder(v: nat)
    requires v < 0x1_0000
    ensures |U16(v)| == 2 && v == (U16(v)[0] as int) * 256 + U16(v)[1]
  {
  }

  // ----- The data of TXT records -----

  /** The strings that stand for items. */
  function ItemStrings(items: seq<TxtRecord.Item>): (strings: seq<seq<Byte>>)
    ensures |strings| == |items|
  {
    if items == [] then [] else [TxtRecord.EntryBytes(items[0])] + ItemStrings(items[1..])
  }

  lemma {:induction false} StringsAreEntries(items: seq<TxtRecord.Item>)
    ensures DnsFrame.TextBytes(ItemStrings(items)) == TxtRecord.Entries(items)
    ensures items != [] ==> TxtRecord.Entries(items) != []
    decreases |items|
  {
    if items != [] {
      StringsAreEntries(items[1..]);
      assert ItemStrings(items)[1..] == ItemStrings(items[1..]);
    }
  }

  lemma StringsStand(data: seq<Byte>, at: nat, end: nat, items: seq<TxtRecord.Item>)
    requires at <= |data| && DnsWalk.DataTold(data, at, DnsFrame.Strings(ItemStrings(items)), end)
    ensures at <= end <= |data| && data[at..end] == TxtRecord.Encode(items)
  {
    StringsAreEntries(items);
    var strings := ItemStrings(items);
    assert DnsFrame.DataStands(data, at, DnsFrame.Strings(strings), end);
  }

  /** The text counts as many items, and is parsed as them exactly when each but the last has a value. */
  ghost predicate ParsedAs(text: seq<Byte>, items: seq<TxtRecord.Item>) {
    && TxtRecord.Count(text) == |items|
    && (TxtRecord.Parse(text) == TxtRecord.Parsed(TxtRecord.ReturnedAll(items)) <==> TxtRecord.Valued(items))
  }

  lemma EncodedParses(text: seq<Byte>, items: seq<TxtRecord.Item>)
    requires TxtRecord.AllGood(items) && text == TxtRecord.Encode(items)
    ensures ParsedAs(text, items)
  {
    TxtRecord.RoundTripExact(items);
  }

  /** So is a TXT record in a packet; empty values come back as none. */
  lemma TextIsRead(data: seq<Byte>, at: nat, end: nat, items: seq<TxtRecord.Item>)
    requires at <= |data| && DnsWalk.DataTold(data, at, DnsFrame.Strings(ItemStrings(items)), end)
    requires TxtRecord.AllGood(items)
    ensures at <= end <= |data| && ParsedAs(data[at..end], items)
  {
    StringsStand(data, at, end, items);
    EncodedParses(data[at..end], items);
  }
}
