/**
  Conflict resolution in mdns.c (lines 2840-2936; section 8.2 of RFC 6762): which of two hosts that claim
  the same service wins, by the data of the SRV record and of the TXT record.
 */
module Conflict {
  import opened Bytes
  import opened TxtRecord
  import DnsName

  /** "local" */
  const LOCAL: Text := [108, 111, 99, 97, 108]

  /** memcmp of blocks of the same length: -1, 0 or 1. */
  function Memcmp(a: Text, b: Text): (r: int)
    requires |a| == |b|
    ensures -1 <= r <= 1
  {
    if a == [] then 0
    else if a[0] < b[0] then -1
    else if a[0] > b[0] then 1
    else Memcmp(a[1..], b[1..])
  }

  /** Longer data wins, then greater data: 1 when they win, -1 when we win, 0 when it is the same. */
  function Verdict(ours: Text, theirs: Text): (r: int)
    ensures -1 <= r <= 1
  {
    if |theirs| > |ours| then 1 else if |theirs| < |ours| then -1 else -Memcmp(ours, theirs)
  }

  // ----- The verdict is a total order -----

  lemma {:induction false} MemcmpOpposite(a: Text, b: Text)
    requires |a| == |b|
    ensures Memcmp(a, b) == -Memcmp(b, a)
    ensures Memcmp(a, b) == 0 <==> a == b
  {
    if a != [] {
      MemcmpOpposite(a[1..], b[1..]);
      assert a == [a[0]] + a[1..] && b == [b[0]] + b[1..];
    }
  }

  lemma {:induction false} MemcmpTransitive(a: Text, b: Text, c: Text)
    requires |a| == |b| == |c| && Memcmp(a, b) <= 0 && Memcmp(b, c) <= 0
    ensures Memcmp(a, c) <= 0 && (Memcmp(a, c) == 0 ==> Memcmp(a, b) == 0 && Memcmp(b, c) == 0)
  {
    if a != [] && a[0] == b[0] == c[0] {
      MemcmpTransitive(a[1..], b[1..], c[1..]);
    }
  }

  /** Each side comes to the opposite result, and to a tie only over equal data. */
  lemma VerdictOpposite(a: Text, b: Text)
    ensures Verdict(a, b) == -Verdict(b, a)
    ensures Verdict(a, b) == 0 <==> a == b
  {
    if |a| == |b| {
      MemcmpOpposite(a, b);
    }
  }

  /** Who wins over a winner wins. */
  lemma VerdictTransitive(a: Text, b: Text, c: Text)
    requires Verdict(a, b) >= 0 && Verdict(b, c) >= 0
    ensures Verdict(a, c) >= 0
    ensures Verdict(a, c) == 0 ==> Verdict(a, b) == 0 && Verdict(b, c) == 0
  {
    if |a| == |b| == |c| {
      MemcmpTransitive(a, b, c);
    }
  }

  // ----- Who wins -----

  /** The first byte that differs is greater in theirs. */
  ghost predicate GreaterAt(ours: Text, theirs: Text, k: nat) {
    k < |ours| == |theirs| && ours[..k] == theirs[..k] && ours[k] < theirs[k]
  }

  /** Longer data, or greater data of the same length. */
  ghost predicate Beats(theirs: Text, ours: Text) {
    |theirs| > |ours| || exists k: nat :: GreaterAt(ours, theirs, k)
  }

  lemma {:induction false} MemcmpMeans(a: Text, b: Text)
    requires |a| == |b|
    ensures Memcmp(a, b) == -1 <==> exists k: nat :: GreaterAt(a, b, k)
    decreases |a|
  {
    if a != [] {
      MemcmpMeans(a[1..], b[1..]);
      if a[0] == b[0] {
        if k: nat :| GreaterAt(a[1..], b[1..], k) {
          assert a[..k + 1] == [a[0]] + a[1..][..k] && b[..k + 1] == [b[0]] + b[1..][..k];
          assert GreaterAt(a, b, k + 1);
        }
        if k: nat :| GreaterAt(a, b, k) {
          assert a[1..][..k - 1] == a[..k][1..] && b[1..][..k - 1] == b[..k][1..];
          assert GreaterAt(a[1..], b[1..], k - 1);
        }
      } else {
        FirstDecides(a, b);
      }
    }
  }

  lemma FirstDecides(a: Text, b: Text)
    requires |a| == |b| && a != [] && a[0] != b[0]
    ensures (exists k: nat :: GreaterAt(a, b, k)) <==> a[0] < b[0]
  {
    if a[0] < b[0] {
      assert a[..0] == b[..0];
      assert GreaterAt(a, b, 0);
    }
    if k: nat :| GreaterAt(a, b, k) {
      FirstNotLess(a, b, k);
    }
  }

  lemma FirstNotLess(a: Text, b: Text, k: nat)
    requires GreaterAt(a, b, k)
    ensures a[0] <= b[0]
  {
    if k > 0 {
      assert a[..k][0] == b[..k][0];
    }
  }

  /** They win exactly when their data beats ours, and we win exactly when ours beats theirs. */
  lemma VerdictMeans(ours: Text, theirs: Text)
    ensures Verdict(ours, theirs) == 1 <==> Beats(theirs, ours)
    ensures Verdict(ours, theirs) == -1 <==> Beats(ours, theirs)
  {
    if |ours| == |theirs| {
      MemcmpMeans(ours, theirs);
      MemcmpMeans(theirs, ours);
      MemcmpOpposite(ours, theirs);
    }
  }

  // ----- SRV -----

  /** A service with the host that offers it. */
  datatype Srv = Srv(priority: nat, weight: nat, port: nat, host: Text)

  /** The record data as both sides lay it out for comparing. */
  function SrvBytes(s: Srv, domain: Text): Text {
    U16(s.priority) + U16(s.weight) + U16(s.port)
    + [(|s.host| % 256) as Byte] + s.host + [(|domain| % 256) as Byte] + domain + [0]
  }

  /** _mdns_check_srv_collision of a service in "local" against what was received. */
  function CheckSrv(ours: Srv, theirs: Srv, domain: Text): int {
    if ours.host == [] then 0
    else
      var ourLen, theirLen := 14 + |ours.host|, 9 + |theirs.host| + |domain|;
      if theirLen > ourLen then 1
      else if theirLen < ourLen then -1
      else -Memcmp(SrvBytes(ours, LOCAL), SrvBytes(theirs, domain))
  }

  /** Ports and the like have 16 bits, and a host has a name. */
  predicate Hosted(s: Srv) {
    s.priority < 0x1_0000 && s.weight < 0x1_0000 && s.port < 0x1_0000 && s.host != []
  }

  lemma SrvIsVerdict(a: Srv, b: Srv, domain: Text)
    requires Hosted(a)
    ensures CheckSrv(a, b, domain) == Verdict(SrvBytes(a, LOCAL), SrvBytes(b, domain))
  {
  }

  lemma U16Injective(v: nat, w: nat)
    requires v < 0x1_0000 && w < 0x1_0000 && U16(v) == U16(w)
    ensures v == w
  {
    assert U16(v)[0] == U16(w)[0] && U16(v)[1] == U16(w)[1];
  }

  lemma SrvBytesInjective(a: Srv, b: Srv)
    requires Hosted(a) && Hosted(b) && SrvBytes(a, LOCAL) == SrvBytes(b, LOCAL)
    ensures a == b
  {
    var x, y := SrvBytes(a, LOCAL), SrvBytes(b, LOCAL);
    assert |x| == 14 + |a.host| && |y| == 14 + |b.host|;
    assert x[0..2] == U16(a.priority) && y[0..2] == U16(b.priority);
    assert x[2..4] == U16(a.weight) && y[2..4] == U16(b.weight);
    assert x[4..6] == U16(a.port) && y[4..6] == U16(b.port);
    assert x[7..7 + |a.host|] == a.host && y[7..7 + |b.host|] == b.host;
    U16Injective(a.priority, b.priority);
    U16Injective(a.weight, b.weight);
    U16Injective(a.port, b.port);
  }

  /**
    Between two hosts in "local": each side's verdict is the opposite of the other's, and it is a tie
    exactly when host, port, weight and priority are the same.
   */
  lemma SrvSidesAgree(a: Srv, b: Srv)
    requires Hosted(a) && Hosted(b)
    ensures CheckSrv(a, b, LOCAL) == -CheckSrv(b, a, LOCAL)
    ensures CheckSrv(a, b, LOCAL) == 0 <==> a == b
  {
    SrvIsVerdict(a, b, LOCAL);
    SrvIsVerdict(b, a, LOCAL);
    VerdictOpposite(SrvBytes(a, LOCAL), SrvBytes(b, LOCAL));
    if CheckSrv(a, b, LOCAL) == 0 {
      SrvBytesInjective(a, b);
    }
  }

  /** Of two services of hosts with names of one length: priority, then weight, port and name. */
  ghost predicate GreaterSrv(ours: Srv, theirs: Srv) {
    || theirs.priority > ours.priority
    || (theirs.priority == ours.priority && theirs.weight > ours.weight)
    || (theirs.priority == ours.priority && theirs.weight == ours.weight && theirs.port > ours.port)
    || (theirs.priority == ours.priority && theirs.weight == ours.weight && theirs.port == ours.port
        && exists k: nat :: GreaterAt(ours.host, theirs.host, k))
  }

  /** The one with the longer host name wins, and of names of one length the greater data. */
  ghost predicate SrvBeats(theirs: Srv, ours: Srv) {
    |theirs.host| > |ours.host| || (|theirs.host| == |ours.host| && GreaterSrv(ours, theirs))
  }

  lemma {:induction false} MemcmpConcat(a: Text, b: Text, c: Text, d: Text)
    requires |a| == |b| && |c| == |d|
    ensures Memcmp(a + c, b + d) == if a == b then Memcmp(c, d) else Memcmp(a, b)
    decreases |a|
  {
    if a == [] {
      assert a + c == c && b + d == d;
    } else {
      assert (a + c)[1..] == a[1..] + c && (b + d)[1..] == b[1..] + d;
      assert a == b <==> a[0] == b[0] && a[1..] == b[1..] by {
        assert a == [a[0]] + a[1..] && b == [b[0]] + b[1..];
      }
      MemcmpConcat(a[1..], b[1..], c, d);
    }
  }

  lemma HighByteFirst(v: nat, w: nat)
    ensures v < w <==> v / 256 < w / 256 || (v / 256 == w / 256 && v % 256 < w % 256)
  {
  }

  lemma MemcmpU16(v: nat, w: nat)
    requires v < 0x1_0000 && w < 0x1_0000
    ensures Memcmp(U16(v), U16(w)) == if v < w then -1 else if v > w then 1 else 0
  {
    var a, b := U16(v), U16(w);
    assert a[1..] == [v % 256] && b[1..] == [w % 256];
    assert a[1..][1..] == [] && b[1..][1..] == [];
    assert Memcmp(a[1..], b[1..]) == if v % 256 < w % 256 then -1 else if v % 256 > w % 256 then 1 else 0;
    assert a[0] == v / 256 && b[0] == w / 256;
    HighByteFirst(v, w);
    HighByteFirst(w, v);
  }

  lemma SrvBytesAre(s: Srv)
    requires |s.host| < 256
    ensures SrvBytes(s, LOCAL)
            == U16(s.priority) + (U16(s.weight) + (U16(s.port) + ([|s.host| as Byte] + (s.host + ([5] + LOCAL + [0])))))
  {
  }

  lemma {:induction false} MemcmpSame(a: Text)
    ensures Memcmp(a, a) == 0
  {
    if a != [] {
      MemcmpSame(a[1..]);
    }
  }

  lemma SrvCompares(a: Srv, b: Srv)
    requires Hosted(a) && Hosted(b) && |a.host| == |b.host| < 256
    ensures Memcmp(SrvBytes(a, LOCAL), SrvBytes(b, LOCAL)) == -1 <==> GreaterSrv(a, b)
  {
    var end := [5] + LOCAL + [0];
    var la, lb := [|a.host| as Byte] + (a.host + end), [|b.host| as Byte] + (b.host + end);
    SrvBytesAre(a);
    SrvBytesAre(b);
    MemcmpConcat(U16(a.priority), U16(b.priority), U16(a.weight) + (U16(a.port) + la),
        U16(b.weight) + (U16(b.port) + lb));
    MemcmpConcat(U16(a.weight), U16(b.weight), U16(a.port) + la, U16(b.port) + lb);
    MemcmpConcat(U16(a.port), U16(b.port), la, lb);
    MemcmpConcat([|a.host| as Byte], [|b.host| as Byte], a.host + end, b.host + end);
    MemcmpConcat(a.host, b.host, end, end);
    MemcmpSame(end);
    MemcmpU16(a.priority, b.priority);
    MemcmpU16(a.weight, b.weight);
    MemcmpU16(a.port, b.port);
    U16Equal(a.priority, b.priority);
    U16Equal(a.weight, b.weight);
    U16Equal(a.port, b.port);
    MemcmpMeans(a.host, b.host);
  }

  lemma U16Equal(v: nat, w: nat)
    requires v < 0x1_0000 && w < 0x1_0000
    ensures U16(v) == U16(w) <==> v == w
  {
    if U16(v) == U16(w) {
      U16Injective(v, w);
    }
  }

  /** Between two hosts in "local" they win exactly when their service beats ours, and we win the other way round. */
  lemma SrvWinner(ours: Srv, theirs: Srv)
    requires Hosted(ours) && Hosted(theirs) && |ours.host| < 256 && |theirs.host| < 256
    ensures CheckSrv(ours, theirs, LOCAL) == 1 <==> SrvBeats(theirs, ours)
    ensures CheckSrv(ours, theirs, LOCAL) == -1 <==> SrvBeats(ours, theirs)
  {
    SrvSidesAgree(ours, theirs);
    if |ours.host| == |theirs.host| {
      SrvCompares(ours, theirs);
      SrvCompares(theirs, ours);
    }
  }

  /** And so in any domain, as far as the bytes go: those of their record against ours. */
  lemma SrvWinnerByBytes(ours: Srv, theirs: Srv, domain: Text)
    requires Hosted(ours)
    ensures CheckSrv(ours, theirs, domain) == 1 <==> Beats(SrvBytes(theirs, domain), SrvBytes(ours, LOCAL))
    ensures CheckSrv(ours, theirs, domain) == -1 <==> Beats(SrvBytes(ours, LOCAL), SrvBytes(theirs, domain))
  {
    SrvIsVerdict(ours, theirs, domain);
    VerdictMeans(SrvBytes(ours, LOCAL), SrvBytes(theirs, domain));
  }

  /** Among three hosts there is no circle. */
  lemma SrvTransitive(a: Srv, b: Srv, c: Srv)
    requires Hosted(a) && Hosted(b) && Hosted(c) && CheckSrv(a, b, LOCAL) >= 0 && CheckSrv(b, c, LOCAL) >= 0
    ensures CheckSrv(a, c, LOCAL) >= 0 && (CheckSrv(a, c, LOCAL) == 0 ==> a == b == c)
  {
    SrvIsVerdict(a, b, LOCAL);
    SrvIsVerdict(b, c, LOCAL);
    SrvIsVerdict(a, c, LOCAL);
    VerdictTransitive(SrvBytes(a, LOCAL), SrvBytes(b, LOCAL), SrvBytes(c, LOCAL));
    SrvSidesAgree(a, b);
    SrvSidesAgree(b, c);
  }

  // ----- TXT -----

  function DataLength(items: seq<Item>): nat {
    if items == [] then 0 else 1 + |EntryBytes(items[0])| + DataLength(items[1..])
  }

  /** Data that fits into a packet, with room behind it, as the writer of an entry asks. */
  predicate Fits(data: Text) {
    |data| < DnsName.MAX_PACKET
  }

  /**
    _mdns_check_txt_collision, with data from a packet. Ours are only encoded when they are as long, so that
    every entry fits.
   */
  function CheckTxt(ours: seq<Item>, data: Text): int
    requires Fits(data)
  {
    if |data| == 1 && ours != [] then -1
    else if |data| > 1 && ours == [] then 1
    else if |data| == 1 && ours == [] then 0
    else if |data| > DataLength(ours) then 1
    else if |data| < DataLength(ours) then -1
    else
      EntriesLength(ours);
      -Memcmp(Entries(ours), data)
  }

  lemma {:induction false} EntriesLength(items: seq<Item>)
    ensures |Entries(items)| == DataLength(items)
  {
    if items != [] {
      EntriesLength(items[1..]);
    }
  }

  lemma TxtIsVerdict(ours: seq<Item>, theirs: seq<Item>)
    requires AllGood(ours) && AllGood(theirs) && Fits(Encode(theirs))
    ensures CheckTxt(ours, Encode(theirs)) == Verdict(Encode(ours), Encode(theirs))
  {
    EntriesLength(ours);
    MemcmpOpposite([0], [0]);
    if ours != [] {
      EncodedIsLong(ours);
    }
    if theirs != [] {
      EncodedIsLong(theirs);
    }
  }

  lemma EntryInjective(a: Item, b: Item)
    requires Good(a) && Good(b) && EntryBytes(a) == EntryBytes(b)
    ensures a == b
  {
    NameOfEntry(a);
    NameOfEntry(b);
    var part := EntryBytes(a);
    assert part[..NameLength(part)] == a.key && part[..NameLength(part)] == b.key;
    if a.value.Some? {
      assert part[|a.key| + 1..] == a.value.text && part[|b.key| + 1..] == b.value.text;
    }
  }

  lemma {:induction false} EntriesInjective(a: seq<Item>, b: seq<Item>)
    requires AllGood(a) && AllGood(b) && Entries(a) == Entries(b)
    ensures a == b
  {
    if a == [] {
      if b != [] {
        EncodedIsLong(b);
      }
    } else {
      EncodedIsLong(a);
      var data := Entries(a);
      assert b != [] && data[0..] == data;
      EntryAt(data, 0, a[0], Entries(a[1..]));
      EntryAt(data, 0, b[0], Entries(b[1..]));
      EntryInjective(a[0], b[0]);
      EntriesInjective(a[1..], b[1..]);
      assert a == [a[0]] + a[1..] && b == [b[0]] + b[1..];
    }
  }

  /** The same for TXT records: opposite verdicts, and a tie exactly over the same items. */
  lemma TxtSidesAgree(a: seq<Item>, b: seq<Item>)
    requires AllGood(a) && AllGood(b) && Fits(Encode(a)) && Fits(Encode(b))
    ensures CheckTxt(a, Encode(b)) == -CheckTxt(b, Encode(a))
    ensures CheckTxt(a, Encode(b)) == 0 <==> a == b
  {
    TxtIsVerdict(a, b);
    TxtIsVerdict(b, a);
    VerdictOpposite(Encode(a), Encode(b));
    if Encode(a) == Encode(b) {
      if a == [] || b == [] {
        if a != [] {
          EncodedIsLong(a);
        }
        if b != [] {
          EncodedIsLong(b);
        }
      } else {
        EncodedIsLong(a);
        EncodedIsLong(b);
        EntriesInjective(a, b);
      }
    }
  }

  /** They win exactly when their encoded items beat ours, and we win the other way round. */
  lemma TxtWinner(ours: seq<Item>, theirs: seq<Item>)
    requires AllGood(ours) && AllGood(theirs) && Fits(Encode(theirs))
    ensures CheckTxt(ours, Encode(theirs)) == 1 <==> Beats(Encode(theirs), Encode(ours))
    ensures CheckTxt(ours, Encode(theirs)) == -1 <==> Beats(Encode(ours), Encode(theirs))
  {
    TxtIsVerdict(ours, theirs);
    VerdictMeans(Encode(ours), Encode(theirs));
  }

  lemma TxtTransitive(a: seq<Item>, b: seq<Item>, c: seq<Item>)
    requires AllGood(a) && AllGood(b) && AllGood(c) && Fits(Encode(a)) && Fits(Encode(b)) && Fits(Encode(c))
    requires CheckTxt(a, Encode(b)) >= 0 && CheckTxt(b, Encode(c)) >= 0
    ensures CheckTxt(a, Encode(c)) >= 0 && (CheckTxt(a, Encode(c)) == 0 ==> a == b == c)
  {
    TxtIsVerdict(a, b);
    TxtIsVerdict(b, c);
    TxtIsVerdict(a, c);
    VerdictTransitive(Encode(a), Encode(b), Encode(c));
    TxtSidesAgree(a, b);
    TxtSidesAgree(b, c);
  }
}
