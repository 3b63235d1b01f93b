/**
  Commissioning of DALI gear (dali_tool.cpp lines 10-19 and 254-404): what one round of Search_Device
  does to the gear on the line and to the gear slots on disk, and exactly when the rounds come to an
  end. The gear follows the special commands of IEC 62386-102, clause 11.7.
 */
module DaliSearch {

  /** initialisationState of the gear. */
  datatype Phase = Disabled | Enabled | Withdrawn

  datatype Gear = Gear(random: nat, phase: Phase, short: nat)

  /** The gear on the line and the short address stored in each gear slot. */
  datatype Line = Line(gears: seq<Gear>, slots: seq<nat>)

  /** A search address in its three bytes. */
  datatype Address = Address(h: nat, m: nat, l: nat) {
    function Value(): nat { h * 65536 + m * 256 + l }

    predicate Valid() { h < 256 && m < 256 && l < 256 }
  }

  function Split(n: nat): Address {
    Address(n / 65536, n / 256 % 256, n % 256)
  }

  const SLOTS := 64
  const NO_SLOT := 200

  // ----- The gear -----

  /** COMPARE: some gear that is still in the search has a random address not above the search address. */
  predicate Heard(gears: seq<Gear>, x: nat) {
    exists i :: 0 <= i < |gears| && gears[i].phase.Enabled? && gears[i].random <= x
  }

  /** PROGRAM SHORT ADDRESS */
  function Programmed(g: Gear, x: nat, n: nat): Gear {
    if !g.phase.Disabled? && g.random == x then g.(short := n) else g
  }

  function Program(gears: seq<Gear>, x: nat, n: nat): seq<Gear> {
    seq(|gears|, i requires 0 <= i < |gears| => Programmed(gears[i], x, n))
  }

  /** VERIFY SHORT ADDRESS */
  predicate Verified(gears: seq<Gear>, n: nat) {
    exists i :: 0 <= i < |gears| && !gears[i].phase.Disabled? && gears[i].short == n
  }

  /** WITHDRAW */
  function Left(g: Gear, x: nat): Gear {
    if g.phase.Enabled? && g.random == x then g.(phase := Withdrawn) else g
  }

  function Withdraw(gears: seq<Gear>, x: nat): seq<Gear> {
    seq(|gears|, i requires 0 <= i < |gears| => Left(gears[i], x))
  }

  // ----- The firmware -----

  /** find_addr, from slot k on */
  function FirstFree(slots: seq<nat>, k: nat): nat
    requires k <= |slots|
    decreases |slots| - k
  {
    if k == |slots| then NO_SLOT else if slots[k] > SLOTS then k else FirstFree(slots, k + 1)
  }

  /** AtamaYAP: the line after it, and whether it returned success. */
  function Assign(s: Line, x: nat): (Line, bool) {
    var n := FirstFree(s.slots, 0);
    if n > SLOTS || n >= |s.slots| then (s, false)
    else
      var gears := Program(s.gears, x, n);
      if Verified(gears, n) then (Line(Withdraw(gears, x), s.slots[n := n]), true) else (Line(gears, s.slots), false)
  }

  /** The next address as SonrakiniATA counts: the middle byte does not carry into the high one. */
  function Follow(x: Address): Address {
    if x.l == 255 then x.(m := if x.m == 255 then 0 else x.m + 1, l := 0) else x.(l := x.l + 1)
  }

  /** Up to three calls of SonrakiniATA after an address that was assigned. */
  function Chain(s: Line, x: Address, tries: nat): Line
    decreases tries
  {
    if tries == 0 || !Heard(s.gears, Follow(x).Value()) then s
    else
      var (t, ok) := Assign(s, Follow(x).Value());
      if ok then Chain(t, Follow(x), tries - 1) else t
  }

  /** The addresses that gear still in the search has. */
  function Active(gears: seq<Gear>): set<nat> {
    set i | 0 <= i < |gears| && gears[i].phase.Enabled? :: gears[i].random
  }

  ghost predicate IsLowest(s: set<nat>, a: nat) {
    a in s && forall x :: x in s ==> a <= x
  }

  ghost function Lowest(s: set<nat>): (a: nat)
    requires s != {}
    ensures IsLowest(s, a)
  {
    LowestExists(s);
    var a :| IsLowest(s, a);
    a
  }

  lemma {:induction false} LowestExists(s: set<nat>)
    requires s != {}
    ensures exists a :: IsLowest(s, a)
    decreases |s|
  {
    var x :| x in s;
    if s == {x} {
      assert IsLowest(s, x);
    } else {
      var rest := s - {x};
      LowestExists(rest);
      var b :| IsLowest(rest, b);
      assert s == rest + {x};
      assert IsLowest(s, if x < b then x else b);
    }
  }

  /** What the search arrives at when the lowest address is a: one less, but not below zero. */
  function Under(a: nat): nat {
    if a == 0 then 0 else a - 1
  }

  /** The low byte of that counted up without a carry (line 374). */
  function Candidate(a: nat): Address {
    var b := Split(Under(a));
    b.(l := if b.l == 255 then 0 else b.l + 1)
  }

  /** One round of Search_Device. */
  ghost function Round(s: Line): Line {
    if Active(s.gears) == {} then s
    else
      var x := Candidate(Lowest(Active(s.gears)));
      if !Heard(s.gears, x.Value()) then s
      else
        var (t, ok) := Assign(s, x.Value());
        if ok then Chain(t, x, 3) else t
  }

  ghost function Rounds(s: Line, n: nat): Line
    decreases n
  {
    if n == 0 then s else Rounds(Round(s), n - 1)
  }

  // ----- When the search ends -----

  /** How many addresses directly below b are taken without a gap. */
  ghost function RunBelow(s: set<nat>, b: nat): nat {
    if b > 0 && b - 1 in s then 1 + RunBelow(s, b - 1) else 0
  }

  /**
    An address with low byte zero can only be reached as one of the three that follow an assigned one,
    and not across a carry into the high byte.
   */
  ghost predicate Reachable(s: set<nat>, b: nat) {
    b % 256 == 0 ==> b % 65536 != 0 && RunBelow(s, b) % 4 != 0
  }

  ghost predicate Addressable(s: set<nat>) {
    forall b {:trigger Reachable(s, b)} :: b in s ==> Reachable(s, b)
  }

  function FreeCount(slots: seq<nat>): nat {
    if slots == [] then 0 else (if slots[0] > SLOTS then 1 else 0) + FreeCount(slots[1..])
  }

  /** All addresses of the search can be reached, and there is a free slot for each. */
  ghost predicate Sufficient(s: Line) {
    Addressable(Active(s.gears)) && |Active(s.gears)| <= FreeCount(s.slots)
  }

  ghost predicate WellFormed(s: Line) {
    |s.slots| == SLOTS && forall i :: 0 <= i < |s.gears| ==> s.gears[i].random < 0x100_0000
  }

  // ----- Slots -----

  lemma {:induction false} FreeCountConcat(a: seq<nat>, b: seq<nat>)
    ensures FreeCount(a + b) == FreeCount(a) + FreeCount(b)
    decreases |a|
  {
    if a == [] {
      assert a + b == b;
    } else {
      assert (a + b)[1..] == a[1..] + b;
      FreeCountConcat(a[1..], b);
    }
  }

  lemma {:induction false} FirstFreeMeans(slots: seq<nat>, k: nat)
    requires k <= |slots| <= SLOTS
    ensures var n := FirstFree(slots, k);
            if FreeCount(slots[k..]) == 0 then n == NO_SLOT && forall j :: k <= j < |slots| ==> slots[j] <= SLOTS
            else k <= n < |slots| && slots[n] > SLOTS && forall j :: k <= j < n ==> slots[j] <= SLOTS
    decreases |slots| - k
  {
    if k < |slots| {
      assert slots[k..][1..] == slots[k + 1..];
      FirstFreeMeans(slots, k + 1);
    }
  }

  /** Taking a free slot leaves one less. */
  lemma Taken(slots: seq<nat>, n: nat)
    requires n < |slots| && slots[n] > SLOTS && n < SLOTS
    ensures FreeCount(slots[n := n]) == FreeCount(slots) - 1
  {
    var after := slots[n := n];
    assert slots == slots[..n] + ([slots[n]] + slots[n + 1..]);
    assert after == slots[..n] + ([n] + slots[n + 1..]);
    FreeCountConcat(slots[..n], [slots[n]] + slots[n + 1..]);
    FreeCountConcat(slots[..n], [n] + slots[n + 1..]);
    assert ([slots[n]] + slots[n + 1..])[1..] == slots[n + 1..] == ([n] + slots[n + 1..])[1..];
  }

  // ----- Assigning -----

  lemma HeardMeans(gears: seq<Gear>, x: nat)
    ensures Heard(gears, x) <==> exists a :: a in Active(gears) && a <= x
  {
    if Heard(gears, x) {
      var i :| 0 <= i < |gears| && gears[i].phase.Enabled? && gears[i].random <= x;
      assert gears[i].random in Active(gears);
    }
  }

  lemma AssignedActive(gears: seq<Gear>, x: nat, n: nat)
    ensures Active(Withdraw(Program(gears, x, n), x)) == Active(gears) - {x}
    ensures Active(Program(gears, x, n)) == Active(gears)
  {
    var a, b := Program(gears, x, n), Withdraw(Program(gears, x, n), x);
    forall y | y in Active(gears)
      ensures y in Active(a) && (y != x ==> y in Active(b))
    {
      var i :| 0 <= i < |gears| && gears[i].phase.Enabled? && gears[i].random == y;
      assert a[i].phase.Enabled? && a[i].random == y;
      assert y != x ==> b[i].phase.Enabled? && b[i].random == y;
    }
  }

  /** An address of the search is assigned exactly when there is a free slot. */
  lemma AssignWorks(s: Line, x: nat)
    requires WellFormed(s) && x in Active(s.gears)
    ensures WellFormed(Assign(s, x).0)
    ensures if FreeCount(s.slots) == 0 then Assign(s, x) == (s, false)
            else Assign(s, x).1 && Active(Assign(s, x).0.gears) == Active(s.gears) - {x}
                 && FreeCount(Assign(s, x).0.slots) == FreeCount(s.slots) - 1
  {
    FirstFreeMeans(s.slots, 0);
    assert s.slots[0..] == s.slots;
    var n := FirstFree(s.slots, 0);
    if FreeCount(s.slots) != 0 {
      var gears := Program(s.gears, x, n);
      var i :| 0 <= i < |s.gears| && s.gears[i].phase.Enabled? && s.gears[i].random == x;
      assert gears[i].short == n && !gears[i].phase.Disabled?;
      AssignedActive(s.gears, x, n);
      Taken(s.slots, n);
    }
  }

  lemma AssignKeeps(s: Line, x: nat)
    requires WellFormed(s)
    ensures WellFormed(Assign(s, x).0)
    ensures Active(s.gears) - {x} <= Active(Assign(s, x).0.gears) <= Active(s.gears)
  {
    AssignedActive(s.gears, x, FirstFree(s.slots, 0));
  }

  // ----- The chain -----

  lemma {:induction false} RunBelowAbove(s: set<nat>, y: nat, b: nat)
    requires (forall x :: x in s ==> y <= x) && b >= y
    ensures RunBelow(s, b) <= b - y
  {
    if b > 0 && b - 1 in s {
      RunBelowAbove(s, y, b - 1);
    }
  }

  /** Removing the lowest address shortens the run that it starts, and no other. */
  lemma {:induction false} RunBelowRemoved(s: set<nat>, y: nat, b: nat)
    requires IsLowest(s, y) && b > y
    ensures RunBelow(s - {y}, b) == if RunBelow(s, b) == b - y then RunBelow(s, b) - 1 else RunBelow(s, b)
  {
    if b - 1 in s {
      if b - 1 == y {
        RunBelowAbove(s, y, y);
      } else {
        RunBelowAbove(s, y, b - 1);
        RunBelowRemoved(s, y, b - 1);
      }
    } else {
      assert RunBelow(s, b) == 0;
    }
  }

  /**
    Addressable in the middle of a round: x was assigned last and `tries` more follow. A run that
    begins right after x has that many of its addresses still in this round.
   */
  ghost predicate ReachableAfter(s: set<nat>, x: int, tries: nat, b: nat) {
    b % 256 == 0 ==>
      b % 65536 != 0 && (RunBelow(s, b) - (if RunBelow(s, b) == b - x - 1 then tries else 0)) % 4 != 0
  }

  ghost predicate AddressableAfter(s: set<nat>, x: int, tries: nat) {
    forall b {:trigger ReachableAfter(s, x, tries, b)} :: b in s ==> ReachableAfter(s, x, tries, b)
  }

  /** Assigning the next address keeps what the condition says about each other one. */
  lemma ReachableNext(s: set<nat>, y: nat, tries: nat, b: nat)
    requires IsLowest(s, y) && b in s && b != y && tries > 0
    ensures ReachableAfter(s, y - 1, tries, b) <==> ReachableAfter(s - {y}, y, tries - 1, b)
  {
    RunBelowRemoved(s, y, b);
    RunJoins(s, y, b);
  }

  lemma {:induction false} RunJoins(s: set<nat>, y: nat, b: nat)
    requires y in s && b > y
    ensures RunBelow(s, b) != b - y - 1
  {
    if b - 1 in s && b - 1 != y {
      RunJoins(s, y, b - 1);
    }
  }

  lemma AddressableNext(s: set<nat>, y: nat, tries: nat)
    requires IsLowest(s, y) && y % 65536 != 0 && 0 < tries <= 4 && (tries == 4 ==> y % 256 != 0)
    ensures AddressableAfter(s, y - 1, tries) <==> AddressableAfter(s - {y}, y, tries - 1)
  {
    RunBelowAbove(s, y, y);
    assert ReachableAfter(s, y - 1, tries, y);
    forall b | b in s - {y}
      ensures ReachableAfter(s, y - 1, tries, b) <==> ReachableAfter(s - {y}, y, tries - 1, b)
    {
      ReachableNext(s, y, tries, b);
    }
    if AddressableAfter(s - {y}, y, tries - 1) {
      forall b | b in s
        ensures ReachableAfter(s, y - 1, tries, b)
      {
        if b != y {
          assert b in s - {y} && ReachableAfter(s - {y}, y, tries - 1, b);
          ReachableNext(s, y, tries, b);
        }
      }
    }
  }

  /** When the chain stops, the condition is that of a new round. */
  lemma AddressableStop(s: set<nat>, x: nat, tries: nat)
    requires forall b :: b in s ==> x < b
    requires tries == 0 || x + 1 !in s || (x + 1) % 65536 == 0
    ensures AddressableAfter(s, x, tries) <==> Addressable(s)
  {
    if tries > 0 && x + 1 in s {
      assert !Reachable(s, x + 1) && !ReachableAfter(s, x, tries, x + 1);
    } else {
      forall b | b in s
        ensures ReachableAfter(s, x, tries, b) <==> Reachable(s, b)
      {
        if tries > 0 {
          RunStops(s, x, b);
        }
      }
      if Addressable(s) {
        assert forall b :: b in s ==> Reachable(s, b);
      }
    }
  }

  lemma {:induction false} RunStops(s: set<nat>, x: nat, b: nat)
    requires x + 1 !in s && b > x + 1
    ensures RunBelow(s, b) < b - x - 1
  {
    if b - 1 in s {
      RunStops(s, x, b - 1);
    }
  }

  lemma FollowMeans(x: Address)
    requires x.Valid()
    ensures Follow(x).Valid()
    ensures if (x.Value() + 1) % 65536 == 0 then Follow(x).Value() <= x.Value() else Follow(x).Value() == x.Value() + 1
  {
    CarryAt(x.h, x.m * 256 + x.l + 1);
  }

  lemma CarryAt(h: nat, low: nat)
    requires 0 < low <= 65536
    ensures (h * 65536 + low) % 65536 == 0 <==> low == 65536
  {
  }

  /** While all that is left lies above x, the next address is heard exactly when it is one of the search. */
  lemma HeardNext(gears: seq<Gear>, x: Address)
    requires x.Valid() && forall a :: a in Active(gears) ==> x.Value() < a
    ensures Follow(x).Valid()
    ensures Heard(gears, Follow(x).Value()) <==> x.Value() + 1 in Active(gears) && (x.Value() + 1) % 65536 != 0
    ensures Heard(gears, Follow(x).Value()) ==> Follow(x).Value() == x.Value() + 1
  {
    FollowMeans(x);
    HeardMeans(gears, Follow(x).Value());
  }

  ghost predicate SufficientAfter(s: Line, x: Address, tries: nat) {
    AddressableAfter(Active(s.gears), x.Value(), tries) && |Active(s.gears)| <= FreeCount(s.slots)
  }

  /** Assigning the next address changes the count of addresses and of free slots alike. */
  lemma SufficientNext(s: Line, t: Line, n: nat, x: Address, y: Address, tries: nat)
    requires x.Value() + 1 == n == y.Value() && 0 < tries <= 3 && IsLowest(Active(s.gears), n) && n % 65536 != 0
    requires Active(t.gears) == Active(s.gears) - {n} && FreeCount(t.slots) == FreeCount(s.slots) - 1
    ensures SufficientAfter(s, x, tries) <==> SufficientAfter(t, y, tries - 1)
  {
    CardinalityOf(Active(s.gears), n);
    AddressableNext(Active(s.gears), n, tries);
  }

  lemma SufficientStop(s: Line, x: Address, tries: nat)
    requires x.Valid() && (forall a :: a in Active(s.gears) ==> x.Value() < a)
    requires tries == 0 || !Heard(s.gears, Follow(x).Value()) || FreeCount(s.slots) == 0
    ensures SufficientAfter(s, x, tries) <==> Sufficient(s)
  {
    var active := Active(s.gears);
    HeardNext(s.gears, x);
    if tries == 0 || !Heard(s.gears, Follow(x).Value()) {
      AddressableStop(active, x.Value(), tries);
    } else {
      CardinalityOf(active, x.Value() + 1);
      assert |active| > FreeCount(s.slots);
    }
  }

  lemma {:induction false} ChainActive(s: Line, x: Address, tries: nat)
    requires WellFormed(s) && x.Valid()
    ensures WellFormed(Chain(s, x, tries)) && Active(Chain(s, x, tries).gears) <= Active(s.gears)
    decreases tries
  {
    if tries > 0 && Heard(s.gears, Follow(x).Value()) {
      AssignKeeps(s, Follow(x).Value());
      FollowMeans(x);
      ChainActive(Assign(s, Follow(x).Value()).0, Follow(x), tries - 1);
    }
  }

  /** The chain is over, or goes on from the next address once that is assigned. */
  lemma ChainOne(s: Line, x: Address, tries: nat) returns (over: bool, t: Line)
    requires WellFormed(s) && tries <= 3 && x.Valid() && forall a :: a in Active(s.gears) ==> x.Value() < a
    ensures over ==> Chain(s, x, tries) == s && (SufficientAfter(s, x, tries) <==> Sufficient(s))
    ensures !over ==> 0 < tries && Chain(s, x, tries) == Chain(t, Follow(x), tries - 1)
    ensures !over ==> WellFormed(t) && Follow(x).Valid() && forall a :: a in Active(t.gears) ==> Follow(x).Value() < a
    ensures !over ==> (SufficientAfter(s, x, tries) <==> SufficientAfter(t, Follow(x), tries - 1))
  {
    HeardNext(s.gears, x);
    over, t := true, s;
    if tries == 0 || !Heard(s.gears, Follow(x).Value()) {
      SufficientStop(s, x, tries);
    } else {
      AssignWorks(s, x.Value() + 1);
      if FreeCount(s.slots) == 0 {
        SufficientStop(s, x, tries);
      } else {
        over, t := false, Assign(s, x.Value() + 1).0;
        SufficientNext(s, t, x.Value() + 1, x, Follow(x), tries);
      }
    }
  }

  lemma {:induction false} ChainMeans(s: Line, x: Address, tries: nat)
    requires WellFormed(s) && tries <= 3 && x.Valid() && forall a :: a in Active(s.gears) ==> x.Value() < a
    ensures Sufficient(Chain(s, x, tries)) <==> SufficientAfter(s, x, tries)
    decreases tries
  {
    var over, t := ChainOne(s, x, tries);
    if !over {
      ChainMeans(t, Follow(x), tries - 1);
    }
  }

  // ----- A round -----

  lemma CandidateMeans(a: nat)
    requires a < 0x100_0000
    ensures Candidate(a).Valid()
    ensures Candidate(a).Value() == if a == 0 then 1 else if a % 256 == 0 then a - 256 else a
  {
    if a > 0 {
      SplitMeans(a - 1);
      ByteBelow(a);
    }
  }

  lemma SplitMeans(n: nat)
    requires n < 0x100_0000
    ensures Split(n).Valid() && Split(n).Value() == n
  {
    DivTwice(n);
  }

  lemma DivTwice(n: nat)
    ensures n / 65536 == n / 256 / 256
  {
  }

  lemma ByteBelow(a: nat)
    requires a > 0
    ensures (a - 1) % 256 == (if a % 256 == 0 then 255 else a % 256 - 1)
  {
  }

  /** Address zero is never the search address when gear is assigned, so it stays. */
  lemma {:induction false} ZeroStays(s: Line, x: Address, tries: nat)
    requires WellFormed(s) && 0 in Active(s.gears) && x.h == x.m == 0 && x.l + tries < 255
    ensures WellFormed(Chain(s, x, tries)) && 0 in Active(Chain(s, x, tries).gears)
    decreases tries
  {
    if tries > 0 && Heard(s.gears, Follow(x).Value()) {
      AssignKeeps(s, Follow(x).Value());
      ZeroStays(Assign(s, Follow(x).Value()).0, Follow(x), tries - 1);
    }
  }

  lemma ZeroIsUnreachable(s: set<nat>)
    requires 0 in s
    ensures !Addressable(s)
  {
    assert !Reachable(s, 0);
  }

  /** With four tries to go, nothing is different from the beginning of a round. */
  lemma AddressableFour(s: set<nat>, x: int)
    ensures AddressableAfter(s, x, 4) <==> Addressable(s)
  {
    forall b | b in s
      ensures ReachableAfter(s, x, 4, b) <==> Reachable(s, b)
    {
    }
    if Addressable(s) {
      assert forall b :: b in s ==> Reachable(s, b);
    }
  }

  lemma CardinalityOf(s: set<nat>, a: nat)
    requires a in s
    ensures |s - {a}| == |s| - 1
  {
  }

  /** The found address is assigned, and up to three may follow. */
  lemma AfterFirst(s: Line, x: Address, tries: nat) returns (t: Line)
    requires tries == 3 && WellFormed(s) && x.Valid() && IsLowest(Active(s.gears), x.Value()) && x.Value() % 256 != 0
    requires FreeCount(s.slots) > 0
    ensures Assign(s, x.Value()) == (t, true) && WellFormed(t) && Active(t.gears) == Active(s.gears) - {x.Value()}
    ensures SufficientAfter(t, x, tries) <==> Sufficient(s)
  {
    var active, n := Active(s.gears), x.Value();
    AssignWorks(s, n);
    CardinalityOf(active, n);
    t := Assign(s, n).0;
    AddressableFirst(active, n, tries);
  }

  lemma AddressableFirst(active: set<nat>, n: nat, tries: nat)
    requires tries == 3 && IsLowest(active, n) && n % 256 != 0
    ensures AddressableAfter(active - {n}, n, tries) <==> Addressable(active)
  {
    LowByte(n);
    AddressableFour(active, n - 1);
    AddressableNext(active, n, tries + 1);
  }

  lemma LowByte(n: nat)
    requires n % 256 != 0
    ensures n > 0 && n % 65536 != 0
  {
  }

  lemma RoundFrom(s: Line, x: Address, tries: nat)
    requires tries == 3 && WellFormed(s) && x.Valid() && IsLowest(Active(s.gears), x.Value()) && x.Value() % 256 != 0
    ensures var a := Assign(s, x.Value());
            var t := if a.1 then Chain(a.0, x, tries) else a.0;
            WellFormed(t) && (Sufficient(t) <==> Sufficient(s)) && (Sufficient(s) ==> Active(t.gears) < Active(s.gears))
  {
    if FreeCount(s.slots) > 0 {
      var t := AfterFirst(s, x, tries);
      ChainActive(t, x, tries);
      ChainMeans(t, x, tries);
      assert x.Value() !in Active(Chain(t, x, tries).gears);
    } else {
      AssignWorks(s, x.Value());
      CardinalityOf(Active(s.gears), x.Value());
    }
  }

  /** Gear with random address zero is never assigned. */
  lemma RoundZero(s: Line)
    requires WellFormed(s) && IsLowest(Active(s.gears), 0)
    ensures WellFormed(Round(s)) && !Sufficient(s) && !Sufficient(Round(s))
  {
    CandidateMeans(0);
    assert Candidate(0) == Address(0, 0, 1);
    ZeroIsUnreachable(Active(s.gears));
    HeardMeans(s.gears, 1);
    AssignKeeps(s, 1);
    ZeroStays(Assign(s, 1).0, Candidate(0), 3);
    assert 0 in Active(Round(s).gears);
    ZeroIsUnreachable(Active(Round(s).gears));
  }

  /** When the lowest address has low byte zero, the round changes nothing. */
  lemma RoundStuck(s: Line, a: nat)
    requires WellFormed(s) && IsLowest(Active(s.gears), a) && a > 0 && a % 256 == 0
    ensures Round(s) == s && !Sufficient(s)
  {
    CandidateMeans(a);
    HeardMeans(s.gears, Candidate(a).Value());
    assert RunBelow(Active(s.gears), a) == 0 && !Reachable(Active(s.gears), a);
  }

  /**
    A round does not change whether the conditions are met, and if they are it assigns an address.
   */
  lemma RoundMeans(s: Line)
    requires WellFormed(s)
    ensures WellFormed(Round(s)) && (Sufficient(Round(s)) <==> Sufficient(s))
    ensures Sufficient(s) && Active(s.gears) != {} ==> Active(Round(s).gears) < Active(s.gears)
  {
    if Active(s.gears) != {} {
      var a := Lowest(Active(s.gears));
      if a == 0 {
        RoundZero(s);
      } else if a % 256 == 0 {
        RoundStuck(s, a);
      } else {
        CandidateMeans(a);
        HeardMeans(s.gears, a);
        RoundFrom(s, Candidate(a), 3);
      }
    }
  }

  lemma {:induction false} RoundsKeep(s: Line, n: nat)
    requires WellFormed(s)
    ensures WellFormed(Rounds(s, n)) && (Sufficient(Rounds(s, n)) <==> Sufficient(s))
    decreases n
  {
    if n > 0 {
      RoundMeans(s);
      RoundsKeep(Round(s), n - 1);
    }
  }

  /** There are no more rounds than addresses. */
  lemma {:induction false} RoundsEnd(s: Line, n: nat)
    requires WellFormed(s) && Sufficient(s) && |Active(s.gears)| <= n
    ensures Active(Rounds(s, n).gears) == {}
    decreases n
  {
    if n > 0 {
      var t := Round(s);
      RoundMeans(s);
      if Active(s.gears) != {} {
        SmallerSet(Active(t.gears), Active(s.gears));
      }
      RoundsEnd(t, n - 1);
    }
  }

  lemma {:induction false} SmallerSet(a: set<nat>, b: set<nat>)
    requires a < b
    ensures |a| < |b|
    decreases |a|
  {
    if a != {} {
      var x :| x in a;
      var y :| y in b && y !in a;
      assert y in b - {x} && y !in a - {x};
      SmallerSet(a - {x}, b - {x});
    }
  }

  /**
    Search_Device ends exactly when there is a free slot for every random address, none of them is a
    multiple of 65536, and none with low byte zero begins a group of four consecutive addresses.
   */
  lemma SearchEndsExactly(s: Line)
    requires WellFormed(s)
    ensures (exists n :: Active(Rounds(s, n).gears) == {}) <==> Sufficient(s)
  {
    if Sufficient(s) {
      RoundsEnd(s, |Active(s.gears)|);
    } else {
      forall n: nat
        ensures Active(Rounds(s, n).gears) != {}
      {
        RoundsKeep(s, n);
        if Active(Rounds(s, n).gears) == {} {
          assert Sufficient(Rounds(s, n));
        }
      }
    }
  }

  // ----- What the search leaves behind -----

  /** No gear has left the search yet. */
  ghost predicate Fresh(s: Line) {
    WellFormed(s) && forall i :: 0 <= i < |s.gears| ==> !s.gears[i].phase.Withdrawn?
  }

  /** One gear before and after: it has not been touched, or has a slot that was free. */
  ghost predicate Numbered(before: Gear, after: Gear, s0: Line, s: Line)
    requires |s0.slots| == |s.slots| == SLOTS
  {
    && after.random == before.random
    && (if after.phase.Withdrawn?
        then before.phase.Enabled? && after.short < SLOTS && s0.slots[after.short] > SLOTS
            && s.slots[after.short] == after.short
        else after == before)
  }

  /** A slot is as before, or was free and now belongs to gear with its number. */
  ghost predicate SlotUsed(k: nat, s0: Line, s: Line)
    requires |s0.slots| == |s.slots| == SLOTS && k < SLOTS
  {
    s.slots[k] == s0.slots[k]
    || (s0.slots[k] > SLOTS && s.slots[k] == k
        && exists i :: 0 <= i < |s.gears| && s.gears[i].phase.Withdrawn? && s.gears[i].short == k)
  }

  /** Two gears of the search are numbered alike exactly when they drew the same random address. */
  ghost predicate Distinguished(a: Gear, b: Gear) {
    && (a.phase.Withdrawn? && b.phase.Withdrawn? ==> (a.short == b.short <==> a.random == b.random))
    && (a.phase.Withdrawn? && b.phase.Enabled? ==> a.random != b.random)
  }

  ghost predicate Recorded(s0: Line, s: Line) {
    && |s0.slots| == |s.slots| == SLOTS && |s.gears| == |s0.gears|
    && (forall i :: 0 <= i < |s.gears| ==> Numbered(s0.gears[i], s.gears[i], s0, s))
    && (forall i, j :: 0 <= i < |s.gears| && 0 <= j < |s.gears| ==> Distinguished(s.gears[i], s.gears[j]))
    && (forall k :: 0 <= k < SLOTS ==> SlotUsed(k, s0, s))
  }

  lemma AssignRecords(s0: Line, s: Line, x: nat)
    requires Recorded(s0, s) && WellFormed(s) && x in Active(s.gears)
    ensures Recorded(s0, Assign(s, x).0)
  {
    var t := Assign(s, x).0;
    AssignWorks(s, x);
    FirstFreeMeans(s.slots, 0);
    assert s.slots[0..] == s.slots;
    if FreeCount(s.slots) != 0 {
      var n := FirstFree(s.slots, 0);
      assert SlotUsed(n, s0, s);
      forall i | 0 <= i < |s.gears|
        ensures Numbered(s0.gears[i], t.gears[i], s0, t)
        ensures s.gears[i].phase.Withdrawn? ==> s.gears[i].random != x && s.gears[i].short != n
        ensures t.gears[i] == Left(Programmed(s.gears[i], x, n), x)
      {
        assert Numbered(s0.gears[i], s.gears[i], s0, s);
        var a :| 0 <= a < |s.gears| && s.gears[a].phase.Enabled? && s.gears[a].random == x;
        assert Distinguished(s.gears[i], s.gears[a]);
      }
      forall i, j | 0 <= i < |t.gears| && 0 <= j < |t.gears|
        ensures Distinguished(t.gears[i], t.gears[j])
      {
        assert Distinguished(s.gears[i], s.gears[j]);
      }
      forall k | 0 <= k < SLOTS
        ensures SlotUsed(k, s0, t)
      {
        NewSlotUsed(s0, s, x, n, k, t);
      }
    }
  }

  lemma NewSlotUsed(s0: Line, s: Line, x: nat, n: nat, k: nat, t: Line)
    requires |s0.slots| == |s.slots| == SLOTS && k < SLOTS && n < SLOTS && s0.slots[n] > SLOTS && SlotUsed(k, s0, s)
    requires t == Line(Withdraw(Program(s.gears, x, n), x), s.slots[n := n]) && x in Active(s.gears)
    requires forall i :: 0 <= i < |s.gears| && s.gears[i].phase.Withdrawn? ==> s.gears[i].random != x
    ensures SlotUsed(k, s0, t)
  {
    if k == n {
      var i :| 0 <= i < |s.gears| && s.gears[i].phase.Enabled? && s.gears[i].random == x;
      assert t.gears[i].phase.Withdrawn? && t.gears[i].short == n;
    } else if s.slots[k] != s0.slots[k] {
      var i :| 0 <= i < |s.gears| && s.gears[i].phase.Withdrawn? && s.gears[i].short == k;
      assert t.gears[i] == s.gears[i];
    }
  }

  lemma RecordedAtFirst(s: Line)
    requires Fresh(s)
    ensures Kept(s, s)
  {
  }

  /** Of two gears of the search the one with the lower random address comes first, and has the lower number. */
  ghost predicate InOrder(a: Gear, b: Gear) {
    && (a.phase.Withdrawn? && b.phase.Withdrawn? && a.random < b.random ==> a.short < b.short)
    && (a.phase.Withdrawn? && b.phase.Enabled? ==> a.random < b.random)
  }

  /** The numbers given out are the lowest that were free, in the order of the random addresses. */
  ghost predicate Ascending(s0: Line, s: Line) {
    && |s0.slots| == |s.slots| == SLOTS
    && (forall i, j :: 0 <= i < |s.gears| && 0 <= j < |s.gears| ==> InOrder(s.gears[i], s.gears[j]))
    && (forall k, j :: 0 <= k < j < SLOTS && s0.slots[k] > SLOTS && s0.slots[j] > SLOTS && s.slots[j] <= SLOTS ==>
          s.slots[k] <= SLOTS)
  }

  /** The next number is higher than those given out before. */
  lemma NextNumber(s0: Line, s: Line, n: nat, i: nat)
    requires Recorded(s0, s) && Ascending(s0, s) && n < SLOTS && s.slots[n] > SLOTS
    requires i < |s.gears| && s.gears[i].phase.Withdrawn?
    ensures s.gears[i].short < n && s0.slots[n] > SLOTS
  {
    assert Numbered(s0.gears[i], s.gears[i], s0, s);
    assert SlotUsed(n, s0, s);
  }

  lemma AssignAscends(s0: Line, s: Line, x: nat)
    requires Recorded(s0, s) && Ascending(s0, s) && WellFormed(s) && IsLowest(Active(s.gears), x)
    ensures Ascending(s0, Assign(s, x).0)
  {
    var t := Assign(s, x).0;
    AssignWorks(s, x);
    FirstFreeMeans(s.slots, 0);
    assert s.slots[0..] == s.slots;
    if FreeCount(s.slots) != 0 {
      var n := FirstFree(s.slots, 0);
      assert SlotUsed(n, s0, s);
      forall i, j | 0 <= i < |t.gears| && 0 <= j < |t.gears|
        ensures InOrder(t.gears[i], t.gears[j])
      {
        AssignedInOrder(s0, s, x, n, i, j);
      }
    }
  }

  lemma AssignedInOrder(s0: Line, s: Line, x: nat, n: nat, i: nat, j: nat)
    requires Recorded(s0, s) && Ascending(s0, s) && IsLowest(Active(s.gears), x)
    requires n < SLOTS && s.slots[n] > SLOTS && i < |s.gears| && j < |s.gears|
    ensures InOrder(Left(Programmed(s.gears[i], x, n), x), Left(Programmed(s.gears[j], x, n), x))
  {
    assert InOrder(s.gears[i], s.gears[j]) && Distinguished(s.gears[i], s.gears[j]);
    assert InOrder(s.gears[j], s.gears[i]);
    var a :| 0 <= a < |s.gears| && s.gears[a].phase.Enabled? && s.gears[a].random == x;
    assert InOrder(s.gears[i], s.gears[a]) && InOrder(s.gears[j], s.gears[a]);
    if s.gears[i].phase.Withdrawn? {
      NextNumber(s0, s, n, i);
    }
    if s.gears[j].phase.Enabled? {
      assert s.gears[j].random in Active(s.gears);
    }
  }

  /** What is kept about a line while addresses are assigned in their order. */
  ghost predicate Kept(s0: Line, s: Line) {
    WellFormed(s) && Recorded(s0, s) && Ascending(s0, s)
  }

  lemma AssignKept(s0: Line, s: Line, x: nat)
    requires Kept(s0, s) && IsLowest(Active(s.gears), x)
    ensures Kept(s0, Assign(s, x).0)
  {
    AssignWorks(s, x);
    AssignRecords(s0, s, x);
    AssignAscends(s0, s, x);
  }

  lemma {:induction false} ChainKept(s0: Line, s: Line, x: Address, tries: nat)
    requires Kept(s0, s) && x.Valid() && forall a :: a in Active(s.gears) ==> x.Value() < a
    ensures Kept(s0, Chain(s, x, tries))
    decreases tries
  {
    var next := Follow(x).Value();
    if tries > 0 && Heard(s.gears, next) {
      var t := NextKept(s0, s, x);
      if Assign(s, next).1 {
        ChainKept(s0, t, Follow(x), tries - 1);
        assert Chain(s, x, tries) == Chain(t, Follow(x), tries - 1);
      } else {
        assert Chain(s, x, tries) == t;
      }
    } else {
      assert Chain(s, x, tries) == s;
    }
  }

  lemma NextKept(s0: Line, s: Line, x: Address) returns (t: Line)
    requires Kept(s0, s) && x.Valid() && (forall a :: a in Active(s.gears) ==> x.Value() < a)
    requires Heard(s.gears, Follow(x).Value())
    ensures t == Assign(s, Follow(x).Value()).0 && Kept(s0, t) && Follow(x).Valid()
    ensures Assign(s, Follow(x).Value()).1 ==> forall a :: a in Active(t.gears) ==> Follow(x).Value() < a
  {
    var next := x.Value() + 1;
    HeardNext(s.gears, x);
    AssignWorks(s, next);
    AssignKept(s0, s, next);
    t := Assign(s, next).0;
  }

  lemma RoundKept(s0: Line, s: Line)
    requires Kept(s0, s) && Sufficient(s)
    ensures Kept(s0, Round(s))
  {
    var active := Active(s.gears);
    if active != {} {
      var a := Lowest(active);
      CandidateMeans(a);
      HeardMeans(s.gears, Candidate(a).Value());
      if a == 0 {
        ZeroIsUnreachable(active);
      } else if Heard(s.gears, Candidate(a).Value()) {
        AssignWorks(s, a);
        AssignKept(s0, s, a);
        if FreeCount(s.slots) > 0 {
          ChainKept(s0, Assign(s, a).0, Candidate(a), 3);
        }
      }
    }
  }
}
