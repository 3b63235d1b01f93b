/**
  The nibble search and the commissioning loop of dali_tool.cpp (lines 69-404) as they run: against gear
  that keeps the search address in three registers, of which a probe resends only one.
 */
module DaliCommission {
  import opened DaliSearch

  /** send_nible_t */
  datatype Part = High | Middle | Low | All

  function Put(a: Address, part: Part, v: nat): Address {
    match part
    case High => a.(h := v)
    case Middle => a.(m := v)
    case Low => a.(l := v)
    case All => a
  }

  function ByteOf(a: Address, part: Part): nat {
    match part
    case High => a.h
    case Middle => a.m
    case Low => a.l
    case All => 0
  }

  /** The byte with upper and lower nibble given, one of them replaced. */
  function Combine(upper: nat, lower: nat, high: bool, k: nat): nat {
    if high then k * 16 + lower else upper * 16 + k
  }

  lemma Nibbles(upper: nat, lower: nat)
    requires lower < 16
    ensures (upper * 16 + lower) / 16 == upper && (upper * 16 + lower) % 16 == lower
  {
  }

  /** 1 << n */
  function Bit(n: nat): nat {
    if n == 0 then 1 else if n == 1 then 2 else if n == 2 then 4 else if n == 3 then 8 else 16
  }

  /** Subtraction of bytes. */
  function Minus(a: nat, b: nat): nat {
    if a < b then (a + 255 * b) % 256 else a - b
  }

  /** The gear on the line. It answers for its random address; every gear hears every search address. */
  class Bus {
    var search: Address
    var gears: seq<Gear>

    constructor (gears: seq<Gear>)
      ensures this.gears == gears
    {
      this.gears := gears;
      search := Address(255, 255, 255);
    }
  }

  class Commissioner {
    const bus: Bus
    const slots: array<nat>
    /** The three bytes that the search functions get pointers to. */
    var at: Address

    ghost function View(): Line
      reads this, bus, slots
    {
      Line(bus.gears, slots[..])
    }

    constructor (bus: Bus, slots: array<nat>)
      ensures this.bus == bus && this.slots == slots
    {
      this.bus, this.slots, at := bus, slots, Address(0, 0, 0);
    }

    /** send_compare on a line without errors: silence counts as no. */
    method SendCompare(x: Address, snd: Part) returns (yes: bool)
      modifies bus`search
      ensures bus.search == (if snd == All then x else Put(old(bus.search), snd, ByteOf(x, snd)))
      ensures yes == Heard(bus.gears, bus.search.Value())
    {
      if snd == All || snd == High {
        bus.search := bus.search.(h := x.h);
      }
      if snd == All || snd == Middle {
        bus.search := bus.search.(m := x.m);
      }
      if snd == All || snd == Low {
        bus.search := bus.search.(l := x.l);
      }
      yes := Heard(bus.gears, bus.search.Value());
    }

    /** Whether gear would answer with the byte under search set to v. */
    ghost predicate Yes(snd: Part, v: nat)
      reads this, bus
    {
      Heard(bus.gears, Put(at, snd, v).Value())
    }

    /** The gear has the bytes that are not under search. */
    ghost predicate InStep(snd: Part)
      reads this, bus
    {
      Put(bus.search, snd, 0) == Put(at, snd, 0)
    }

    /** One probe of a single byte: the answer is about the address that the search means. */
    method Probe(snd: Part, v: nat) returns (yes: bool)
      requires snd != All && InStep(snd)
      modifies bus`search
      ensures InStep(snd) && yes == Yes(snd, v)
    {
      yes := SendCompare(Put(at, snd, v), snd);
    }

    /** The inner loop of q_upH0: down from a nibble that gets an answer to the first that gets none. */
    method ScanDown(high: bool, snd: Part, ust: nat, alt: nat, top: nat, ek1: nat, ghost below: nat)
      returns (number: nat, ghost k: nat)
      requires snd != All && InStep(snd) && ek1 <= below < top < 16
      requires Yes(snd, Combine(ust, alt, high, top)) && !Yes(snd, Combine(ust, alt, high, below))
      modifies bus`search
      ensures InStep(snd) && below <= k < top && number == Combine(ust, alt, high, k)
      ensures !Yes(snd, number) && Yes(snd, Combine(ust, alt, high, k + 1))
    {
      var ek := top;
      number := Combine(ust, alt, high, ek);
      while ek >= ek1
        invariant InStep(snd) && below <= ek <= top && number == Combine(ust, alt, high, ek)
        invariant Yes(snd, Combine(ust, alt, high, if ek == top then ek else ek + 1))
      {
        var yes := Probe(snd, number);
        if !yes {
          k := ek;
          return;
        }
        ek := ek - 1;
        number := Combine(ust, alt, high, ek);
      }
      assert false;
    }

    /** The inner loop of q_downH0: up from a nibble that gets no answer to the last that gets none. */
    method ScanUp(high: bool, snd: Part, ust: nat, alt: nat, start: nat, ek1: nat) returns (number: nat, ghost k: nat)
      requires snd != All && InStep(snd) && start < ek1 < 16
      requires !Yes(snd, Combine(ust, alt, high, start)) && Yes(snd, Combine(ust, alt, high, ek1))
      modifies bus`search
      ensures InStep(snd) && start <= k < ek1 && number == Combine(ust, alt, high, k)
      ensures !Yes(snd, number) && Yes(snd, Combine(ust, alt, high, k + 1))
    {
      var ek := start;
      number := Combine(ust, alt, high, ek);
      var ss, previous := 0, number;
      while ek <= ek1
        invariant InStep(snd) && start <= ek <= ek1 && number == Combine(ust, alt, high, ek)
                && (ss == 0 <==> ek == start)
        invariant previous == Combine(ust, alt, high, if ss == 0 then ek else ek - 1) && !Yes(snd, previous)
      {
        var yes := Probe(snd, number);
        if yes {
          k := ek - 1;
          if ss != 0 {
            number := previous;
          }
          return;
        }
        ek := ek + 1;
        ss := ss + 1;
        previous := number;
        number := Combine(ust, alt, high, ek);
      }
      assert false;
    }

    /** q_upH0: the highest nibble that gets no answer, when 8 gets none. */
    method QUp(high: bool, snd: Part, ghost upper: nat, ghost lower: nat) returns (number: nat, ghost k: nat)
      requires snd != All && InStep(snd) && lower < 16 && ByteOf(at, snd) == upper * 16 + lower
      requires !Yes(snd, Combine(upper, lower, high, 8))
      modifies bus`search
      ensures InStep(snd) && 8 <= k < 16 && number == Combine(upper, lower, high, k)
      ensures !Yes(snd, number) && (k < 15 ==> Yes(snd, Combine(upper, lower, high, k + 1)))
    {
      Nibbles(upper, lower);
      var ust, alt := ByteOf(at, snd) / 16, ByteOf(at, snd) % 16;
      var ek: nat, count: nat := 0, 3;
      while count < 4
        invariant InStep(snd) && (count < 4 ==> ek == 16 - Bit(count + 1)) && (count >= 4 ==> count == 255 && ek == 15)
        invariant !Yes(snd, Combine(upper, lower, high, if ek == 0 then 8 else ek))
        decreases if count < 4 then count + 1 else 0
      {
        ghost var below := if ek == 0 then 8 else ek;
        ek := ek + Bit(count);
        number := Combine(ust, alt, high, ek);
        var yes := Probe(snd, number);
        if yes {
          number, k := ScanDown(high, snd, ust, alt, ek, Minus(ek, Bit(count + 1)), below);
          return;
        }
        count := if count == 0 then 255 else count - 1;
      }
      k := 15;
      number := Combine(ust, alt, high, 15);
    }

    /** q_downH0: when 8 gets an answer, the highest nibble that gets none, or 0. */
    method QDown(high: bool, snd: Part, ghost upper: nat, ghost lower: nat) returns (number: nat, ghost k: nat)
      requires snd != All && InStep(snd) && lower < 16 && ByteOf(at, snd) == upper * 16 + lower
      requires Yes(snd, Combine(upper, lower, high, 8))
      modifies bus`search
      ensures InStep(snd) && k < 8 && number == Combine(upper, lower, high, k)
      ensures (k > 0 ==> !Yes(snd, number)) && Yes(snd, Combine(upper, lower, high, k + 1))
    {
      Nibbles(upper, lower);
      var ust, alt := ByteOf(at, snd) / 16, ByteOf(at, snd) % 16;
      var ek: nat, count: nat := 0, 3;
      while count < 4
        invariant InStep(snd) && (count < 4 || count == 255)
        invariant Yes(snd,
                Combine(upper, lower, high, if count == 255 then 1 else if count == 3 then 8 else Bit(count + 1)))
        decreases if count < 4 then count + 1 else 0
      {
        ek := Bit(count);
        number := Combine(ust, alt, high, ek);
        var yes := Probe(snd, number);
        if !yes {
          number, k := ScanUp(high, snd, ust, alt, ek, Bit(count + 1));
          return;
        }
        count := if count == 0 then 255 else count - 1;
      }
      k := 0;
      number := Combine(ust, alt, high, 0);
    }

    /** One half of find_block. */
    method FindNibble(high: bool, snd: Part, ghost upper: nat, ghost lower: nat) returns (number: nat, ghost k: nat)
      requires snd != All && lower < 16 && ByteOf(at, snd) == upper * 16 + lower
      requires ByteOf(at, snd) == Combine(upper, lower, high, 8)
      modifies bus`search
      ensures k < 16 && number == Combine(upper, lower, high, k)
      ensures (k > 0 ==> !Yes(snd, number)) && (k < 15 ==> Yes(snd, Combine(upper, lower, high, k + 1)))
    {
      var yes := SendCompare(at, All);
      assert Put(at, snd, ByteOf(at, snd)) == at;
      if !yes {
        number, k := QUp(high, snd, upper, lower);
      } else {
        number, k := QDown(high, snd, upper, lower);
      }
    }

    /** find_block: the highest value of the byte that gets no answer, or 0. */
    method FindBlock(snd: Part)
      requires snd != All && at.Valid()
      modifies bus`search, this`at
      ensures at.Valid() && at == Put(old(at), snd, ByteOf(at, snd))
      ensures ByteOf(at, snd) > 0 ==> !Heard(bus.gears, at.Value())
      ensures ByteOf(at, snd) < 255 ==> Heard(bus.gears, Put(at, snd, ByteOf(at, snd) + 1).Value())
    {
      at := Put(at, snd, 0x80);
      var number; ghost var upper, lower;
      number, upper := FindNibble(true, snd, 8, 0);
      at := Put(at, snd, number + 8);
      number, lower := FindNibble(false, snd, upper, 8);
      at := Put(at, snd, number);
    }

    /** find_min_number: from (0, 0, 0), one less than the lowest address, or 0. */
    method FindMinNumber(ghost a: nat)
      requires at == Address(0, 0, 0) && a < 0x100_0000 && forall x :: Heard(bus.gears, x) <==> a <= x
      modifies bus`search, this`at
      ensures at.Valid() && at.Value() == Under(a)
    {
      FindBlock(High);
      FindBlock(Middle);
      FindBlock(Low);
    }

    /** find_addr */
    method FindAddr() returns (n: nat)
      requires slots.Length == SLOTS
      ensures n == FirstFree(slots[..], 0)
      ensures if n < 64 then slots[n] > 64 && forall k :: 0 <= k < n ==> slots[k] <= 64
              else n == 200 && forall k :: 0 <= k < 64 ==> slots[k] <= 64
    {
      var i := 0;
      while i < SLOTS
        invariant i <= SLOTS && FirstFree(slots[..], 0) == FirstFree(slots[..], i)
        invariant forall k :: 0 <= k < i ==> slots[k] <= 64
      {
        if slots[i] > SLOTS {
          return i;
        }
        i := i + 1;
      }
      n := NO_SLOT;
    }

    /** AtamaVeKontrol: PROGRAM SHORT ADDRESS twice, then VERIFY SHORT ADDRESS until it is answered, at most twice. */
    method ProgramAndVerify(n: nat) returns (yes: bool)
      modifies bus`gears
      ensures bus.gears == Program(old(bus.gears), bus.search.Value(), n) && yes == Verified(bus.gears, n)
    {
      bus.gears := Program(bus.gears, bus.search.Value(), n);
      ProgramTwice(old(bus.gears), bus.search.Value(), n);
      bus.gears := Program(bus.gears, bus.search.Value(), n);
      yes := Verified(bus.gears, n);
      if !yes {
        yes := Verified(bus.gears, n);
      }
    }

    /** AtamaYAP, for the gear whose random address the registers hold. */
    method AssignAddress() returns (ok: bool)
      requires slots.Length == SLOTS
      modifies bus`gears, slots
      ensures (View(), ok) == Assign(old(View()), bus.search.Value())
    {
      var n := FindAddr();
      FirstFreeBound(slots[..], 0);
      if n > SLOTS {
        return false;
      }
      var yes := ProgramAndVerify(n);
      if !yes {
        ProgramTwice(old(bus.gears), bus.search.Value(), n);
        yes := ProgramAndVerify(n);
      }
      if yes {
        slots[n] := n;
        bus.gears := Withdraw(bus.gears, bus.search.Value());
      }
      return yes;
    }

    /** SonrakiniATA */
    method AssignNext() returns (ok: bool)
      requires slots.Length == SLOTS
      modifies bus, slots, this`at
      ensures at == Follow(old(at)) && bus.search == at
      ensures (View(), ok)
              == (if Heard(old(bus.gears), at.Value()) then Assign(old(View()), at.Value()) else (old(View()), false))
    {
      ok := false;
      if at.l == 255 {
        at := at.(m := if at.m == 255 then 0 else at.m + 1, l := 0);
      } else {
        at := at.(l := at.l + 1);
      }
      var yes := SendCompare(at, All);
      if yes {
        ok := AssignAddress();
      }
    }

    /** Lines 379-388: the address found, and up to three more. */
    method AssignGroup()
      requires slots.Length == SLOTS && bus.search == at
      modifies bus, slots, this`at
      ensures View() == (var (t, ok) := Assign(old(View()), old(at).Value()); if ok then Chain(t, old(at), 3) else t)
    {
      ghost var x := at;
      var ok := AssignAddress();
      if ok {
        ghost var t1 := View();
        ok := AssignNext();
        if ok {
          ghost var t2 := View();
          ChainMore(t1, x, 3, t2);
          ok := AssignNext();
          if ok {
            ChainMore(t2, Follow(x), 2, View());
            ok := AssignNext();
          }
        }
      }
    }

    /**
      Search_Device after INITIALISE and RANDOMISE: at the end no gear is left in the search, and each
      has a short address of its own that was free and is in its slot.
     */
    method SearchDevice()
      requires slots.Length == SLOTS && Fresh(View()) && Sufficient(View())
      modifies bus, slots, this`at
      ensures Active(bus.gears) == {} && Recorded(old(View()), View()) && Ascending(old(View()), View())
    {
      var searching := true;
      RecordedAtFirst(View());
      while searching
        invariant slots.Length == SLOTS && Sufficient(View()) && Kept(old(View()), View())
        invariant !searching ==> Active(bus.gears) == {}
        decreases searching, |Active(bus.gears)|
      {
        ghost var before := View();
        RoundMeans(before);
        RoundKept(old(View()), before);
        at := Address(255, 255, 255);
        var yes := SendCompare(at, All);
        AllHeard(before);
        if !yes {
          searching := false;
          yes := SendCompare(at, All);
        } else {
          SmallerSet(Active(Round(before).gears), Active(before.gears));
          ghost var a := Lowest(Active(bus.gears));
          LowestHeard(bus.gears, a);
          at := Address(0, 0, 0);
          FindMinNumber(a);
          SplitValue(at);
          at := at.(l := if at.l == 255 then 0 else at.l + 1);
          yes := SendCompare(at, All);
          if yes {
            AssignGroup();
          }
        }
      }
    }
  }

  lemma ProgramTwice(gears: seq<Gear>, x: nat, n: nat)
    ensures Program(Program(gears, x, n), x, n) == Program(gears, x, n)
  {
  }

  lemma {:induction false} FirstFreeBound(slots: seq<nat>, k: nat)
    requires k <= |slots|
    ensures FirstFree(slots, k) == NO_SLOT || FirstFree(slots, k) < |slots|
    decreases |slots| - k
  {
    if k < |slots| {
      FirstFreeBound(slots, k + 1);
    }
  }

  lemma ChainMore(s: Line, x: Address, tries: nat, t: Line)
    requires tries > 0 && Heard(s.gears, Follow(x).Value()) && Assign(s, Follow(x).Value()) == (t, true)
    ensures Chain(s, x, tries) == Chain(t, Follow(x), tries - 1)
  {
  }

  lemma AllHeard(s: Line)
    requires WellFormed(s)
    ensures Heard(s.gears, 0xFF_FFFF) <==> Active(s.gears) != {}
  {
    HeardMeans(s.gears, 0xFF_FFFF);
  }

  lemma LowestHeard(gears: seq<Gear>, a: nat)
    requires IsLowest(Active(gears), a)
    ensures forall x :: Heard(gears, x) <==> a <= x
  {
    forall x: nat
      ensures Heard(gears, x) <==> a <= x
    {
      HeardMeans(gears, x);
    }
  }

  lemma SplitValue(a: Address)
    requires a.Valid()
    ensures Split(a.Value()) == a
  {
    DivTwice(a.Value());
  }
}
