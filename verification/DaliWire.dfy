/**
  The DALI line in numbers: what dali.cpp (lines 199-237, 271-420 and 460-500) puts on the wire for a
  package, which edges its interrupt handler takes for what, and what becomes of frames of any length.
  Nothing here is said in the terms of DaliLine's encoder and decoder.
 */
module DaliWire {
  import opened DaliLine

  // ----- What is sent -----

  function Low(us: nat): Segment { Segment(false, us) }
  function High(us: nat): Segment { Segment(true, us) }

  /** The k-th level of a frame: half a bit of 416 us each, a 1 going up in its middle; then 1664 us of rest. */
  function Level(bits: seq<bool>, k: nat): Segment
    requires k <= 2 * |bits| + 2
  {
    if k == 2 * |bits| + 2 then High(1664)
    else if k == 0 then Low(416)
    else if k == 1 then High(416)
    else if bits[k / 2 - 1] == (k % 2 == 1) then High(416)
    else Low(416)
  }

  lemma {:induction false} BitsWritten(bits: seq<bool>)
    ensures |Manchester(bits)| == 2 * |bits|
    ensures forall k :: 0 <= k < 2 * |bits| ==>
            Manchester(bits)[k] == if bits[k / 2] == (k % 2 == 1) then High(416) else Low(416)
    decreases |bits|
  {
    if bits != [] {
      BitsWritten(bits[1..]);
      var rest := Manchester(bits[1..]);
      assert Manchester(bits) == OneBit(bits[0]) + rest;
      forall k | 0 <= k < 2 * |bits|
        ensures Manchester(bits)[k] == if bits[k / 2] == (k % 2 == 1) then High(416) else Low(416)
      {
        if k >= 2 {
          assert Manchester(bits)[k] == rest[k - 2] && (k - 2) / 2 == k / 2 - 1 && (k - 2) % 2 == k % 2;
        }
      }
    }
  }

  /** A frame is a start bit 1, the bits, and two bits of rest. */
  lemma FrameWritten(bits: seq<bool>)
    ensures |Frame(bits)| == 2 * |bits| + 3
    ensures forall k :: 0 <= k < |Frame(bits)| ==> Frame(bits)[k] == Level(bits, k)
  {
    BitsWritten(bits);
    forall k | 0 <= k < |Frame(bits)|
      ensures Frame(bits)[k] == Level(bits, k)
    {
      if 2 <= k < 2 * |bits| + 2 {
        assert Frame(bits)[k] == Manchester(bits)[k - 2] && (k - 2) / 2 == k / 2 - 1 && (k - 2) % 2 == k % 2;
      }
    }
  }

  /** A number in binary digits, the highest first. */
  lemma HighestFirst(bits: seq<bool>, b: bool)
    ensures Value([]) == 0 && Value(bits + [b]) == 2 * Value(bits) + if b then 1 else 0
  {
    ShiftConcat(0, bits, [b]);
    assert [b][1..] == [];
  }

  /** One, two or three bytes of the package, by its kind, in eight bits each. */
  lemma PackageWritten(p: Package)
    requires Valid(p)
    ensures var v := match p.block
                     case Block24 => p.data0 * 0x1_0000 + p.data1 * 0x100 + p.data2
                     case Block16 => p.data0 * 0x100 + p.data1
                     case _ => p.data0;
            Value(PackageBits(p)) == v
                && |PackageBits(p)| == match p.block case Block24 => 24 case Block16 => 16 case _ => 8
  {
    PackageValue(p);
  }

  // ----- What is received -----

  /** An edge within a frame: up to 100 us after the last one it is none, from 583 us on it has skipped one. */
  lemma EdgeWithin(d: Decoder, t: int, level: bool)
    requires d.begun && d.per.Going?
    ensures var us, r := t - d.per.since, Interrupt(d, Edge(t, level));
            && (us <= 100 ==> r == d)
            && (us > 100 ==>
                  && r.begun && r.per == Going(t) && r.kom == d.kom && r.posted == d.posted
                  && r.bitCount == (d.bitCount + if us <= 582 then 1 else 2) % 256
                  && r.word == if r.bitCount % 2 == 1 then d.word
                               else (2 * d.word + if level then 1 else 0) % 0x1_0000_0000)
  {
  }

  /** A rise starts a frame from 292 to 540 us after the fall that started the timer. */
  lemma RiseStarts(d: Decoder, t: int)
    requires !d.begun && d.per.Going?
    ensures var us, r := t - d.per.since, Interrupt(d, Edge(t, true));
            r == if 292 <= us <= 540 then d.(begun := true, per := Going(t), bitCount := 0) else d
  {
  }

  /** A fall starts the timer when the frame timer, which counts to a second, has come past 1746 us. */
  lemma FallStarts(d: Decoder, t: int)
    requires !d.begun
    ensures var us, r := (t - d.kom) % 1_000_000, Interrupt(d, Edge(t, false));
            r == if us > 1746 then d.(per := Going(t), kom := t, bitCount := 0, word := 0) else d.(kom := t, word := 0)
  {
  }

  /** The alarm comes 2164 us after the last edge. */
  lemma AlarmComes(d: Decoder, t: int)
    requires d.per.Going?
    ensures t - d.per.since < 2164 ==> Expire(d, t) == d
    ensures t - d.per.since >= 2164 ==>
              Expire(d, t) == d.(begun := false, per := Halted(2164), kom := d.per.since + 2164,
                  posted := d.posted + [Item(d.word, d.bitCount)])
  {
  }

  // ----- What a frame of any length is taken for -----

  function Ends(bits: seq<bool>): bool {
    bits != [] && !bits[|bits| - 1]
  }

  /** The kind of a frame of n bits: of 20 bits, by the last one; the count of the bits starts again at 128. */
  function Kind(n: nat, low: bool): Block {
    var k := n % 128;
    if k < 16 then Block8
    else if k == 16 then Block16
    else if k < 20 || (k == 20 && !low) then BlockErr
    else Block24
  }

  lemma CountOf(bits: seq<bool>)
    ensures Taken(bits).bitCount == 2 * (|bits| % 128) + if Ends(bits) then 1 else 0
  {
    var n := HalfCount(bits);
    assert n == 256 * (|bits| / 128) + (2 * (|bits| % 128) + if Ends(bits) then 1 else 0);
  }

  lemma WordOf(v: nat)
    ensures Word(v) % 0x100_0000 == v % 0x100_0000
  {
    assert v == 0x1_0000_0000 * (v / 0x1_0000_0000) + Word(v);
  }

  /**
    Whatever frame arrives, the package it is taken for depends on its length and its last 24 bits: 8 and 16
    bits are those bytes, other frames of fewer than 16 bits the answer 0xFF, those of 17 to 19 bits errors,
    and longer ones their last three bytes.
   */
  lemma AnyFrame(d: Decoder, bits: seq<bool>, edges: seq<Edge>, later: int)
    requires |edges| > 0 && Ready(d, edges[0].t) && Arrives(Frame(bits), edges)
    requires Receive(d, edges).per.Going? ==> later >= Receive(d, edges).per.since + 2164
    ensures var r := Expire(Receive(d, edges), later);
            !r.begun && |r.posted| == |d.posted| + 1 && IsTakenFor(bits, Classify(r.posted[|d.posted|]))
  {
    FrameIsDecoded(d, bits, edges, later);
    TakenFor(bits);
  }

  ghost predicate IsTakenFor(bits: seq<bool>, p: Package) {
    var k, v := |bits| % 128, Value(bits) % 0x100_0000;
    && p.block == Kind(|bits|, Ends(bits))
    && (Joined(p) ==
        if k == 8 then v % 0x100 * 0x1_0000
        else if k < 16 then 0xFF_0000
        else if k == 16 then v % 0x1_0000 * 0x100
        else v)
  }

  /** The bytes that a package is read as. */
  function Joined(p: Package): nat {
    p.data0 * 0x1_0000 + p.data1 * 0x100 + p.data2
  }

  lemma ThreeBytes(w: nat)
    ensures w / 0x1_0000 % 256 * 0x1_0000 + w / 0x100 % 256 * 0x100 + w % 256 == w % 0x100_0000
  {
    var a, b, c := w / 0x100_0000, w / 0x1_0000, w / 0x100;
    assert b == 256 * a + b % 256 && c == 256 * b + c % 256 && w == 256 * c + w % 256;
  }

  lemma Remainder(x: nat, q: nat, r: nat)
    requires x == 0x100_0000 * q + r && r < 0x100_0000
    ensures x % 0x100_0000 == r
  {
  }

  lemma Moved(w: nat)
    ensures w * 0x1_0000 % 0x100_0000 == w % 0x100 * 0x1_0000 && w * 0x100 % 0x100_0000 == w % 0x1_0000 * 0x100
  {
    Remainder(w * 0x1_0000, w / 0x100, w % 0x100 * 0x1_0000);
    Remainder(w * 0x100, w / 0x1_0000, w % 0x1_0000 * 0x100);
  }

  /** The classification, by the number of bits and whether the frame ended low. */
  lemma ClassifyMeans(w: nat, k: nat, low: bool)
    requires k < 128
    ensures var p := Classify(Item(w, 2 * k + if low then 1 else 0));
            p.block == Kind(k, low) && Joined(p) ==
            if k == 8 then w % 0x100 * 0x1_0000
            else if k < 16 then 0xFF_0000
            else if k == 16 then w % 0x1_0000 * 0x100
            else w % 0x100_0000
  {
    Moved(w);
    ThreeBytes(if k == 8 then w * 0x1_0000 else if k < 16 then 0xFF * 0x1_0000 else if k == 16 then w * 0x100 else w);
  }

  lemma TakenFor(bits: seq<bool>)
    ensures IsTakenFor(bits, Classify(Taken(bits)))
  {
    CountOf(bits);
    var w, v := Word(Value(bits)), Value(bits);
    WordOf(v);
    Rests(w, v);
    ClassifyMeans(w, |bits| % 128, Ends(bits));
  }

  lemma Rests(w: nat, v: nat)
    requires w % 0x100_0000 == v % 0x100_0000
    ensures w % 0x1_0000 == v % 0x100_0000 % 0x1_0000 && w % 0x100 == v % 0x100_0000 % 0x100
  {
    assert w == 0x100_0000 * (w / 0x100_0000) + v % 0x100_0000;
  }
}
