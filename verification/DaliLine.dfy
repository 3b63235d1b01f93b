/**
  The DALI line code of dali.cpp (lines 9-24, 199-292, 307-425 and 460-500): the Manchester encoder
  of the sender, the decoder that sees only edges and the time between them, and the classification of
  what it collected. IEC 62386-101 defines the bit encoding (clause 7) and the timing (clause 8).
 */
module DaliLine {

  const HALF_PERIOD := 416
  const FULL_PERIOD := 832
  const HALF_PERIOD_UP := 541
  const HALF_PERIOD_DOWN := 291
  const FULL_PERIOD_DOWN := 582
  const FULL_PERIOD_DOWN_3 := 1746
  const ALARM := 2164
  const PARAZIT := 100
  /** The frame timer starts again at zero every second. */
  const KOM_RELOAD := 1000000

  datatype Block = Block8 | Block16 | Block24 | BlockErr

  /** package_t: data0 in bits 16-23 of the package, data1 in bits 8-15, data2 in bits 0-7. */
  datatype Package = Package(data0: nat, data1: nat, data2: nat, block: Block)

  // ----- The sender -----

  /** A level on the line and for how many microseconds it is held. */
  datatype Segment = Segment(level: bool, us: nat)

  function OneBit(b: bool): seq<Segment> {
    [Segment(!b, HALF_PERIOD), Segment(b, HALF_PERIOD)]
  }

  function Manchester(bits: seq<bool>): seq<Segment> {
    if bits == [] then [] else OneBit(bits[0]) + Manchester(bits[1..])
  }

  /** The first n bits of a byte, most significant first, as the shifting loop of _send_byte takes them. */
  function TopBits(tmp: nat, n: nat): seq<bool>
    decreases n
  {
    if n == 0 then [] else [tmp % 256 >= 128] + TopBits(tmp * 2 % 256, n - 1)
  }

  /** The bits that send puts on the line for a package. */
  function PackageBits(p: Package): seq<bool> {
    TopBits(p.data0, 8)
    + (if p.block.Block16? || p.block.Block24? then TopBits(p.data1, 8) else [])
    + (if p.block.Block24? then TopBits(p.data2, 8) else [])
  }

  /** The whole frame: start bit, data bits and stop bits. */
  function Frame(bits: seq<bool>): seq<Segment> {
    OneBit(true) + Manchester(bits) + [Segment(true, 2 * FULL_PERIOD)]
  }

  /** The levels of a waveform, half period by half period. */
  function Halves(wave: seq<Segment>): seq<bool> {
    if wave == [] then []
    else seq(wave[0].us / HALF_PERIOD, _ => wave[0].level) + Halves(wave[1..])
  }

  // ----- The receiver -----

  datatype Timer = Halted(count: int) | Going(since: int)

  function Count(timer: Timer, t: int): int {
    match timer
    case Halted(count) => count
    case Going(since) => t - since
  }

  datatype Item = Item(word: nat, bitCount: nat)

  /** Hgelen is a uint32_t. */
  function Word(v: nat): nat {
    v % 0x1_0000_0000
  }

  /** bit_count is a uint8_t. */
  function Counter(n: nat): nat {
    n % 256
  }

  /** The receiver's fields, with what it has put on the packet queue. */
  datatype Decoder = Decoder(begun: bool, per: Timer, kom: int, bitCount: nat, word: nat, posted: seq<Item>)

  datatype Edge = Edge(t: int, level: bool)

  /** timer_alarm_cb, when the alarm time has come by t. */
  function Expire(d: Decoder, t: int): Decoder {
    if d.per.Going? && t - d.per.since >= ALARM then
      d.(begun := false, per := Halted(ALARM), kom := d.per.since + ALARM,
          posted := d.posted + [Item(d.word, d.bitCount)])
    else d
  }

  function Reset(timer: Timer, t: int): Timer {
    match timer
    case Halted(_) => Halted(0)
    case Going(_) => Going(t)
  }

  /** int_handler */
  function Interrupt(d: Decoder, e: Edge): Decoder {
    var kk := Count(d.per, e.t);
    if !d.begun && !e.level then
      var started := if (e.t - d.kom) % KOM_RELOAD > FULL_PERIOD_DOWN_3 then d.(per := Going(e.t), bitCount := 0)
          else d;
      started.(kom := e.t, word := 0)
    else if !d.begun then
      if HALF_PERIOD_DOWN < kk < HALF_PERIOD_UP then d.(per := Reset(d.per, e.t), begun := true, bitCount := 0) else d
    else if kk > PARAZIT then
      var count := Counter(d.bitCount + if kk > FULL_PERIOD_DOWN then 2 else 1);
      d.(bitCount := count,
         word := if count % 2 == 0 then Word(d.word * 2 + if e.level then 1 else 0) else d.word,
         per := Reset(d.per, e.t))
    else d
  }

  function Receive(d: Decoder, edges: seq<Edge>): Decoder
    decreases |edges|
  {
    if edges == [] then d else Receive(Interrupt(Expire(d, edges[0].t), edges[0]), edges[1..])
  }

  /** paket_task: what the queue item is taken for. */
  function Classify(item: Item): Package {
    var (package, block) :=
      if item.bitCount == 16 || item.bitCount == 17 then (item.word * 0x1_0000, Block8)
      else if item.bitCount == 32 || item.bitCount == 33 then (item.word * 0x100, Block16)
      else if item.bitCount > 40 then (item.word, Block24)
      else if item.bitCount < 32 then (0xFF * 0x1_0000, Block8)
      else (item.word, BlockErr);
    Package(package / 0x1_0000 % 256, package / 0x100 % 256, package % 256, block)
  }

  // ----- What may arrive for a frame -----

  /** An interval of n half periods as the receiver may measure it. */
  predicate Timed(n: nat, us: int) {
    if n == 1 then PARAZIT < us <= FULL_PERIOD_DOWN else n == 2 && FULL_PERIOD_DOWN < us < ALARM
  }

  /** The next half with another level, or the end. */
  function NextChange(halves: seq<bool>, c: nat, level: bool): (n: nat)
    requires c <= |halves|
    ensures c <= n <= |halves| && (n < |halves| ==> halves[n] != level)
    ensures forall j :: c <= j < n ==> halves[j] == level
    decreases |halves| - c
  {
    if c == |halves| || halves[c] != level then c else NextChange(halves, c + 1, level)
  }

  /**
    The edges may come from these halves, when the one at t began half c: each change of level gives an
    edge in time, and further edges come at most 100 us after it. Nothing else follows.
   */
  ghost predicate Renders(halves: seq<bool>, c: nat, t: int, edges: seq<Edge>)
    requires c < |halves|
    decreases |edges|
  {
    var next := NextChange(halves, c, halves[c]);
    if edges == [] then next == |halves|
    else if edges[0].t - t <= PARAZIT then Renders(halves, c, t, edges[1..])
    else
      && next < |halves| && edges[0].level == halves[next] && Timed(next - c, edges[0].t - t)
      && Renders(halves, next, edges[0].t, edges[1..])
  }

  // ----- The halves of a frame -----

  /** A word into which the bits are shifted one after the other. */
  function Shift(word: nat, bits: seq<bool>): nat
    decreases |bits|
  {
    if bits == [] then word else Shift(word * 2 + (if bits[0] then 1 else 0), bits[1..])
  }

  function Value(bits: seq<bool>): nat {
    Shift(0, bits)
  }

  lemma {:induction false} HalvesConcat(a: seq<Segment>, b: seq<Segment>)
    ensures Halves(a + b) == Halves(a) + Halves(b)
    decreases |a|
  {
    if a == [] {
      assert a + b == b;
    } else {
      assert (a + b)[1..] == a[1..] + b;
      HalvesConcat(a[1..], b);
    }
  }

  lemma HalvesOfOneBit(b: bool)
    ensures Halves(OneBit(b)) == [!b, b]
  {
    assert OneBit(b)[1..] == [Segment(b, HALF_PERIOD)];
    assert Halves([Segment(b, HALF_PERIOD)]) == [b] + Halves([]);
  }

  /** Each bit is a change of level in its middle. */
  lemma {:induction false} HalvesOfBits(bits: seq<bool>)
    ensures |Halves(Manchester(bits))| == 2 * |bits|
    ensures forall i :: 0 <= i < |bits| ==>
            Halves(Manchester(bits))[2 * i] == !bits[i] && Halves(Manchester(bits))[2 * i + 1] == bits[i]
    decreases |bits|
  {
    if bits != [] {
      var h, rest := Halves(Manchester(bits)), Halves(Manchester(bits[1..]));
      HalvesOfBits(bits[1..]);
      HalvesConcat(OneBit(bits[0]), Manchester(bits[1..]));
      HalvesOfOneBit(bits[0]);
      assert h == [!bits[0], bits[0]] + rest;
      forall i | 0 <= i < |bits|
        ensures h[2 * i] == !bits[i] && h[2 * i + 1] == bits[i]
      {
        if i > 0 {
          assert h[2 * i] == rest[2 * (i - 1)] && h[2 * i + 1] == rest[2 * (i - 1) + 1];
        }
      }
    }
  }

  /** The frame from the middle of its start bit on. */
  ghost predicate IsBody(halves: seq<bool>, bits: seq<bool>) {
    && |halves| == 2 * |bits| + 5 && halves[0]
    && (forall i :: 0 <= i < |bits| ==> halves[2 * i + 1] == !bits[i] && halves[2 * i + 2] == bits[i])
    && (forall j :: 2 * |bits| < j < |halves| ==> halves[j])
  }

  lemma BodyOfFrame(bits: seq<bool>)
    ensures |Halves(Frame(bits))| > 0 && !Halves(Frame(bits))[0] && IsBody(Halves(Frame(bits))[1..], bits)
  {
    var stop := [Segment(true, 2 * FULL_PERIOD)];
    var h := Halves(Frame(bits));
    HalvesConcat(OneBit(true), Manchester(bits));
    HalvesConcat(OneBit(true) + Manchester(bits), stop);
    HalvesOfOneBit(true);
    HalvesOfBits(bits);
    assert Halves(stop) == seq(4, _ => true) + Halves([]);
    assert h == [false, true] + Halves(Manchester(bits)) + Halves(stop);
    var data := Halves(Manchester(bits));
    forall i | 0 <= i < |bits|
      ensures h[1..][2 * i + 1] == !bits[i] && h[1..][2 * i + 2] == bits[i]
    {
      assert h[1..][2 * i + 1] == data[2 * i] && h[1..][2 * i + 2] == data[2 * i + 1];
    }
  }

  // ----- The receiver follows the sender -----

  /** A level never lasts more than two halves before the data ends, and never across the middle of a bit. */
  lemma BodyStep(halves: seq<bool>, bits: seq<bool>, c: nat, next: nat)
    requires IsBody(halves, bits) && c < next < |halves| && (forall j :: c <= j < next ==> halves[j] == halves[c])
    requires halves[next] != halves[c]
    ensures next <= 2 * |bits| + 1
    ensures if next % 2 == 0 then c / 2 == next / 2 - 1 && halves[next] == bits[c / 2] else c / 2 == next / 2
  {
    assert halves[next - 1] == halves[c];
    Middle(halves, bits, c);
  }

  lemma Middle(halves: seq<bool>, bits: seq<bool>, c: nat)
    requires IsBody(halves, bits)
    ensures c / 2 < |bits| ==> halves[c / 2 * 2 + 1] == !bits[c / 2] && halves[c / 2 * 2 + 2] == bits[c / 2]
  {
    if c / 2 < |bits| {
      var i := c / 2;
      assert halves[2 * i + 1] == !bits[i] && halves[2 * i + 2] == bits[i];
    }
  }

  /** A level begins at half c. */
  predicate Begins(halves: seq<bool>, c: nat)
    requires c < |halves|
  {
    c == 0 || halves[c - 1] != halves[c]
  }

  /** Twice as many halves as bits, and one more when the last bit ends low. */
  function HalfCount(bits: seq<bool>): nat {
    2 * |bits| + if bits == [] || bits[|bits| - 1] then 0 else 1
  }

  lemma BodyEnds(halves: seq<bool>, bits: seq<bool>, c: nat)
    requires IsBody(halves, bits) && c <= 2 * |bits| + 1 && (forall j :: c <= j < |halves| ==> halves[j] == halves[c])
    requires Begins(halves, c)
    ensures c / 2 == |bits| && c == HalfCount(bits)
  {
    Middle(halves, bits, c);
    assert halves[|halves| - 1] && halves[2 * |bits| + 1];
    if bits != [] {
      assert halves[2 * (|bits| - 1) + 2] == bits[|bits| - 1];
    }
  }

  lemma {:induction false} ShiftConcat(word: nat, a: seq<bool>, b: seq<bool>)
    ensures Shift(word, a + b) == Shift(Shift(word, a), b)
    decreases |a|
  {
    if a == [] {
      assert a + b == b;
    } else {
      assert (a + b)[1..] == a[1..] + b;
      ShiftConcat(word * 2 + (if a[0] then 1 else 0), a[1..], b);
    }
  }

  lemma ValueNext(bits: seq<bool>, i: nat)
    requires i < |bits|
    ensures Value(bits[..i + 1]) == Value(bits[..i]) * 2 + if bits[i] then 1 else 0
  {
    assert bits[..i + 1] == bits[..i] + [bits[i]];
    ShiftConcat(0, bits[..i], [bits[i]]);
    assert [bits[i]][1..] == [];
  }

  /** An edge in time moves the count on by the halves that have passed. */
  lemma EdgeCounts(d: Decoder, e: Edge, n: nat)
    requires d.begun && d.per.Going? && Timed(n, e.t - d.per.since)
    ensures var r := Interrupt(Expire(d, e.t), e);
            var count := Counter(d.bitCount + n);
            r == d.(bitCount := count,
                    word := if count % 2 == 0 then Word(d.word * 2 + if e.level then 1 else 0) else d.word,
                    per := Going(e.t))
  {
  }

  lemma CounterTurns(n: nat, q: nat)
    ensures Counter(n + 256 * q) == Counter(n)
  {
  }

  lemma CounterAdds(c: nat, n: nat)
    ensures Counter(Counter(c) + n) == Counter(c + n) && Counter(c + n) % 2 == (c + n) % 2
  {
    CounterTurns(Counter(c) + n, c / 256);
    Parity(c + n);
  }

  lemma Parity(n: nat)
    ensures Counter(n) % 2 == n % 2
  {
    assert n == 256 * (n / 256) + Counter(n);
  }

  lemma WordTurns(v: nat, q: nat)
    ensures Word(v + 0x1_0000_0000 * q) == Word(v)
  {
  }

  lemma WordShifts(v: nat, b: nat)
    ensures Word(Word(v) * 2 + b) == Word(v * 2 + b)
  {
    WordTurns(Word(v) * 2 + b, 2 * (v / 0x1_0000_0000));
  }

  /** What the receiver has collected when half c of the body has begun. */
  ghost predicate At(d: Decoder, bits: seq<bool>, c: nat) {
    d.begun && d.per.Going? && c / 2 <= |bits| && d.bitCount == Counter(c) && d.word == Word(Value(bits[..c / 2]))
  }

  /** One edge in time takes it to the half that begins there. */
  lemma EdgeFollows(d: Decoder, halves: seq<bool>, bits: seq<bool>, c: nat, e: Edge, next: nat)
    requires IsBody(halves, bits) && At(d, bits, c) && next == NextChange(halves, c, halves[c]) && c < next < |halves|
    requires e.level == halves[next] && Timed(next - c, e.t - d.per.since)
    ensures var r := Interrupt(Expire(d, e.t), e);
            At(r, bits, next) && r.per.since == e.t && r.posted == d.posted && next <= 2 * |bits| + 1
  {
    BodyStep(halves, bits, c, next);
    EdgeCounts(d, e, next - c);
    CounterAdds(c, next - c);
    AtNext(d, Interrupt(Expire(d, e.t), e), bits, c, e.level, next);
  }

  lemma AtNext(d: Decoder, r: Decoder, bits: seq<bool>, c: nat, level: bool, next: nat)
    requires At(d, bits, c) && r.begun && r.per.Going? && r.bitCount == Counter(next)
    requires r.word == if next % 2 == 0 then Word(d.word * 2 + if level then 1 else 0) else d.word
    requires next <= 2 * |bits| + 1
    requires if next % 2 == 0 then c / 2 == next / 2 - 1 && level == bits[c / 2] else c / 2 == next / 2
    ensures At(r, bits, next)
  {
    if next % 2 == 0 {
      BitShifts(bits, c / 2);
    }
  }

  lemma BitShifts(bits: seq<bool>, i: nat)
    requires i < |bits|
    ensures Word(Word(Value(bits[..i])) * 2 + if bits[i] then 1 else 0) == Word(Value(bits[..i + 1]))
  {
    ValueNext(bits, i);
    WordShifts(Value(bits[..i]), if bits[i] then 1 else 0);
  }

  lemma {:induction false} Follows(d: Decoder, halves: seq<bool>, bits: seq<bool>, c: nat, edges: seq<Edge>)
    requires IsBody(halves, bits) && c <= 2 * |bits| + 1 && At(d, bits, c) && Begins(halves, c)
    requires Renders(halves, c, d.per.since, edges)
    ensures Collected(d, Receive(d, edges), bits)
    decreases |edges|
  {
    if edges == [] {
      BodyEnds(halves, bits, c);
      assert bits[..c / 2] == bits;
    } else if edges[0].t - d.per.since <= PARAZIT {
      Follows(d, halves, bits, c, edges[1..]);
    } else {
      var next := NextChange(halves, c, halves[c]);
      EdgeFollows(d, halves, bits, c, edges[0], next);
      assert halves[next - 1] == halves[c];
      Follows(Interrupt(Expire(d, edges[0].t), edges[0]), halves, bits, next, edges[1..]);
    }
  }

  /** The receiver has all bits of a frame. */
  ghost predicate Collected(d: Decoder, r: Decoder, bits: seq<bool>) {
    && r.begun && r.per.Going? && r.word == Word(Value(bits)) && r.bitCount == Counter(HalfCount(bits))
    && r.posted == d.posted
  }

  // ----- The whole frame -----

  /** What may arrive for a waveform that begins with the first half of the start bit. */
  ghost predicate Arrives(wave: seq<Segment>, edges: seq<Edge>) {
    && |Halves(wave)| > 1 && !Halves(wave)[0]
    && |edges| >= 2 && edges[0].level == false && edges[1].level == true
    && HALF_PERIOD_DOWN < edges[1].t - edges[0].t < HALF_PERIOD_UP
    && Renders(Halves(wave)[1..], 0, edges[1].t, edges[2..])
  }

  /** The receiver is waiting, and its frame timer has come far enough. */
  ghost predicate Ready(d: Decoder, t: int) {
    !d.begun && d.per.Halted? && (t - d.kom) % KOM_RELOAD > FULL_PERIOD_DOWN_3
  }

  lemma StartBit(d: Decoder, fall: Edge, rise: Edge)
    requires Ready(d, fall.t) && !fall.level && rise.level && HALF_PERIOD_DOWN < rise.t - fall.t < HALF_PERIOD_UP
    ensures var r := Interrupt(Expire(Interrupt(Expire(d, fall.t), fall), rise.t), rise);
            r == d.(begun := true, per := Going(rise.t), kom := fall.t, bitCount := 0, word := 0)
  {
  }

  lemma ReceiveTwo(d: Decoder, a: Edge, b: Edge, rest: seq<Edge>)
    ensures var e := Interrupt(Expire(d, a.t), a);
            Receive(d, [a, b] + rest) == Receive(Interrupt(Expire(e, b.t), b), rest)
  {
    assert ([a, b] + rest)[1..] == [b] + rest;
    assert ([b] + rest)[1..] == rest;
  }

  lemma FrameIsReceived(d: Decoder, bits: seq<bool>, fall: Edge, rise: Edge, rest: seq<Edge>)
    requires Ready(d, fall.t) && !fall.level && rise.level && HALF_PERIOD_DOWN < rise.t - fall.t < HALF_PERIOD_UP
    requires |Halves(Frame(bits))| > 1 && Renders(Halves(Frame(bits))[1..], 0, rise.t, rest)
    ensures Collected(d, Receive(d, [fall, rise] + rest), bits)
  {
    ReceiveTwo(d, fall, rise, rest);
    StartBit(d, fall, rise);
    BodyOfFrame(bits);
    var body := d.(begun := true, per := Going(rise.t), kom := fall.t, bitCount := 0, word := 0);
    assert bits[..0] == [];
    Follows(body, Halves(Frame(bits))[1..], bits, 0, rest);
  }

  /** The item that is left of a frame. */
  function Taken(bits: seq<bool>): Item {
    Item(Word(Value(bits)), Counter(HalfCount(bits)))
  }

  lemma Alarmed(d: Decoder, r: Decoder, bits: seq<bool>, later: int)
    requires Collected(d, r, bits) && later >= r.per.since + ALARM
    ensures Expire(r, later).posted == d.posted + [Taken(bits)] && !Expire(r, later).begun
  {
  }

  /**
    Whatever arrives for a frame of any number of bits, the receiver ends with the last 32 of them and
    the last eight binary digits of a count of twice as many as all, and one more when the last is 0; the
    alarm hands them over.
   */
  lemma FrameIsDecoded(d: Decoder, bits: seq<bool>, edges: seq<Edge>, later: int)
    requires |edges| > 0 && Ready(d, edges[0].t) && Arrives(Frame(bits), edges)
    requires Receive(d, edges).per.Going? ==> later >= Receive(d, edges).per.since + ALARM
    ensures Expire(Receive(d, edges), later).posted == d.posted + [Taken(bits)]
    ensures !Expire(Receive(d, edges), later).begun
  {
    assert edges == [edges[0], edges[1]] + edges[2..];
    FrameIsReceived(d, bits, edges[0], edges[1], edges[2..]);
    Alarmed(d, Receive(d, edges), bits, later);
  }

  // ----- The package -----

  function Power(n: nat): nat {
    if n == 0 then 1 else 2 * Power(n - 1)
  }

  lemma Twice(x: nat, p: nat)
    ensures (2 * x) * p == x * (2 * p)
  {
  }

  lemma TopBit(tmp: nat, n: nat) returns (b: nat, next: nat)
    requires tmp < 256 && n > 0
    ensures b == (if tmp >= 128 then 1 else 0) && next < 256 && b * 256 + next == 2 * tmp
    ensures TopBits(tmp, n)[0] == (b == 1) && TopBits(tmp, n)[1..] == TopBits(next, n - 1)
  {
    b := if tmp >= 128 then 1 else 0;
    next := tmp * 2 - b * 256;
    assert tmp * 2 % 256 == next;
    assert TopBits(tmp, n) == [tmp >= 128] + TopBits(next, n - 1);
  }

  /** Shifting n bits of a byte in doubles word and byte together n times. */
  lemma {:induction false} ShiftTop(word: nat, tmp: nat, n: nat) returns (t: nat)
    requires tmp < 256
    ensures t < 256 && Shift(word, TopBits(tmp, n)) * 256 + t == (word * 256 + tmp) * Power(n)
    ensures |TopBits(tmp, n)| == n
    decreases n
  {
    if n == 0 {
      t := tmp;
    } else {
      var b, next := TopBit(tmp, n);
      t := ShiftTop(word * 2 + b, next, n - 1);
      Twice(word * 256 + tmp, Power(n - 1));
    }
  }

  lemma PowerOfEight()
    ensures Power(8) == 256
  {
    assert Power(4) == 16;
    assert Power(6) == 64;
  }

  lemma ShiftByte(word: nat, data: nat)
    requires data < 256
    ensures Shift(word, TopBits(data, 8)) == word * 256 + data && |TopBits(data, 8)| == 8
  {
    var t := ShiftTop(word, data, 8);
    PowerOfEight();
  }

  /** What of a package goes over the line. */
  function Carried(p: Package): Package {
    match p.block
    case Block24 => p
    case Block16 => p.(data2 := 0)
    case _ => p.(data1 := 0, data2 := 0, block := Block8)
  }

  predicate Valid(p: Package) {
    p.data0 < 256 && p.data1 < 256 && p.data2 < 256
  }

  lemma PackageValue(p: Package)
    requires Valid(p)
    ensures var n := |PackageBits(p)|;
            var v := Value(PackageBits(p));
            match p.block
            case Block24 => n == 24 && v == (p.data0 * 256 + p.data1) * 256 + p.data2
            case Block16 => n == 16 && v == p.data0 * 256 + p.data1
            case _ => n == 8 && v == p.data0
  {
    var a, b, c := TopBits(p.data0, 8), TopBits(p.data1, 8), TopBits(p.data2, 8);
    ShiftByte(0, p.data0);
    ShiftByte(p.data0, p.data1);
    ShiftByte(p.data0 * 256 + p.data1, p.data2);
    match p.block
    case Block24 =>
      ShiftConcat(0, a, b);
      ShiftConcat(0, a + b, c);
    case Block16 =>
      assert PackageBits(p) == a + b;
      ShiftConcat(0, a, b);
    case _ =>
      assert PackageBits(p) == a;
  }

  lemma Bytes(d0: nat, d1: nat, d2: nat)
    requires d0 < 256 && d1 < 256 && d2 < 256
    ensures var w := (d0 * 256 + d1) * 256 + d2;
            w / 0x1_0000 % 256 == d0 && w / 0x100 % 256 == d1 && w % 256 == d2
  {
    var w := (d0 * 256 + d1) * 256 + d2;
    assert w / 0x100 == d0 * 256 + d1;
    assert w / 0x1_0000 == d0;
  }

  lemma SmallWord(v: nat)
    requires v < 0x100_0000
    ensures Word(v) == v
  {
  }

  lemma SmallCounter(n: nat)
    requires n < 256
    ensures Counter(n) == n
  {
  }

  lemma HalfCountMeans(bits: seq<bool>)
    ensures HalfCount(bits) / 2 == |bits|
  {
  }

  /** A package is short enough for word and count. */
  lemma NothingWraps(p: Package) returns (n: nat)
    requires Valid(p)
    ensures n / 2 == |PackageBits(p)| && Taken(PackageBits(p)) == Item(Value(PackageBits(p)), n)
  {
    PackageValue(p);
    SmallWord(Value(PackageBits(p)));
    HalfCountMeans(PackageBits(p));
    n := HalfCount(PackageBits(p));
    SmallCounter(n);
  }

  /** By the bytes that make up a word. */
  lemma ClassifiedAs(p: Package, n: nat, word: nat)
    requires Valid(p)
    requires match p.block
             case Block24 => n / 2 == 24 && word == (p.data0 * 256 + p.data1) * 256 + p.data2
             case Block16 => n / 2 == 16 && word == p.data0 * 256 + p.data1
             case _ => n / 2 == 8 && word == p.data0
    ensures Classify(Item(word, n)) == Carried(p)
  {
    match p.block
    case Block24 => Bytes(p.data0, p.data1, p.data2);
    case Block16 => Bytes(p.data0, p.data1, 0);
    case _ => Bytes(p.data0, 0, 0);
  }

  lemma Classified(p: Package)
    requires Valid(p)
    ensures Classify(Taken(PackageBits(p))) == Carried(p)
  {
    var n := NothingWraps(p);
    PackageValue(p);
    ClassifiedAs(p, n, Value(PackageBits(p)));
  }

  /**
    Round trip: whatever a frame's edges look like within the tolerances, the package that was sent is
    what the receiver takes the collected item for, and it is waiting again.
   */
  lemma PackageArrives(d: Decoder, p: Package, edges: seq<Edge>, later: int)
    requires Valid(p) && |edges| > 0 && Ready(d, edges[0].t) && Arrives(Frame(PackageBits(p)), edges)
    requires Receive(d, edges).per.Going? ==> later >= Receive(d, edges).per.since + ALARM
    ensures var r := Expire(Receive(d, edges), later);
            !r.begun && |r.posted| == |d.posted| + 1 && r.posted[..|d.posted|] == d.posted
            && Classify(r.posted[|d.posted|]) == Carried(p)
  {
    FrameIsDecoded(d, PackageBits(p), edges, later);
    Classified(p);
  }

  /** The edges of the sender's own waveform, with nothing disturbed. */
  function Edges(halves: seq<bool>, c: nat, t: int): seq<Edge>
    requires c < |halves|
    decreases |halves| - c
  {
    var next := NextChange(halves, c, halves[c]);
    if next == |halves| then []
    else
      var e := Edge(t + (next - c) * HALF_PERIOD, halves[next]);
      [e] + Edges(halves, next, e.t)
  }

  lemma {:induction false} EdgesRender(halves: seq<bool>, bits: seq<bool>, c: nat, t: int)
    requires IsBody(halves, bits) && c <= 2 * |bits| + 1
    ensures Renders(halves, c, t, Edges(halves, c, t))
    decreases |halves| - c
  {
    var next := NextChange(halves, c, halves[c]);
    if next < |halves| {
      BodyStep(halves, bits, c, next);
      var e := Edge(t + (next - c) * HALF_PERIOD, halves[next]);
      EdgesRender(halves, bits, next, e.t);
      assert Edges(halves, c, t)[1..] == Edges(halves, next, e.t);
    }
  }

  /** The undisturbed frame is one of those that may arrive. */
  lemma FrameArrives(bits: seq<bool>, t: int)
    ensures |Halves(Frame(bits))| > 1
    ensures var body := Halves(Frame(bits))[1..];
            Arrives(Frame(bits), [Edge(t, false), Edge(t + HALF_PERIOD, true)] + Edges(body, 0, t + HALF_PERIOD))
  {
    BodyOfFrame(bits);
    var body := Halves(Frame(bits))[1..];
    EdgesRender(body, bits, 0, t + HALF_PERIOD);
    var edges := [Edge(t, false), Edge(t + HALF_PERIOD, true)] + Edges(body, 0, t + HALF_PERIOD);
    assert edges[2..] == Edges(body, 0, t + HALF_PERIOD);
  }

  // ----- A frame that is missed -----

  /** Each fall comes soon enough after the last one, which was at `kom`. */
  ghost predicate FallsFollow(kom: int, edges: seq<Edge>)
    decreases |edges|
  {
    edges == [] ||
    if edges[0].level then FallsFollow(kom, edges[1..])
    else 0 <= edges[0].t - kom <= FULL_PERIOD_DOWN_3 && FallsFollow(edges[0].t, edges[1..])
  }

  /** Waiting, with a stopped timer that shows no half period. */
  ghost predicate Waiting(d: Decoder) {
    !d.begun && d.per.Halted? && !(HALF_PERIOD_DOWN < d.per.count < HALF_PERIOD_UP)
  }

  lemma {:induction false} StaysWaiting(d: Decoder, edges: seq<Edge>)
    requires Waiting(d) && FallsFollow(d.kom, edges)
    ensures var r := Receive(d, edges); Waiting(r) && r.posted == d.posted
    decreases |edges|
  {
    if edges != [] {
      StaysWaiting(Interrupt(Expire(d, edges[0].t), edges[0]), edges[1..]);
    }
  }

  /** In the sender's own waveform no level lasts longer than a bit, so the falls follow. */
  lemma {:induction false} OwnFalls(halves: seq<bool>, bits: seq<bool>, c: nat, t: int, kom: int)
    requires IsBody(halves, bits) && c <= 2 * |bits| + 1
    requires kom <= t <= kom + 2 * HALF_PERIOD && (!halves[c] ==> kom == t)
    ensures FallsFollow(kom, Edges(halves, c, t))
    decreases |halves| - c
  {
    var next := NextChange(halves, c, halves[c]);
    if next < |halves| {
      BodyStep(halves, bits, c, next);
      var e := Edge(t + (next - c) * HALF_PERIOD, halves[next]);
      OwnFalls(halves, bits, next, e.t, if e.level then kom else e.t);
      assert Edges(halves, c, t)[1..] == Edges(halves, next, e.t);
    }
  }

  /** The edges of a whole frame that begins at t. */
  function FrameEdges(bits: seq<bool>, t: int): seq<Edge>
    requires |Halves(Frame(bits))| > 1
  {
    [Edge(t, false), Edge(t + HALF_PERIOD, true)] + Edges(Halves(Frame(bits))[1..], 0, t + HALF_PERIOD)
  }

  lemma FrameFalls(bits: seq<bool>, t: int)
    ensures |Halves(Frame(bits))| > 1 && FallsFollow(t, FrameEdges(bits, t)[1..])
  {
    BodyOfFrame(bits);
    var body := Halves(Frame(bits))[1..];
    OwnFalls(body, bits, 0, t + HALF_PERIOD, t);
    assert FrameEdges(bits, t)[1..][1..] == Edges(body, 0, t + HALF_PERIOD);
  }

  lemma EarlyFrame(d: Decoder, bits: seq<bool>, t: int)
    requires Waiting(d) && |Halves(Frame(bits))| > 1 && (t - d.kom) % KOM_RELOAD <= FULL_PERIOD_DOWN_3
    ensures var r := Receive(d, FrameEdges(bits, t)); Waiting(r) && r.posted == d.posted
  {
    var edges := FrameEdges(bits, t);
    FrameFalls(bits, t);
    StaysWaiting(Interrupt(Expire(d, t), edges[0]), edges[1..]);
  }

  /**
    The frame timer counts modulo one second. A frame whose first edge comes when it shows at most
    1746 us, such as right after a full second of silence, leaves nothing on the queue, and any other is received.
   */
  lemma FrameMissed(d: Decoder, bits: seq<bool>, t: int, later: int)
    requires Waiting(d) && |Halves(Frame(bits))| > 1
    requires Receive(d, FrameEdges(bits, t)).per.Going? ==> later >= Receive(d, FrameEdges(bits, t)).per.since + ALARM
    ensures var r := Expire(Receive(d, FrameEdges(bits, t)), later);
            !r.begun && |r.posted| == |d.posted| + if (t - d.kom) % KOM_RELOAD > FULL_PERIOD_DOWN_3 then 1 else 0
  {
    if (t - d.kom) % KOM_RELOAD > FULL_PERIOD_DOWN_3 {
      FrameArrives(bits, t);
      FrameIsDecoded(d, bits, FrameEdges(bits, t), later);
    } else {
      EarlyFrame(d, bits, t);
    }
  }
}
