/**
  The port object of dali.cpp: the sender that drives the line, and the receiver whose fields the
  interrupt handler and the alarm callback update.
 */
module DaliPort {
  import opened DaliLine

  class Dali {
    /** What has been put on the line so far. */
    var wave: seq<Segment>

    var startBitBegin: bool
    var perTimer: Timer
    var komStart: int
    var bitCount: nat
    var hgelen: nat
    var queue: seq<Item>

    ghost function View(): Decoder
      reads this
    {
      Decoder(startBitBegin, perTimer, komStart, bitCount, hgelen, queue)
    }

    constructor (now: int)
      ensures wave == [] && View() == Decoder(false, Halted(0), now, 0, 0, [])
    {
      wave := [];
      startBitBegin, perTimer, komStart, bitCount, hgelen, queue := false, Halted(0), now, 0, 0, [];
    }

    /** gpio_set_level and ets_delay_us */
    method Hold(level: bool, us: nat)
      modifies this`wave
      ensures wave == old(wave) + [Segment(level, us)]
    {
      wave := wave + [Segment(level, us)];
    }

    method SendOne()
      modifies this`wave
      ensures wave == old(wave) + OneBit(true)
    {
      Hold(false, HALF_PERIOD);
      Hold(true, HALF_PERIOD);
    }

    method SendZero()
      modifies this`wave
      ensures wave == old(wave) + OneBit(false)
    {
      Hold(true, HALF_PERIOD);
      Hold(false, HALF_PERIOD);
    }

    method SendStop()
      modifies this`wave
      ensures wave == old(wave) + [Segment(true, 2 * FULL_PERIOD)]
    {
      Hold(true, 2 * FULL_PERIOD);
    }

    /** _send_byte: the byte is shifted out at the top while a byte of ones is shifted out at the bottom. */
    method SendByte(data: nat)
      requires data < 256
      modifies this`wave
      ensures wave == old(wave) + Manchester(TopBits(data, 8))
    {
      var tmp, ii := data, 0xFF;
      ghost var left: nat := 8;
      while ii > 0
        invariant left <= 8 && ii == Power(left) - 1 && tmp < 256
        invariant wave + Manchester(TopBits(tmp, left)) == old(wave) + Manchester(TopBits(data, 8))
        decreases left
      {
        assert left > 0;
        ShiftedOut(tmp, left);
        Joined(wave, OneBit(tmp >= 0x80), Manchester(TopBits(tmp * 2 % 256, left - 1)), []);
        if tmp >= 0x80 {
          SendOne();
        } else {
          SendZero();
        }
        tmp := tmp * 2 % 256;
        ii := ii / 2;
        left := left - 1;
      }
    }

    method Send(p: Package)
      requires Valid(p)
      modifies this`wave
      ensures wave == old(wave) + Frame(PackageBits(p))
    {
      SendOne();
      SendByte(p.data0);
      Appended(wave);
      if p.block == Block24 || p.block == Block16 {
        SendByte(p.data1);
      }
      if p.block == Block24 {
        SendByte(p.data2);
      }
      BytesSent(old(wave) + OneBit(true), p);
      SendStop();
      Joined(old(wave), OneBit(true), Manchester(PackageBits(p)), [Segment(true, 2 * FULL_PERIOD)]);
    }

    /** timer_alarm_cb, at its time. */
    method TimerAlarm()
      requires perTimer.Going?
      modifies this
      ensures View() == Expire(old(View()), old(perTimer).since + ALARM) && wave == old(wave)
    {
      komStart := perTimer.since + ALARM;
      perTimer := Halted(ALARM);
      startBitBegin := false;
      queue := queue + [Item(hgelen, bitCount)];
    }

    /** int_handler, for an edge that the alarm has not overtaken. */
    method IntHandler(t: int, level: bool)
      modifies this
      ensures View() == Interrupt(old(View()), Edge(t, level)) && wave == old(wave)
    {
      if !startBitBegin && !level {
        var kt := (t - komStart) % KOM_RELOAD;
        if kt > FULL_PERIOD_DOWN_3 {
          perTimer := Going(t);
          bitCount := 0;
        }
        komStart := t;
        hgelen := 0;
        return;
      }
      if !startBitBegin && level {
        var kk := Count(perTimer, t);
        if kk > HALF_PERIOD_DOWN && kk < HALF_PERIOD_UP {
          perTimer := Reset(perTimer, t);
          startBitBegin := true;
          bitCount := 0;
        }
        return;
      }
      if startBitBegin {
        var kk := Count(perTimer, t);
        var gec := kk <= PARAZIT;
        if kk > PARAZIT && !gec {
          if kk > FULL_PERIOD_DOWN {
            bitCount := Counter(bitCount + 2);
          } else {
            bitCount := Counter(bitCount + 1);
          }
          if bitCount % 2 == 0 {
            hgelen := Word(hgelen * 2 + if level then 1 else 0);
          }
          perTimer := Reset(perTimer, t);
        }
      }
    }

    /** The receiver over a stretch of edges, with the alarm in between when it is due. */
    method Listen(edges: seq<Edge>)
      modifies this
      ensures View() == Receive(old(View()), edges)
    {
      var n := 0;
      while n < |edges|
        invariant n <= |edges| && Receive(View(), edges[n..]) == Receive(old(View()), edges)
      {
        assert edges[n..][1..] == edges[n + 1..];
        if perTimer.Going? && edges[n].t - perTimer.since >= ALARM {
          TimerAlarm();
        }
        IntHandler(edges[n].t, edges[n].level);
        n := n + 1;
      }
    }
  }

  lemma ShiftedOut(tmp: nat, left: nat)
    requires tmp < 256 && left > 0
    ensures Manchester(TopBits(tmp, left)) == OneBit(tmp >= 0x80) + Manchester(TopBits(tmp * 2 % 256, left - 1))
    ensures Power(left) - 1 > 0 && (Power(left) - 1) / 2 == Power(left - 1) - 1
  {
    assert TopBits(tmp, left)[1..] == TopBits(tmp * 2 % 256, left - 1);
    PowerPositive(left - 1);
  }

  lemma {:induction false} PowerPositive(n: nat)
    ensures Power(n) > 0
  {
    if n > 0 {
      PowerPositive(n - 1);
    }
  }

  lemma {:induction false} ManchesterConcat(a: seq<bool>, b: seq<bool>)
    ensures Manchester(a + b) == Manchester(a) + Manchester(b)
    decreases |a|
  {
    if a == [] {
      assert a + b == b;
    } else {
      assert (a + b)[1..] == a[1..] + b;
      ManchesterConcat(a[1..], b);
    }
  }

  lemma Joined(w: seq<Segment>, a: seq<Segment>, b: seq<Segment>, c: seq<Segment>)
    ensures (w + a) + b == w + (a + b) && w + a + b + c == w + (a + b + c)
  {
  }

  /** The bits of a package, byte by byte, behind what is on the line already. */
  lemma BytesSent(w: seq<Segment>, p: Package)
    ensures w + Manchester(PackageBits(p)) ==
            w + Manchester(TopBits(p.data0, 8))
            + (if p.block.Block16? || p.block.Block24? then Manchester(TopBits(p.data1, 8)) else [])
            + (if p.block.Block24? then Manchester(TopBits(p.data2, 8)) else [])
  {
    var a, b, c := TopBits(p.data0, 8), TopBits(p.data1, 8), TopBits(p.data2, 8);
    match p.block
    case Block24 =>
      ManchesterConcat(a, b);
      ManchesterConcat(a + b, c);
      Joined(w, Manchester(a), Manchester(b), Manchester(c));
    case Block16 =>
      assert PackageBits(p) == a + b;
      ManchesterConcat(a, b);
      Joined(w, Manchester(a), Manchester(b), []);
      Appended(w + Manchester(a) + Manchester(b));
    case _ =>
      assert PackageBits(p) == a;
      Appended(w + Manchester(a));
  }

  lemma Appended(w: seq<Segment>)
    ensures w + [] == w && w + [] + [] == w
  {
  }
}
