/**
  The service object of mdns.c with the fields that its tasks update in place under their lock: the
  transmit queue, the action queue and the pcbs. Each method is tied to the step function of PcbMachine
  or TxQueue that says what it does.
 */
module MdnsServer {
  import opened TxQueue
  import opened PcbMachine

  // ----- The loops' view of the step functions -----

  /** Scheduling goes behind the packets that are not to be sent later. */
  lemma {:induction false} InsertAt(q: seq<Packet>, p: Packet, n: nat)
    requires n <= |q| && forall k :: 0 <= k < n ==> q[k].sendAt <= p.sendAt
    requires n < |q| ==> q[n].sendAt > p.sendAt
    ensures Insert(q, p) == q[..n] + [p] + q[n..]
    decreases n
  {
    if n == 0 {
      assert q[..0] == [];
    } else {
      InsertAt(q[1..], p, n - 1);
      assert q[..n] == [q[0]] + q[1..][..n - 1];
      assert q[n..] == q[1..][n - 1..];
    }
  }

  lemma KeepFirst(p: Packet, q: seq<Packet>, keep: Packet -> bool)
    ensures Keep([p] + q, keep) == if keep(p) then [p] + Keep(q, keep) else Keep(q, keep)
  {
    assert ([p] + q)[1..] == q;
  }

  lemma {:induction false} KeepConcat(a: seq<Packet>, b: seq<Packet>, keep: Packet -> bool)
    ensures Keep(a + b, keep) == Keep(a, keep) + Keep(b, keep)
    decreases |a|
  {
    if a == [] {
      assert a + b == b;
    } else {
      assert a + b == [a[0]] + (a[1..] + b) && a == [a[0]] + a[1..];
      KeepConcat(a[1..], b, keep);
      KeepFirst(a[0], a[1..] + b, keep);
      KeepFirst(a[0], a[1..], keep);
    }
  }

  lemma KeepOne(q: seq<Packet>, n: nat, keep: Packet -> bool)
    requires n < |q|
    ensures Keep(q[..n], keep) + Keep(q[n..], keep) == Keep(q, keep)
    ensures keep(q[n]) ==> Keep(q[n..], keep) == [q[n]] + Keep(q[n + 1..], keep)
    ensures !keep(q[n]) ==> Keep(q[n..], keep) == Keep(q[n + 1..], keep)
  {
    assert q == q[..n] + q[n..];
    KeepConcat(q[..n], q[n..], keep);
    assert q[n..][1..] == q[n + 1..];
  }

  /** What the second loop of the scheduler has done, n packets in. */
  ghost predicate Marking(q: seq<Packet>, sent: seq<Action>, was: seq<Packet>, before: seq<Action>, now: int, n: nat)
    requires n <= |q|
  {
    && RunQueue(was, now) == q[..n] + MarkDue(q[n..], now)
    && before + RunActions(was, now) == sent + DueActions(q[n..], now)
  }

  lemma {:induction false} RunQueueAt(q: seq<Packet>, now: int, n: nat)
    requires n <= |q| && (forall k :: 0 <= k < n ==> q[k].queued) && (n < |q| ==> !q[n].queued)
    ensures RunQueue(q, now) == q[..n] + MarkDue(q[n..], now)
    ensures RunActions(q, now) == DueActions(q[n..], now)
    decreases n
  {
    if n == 0 {
      assert q[..0] == [] && q[0..] == q;
      if q == [] {
        assert MarkDue(q, now) == q;
      }
    } else {
      RunQueueAt(q[1..], now, n - 1);
      assert q[..n] == [q[0]] + q[1..][..n - 1];
      assert q[n..] == q[1..][n - 1..];
    }
  }

  lemma UnlistedOne(services: seq<nat>, probed: seq<nat>, j: nat)
    requires j < |services|
    ensures Unlisted(services[j..], probed)
            == (if services[j] in probed then [] else [services[j]]) + Unlisted(services[j + 1..], probed)
  {
    assert services[j..][1..] == services[j + 1..];
  }

  lemma MarkDueOne(q: seq<Packet>, now: int, n: nat)
    requires n < |q| && q[n].sendAt < now
    ensures var r := q[n := q[n].(queued := true)];
            q[..n] + MarkDue(q[n..], now) == r[..n + 1] + MarkDue(r[n + 1..], now)
            && DueActions(q[n..], now) == [TxHandle(q[n].id)] + DueActions(r[n + 1..], now)
  {
    var r := q[n := q[n].(queued := true)];
    assert q[n..][1..] == r[n + 1..];
    assert r[..n + 1] == q[..n] + [r[n]];
  }

  lemma MarkingMore(q: seq<Packet>, sent: seq<Action>, was: seq<Packet>, before: seq<Action>, now: int, n: nat)
    requires n < |q| && q[n].sendAt < now && Marking(q, sent, was, before, now, n)
    ensures Marking(q[n := q[n].(queued := true)], sent + [TxHandle(q[n].id)], was, before, now, n + 1)
  {
    MarkDueOne(q, now, n);
  }

  lemma MarkingDone(q: seq<Packet>, sent: seq<Action>, was: seq<Packet>, before: seq<Action>, now: int, n: nat)
    requires n <= |q| && (n < |q| ==> q[n].sendAt >= now) && Marking(q, sent, was, before, now, n)
    ensures q == RunQueue(was, now) && sent == before + RunActions(was, now)
  {
    assert q == q[..n] + q[n..];
  }

  /** The next state in the enumeration. */
  function Successor(s: PcbState): PcbState {
    match s
    case Probe1 => Probe2
    case Probe2 => Probe3
    case Probe3 => Announce1
    case Announce1 => Announce2
    case Announce2 => Announce3
    case _ => Running
  }

  /** The services not among those being probed (lines 2313-2325). */
  method FindUnlisted(services: seq<nat>, probed: seq<nat>) returns (unlisted: seq<nat>)
    ensures unlisted == Unlisted(services, probed)
  {
    unlisted := [];
    var j := 0;
    while j < |services|
      invariant j <= |services|
      invariant unlisted + Unlisted(services[j..], probed) == Unlisted(services, probed)
    {
      UnlistedOne(services, probed, j);
      if services[j] !in probed {
        unlisted := unlisted + [services[j]];
      }
      j := j + 1;
    }
  }

  /** The copying of lines 2270-2280, into memory for `final` entries. */
  method CopyServices(services: seq<nat>, probed: seq<nat>, final: nat) returns (all: seq<nat>)
    requires final == |services| + |probed|
    ensures all == services + probed
  {
    var copy := new nat[final];
    var n := 0;
    while n < |services|
      invariant n <= |services| && copy[..n] == services[..n]
    {
      copy[n] := services[n];
      n := n + 1;
    }
    n := 0;
    while n < |probed|
      invariant n <= |probed| && copy[..|services|] == services
      invariant copy[|services|..|services| + n] == probed[..n]
    {
      copy[|services| + n] := probed[n];
      n := n + 1;
    }
    all := copy[..];
    assert all == copy[..|services|] + copy[|services|..|services| + n];
  }

  class Server {
    var now: int
    var queue: seq<Packet>
    var actions: seq<Action>
    var pcbs: seq<Pcb>
    var nextId: nat

    ghost function View(): State
      reads this
    {
      State(now, queue, actions, pcbs, nextId)
    }

    constructor (interfaces: nat)
      ensures Idle(View()) && |View().pcbs| == interfaces
    {
      now, queue, actions, nextId := 0, [], [], 0;
      pcbs := seq(interfaces, _ => Pcb(Off, [], false, false, false, []));
    }

    /** _mdns_schedule_tx_packet */
    method ScheduleTxPacket(packet: Packet, msAfter: int)
      modifies this`queue
      ensures queue == Insert(old(queue), packet.(sendAt := now + msAfter))
    {
      var p := packet.(sendAt := now + msAfter);
      var n := 0;
      while n < |queue| && queue[n].sendAt <= p.sendAt
        invariant n <= |queue| && forall k :: 0 <= k < n ==> queue[k].sendAt <= p.sendAt
      {
        n := n + 1;
      }
      InsertAt(queue, p, n);
      queue := queue[..n] + [p] + queue[n..];
    }

    /** _mdns_clear_pcb_tx_queue_head */
    method ClearPcbTxQueue(i: nat)
      modifies this`queue
      ensures View() == ClearPcb(old(View()), i)
    {
      ghost var keep := (p: Packet) => p.pcb != i;
      var n := 0;
      while n < |queue|
        invariant n <= |queue|
        invariant Keep(queue[..n], keep) == queue[..n]
        invariant Keep(queue, keep) == Keep(old(queue), keep)
        decreases |queue| - n
      {
        KeepOne(queue, n, keep);
        if queue[n].pcb == i {
          ghost var was := queue;
          queue := queue[..n] + queue[n + 1..];
          assert queue[..n] == was[..n] && queue[n..] == was[n + 1..];
          assert queue == queue[..n] + queue[n..];
          KeepConcat(queue[..n], queue[n..], keep);
        } else {
          assert queue[..n + 1] == queue[..n] + [queue[n]];
          KeepConcat(queue[..n], [queue[n]], keep);
          assert [queue[n]][1..] == [];
          n := n + 1;
        }
      }
      assert queue[..n] == queue;
    }

    /** _mdns_scheduler_run */
    method SchedulerRun()
      modifies this`queue, this`actions
      ensures View()
              == old(View()).(queue := RunQueue(old(queue), now), actions := old(actions) + RunActions(old(queue), now))
    {
      var n := 0;
      while n < |queue| && queue[n].queued
        invariant n <= |queue| && forall k :: 0 <= k < n ==> queue[k].queued
      {
        n := n + 1;
      }
      RunQueueAt(queue, now, n);
      while n < |queue| && queue[n].sendAt < now
        invariant n <= |queue| && Marking(queue, actions, old(queue), old(actions), now, n)
      {
        MarkingMore(queue, actions, old(queue), old(actions), now, n);
        actions := actions + [TxHandle(queue[n].id)];
        queue := queue[n := queue[n].(queued := true)];
        n := n + 1;
      }
      MarkingDone(queue, actions, old(queue), old(actions), now, n);
    }

    /** _mdns_init_pcb_probe_new_service; without probing there must not be an old list to copy. */
    method InitPcbProbeNewService(i: nat, services: seq<nat>, probeIp: bool, delay: int)
      requires i < |pcbs| && (!IsProbing(pcbs[i].state) ==> pcbs[i].services == [])
      modifies this`queue, this`pcbs, this`nextId
      ensures View() == ProbeMore(old(View()), i, services, probeIp, delay)
    {
      var pcb := pcbs[i];
      var all := CopyServices(services, pcb.services, if IsProbing(pcb.state) then |services| + |pcb.services|
          else |services|);
      assert IsProbing(pcb.state) || services + pcb.services == services;
      var ip := pcb.ip || probeIp;
      ScheduleTxPacket(Packet(nextId, now, false, i, Probe(|all|, ip)), delay);
      nextId := nextId + 1;
      pcbs := pcbs[i := Pcb(Probe1, all, ip, true, pcb.ready, [])];
    }

    /** _mdns_init_pcb_probe */
    method InitPcbProbe(i: nat, services: seq<nat>, probeIp: bool, delay: int)
      requires i < |pcbs| && (!IsProbing(pcbs[i].state) ==> pcbs[i].services == [])
      modifies this`queue, this`pcbs, this`nextId
      ensures View() == InitProbe(old(View()), i, services, probeIp, delay)
    {
      ClearPcbTxQueue(i);
      var added := services;
      if IsProbing(pcbs[i].state) {
        added := FindUnlisted(services, pcbs[i].services);
      }
      InitPcbProbeNewService(i, added, probeIp, delay);
    }

    /** _mdns_tx_handle_packet */
    method TxHandlePacket(packet: Packet)
      requires packet.pcb < |pcbs|
      modifies this`queue, this`pcbs, this`nextId
      ensures View() == HandlePacket(old(View()), packet)
    {
      var i, p, sendAfter := packet.pcb, packet.(queued := false), 1000;
      var pcb := pcbs[i];
      if pcb.state == Probe1 || pcb.state == Probe2 {
        ScheduleTxPacket(p, 250);
        pcb := pcb.(state := Successor(pcb.state), sent := pcb.sent + [now]);
      } else if pcb.state == Probe3 || pcb.state == Announce1 || pcb.state == Announce2 {
        if pcb.state == Probe3 {
          pcb := pcb.(running := false, ip := false, services := [], sent := pcb.sent + [now]);
          p := Packet(nextId, now, false, i, Reply);
          nextId := nextId + 1;
          sendAfter := 250;
        }
        ScheduleTxPacket(p, sendAfter);
        pcb := pcb.(state := Successor(pcb.state));
      } else if pcb.state == Announce3 {
        pcb := pcb.(state := Running);
      }
      pcbs := pcbs[i := pcb];
    }

    /** The ACTION_TX_HANDLE case of _mdns_execute_action, and the other actions as far as the queue goes. */
    method ExecuteAction()
      requires Valid(View()) && actions != []
      modifies this`queue, this`actions, this`pcbs, this`nextId
      ensures View() == Step(old(View()), Take) && Valid(View())
    {
      StepValid(View(), Take);
      var action := actions[0];
      actions := actions[1..];
      if action.TxHandle? && queue != [] && queue[0].id == action.id && queue[0].queued {
        var p := queue[0];
        queue := queue[1..];
        TxHandlePacket(p);
      }
    }
  }
}
