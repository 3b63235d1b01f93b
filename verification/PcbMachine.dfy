/**
  The probing and announcing states of the mDNS responder (mdns.c lines 2253-2344, 2389-2427,
  2716-2795, 2938-2975, 4219, 4283-4313 and 5025-5080; sections 8.1 and 8.3 of RFC 6762), as a
  machine whose steps are what the service and timer tasks do under their lock. A pcb stands for one
  interface and IP protocol.
 */
module PcbMachine {
  import opened TxQueue

  datatype PcbState = Off | Dup | Init | Probe1 | Probe2 | Probe3 | Announce1 | Announce2 | Announce3 | Running

  predicate Sending(s: PcbState) { s.Probe1? || s.Probe2? || s.Probe3? }

  /** PCB_STATE_IS_PROBING compares positions in the enumeration, so it takes in two more states. */
  predicate IsProbing(s: PcbState) { Sending(s) || s.Dup? || s.Init? }

  predicate IsAnnouncing(s: PcbState) { s.Announce1? || s.Announce2? || s.Announce3? }

  /**
    mdns_pcb_t. The source's probe_services pointer is null exactly when `services` is empty. `sent`
    is history: when the probes since the last restart were dispatched.
   */
  datatype Pcb = Pcb(state: PcbState, services: seq<nat>, ip: bool, running: bool, ready: bool, sent: seq<int>)

  datatype State = State(now: int, queue: seq<Packet>, actions: seq<Action>, pcbs: seq<Pcb>, nextId: nat)

  // ----- Steps -----

  function Unlisted(services: seq<nat>, probed: seq<nat>): seq<nat> {
    if services == [] then []
    else (if services[0] in probed then [] else [services[0]]) + Unlisted(services[1..], probed)
  }

  /** A new packet for a pcb, to be sent after a delay. */
  function Schedule(s: State, i: nat, content: Content, delay: int): State {
    s.(queue := Insert(s.queue, Packet(s.nextId, s.now + delay, false, i, content)), nextId := s.nextId + 1)
  }

  function ClearPcb(s: State, i: nat): State {
    s.(queue := Keep(s.queue, (p: Packet) => p.pcb != i))
  }

  /** _mdns_init_pcb_probe_new_service: the new services go before those already probed. */
  function ProbeMore(s: State, i: nat, services: seq<nat>, ip: bool, delay: int): State
    requires i < |s.pcbs|
  {
    var pcb := s.pcbs[i];
    var names := if IsProbing(pcb.state) then services + pcb.services else services;
    var ip' := pcb.ip || ip;
    Schedule(s, i, Probe(|names|, ip'), delay).(pcbs := s.pcbs[i := Pcb(Probe1, names, ip', true, pcb.ready, [])])
  }

  /** _mdns_init_pcb_probe, with a host name set and memory to be had. */
  function InitProbe(s: State, i: nat, services: seq<nat>, ip: bool, delay: int): State
    requires i < |s.pcbs|
  {
    var pcb := s.pcbs[i];
    ProbeMore(ClearPcb(s, i), i, if IsProbing(pcb.state) then Unlisted(services, pcb.services) else services, ip, delay)
  }

  /** The restart of _mdns_probe_all_pcbs, which forgets the old probe first. */
  function Reprobe(s: State, i: nat, services: seq<nat>, ip: bool, delay: int): State
    requires i < |s.pcbs|
  {
    InitProbe(s.(pcbs := s.pcbs[i := s.pcbs[i].(services := [], running := false)]), i, services, ip, delay)
  }

  /** _mdns_tx_handle_packet, for a packet taken off the queue. */
  function HandlePacket(s: State, p: Packet): State
    requires p.pcb < |s.pcbs|
  {
    var i := p.pcb;
    var pcb := s.pcbs[i];
    var again := p.(queued := false);
    match pcb.state
    case Probe1 =>
      s.(queue := Insert(s.queue, again.(sendAt := s.now + 250)),
         pcbs := s.pcbs[i := pcb.(state := Probe2, sent := pcb.sent + [s.now])])
    case Probe2 =>
      s.(queue := Insert(s.queue, again.(sendAt := s.now + 250)),
         pcbs := s.pcbs[i := pcb.(state := Probe3, sent := pcb.sent + [s.now])])
    case Probe3 =>
      Schedule(s, i, Reply, 250)
      .(pcbs := s.pcbs[i := Pcb(Announce1, [], false, false, pcb.ready, pcb.sent + [s.now])])
    case Announce1 =>
      s.(queue := Insert(s.queue, again.(sendAt := s.now + 1000)), pcbs := s.pcbs[i := pcb.(state := Announce2)])
    case Announce2 =>
      s.(queue := Insert(s.queue, again.(sendAt := s.now + 1000)), pcbs := s.pcbs[i := pcb.(state := Announce3)])
    case Announce3 => s.(pcbs := s.pcbs[i := pcb.(state := Running)])
    case _ => s
  }

  /** ACTION_TX_HANDLE at the head of the action queue; other actions are followed by their own steps. */
  function TakeAction(s: State): State
    requires s.actions != [] && (AtHead(s.queue, s.actions[0]) ==> s.queue[0].pcb < |s.pcbs|)
  {
    var t := s.(actions := s.actions[1..]);
    if AtHead(s.queue, s.actions[0]) then HandlePacket(t.(queue := s.queue[1..]), s.queue[0]) else t
  }

  /** _mdns_announce_pcb */
  function AnnouncePcb(s: State, i: nat, services: seq<nat>, ip: bool, delay: int): State
    requires i < |s.pcbs|
  {
    var pcb := s.pcbs[i];
    if !pcb.ready then s
    else if IsProbing(pcb.state) then InitProbe(s, i, services, ip, delay)
    else if IsAnnouncing(pcb.state) then
      if Of(s.queue, i) == [] then s else s.(pcbs := s.pcbs[i := pcb.(state := Announce1)])
    else if pcb.state.Running? then
      Schedule(s, i, Reply, 0).(pcbs := s.pcbs[i := pcb.(state := Announce1)])
    else s
  }

  /** An answer to a query, which is scheduled only past the probing states. */
  function Answer(s: State, i: nat, delay: int): State
    requires i < |s.pcbs|
  {
    if IsAnnouncing(s.pcbs[i].state) || s.pcbs[i].state.Running? then Schedule(s, i, Reply, delay) else s
  }

  function Without(services: seq<nat>, x: nat): seq<nat> {
    if services == [] then [] else if services[0] == x then services[1..] else [services[0]] + Without(services[1..], x)
  }

  /** The question of the removed service goes with it. */
  function LessOne(c: Content): Content {
    if c.Probe? && c.count > 0 then c.(count := c.count - 1) else c
  }

  /**
    One round of _mdns_remove_scheduled_service_packets. A probe packet left without questions is
    freed; whether another packet loses its last answers, or is left without content and freed, is open.
   */
  function ForgetService(s: State, p: Packet, service: nat, emptied: bool, freed: bool): State
    requires p.pcb < |s.pcbs|
  {
    var pcb := s.pcbs[p.pcb];
    if pcb.ready && IsProbing(pcb.state) && service in pcb.services then
      var left := Without(pcb.services, service);
      var pcb' := if left != [] then pcb.(services := left)
                  else if pcb.ip then pcb.(services := [])
                  else pcb.(services := [], running := false, state := Running);
      var p' := p.(content := LessOne(p.content));
      var q := if p'.content == Probe(0, false) then Keep(s.queue, (x: Packet) => x.id != p.id)
          else Change(s.queue, p');
      s.(queue := q, pcbs := s.pcbs[p.pcb := pcb'])
    else if IsProbing(pcb.state) then s
    else
      var pcb' := if pcb.ready && IsAnnouncing(pcb.state) && emptied then pcb.(state := Running) else pcb;
      s.(queue := if freed then Keep(s.queue, (x: Packet) => x.id != p.id) else s.queue,
         pcbs := s.pcbs[p.pcb := pcb'])
  }

  /** The queue with the packet of the same id replaced. */
  function Change(q: seq<Packet>, p: Packet): seq<Packet> {
    if q == [] then [] else [if q[0].id == p.id then p else q[0]] + Change(q[1..], p)
  }

  /** mdns_pcb_deinit_local, after the packets of the pcb are freed. */
  function Deinit(s: State, i: nat): State
    requires i < |s.pcbs|
  {
    if s.pcbs[i].ready then ClearPcb(s, i).(pcbs := s.pcbs[i := Pcb(Off, [], false, false, false, [])]) else s
  }

  function SetState(s: State, i: nat, state: PcbState): State
    requires i < |s.pcbs|
  {
    s.(pcbs := s.pcbs[i := s.pcbs[i].(state := state)])
  }

  /** _mdns_enable_pcb, when the interface comes up. */
  function Enable(s: State, i: nat, services: seq<nat>, delay: int): State
    requires i < |s.pcbs|
  {
    InitProbe(s.(pcbs := s.pcbs[i := s.pcbs[i].(ready := true)]), i, services, true, delay)
  }

  /** The packets of one pcb. */
  function Of(q: seq<Packet>, i: nat): seq<Packet> {
    if q == [] then [] else (if q[0].pcb == i then [q[0]] else []) + Of(q[1..], i)
  }

  /** What may happen next. */
  datatype Event =
    | Tick(later: int)
    | Scheduler
    | Post
    | Take
    | Start(i: nat, services: seq<nat>, ip: bool, delay: int)
    | Restart(i: nat, services: seq<nat>, ip: bool, delay: int)
    | Announce(i: nat, services: seq<nat>, ip: bool, delay: int)
    | Query(i: nat, delay: int)
    | Forget(at: nat, service: nat, emptied: bool, freed: bool)
    | Up(i: nat, services: seq<nat>, delay: int)
    | Down(i: nat)
    | Duplicate(i: nat)

  /** A probe is for something, starts at least 120 ms ahead, and is on an interface that is up. */
  ghost predicate Enabled(s: State, e: Event) {
    match e
    case Tick(later) => later >= s.now
    case Scheduler => true
    case Post => true
    case Take => s.actions != []
    case Start(i, services, ip, delay) => i < |s.pcbs| && s.pcbs[i].ready && delay >= 120 && (services != [] || ip)
    case Restart(i, services, ip, delay) => i < |s.pcbs| && s.pcbs[i].ready && delay >= 120 && (services != [] || ip)
    case Announce(i, services, ip, delay) => i < |s.pcbs| && delay >= 120 && (services != [] || ip)
    case Query(i, delay) => i < |s.pcbs| && delay >= 0
    case Forget(at, _, _, _) => at < |s.queue|
    case Up(i, _, delay) => i < |s.pcbs| && delay >= 120
    case Down(i) => i < |s.pcbs|
    case Duplicate(i) => i < |s.pcbs|
  }

  function Step(s: State, e: Event): State
    requires Enabled(s, e) && forall p :: p in s.queue ==> p.pcb < |s.pcbs|
  {
    match e
    case Tick(later) => s.(now := later)
    case Scheduler => s.(queue := RunQueue(s.queue, s.now), actions := s.actions + RunActions(s.queue, s.now))
    case Post => s.(actions := s.actions + [Other])
    case Take => TakeAction(s)
    case Start(i, services, ip, delay) => InitProbe(s, i, services, ip, delay)
    case Restart(i, services, ip, delay) => Reprobe(s, i, services, ip, delay)
    case Announce(i, services, ip, delay) => AnnouncePcb(s, i, services, ip, delay)
    case Query(i, delay) => Answer(s, i, delay)
    case Forget(at, service, emptied, freed) => ForgetService(s, s.queue[at], service, emptied, freed)
    case Up(i, services, delay) => Enable(s, i, services, delay)
    case Down(i) => SetState(Deinit(s, i), i, Off)
    case Duplicate(i) => SetState(Deinit(s, i), i, Dup)
  }

  // ----- The packets of a pcb -----

  lemma {:induction false} OfMembers(q: seq<Packet>, i: nat)
    ensures forall p :: p in Of(q, i) <==> p in q && p.pcb == i
    decreases |q|
  {
    if q != [] {
      OfMembers(q[1..], i);
      assert q == [q[0]] + q[1..];
    }
  }

  lemma {:induction false} OfInsert(q: seq<Packet>, p: Packet, i: nat)
    ensures p.pcb != i ==> Of(Insert(q, p), i) == Of(q, i)
    ensures p.pcb == i && Of(q, i) == [] ==> Of(Insert(q, p), i) == [p]
    decreases |q|
  {
    var r := Insert(q, p);
    if q != [] && q[0].sendAt <= p.sendAt {
      OfInsert(q[1..], p, i);
      assert r[1..] == Insert(q[1..], p);
    } else {
      assert r[1..] == q;
    }
  }

  lemma {:induction false} OfKeep(q: seq<Packet>, keep: Packet -> bool, i: nat)
    ensures Of(Keep(q, keep), i) == Keep(Of(q, i), keep)
    decreases |q|
  {
    if q != [] {
      OfKeep(q[1..], keep, i);
      var rest := Keep(q[1..], keep);
      if keep(q[0]) {
        assert ([q[0]] + rest)[1..] == rest;
      } else {
        assert Keep(q, keep) == rest;
      }
      if q[0].pcb == i {
        assert Of(q, i)[1..] == Of(q[1..], i);
      } else {
        assert Of(q, i) == Of(q[1..], i);
      }
    }
  }

  lemma {:induction false} KeepAll(q: seq<Packet>, keep: Packet -> bool)
    requires forall p :: p in q ==> keep(p)
    ensures Keep(q, keep) == q
    decreases |q|
  {
    if q != [] {
      KeepAll(q[1..], keep);
      assert q == [q[0]] + q[1..];
    }
  }

  lemma {:induction false} KeepNone(q: seq<Packet>, keep: Packet -> bool)
    requires forall p :: p in q ==> !keep(p)
    ensures Keep(q, keep) == []
    decreases |q|
  {
    if q != [] {
      KeepNone(q[1..], keep);
    }
  }

  /** Equal but for having been queued. */
  predicate Alike(a: seq<Packet>, b: seq<Packet>) {
    |a| == |b| && forall j :: 0 <= j < |a| ==> a[j].(queued := false) == b[j].(queued := false)
  }

  lemma {:induction false} OfRun(q: seq<Packet>, now: int, i: nat)
    ensures Alike(Of(RunQueue(q, now), i), Of(q, i)) && Alike(Of(MarkDue(q, now), i), Of(q, i))
    decreases |q|
  {
    if q != [] {
      OfRun(q[1..], now, i);
      if q[0].queued {
        assert RunQueue(q, now)[1..] == RunQueue(q[1..], now);
      }
      if q[0].sendAt < now {
        assert MarkDue(q, now)[1..] == MarkDue(q[1..], now);
      }
    }
  }

  lemma {:induction false} OfChange(q: seq<Packet>, p: Packet, was: Packet, i: nat)
    requires Ordered(q) && was in q && was.id == p.id && was.pcb == p.pcb
    ensures p.pcb != i ==> Of(Change(q, p), i) == Of(q, i)
    ensures p.pcb == i && Of(q, i) == [was] ==> Of(Change(q, p), i) == [p]
    decreases |q|
  {
    assert q == [q[0]] + q[1..];
    var r := Change(q, p);
    assert r[1..] == Change(q[1..], p);
    OfRest(q, i);
    OfRest(r, i);
    if q[0] == was {
      ChangeNothing(q[1..], p);
    } else {
      assert q[0].id != p.id;
      OfChange(q[1..], p, was, i);
    }
  }

  lemma OfRest(q: seq<Packet>, i: nat)
    requires q != []
    ensures q[0].pcb == i ==> Of(q, i)[0] == q[0] && Of(q, i)[1..] == Of(q[1..], i)
    ensures q[0].pcb != i ==> Of(q, i) == Of(q[1..], i)
  {
  }

  lemma {:induction false} ChangeNothing(q: seq<Packet>, p: Packet)
    requires forall x :: x in q ==> x.id != p.id
    ensures Change(q, p) == q
    decreases |q|
  {
    if q != [] {
      ChangeNothing(q[1..], p);
    }
  }

  lemma {:induction false} ChangeMembers(q: seq<Packet>, p: Packet)
    ensures forall x :: x in Change(q, p) ==> x == p || x in q
    ensures forall x :: x in q ==> exists y :: y in Change(q, p) && y.id == x.id
    decreases |q|
  {
    if q != [] {
      ChangeMembers(q[1..], p);
      assert q == [q[0]] + q[1..];
      var r := Change(q, p);
      assert r == [r[0]] + Change(q[1..], p);
      assert r[0] in r && r[0].id == q[0].id;
    }
  }

  lemma {:induction false} ChangeOrder(q: seq<Packet>, p: Packet, was: Packet, now: int)
    requires Ordered(q) && QueuedFirst(q, now) && was in q
    requires p == was.(content := p.content)
    ensures Ordered(Change(q, p)) && QueuedFirst(Change(q, p), now) && FrontIds(Change(q, p)) == FrontIds(q)
    decreases |q|
  {
    assert q == [q[0]] + q[1..];
    var r := Change(q, p);
    assert r[1..] == Change(q[1..], p);
    ChangeMembers(q, p);
    if q[0] == was {
      ChangeNothing(q[1..], p);
    } else {
      assert q[0].id != p.id;
      ChangeMembers(q[1..], p);
      if q[0].queued {
        ChangeOrder(q[1..], p, was, now);
      } else {
        NoneQueued(q[1..], now);
        ChangeOrder(q[1..], p, was, now);
      }
    }
  }

  lemma ChangeInv(q: seq<Packet>, actions: seq<Action>, now: int, nextId: nat, p: Packet, was: Packet)
    requires Inv(q, actions, now, nextId) && was in q && p == was.(content := p.content)
    ensures Inv(Change(q, p), actions, now, nextId)
  {
    ChangeOrder(q, p, was, now);
    ChangeMembers(q, p);
    assert Live(Change(q, p)) == Live(q);
  }

  // ----- The invariant -----

  /** How many probes have gone out in a probing state. */
  function Round(s: PcbState): nat {
    if s.Probe2? then 1 else if s.Probe3? then 2 else 0
  }

  /** More than 250 ms from each to the next. */
  ghost predicate Spaced(t: seq<int>) {
    |t| < 2 || (t[|t| - 1] > t[|t| - 2] + 250 && Spaced(t[..|t| - 1]))
  }

  /** The one packet of a probing pcb asks about all that is being probed, and is not due too early. */
  ghost predicate Probing(pcb: Pcb, packets: seq<Packet>, now: int) {
    && |pcb.sent| == Round(pcb.state) && Spaced(pcb.sent)
    && |packets| == 1 && packets[0].content == Probe(|pcb.services|, pcb.ip)
    && (pcb.sent != [] ==> pcb.sent[|pcb.sent| - 1] <= now && packets[0].sendAt >= pcb.sent[|pcb.sent| - 1] + 250)
  }

  ghost predicate PcbOk(pcb: Pcb, packets: seq<Packet>, now: int) {
    && (pcb.running <==> Sending(pcb.state))
    && (Sending(pcb.state) <==> pcb.services != [] || pcb.ip)
    && (pcb.ready <==> !pcb.state.Off? && !pcb.state.Dup?) && !pcb.state.Init?
    && (Sending(pcb.state) ==> Probing(pcb, packets, now))
    && (!pcb.ready ==> packets == [])
  }

  ghost predicate QueueOk(s: State) {
    Inv(s.queue, s.actions, s.now, s.nextId) && forall p :: p in s.queue ==> p.pcb < |s.pcbs|
  }

  ghost predicate Valid(s: State) {
    QueueOk(s) && forall j :: 0 <= j < |s.pcbs| ==> PcbOk(s.pcbs[j], Of(s.queue, j), s.now)
  }

  /** All is well but for one pcb. */
  ghost predicate ValidBut(s: State, i: nat) {
    QueueOk(s) && i < |s.pcbs| && forall j :: 0 <= j < |s.pcbs| && j != i ==> PcbOk(s.pcbs[j], Of(s.queue, j), s.now)
  }

  /** Between two states only one pcb and its packets differ. */
  ghost predicate OnlyAt(s: State, t: State, i: nat) {
    && t.now == s.now && |t.pcbs| == |s.pcbs|
    && forall j :: 0 <= j < |s.pcbs| && j != i ==> t.pcbs[j] == s.pcbs[j] && Of(t.queue, j) == Of(s.queue, j)
  }

  lemma Settle(s: State, t: State, i: nat)
    requires ValidBut(s, i) && OnlyAt(s, t, i) && QueueOk(t) && PcbOk(t.pcbs[i], Of(t.queue, i), t.now)
    ensures Valid(t)
  {
  }

  // ----- Every step keeps it -----

  lemma Cleared(s: State, i: nat)
    requires QueueOk(s) && i < |s.pcbs|
    ensures QueueOk(ClearPcb(s, i)) && OnlyAt(s, ClearPcb(s, i), i) && Of(ClearPcb(s, i).queue, i) == []
  {
    var keep := (p: Packet) => p.pcb != i;
    var q := Keep(s.queue, keep);
    KeepInv(s.queue, s.actions, s.now, s.nextId, keep);
    KeepMembers(s.queue, keep);
    assert ClearPcb(s, i).queue == q;
    OfKeep(s.queue, keep, i);
    OfMembers(s.queue, i);
    KeepNone(Of(s.queue, i), keep);
    forall j | 0 <= j < |s.pcbs| && j != i
      ensures Of(q, j) == Of(s.queue, j)
    {
      OfKeep(s.queue, keep, j);
      OfMembers(s.queue, j);
      KeepAll(Of(s.queue, j), keep);
    }
  }

  /** A packet put into the queue again or for the first time. */
  lemma Inserted(s: State, p: Packet)
    requires QueueOk(s) && !p.queued && p.sendAt >= s.now && p.id < s.nextId && p.pcb < |s.pcbs|
    requires p.id !in Live(s.queue) && TxHandle(p.id) !in s.actions
    ensures var t := s.(queue := Insert(s.queue, p));
            QueueOk(t) && OnlyAt(s, t, p.pcb) && (Of(s.queue, p.pcb) == [] ==> Of(t.queue, p.pcb) == [p])
  {
    InsertInv(s.queue, s.actions, s.now, s.nextId, p);
    InsertMembers(s.queue, p);
    forall j | 0 <= j < |s.pcbs|
      ensures j != p.pcb ==> Of(Insert(s.queue, p), j) == Of(s.queue, j)
    {
      OfInsert(s.queue, p, j);
    }
    OfInsert(s.queue, p, p.pcb);
  }

  lemma Scheduled(s: State, i: nat, content: Content, delay: int)
    requires QueueOk(s) && i < |s.pcbs| && delay >= 0
    ensures var t := Schedule(s, i, content, delay);
            QueueOk(t) && OnlyAt(s, t, i)
            && (Of(s.queue, i) == [] ==> Of(t.queue, i) == [Packet(s.nextId, s.now + delay, false, i, content)])
  {
    LaterInv(s.queue, s.actions, s.now, s.now, s.nextId, s.nextId + 1);
    var u, p := s.(nextId := s.nextId + 1), Packet(s.nextId, s.now + delay, false, i, content);
    Inserted(u, p);
    assert Schedule(s, i, content, delay) == u.(queue := Insert(u.queue, p));
  }

  lemma {:induction false} UnlistedAll(services: seq<nat>)
    ensures Unlisted(services, []) == services
  {
    if services != [] {
      UnlistedAll(services[1..]);
    }
  }

  lemma InitProbeValid(s: State, i: nat, services: seq<nat>, ip: bool, delay: int)
    requires ValidBut(s, i) && s.pcbs[i].ready && delay >= 0 && (services != [] || ip)
    ensures Valid(InitProbe(s, i, services, ip, delay))
    ensures InitProbe(s, i, services, ip, delay).pcbs[i].state == Probe1
    ensures InitProbe(s, i, services, ip, delay).pcbs[i].sent == []
  {
    UnlistedAll(services);
    var t := InitProbe(s, i, services, ip, delay);
    var pcb := t.pcbs[i];
    Cleared(s, i);
    Scheduled(ClearPcb(s, i), i, Probe(|pcb.services|, pcb.ip), delay);
    assert pcb.services != [] || pcb.ip;
    Settle(s, t, i);
  }

  /** The packet of HandlePacket is off the queue; `was` is what its pcb had with it. */
  ghost predicate Taken(s: State, p: Packet, was: seq<Packet>) {
    && p.pcb < |s.pcbs| && ValidBut(s, p.pcb)
    && was != [] && was[0] == p && was[1..] == Of(s.queue, p.pcb) && PcbOk(s.pcbs[p.pcb], was, s.now)
    && p.sendAt < s.now && p.id < s.nextId && p.id !in Live(s.queue) && TxHandle(p.id) !in s.actions
  }

  /** Sending the packet again leaves the rest alone. */
  lemma Resent(s: State, p: Packet, was: seq<Packet>, delay: int, pcb: Pcb)
    requires Taken(s, p, was) && delay >= 0
    requires forall q :: (Of(s.queue, p.pcb) == [] ==> q == [p.(queued := false, sendAt := s.now + delay)]) ==>
            PcbOk(pcb, q, s.now)
    ensures Valid(s.(queue := Insert(s.queue, p.(queued := false, sendAt := s.now + delay)),
            pcbs := s.pcbs[p.pcb := pcb]))
  {
    var again := p.(queued := false, sendAt := s.now + delay);
    Inserted(s, again);
    Settle(s, s.(queue := Insert(s.queue, again), pcbs := s.pcbs[p.pcb := pcb]), p.pcb);
  }

  lemma MoreSpaced(t: seq<int>, now: int)
    requires Spaced(t) && (t != [] ==> now > t[|t| - 1] + 250)
    ensures Spaced(t + [now])
  {
    assert (t + [now])[..|t|] == t;
  }

  lemma ProbeAgain(s: State, p: Packet, was: seq<Packet>)
    requires Taken(s, p, was) && (s.pcbs[p.pcb].state.Probe1? || s.pcbs[p.pcb].state.Probe2?)
    ensures Valid(HandlePacket(s, p))
  {
    var pcb := s.pcbs[p.pcb];
    MoreSpaced(pcb.sent, s.now);
    var next := pcb.(state := if pcb.state.Probe1? then Probe2 else Probe3, sent := pcb.sent + [s.now]);
    Resent(s, p, was, 250, next);
    assert HandlePacket(s, p)
        == s.(queue := Insert(s.queue, p.(queued := false, sendAt := s.now + 250)), pcbs := s.pcbs[p.pcb := next]);
  }

  lemma LastProbe(s: State, p: Packet, was: seq<Packet>)
    requires Taken(s, p, was) && s.pcbs[p.pcb].state.Probe3?
    ensures Valid(HandlePacket(s, p))
    ensures |HandlePacket(s, p).pcbs[p.pcb].sent| == 3 && Spaced(HandlePacket(s, p).pcbs[p.pcb].sent)
  {
    MoreSpaced(s.pcbs[p.pcb].sent, s.now);
    Scheduled(s, p.pcb, Reply, 250);
    Settle(s, HandlePacket(s, p), p.pcb);
  }

  lemma HandleValid(s: State, p: Packet, was: seq<Packet>)
    requires Taken(s, p, was)
    ensures Valid(HandlePacket(s, p))
  {
    var pcb, t := s.pcbs[p.pcb], HandlePacket(s, p);
    match pcb.state
    case Probe1 => ProbeAgain(s, p, was);
    case Probe2 => ProbeAgain(s, p, was);
    case Probe3 => LastProbe(s, p, was);
    case Announce1 => Resent(s, p, was, 1000, pcb.(state := Announce2));
    case Announce2 => Resent(s, p, was, 1000, pcb.(state := Announce3));
    case _ => Settle(s, t, p.pcb);
  }

  lemma TakeValid(s: State)
    requires Valid(s) && s.actions != []
    ensures Valid(TakeAction(s))
  {
    var t := s.(actions := s.actions[1..]);
    if AtHead(s.queue, s.actions[0]) {
      var p, u := s.queue[0], t.(queue := s.queue[1..]);
      LiveActionIsHandled(s.queue, s.actions, s.now, s.nextId);
      PopInv(s.queue, s.actions, s.now, s.nextId);
      forall j | 0 <= j < |s.pcbs|
        ensures j != p.pcb ==> Of(u.queue, j) == Of(s.queue, j)
      {
        OfRest(s.queue, j);
      }
      OfRest(s.queue, p.pcb);
      HandleValid(u, p, Of(s.queue, p.pcb));
    } else {
      DropInv(s.queue, s.actions, s.now, s.nextId);
    }
  }

  lemma AnnounceValid(s: State, i: nat, services: seq<nat>, ip: bool, delay: int)
    requires Valid(s) && i < |s.pcbs| && delay >= 0 && (services != [] || ip)
    ensures Valid(AnnouncePcb(s, i, services, ip, delay))
  {
    var t := AnnouncePcb(s, i, services, ip, delay);
    if s.pcbs[i].ready && IsProbing(s.pcbs[i].state) {
      InitProbeValid(s, i, services, ip, delay);
    } else if s.pcbs[i].state.Running? {
      Scheduled(s, i, Reply, 0);
      Settle(s, t, i);
    } else {
      Settle(s, t, i);
    }
  }

  lemma AnswerValid(s: State, i: nat, delay: int)
    requires Valid(s) && i < |s.pcbs| && delay >= 0
    ensures Valid(Answer(s, i, delay))
  {
    Scheduled(s, i, Reply, delay);
    Settle(s, Answer(s, i, delay), i);
  }

  /** One packet freed by itself. */
  lemma Freed(s: State, p: Packet)
    requires QueueOk(s) && p in s.queue
    ensures var t := s.(queue := Keep(s.queue, (x: Packet) => x.id != p.id));
            QueueOk(t) && OnlyAt(s, t, p.pcb) && (Of(s.queue, p.pcb) == [p] ==> Of(t.queue, p.pcb) == [])
  {
    var keep := (x: Packet) => x.id != p.id;
    KeepInv(s.queue, s.actions, s.now, s.nextId, keep);
    KeepMembers(s.queue, keep);
    forall j | 0 <= j < |s.pcbs| && j != p.pcb
      ensures Of(Keep(s.queue, keep), j) == Of(s.queue, j)
    {
      OfKeep(s.queue, keep, j);
      OfMembers(s.queue, j);
      forall x | x in Of(s.queue, j)
        ensures keep(x)
      {
        if x.id == p.id {
          SameId(s.queue, x, p);
        }
      }
      KeepAll(Of(s.queue, j), keep);
    }
    OfKeep(s.queue, keep, p.pcb);
  }

  /** The probe packet of a pcb with one question less. */
  lemma Changed(s: State, p: Packet, was: Packet)
    requires QueueOk(s) && was in s.queue && p == was.(content := p.content)
    ensures var t := s.(queue := Change(s.queue, p));
            QueueOk(t) && OnlyAt(s, t, p.pcb) && (Of(s.queue, p.pcb) == [was] ==> Of(t.queue, p.pcb) == [p])
  {
    ChangeInv(s.queue, s.actions, s.now, s.nextId, p, was);
    ChangeMembers(s.queue, p);
    forall j | 0 <= j < |s.pcbs|
      ensures j != p.pcb ==> Of(Change(s.queue, p), j) == Of(s.queue, j)
    {
      OfChange(s.queue, p, was, j);
    }
    OfChange(s.queue, p, was, p.pcb);
  }

  lemma {:induction false} WithoutOne(services: seq<nat>, x: nat)
    requires x in services
    ensures |Without(services, x)| == |services| - 1
  {
    if services[0] != x {
      WithoutOne(services[1..], x);
    }
  }

  /** The one packet of a probing pcb asks for all that it probes. */
  lemma OnlyPacket(s: State, p: Packet)
    requires Valid(s) && p in s.queue && p.pcb < |s.pcbs| && Sending(s.pcbs[p.pcb].state)
    ensures var pcb := s.pcbs[p.pcb];
            pcb.ready && Of(s.queue, p.pcb) == [p] && p.content == Probe(|pcb.services|, pcb.ip)
  {
    assert PcbOk(s.pcbs[p.pcb], Of(s.queue, p.pcb), s.now);
    OfMembers(s.queue, p.pcb);
  }

  /** A service that is being probed is taken out of the probe. */
  lemma ForgetIs(s: State, p: Packet, service: nat, emptied: bool, freed: bool, left: seq<nat>)
    requires QueueOk(s) && p in s.queue && p.pcb < |s.pcbs| && Of(s.queue, p.pcb) == [p]
    requires var pcb := s.pcbs[p.pcb];
             && pcb.ready && Sending(pcb.state) && service in pcb.services && left == Without(pcb.services, service)
             && |left| == |pcb.services| - 1 && p.content == Probe(|pcb.services|, pcb.ip)
    ensures var t, i := ForgetService(s, p, service, emptied, freed), p.pcb;
            var was, pcb := s.pcbs[i], t.pcbs[i];
            QueueOk(t) && OnlyAt(s, t, i)
            && if left == [] && !was.ip
               then pcb == was.(services := [], running := false, state := Running) && Of(t.queue, i) == []
               else pcb == was.(services := left) && Of(t.queue, i) == [p.(content := Probe(|left|, was.ip))]
  {
    var less := p.(content := LessOne(p.content));
    if less.content == Probe(0, false) {
      Freed(s, p);
    } else {
      Changed(s, less, p);
    }
  }

  lemma ForgetProbed(s: State, p: Packet, service: nat, emptied: bool, freed: bool)
    requires Valid(s) && p in s.queue && p.pcb < |s.pcbs|
    requires Sending(s.pcbs[p.pcb].state) && service in s.pcbs[p.pcb].services
    ensures Valid(ForgetService(s, p, service, emptied, freed))
  {
    var i := p.pcb;
    OnlyPacket(s, p);
    assert PcbOk(s.pcbs[i], [p], s.now);
    WithoutOne(s.pcbs[i].services, service);
    ForgetIs(s, p, service, emptied, freed, Without(s.pcbs[i].services, service));
    Settle(s, ForgetService(s, p, service, emptied, freed), i);
  }

  lemma ForgetValid(s: State, p: Packet, service: nat, emptied: bool, freed: bool)
    requires Valid(s) && p in s.queue && p.pcb < |s.pcbs|
    ensures Valid(ForgetService(s, p, service, emptied, freed))
  {
    var pcb, t := s.pcbs[p.pcb], ForgetService(s, p, service, emptied, freed);
    if Sending(pcb.state) && service in pcb.services {
      ForgetProbed(s, p, service, emptied, freed);
    } else {
      OfMembers(s.queue, p.pcb);
      Freed(s, p);
      Settle(s, t, p.pcb);
    }
  }

  lemma DownValid(s: State, i: nat, state: PcbState)
    requires Valid(s) && i < |s.pcbs| && (state.Off? || state.Dup?)
    ensures Valid(SetState(Deinit(s, i), i, state))
  {
    Cleared(s, i);
    Settle(s, SetState(Deinit(s, i), i, state), i);
  }

  lemma SchedulerValid(s: State)
    requires Valid(s)
    ensures Valid(s.(queue := RunQueue(s.queue, s.now), actions := s.actions + RunActions(s.queue, s.now)))
  {
    RunInv(s.queue, s.actions, s.now, s.nextId);
    RunMembers(s.queue, s.now);
    var q := RunQueue(s.queue, s.now);
    forall j | 0 <= j < |s.pcbs|
      ensures PcbOk(s.pcbs[j], Of(q, j), s.now)
    {
      OfRun(s.queue, s.now, j);
    }
  }

  lemma RestartValid(s: State, i: nat, services: seq<nat>, ip: bool, delay: int)
    requires Valid(s) && i < |s.pcbs| && s.pcbs[i].ready && delay >= 0 && (services != [] || ip)
    ensures Valid(Reprobe(s, i, services, ip, delay))
  {
    InitProbeValid(s.(pcbs := s.pcbs[i := s.pcbs[i].(services := [], running := false)]), i, services, ip, delay);
  }

  lemma UpValid(s: State, i: nat, services: seq<nat>, delay: int)
    requires Valid(s) && i < |s.pcbs| && delay >= 0
    ensures Valid(Enable(s, i, services, delay))
  {
    InitProbeValid(s.(pcbs := s.pcbs[i := s.pcbs[i].(ready := true)]), i, services, true, delay);
  }

  lemma TickValid(s: State, later: int)
    requires Valid(s) && later >= s.now
    ensures Valid(s.(now := later))
  {
    LaterInv(s.queue, s.actions, s.now, later, s.nextId, s.nextId);
  }

  lemma PostValid(s: State)
    requires Valid(s)
    ensures Valid(s.(actions := s.actions + [Other]))
  {
    OtherInv(s.queue, s.actions, s.now, s.nextId);
  }

  /** What every step of the machine keeps. */
  lemma StepValid(s: State, e: Event)
    requires Valid(s) && Enabled(s, e)
    ensures Valid(Step(s, e))
  {
    match e
    case Tick(later) => TickValid(s, later);
    case Scheduler => SchedulerValid(s);
    case Post => PostValid(s);
    case Take => TakeValid(s);
    case Start(i, services, ip, delay) => InitProbeValid(s, i, services, ip, delay);
    case Restart(i, services, ip, delay) => RestartValid(s, i, services, ip, delay);
    case Announce(i, services, ip, delay) => AnnounceValid(s, i, services, ip, delay);
    case Query(i, delay) => AnswerValid(s, i, delay);
    case Forget(at, service, emptied, freed) => ForgetValid(s, s.queue[at], service, emptied, freed);
    case Up(i, services, delay) => UpValid(s, i, services, delay);
    case Down(i) => DownValid(s, i, Off);
    case Duplicate(i) => DownValid(s, i, Dup);
  }

  // ----- What a step sends -----

  /** The machine before any interface comes up. */
  ghost predicate Idle(s: State) {
    s.queue == [] && s.actions == []
        && forall j :: 0 <= j < |s.pcbs| ==> s.pcbs[j] == Pcb(Off, [], false, false, false, [])
  }

  lemma IdleValid(s: State)
    requires Idle(s)
    ensures Valid(s)
  {
    assert Live(s.queue) == {};
  }

  /** The step sends a probe of the pcb. */
  ghost predicate Dispatches(s: State, e: Event, i: nat) {
    && e.Take? && s.actions != [] && AtHead(s.queue, s.actions[0]) && s.queue[0].pcb == i
    && i < |s.pcbs| && Sending(s.pcbs[i].state)
  }

  /**
    A step sends a probe, begins anew, or leaves the history alone; and only the dispatch of a third
    probe leads from probing to announcing.
   */
  ghost predicate Moves(s: State, sends: bool, t: State, i: nat)
    requires i < |s.pcbs|
  {
    && |t.pcbs| == |s.pcbs|
    && (t.pcbs[i].sent == [] || t.pcbs[i].sent == s.pcbs[i].sent + (if sends then [s.now] else []))
    && (Sending(s.pcbs[i].state) && IsAnnouncing(t.pcbs[i].state) ==>
          sends && s.pcbs[i].state == Probe3 && t.pcbs[i].state == Announce1 && t.pcbs[i].sent != [])
  }

  lemma TakeSent(s: State, i: nat)
    requires Valid(s) && s.actions != [] && i < |s.pcbs|
    ensures Moves(s, Dispatches(s, Take, i), TakeAction(s), i)
  {
  }

  lemma ForgetSent(s: State, p: Packet, service: nat, emptied: bool, freed: bool, i: nat)
    requires p.pcb < |s.pcbs| && i < |s.pcbs|
    ensures Moves(s, false, ForgetService(s, p, service, emptied, freed), i)
  {
  }

  lemma AnnounceSent(s: State, at: nat, services: seq<nat>, ip: bool, delay: int, i: nat)
    requires at < |s.pcbs| && i < |s.pcbs|
    ensures Moves(s, false, AnnouncePcb(s, at, services, ip, delay), i)
  {
  }

  /** Also when the pcb was put right for it first. */
  lemma InitSent(s: State, pcb: Pcb, at: nat, services: seq<nat>, ip: bool, delay: int, i: nat)
    requires at < |s.pcbs| && i < |s.pcbs|
    ensures Moves(s, false, InitProbe(s.(pcbs := s.pcbs[at := pcb]), at, services, ip, delay), i)
  {
  }

  lemma DownSent(s: State, at: nat, state: PcbState, i: nat)
    requires at < |s.pcbs| && i < |s.pcbs| && (state.Off? || state.Dup?)
    ensures Moves(s, false, SetState(Deinit(s, at), at, state), i)
  {
  }

  lemma StepSent(s: State, e: Event, i: nat)
    requires Valid(s) && Enabled(s, e) && i < |s.pcbs|
    ensures Moves(s, Dispatches(s, e, i), Step(s, e), i)
  {
    match e
    case Take => TakeSent(s, i);
    case Start(at, services, ip, delay) =>
      assert s.(pcbs := s.pcbs[at := s.pcbs[at]]) == s;
      InitSent(s, s.pcbs[at], at, services, ip, delay, i);
    case Restart(at, services, ip, delay) => InitSent(s, s.pcbs[at].(services := [], running := false), at, services,
        ip, delay, i);
    case Up(at, services, delay) => InitSent(s, s.pcbs[at].(ready := true), at, services, true, delay, i);
    case Announce(at, services, ip, delay) => AnnounceSent(s, at, services, ip, delay, i);
    case Forget(at, service, emptied, freed) => ForgetSent(s, s.queue[at], service, emptied, freed, i);
    case Down(at) => DownSent(s, at, Off, i);
    case Duplicate(at) => DownSent(s, at, Dup, i);
    case _ =>
  }

  // ----- Whole runs -----

  /** A run: the states and, between each two, what happened. */
  ghost predicate Run(states: seq<State>, events: seq<Event>) {
    && |states| == |events| + 1 && Idle(states[0])
    && forall k :: 0 <= k < |events| ==> NextAt(states, events, k)
  }

  ghost predicate NextAt(states: seq<State>, events: seq<Event>, k: nat)
    requires k < |events| && |states| == |events| + 1
  {
    Next(states[k], events[k], states[k + 1])
  }

  ghost predicate Next(s: State, e: Event, t: State) {
    Enabled(s, e) && (forall p :: p in s.queue ==> p.pcb < |s.pcbs|) && t == Step(s, e)
  }

  /** Every state of a run is valid. */
  lemma {:induction false} RunValid(states: seq<State>, events: seq<Event>, n: nat)
    requires Run(states, events) && n <= |events|
    ensures Valid(states[n]) && |states[n].pcbs| == |states[0].pcbs|
  {
    if n == 0 {
      IdleValid(states[0]);
    } else {
      RunValid(states, events, n - 1);
      assert NextAt(states, events, n - 1);
      NextValid(states[n - 1], events[n - 1], states[n]);
    }
  }

  lemma NextValid(s: State, e: Event, t: State)
    requires Valid(s) && Next(s, e, t)
    ensures Valid(t) && |t.pcbs| == |s.pcbs|
    ensures forall i :: 0 <= i < |s.pcbs| ==> Moves(s, Dispatches(s, e, i), t, i)
  {
    StepValid(s, e);
    forall i | 0 <= i < |s.pcbs|
      ensures Moves(s, Dispatches(s, e, i), t, i)
    {
      StepSent(s, e, i);
    }
  }

  /** When the probes of a pcb went out during the first steps of a run. */
  ghost function Log(states: seq<State>, events: seq<Event>, i: nat, n: nat): seq<int>
    requires |states| == |events| + 1 && n <= |events|
  {
    if n == 0 then []
    else
      var now := if Dispatches(states[n - 1], events[n - 1], i) then [states[n - 1].now] else [];
      Log(states, events, i, n - 1) + now
  }

  ghost predicate IsSuffix(a: seq<int>, b: seq<int>) {
    |a| <= |b| && a == b[|b| - |a|..]
  }

  lemma SuffixMore(a: seq<int>, b: seq<int>, more: seq<int>, c: seq<int>)
    requires IsSuffix(a, b) && (c == [] || c == a + more)
    ensures IsSuffix(c, b + more)
  {
  }

  ghost predicate Traced(states: seq<State>, events: seq<Event>, i: nat) {
    && |states| == |events| + 1 && i < |states[0].pcbs| && states[0].pcbs[i].sent == []
    && (forall k :: 0 <= k < |states| ==> |states[k].pcbs| == |states[0].pcbs|)
    && forall k :: 0 <= k < |events| ==> Moves(states[k], Dispatches(states[k], events[k], i), states[k + 1], i)
  }

  lemma RunTraced(states: seq<State>, events: seq<Event>, i: nat)
    requires Run(states, events) && i < |states[0].pcbs|
    ensures Traced(states, events, i)
  {
    forall k | 0 <= k < |states|
      ensures |states[k].pcbs| == |states[0].pcbs|
    {
      RunValid(states, events, k);
    }
    forall k | 0 <= k < |events|
      ensures Moves(states[k], Dispatches(states[k], events[k], i), states[k + 1], i)
    {
      RunValid(states, events, k);
      assert NextAt(states, events, k);
      NextValid(states[k], events[k], states[k + 1]);
    }
  }

  /** The history of a pcb is the end of what it really sent. */
  lemma {:induction false} SentIsLogged(states: seq<State>, events: seq<Event>, i: nat, n: nat)
    requires Traced(states, events, i) && n <= |events|
    ensures IsSuffix(states[n].pcbs[i].sent, Log(states, events, i, n))
  {
    if n > 0 {
      var s, e, t := states[n - 1], events[n - 1], states[n];
      SentIsLogged(states, events, i, n - 1);
      assert Moves(s, Dispatches(s, e, i), t, i);
      SuffixMore(s.pcbs[i].sent, Log(states, events, i, n - 1), if Dispatches(s, e, i) then [s.now]
          else [], t.pcbs[i].sent);
    }
  }

  lemma OfHead(q: seq<Packet>, i: nat)
    requires q != [] && q[0].pcb == i
    ensures Of(q, i) != [] && Of(q, i)[0] == q[0]
  {
  }

  /** A third probe goes out more than 250 ms after the second, and that after the first. */
  lemma ThirdProbe(s: State, i: nat)
    requires Valid(s) && i < |s.pcbs| && Dispatches(s, Take, i) && s.pcbs[i].state == Probe3
    ensures Spaced(s.pcbs[i].sent + [s.now]) && |s.pcbs[i].sent| == 2
  {
    LiveActionIsHandled(s.queue, s.actions, s.now, s.nextId);
    OfHead(s.queue, i);
    assert PcbOk(s.pcbs[i], Of(s.queue, i), s.now);
    MoreSpaced(s.pcbs[i].sent, s.now);
  }

  lemma SpacedMeans(t: seq<int>, log: seq<int>)
    requires Spaced(t) && |t| == 3 && IsSuffix(t, log)
    ensures t == log[|log| - 3..] && log[|log| - 1] == t[2]
    ensures log[|log| - 1] > log[|log| - 2] + 250 && log[|log| - 2] > log[|log| - 3] + 250
  {
    assert t[..2][1] == t[1] && t[..2][0] == t[0];
    assert log[|log| - 3] == t[0] && log[|log| - 2] == t[1] && log[|log| - 1] == t[2];
  }

  /** The same once all that concerns the one step is known. */
  lemma AnnouncesWhenSpaced(states: seq<State>, events: seq<Event>, i: nat, n: nat)
    requires Traced(states, events, i) && n < |events|
    requires Valid(states[n]) && Sending(states[n].pcbs[i].state) && IsAnnouncing(states[n + 1].pcbs[i].state)
    ensures states[n].pcbs[i].state == Probe3 && states[n + 1].pcbs[i].state == Announce1
    ensures ThreeProbes(Log(states, events, i, n + 1), states[n + 1].pcbs[i].sent, states[n].now)
  {
    var s, t := states[n], states[n + 1];
    assert Moves(s, Dispatches(s, events[n], i), t, i);
    SentIsLogged(states, events, i, n + 1);
    ThirdProbe(s, i);
    SpacedMeans(t.pcbs[i].sent, Log(states, events, i, n + 1));
  }

  /** The last three of the log, more than 250 ms apart, the last of them at a given time. */
  ghost predicate ThreeProbes(log: seq<int>, sent: seq<int>, now: int) {
    && |log| >= 3 && sent == log[|log| - 3..] && log[|log| - 1] == now
    && log[|log| - 1] > log[|log| - 2] + 250 && log[|log| - 2] > log[|log| - 3] + 250
  }

  /**
    In every run that begins with all interfaces down: whenever a pcb passes from probing to
    announcing, it does so by sending a probe, the last three probes it sent were more than 250 ms
    apart, and they are all it sent since its probing was last restarted.
   */
  lemma AnnouncesAfterThreeProbes(states: seq<State>, events: seq<Event>, i: nat, n: nat)
    requires Run(states, events) && n < |events| && i < |states[0].pcbs|
    requires |states[n].pcbs| == |states[n + 1].pcbs| == |states[0].pcbs|
    requires Sending(states[n].pcbs[i].state) && IsAnnouncing(states[n + 1].pcbs[i].state)
    ensures states[n].pcbs[i].state == Probe3 && states[n + 1].pcbs[i].state == Announce1
    ensures ThreeProbes(Log(states, events, i, n + 1), states[n + 1].pcbs[i].sent, states[n].now)
  {
    RunTraced(states, events, i);
    RunValid(states, events, n);
    AnnouncesWhenSpaced(states, events, i, n);
  }
}
