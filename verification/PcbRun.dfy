/**
  What goes out, and when, while mdns.c probes and announces (lines 5025-5080, with the queue of lines
  1584-1643, 5201-5212 and 5271-5303): single dispatches, and whole runs from the start of probing to
  the state in which a pcb just answers.
 */
module PcbRun {
  import opened TxQueue
  import opened PcbMachine

  // ----- One dispatch -----

  /** The step takes a packet of the pcb off the queue and handles it. */
  ghost predicate Sends(s: State, e: Event, i: nat) {
    e.Take? && s.actions != [] && AtHead(s.queue, s.actions[0]) && s.queue[0].pcb == i && i < |s.pcbs|
  }

  /** The packet of a dispatch is the first of its pcb. */
  lemma SentIsFirst(s: State, i: nat)
    requires Valid(s) && Sends(s, Take, i)
    ensures Of(s.queue, i) != [] && Of(s.queue, i)[0] == s.queue[0] && s.queue[0].sendAt < s.now
    ensures Sending(s.pcbs[i].state) ==> Of(s.queue, i) == [s.queue[0]]
  {
    LiveActionIsHandled(s.queue, s.actions, s.now, s.nextId);
    OfHead(s.queue, i);
    assert PcbOk(s.pcbs[i], Of(s.queue, i), s.now);
  }

  /** The queue without its head, and what is known of it. */
  lemma Rest(s: State, i: nat) returns (u: State)
    requires Valid(s) && Sends(s, Take, i)
    ensures u == s.(actions := s.actions[1..], queue := s.queue[1..])
    ensures Step(s, Take) == HandlePacket(u, s.queue[0])
    ensures QueueOk(u) && s.queue[0].id !in Live(u.queue) && TxHandle(s.queue[0].id) !in u.actions
    ensures s.queue[0].id < s.nextId && Of(s.queue, i) == [s.queue[0]] + Of(u.queue, i) && OnlyAt(s, u, i)
  {
    PopInv(s.queue, s.actions, s.now, s.nextId);
    u := s.(actions := s.actions[1..], queue := s.queue[1..]);
    forall j | 0 <= j < |s.pcbs|
      ensures j != i ==> Of(u.queue, j) == Of(s.queue, j)
    {
      OfRest(s.queue, j);
    }
    OfRest(s.queue, i);
  }

  /** A packet put into the queue is one more of its pcb. */
  lemma {:induction false} OfInsertMore(q: seq<Packet>, p: Packet)
    ensures multiset(Of(Insert(q, p), p.pcb)) == multiset(Of(q, p.pcb)) + multiset{p}
    decreases |q|
  {
    var r := Insert(q, p);
    if q != [] && q[0].sendAt <= p.sendAt {
      OfInsertMore(q[1..], p);
      assert r[1..] == Insert(q[1..], p);
    } else {
      assert r[1..] == q;
    }
  }

  /**
    What a dispatch leaves of the pcb's packets: `left` are the others, and one more is queued.
   */
  ghost predicate Requeued(left: seq<Packet>, packets: seq<Packet>, one: Packet) {
    multiset(packets) == multiset(left) + multiset{one} && (left == [] ==> packets == [one])
  }

  lemma OnlyAtTwice(s: State, u: State, t: State, i: nat)
    requires OnlyAt(s, u, i) && OnlyAt(u, t, i)
    ensures OnlyAt(s, t, i)
  {
  }

  lemma PutBack(u: State, p: Packet, again: Packet, pcb: Pcb)
    requires QueueOk(u) && p.pcb < |u.pcbs| && p.id < u.nextId && again.sendAt >= u.now
    requires p.id !in Live(u.queue) && TxHandle(p.id) !in u.actions
            && again == p.(sendAt := again.sendAt, queued := false)
    ensures var t := u.(queue := Insert(u.queue, again), pcbs := u.pcbs[p.pcb := pcb]);
            OnlyAt(u, t, p.pcb) && Requeued(Of(u.queue, p.pcb), Of(t.queue, p.pcb), again)
  {
    Inserted(u, again);
    OfInsertMore(u.queue, again);
  }

  /** A packet that is put back is the same one, due after the delay, and the pcb is in its next state. */
  ghost predicate BackAfter(s: State, t: State, i: nat, delay: int, state: PcbState)
    requires s.queue != [] && i < |s.pcbs| && Of(s.queue, i) != []
  {
    var p := s.queue[0];
    && OnlyAt(s, t, i) && t.pcbs[i].state == state
    && t.pcbs[i].services == s.pcbs[i].services && t.pcbs[i].ip == s.pcbs[i].ip
    && Requeued(Of(s.queue, i)[1..], Of(t.queue, i), Packet(p.id, s.now + delay, false, i, p.content))
  }

  lemma BackIs(s: State, i: nat, u: State, delay: int, pcb: Pcb, t: State)
    requires Valid(s) && Sends(s, Take, i) && QueueOk(u) && OnlyAt(s, u, i) && delay >= 0
    requires Of(s.queue, i) == [s.queue[0]] + Of(u.queue, i) && u.nextId == s.nextId && s.queue[0].id < s.nextId
    requires s.queue[0].id !in Live(u.queue) && TxHandle(s.queue[0].id) !in u.actions
    requires t == u.(queue := Insert(u.queue, s.queue[0].(queued := false, sendAt := s.now + delay)),
                     pcbs := u.pcbs[i := pcb])
    requires pcb.services == s.pcbs[i].services && pcb.ip == s.pcbs[i].ip
    ensures BackAfter(s, t, i, delay, pcb.state)
  {
    var p := s.queue[0];
    PutBack(u, p, p.(queued := false, sendAt := s.now + delay), pcb);
    OnlyAtTwice(s, u, t, i);
    assert Of(s.queue, i)[1..] == Of(u.queue, i);
  }

  /** The first two probes go out again 250 ms later. */
  lemma ProbeDispatched(s: State, i: nat)
    requires Valid(s) && Sends(s, Take, i) && (s.pcbs[i].state == Probe1 || s.pcbs[i].state == Probe2)
    ensures Of(s.queue, i) == [s.queue[0]]
    ensures BackAfter(s, Step(s, Take), i, 250, if s.pcbs[i].state == Probe1 then Probe2 else Probe3)
  {
    SentIsFirst(s, i);
    var u := Rest(s, i);
    var pcb := s.pcbs[i];
    BackIs(s, i, u, 250, pcb.(state := if pcb.state == Probe1 then Probe2 else Probe3, sent := pcb.sent + [s.now]),
           Step(s, Take));
  }

  /** After the third one the pcb has a single new packet, the announcement, which is due 250 ms later. */
  lemma LastProbeDispatched(s: State, i: nat)
    requires Valid(s) && Sends(s, Take, i) && s.pcbs[i].state == Probe3
    ensures var t := Step(s, Take);
            && OnlyAt(s, t, i) && Of(t.queue, i) == [Packet(s.nextId, s.now + 250, false, i, Reply)]
            && t.pcbs[i].state == Announce1 && t.pcbs[i].services == [] && !t.pcbs[i].ip
  {
    SentIsFirst(s, i);
    var u := Rest(s, i);
    Scheduled(u, i, Reply, 250);
    OnlyAtTwice(s, u, Step(s, Take), i);
  }

  /** The first two announcements go out again a second later. */
  lemma AnnouncementDispatched(s: State, i: nat)
    requires Valid(s) && Sends(s, Take, i) && (s.pcbs[i].state == Announce1 || s.pcbs[i].state == Announce2)
    ensures Of(s.queue, i) != []
    ensures BackAfter(s, Step(s, Take), i, 1000, if s.pcbs[i].state == Announce1 then Announce2 else Announce3)
  {
    SentIsFirst(s, i);
    var u := Rest(s, i);
    var pcb := s.pcbs[i];
    BackIs(s, i, u, 1000, pcb.(state := if pcb.state == Announce1 then Announce2 else Announce3), Step(s, Take));
  }

  /** The last announcement leads to the state in which a pcb just answers; answers are sent and gone. */
  lemma LastDispatched(s: State, i: nat)
    requires Valid(s) && Sends(s, Take, i) && !Sending(s.pcbs[i].state)
    requires s.pcbs[i].state != Announce1 && s.pcbs[i].state != Announce2
    ensures var t := Step(s, Take);
            && OnlyAt(s, t, i) && Of(s.queue, i) != [] && Of(t.queue, i) == Of(s.queue, i)[1..]
            && t.pcbs[i] == if s.pcbs[i].state == Announce3 then s.pcbs[i].(state := Running) else s.pcbs[i]
  {
    SentIsFirst(s, i);
    var u := Rest(s, i);
    assert Of(s.queue, i)[1..] == Of(u.queue, i);
  }

  // ----- What the other events queue -----

  lemma {:induction false} UnlistedMeans(services: seq<nat>, probed: seq<nat>)
    ensures forall x :: x in Unlisted(services, probed) <==> x in services && x !in probed
    decreases |services|
  {
    if services != [] {
      UnlistedMeans(services[1..], probed);
      assert services == [services[0]] + services[1..];
    }
  }

  /** Probing starts with a single probe, due after the delay, for what was being probed and what is new. */
  lemma StartMeans(s: State, i: nat, services: seq<nat>, ip: bool, delay: int)
    requires Valid(s) && i < |s.pcbs| && s.pcbs[i].ready && delay >= 0 && (services != [] || ip)
    ensures var t := InitProbe(s, i, services, ip, delay);
            && t.pcbs[i].state == Probe1 && (t.pcbs[i].ip <==> s.pcbs[i].ip || ip)
            && (forall x :: x in t.pcbs[i].services <==> x in services || x in s.pcbs[i].services)
            && Of(t.queue, i)
               == [Packet(s.nextId, s.now + delay, false, i, Probe(|t.pcbs[i].services|, t.pcbs[i].ip))]
  {
    assert PcbOk(s.pcbs[i], Of(s.queue, i), s.now);
    var pcb := s.pcbs[i];
    UnlistedMeans(services, pcb.services);
    Cleared(s, i);
    var names := if IsProbing(pcb.state) then Unlisted(services, pcb.services) else services;
    var all := if IsProbing(pcb.state) then names + pcb.services else names;
    Scheduled(ClearPcb(s, i), i, Probe(|all|, pcb.ip || ip), delay);
  }

  lemma OneMore(s: State, i: nat, content: Content, delay: int)
    requires QueueOk(s) && i < |s.pcbs| && delay >= 0
    ensures Requeued(Of(s.queue, i), Of(Schedule(s, i, content, delay).queue, i),
                     Packet(s.nextId, s.now + delay, false, i, content))
  {
    Scheduled(s, i, content, delay);
    var p := Packet(s.nextId, s.now + delay, false, i, content);
    assert Schedule(s, i, content, delay).queue == Insert(s.queue, p);
    OfInsertMore(s.queue, p);
  }

  /** A pcb that just answers is announced with a new packet, due at once. */
  lemma RunningAnnounces(s: State, i: nat, services: seq<nat>, ip: bool, delay: int)
    requires Valid(s) && i < |s.pcbs| && s.pcbs[i].state == Running
    ensures var t := AnnouncePcb(s, i, services, ip, delay);
            && t.pcbs[i].state == Announce1
            && Requeued(Of(s.queue, i), Of(t.queue, i), Packet(s.nextId, s.now, false, i, Reply))
  {
    assert s.pcbs[i].ready by {
      assert PcbOk(s.pcbs[i], Of(s.queue, i), s.now);
    }
    AnnouncesAtOnce(s, i, services, ip, delay);
    OneMore(s, i, Reply, 0);
  }

  lemma AnnouncesAtOnce(s: State, i: nat, services: seq<nat>, ip: bool, delay: int)
    requires i < |s.pcbs| && s.pcbs[i].state == Running && s.pcbs[i].ready
    ensures var t := AnnouncePcb(s, i, services, ip, delay);
            t.queue == Schedule(s, i, Reply, 0).queue && t.pcbs[i].state == Announce1
  {
  }

  /** One that announces and still has something queued starts over; before that the services are probed. */
  lemma OthersAnnounce(s: State, i: nat, services: seq<nat>, ip: bool, delay: int)
    requires Valid(s) && i < |s.pcbs| && s.pcbs[i].state != Running
    ensures var t, state := AnnouncePcb(s, i, services, ip, delay), s.pcbs[i].state;
            if state in {Off, Dup} then t == s
            else if state in {Probe1, Probe2, Probe3} then t == InitProbe(s, i, services, ip, delay)
            else Of(t.queue, i) == Of(s.queue, i)
                 && t.pcbs[i].state == if Of(s.queue, i) == [] then state else Announce1
  {
    assert PcbOk(s.pcbs[i], Of(s.queue, i), s.now);
  }

  /** An answer is queued for its delay by a pcb that announces or answers, and not before. */
  lemma AnswerMeans(s: State, i: nat, delay: int)
    requires Valid(s) && i < |s.pcbs| && delay >= 0
    ensures var t := Answer(s, i, delay);
            && t.pcbs == s.pcbs
            && if s.pcbs[i].state in {Announce1, Announce2, Announce3, Running}
               then Requeued(Of(s.queue, i), Of(t.queue, i), Packet(s.nextId, s.now + delay, false, i, Reply))
               else t == s
  {
    OneMore(s, i, Reply, delay);
  }

  /** An interface that goes down takes its packets with it. */
  lemma DownMeans(s: State, i: nat, state: PcbState)
    requires Valid(s) && i < |s.pcbs|
    ensures var t := SetState(Deinit(s, i), i, state);
            t.pcbs[i] == Pcb(state, [], false, false, false, t.pcbs[i].sent) && Of(t.queue, i) == []
  {
    assert PcbOk(s.pcbs[i], Of(s.queue, i), s.now);
    Cleared(s, i);
  }

  /** What an interface that comes up, or a restart, probes for: all of its names, or only the given ones. */
  lemma UpMeans(s: State, i: nat, services: seq<nat>, delay: int)
    requires Valid(s) && i < |s.pcbs| && !s.pcbs[i].ready && delay >= 0
    ensures var t := Enable(s, i, services, delay);
            && t.pcbs[i].state == Probe1 && t.pcbs[i].ready && t.pcbs[i].ip
            && (forall x :: x in t.pcbs[i].services <==> x in services)
            && Of(t.queue, i) == [Packet(s.nextId, s.now + delay, false, i, Probe(|t.pcbs[i].services|, true))]
  {
    assert PcbOk(s.pcbs[i], Of(s.queue, i), s.now);
    ProbesFor(s, i, s.pcbs[i].(ready := true), services, true, delay);
  }

  lemma RestartMeans(s: State, i: nat, services: seq<nat>, ip: bool, delay: int)
    requires Valid(s) && i < |s.pcbs| && delay >= 0
    ensures var t := Reprobe(s, i, services, ip, delay);
            && t.pcbs[i].state == Probe1 && (t.pcbs[i].ip <==> s.pcbs[i].ip || ip)
            && (forall x :: x in t.pcbs[i].services <==> x in services)
            && Of(t.queue, i)
               == [Packet(s.nextId, s.now + delay, false, i, Probe(|t.pcbs[i].services|, t.pcbs[i].ip))]
  {
    ProbesFor(s, i, s.pcbs[i].(services := [], running := false), services, ip, delay);
  }

  lemma ProbesFor(s: State, i: nat, pcb: Pcb, services: seq<nat>, ip: bool, delay: int)
    requires QueueOk(s) && i < |s.pcbs| && delay >= 0 && pcb.services == []
    ensures var t := InitProbe(s.(pcbs := s.pcbs[i := pcb]), i, services, ip, delay);
            && t.pcbs[i] == Pcb(Probe1, services, pcb.ip || ip, true, pcb.ready, [])
            && Of(t.queue, i) == [Packet(s.nextId, s.now + delay, false, i, Probe(|services|, pcb.ip || ip))]
  {
    var u := s.(pcbs := s.pcbs[i := pcb]);
    StartsWith(u, i, services, ip, delay);
    Cleared(u, i);
    Scheduled(ClearPcb(u, i), i, Probe(|services|, pcb.ip || ip), delay);
  }

  /** With nothing to be probed before, only the given services are. */
  lemma StartsWith(u: State, i: nat, services: seq<nat>, ip: bool, delay: int)
    requires i < |u.pcbs| && u.pcbs[i].services == []
    ensures var t, pcb := InitProbe(u, i, services, ip, delay), u.pcbs[i];
            && t.queue == Schedule(ClearPcb(u, i), i, Probe(|services|, pcb.ip || ip), delay).queue
            && t.pcbs == u.pcbs[i := Pcb(Probe1, services, pcb.ip || ip, true, pcb.ready, [])]
  {
    UnlistedAll(services);
    assert services + [] == services;
  }

  lemma {:induction false} WithoutMeans(services: seq<nat>, x: nat)
    requires x in services
    ensures multiset(services) == multiset(Without(services, x)) + multiset{x}
  {
    assert services == [services[0]] + services[1..];
    if services[0] != x {
      WithoutMeans(services[1..], x);
    }
  }

  /**
    When a service that is being probed is forgotten, the probe goes on with one question less; when nothing is
    left to ask, it is freed, and the pcb just answers.
   */
  lemma ForgetMeans(s: State, p: Packet, service: nat, emptied: bool, freed: bool)
    requires Valid(s) && p in s.queue && p.pcb < |s.pcbs|
    requires Sending(s.pcbs[p.pcb].state) && service in s.pcbs[p.pcb].services
    ensures var t, i := ForgetService(s, p, service, emptied, freed), p.pcb;
            var was, pcb := s.pcbs[i], t.pcbs[i];
            && multiset(was.services) == multiset(pcb.services) + multiset{service}
            && (pcb.ip <==> was.ip)
            && if pcb.services == [] && !pcb.ip then pcb.state == Running && Of(t.queue, i) == []
               else pcb.state == was.state && Of(t.queue, i) == [p.(content := Probe(|pcb.services|, pcb.ip))]
  {
    var pcb := s.pcbs[p.pcb];
    OnlyPacket(s, p);
    WithoutMeans(pcb.services, service);
    WithoutOne(pcb.services, service);
    ForgetIs(s, p, service, emptied, freed, Without(pcb.services, service));
  }

  // ----- What other steps leave alone -----

  lemma InitElsewhere(s: State, pcb: Pcb, j: nat, services: seq<nat>, ip: bool, delay: int)
    requires QueueOk(s) && j < |s.pcbs| && delay >= 0
    ensures OnlyAt(s, InitProbe(s.(pcbs := s.pcbs[j := pcb]), j, services, ip, delay), j)
  {
    var u := s.(pcbs := s.pcbs[j := pcb]);
    Cleared(u, j);
    var c := ClearPcb(u, j);
    var names := if IsProbing(pcb.state) then Unlisted(services, pcb.services) else services;
    var all := if IsProbing(pcb.state) then names + pcb.services else names;
    Scheduled(c, j, Probe(|all|, pcb.ip || ip), delay);
    OnlyAtTwice(s, u, c, j);
    OnlyAtTwice(s, c, InitProbe(u, j, services, ip, delay), j);
  }

  lemma AnnounceElsewhere(s: State, j: nat, services: seq<nat>, ip: bool, delay: int)
    requires QueueOk(s) && j < |s.pcbs| && delay >= 0
    ensures OnlyAt(s, AnnouncePcb(s, j, services, ip, delay), j)
  {
    if s.pcbs[j].ready && IsProbing(s.pcbs[j].state) {
      assert s.pcbs[j := s.pcbs[j]] == s.pcbs;
      InitElsewhere(s, s.pcbs[j], j, services, ip, delay);
    } else {
      Scheduled(s, j, Reply, 0);
    }
  }

  lemma ForgetElsewhere(s: State, p: Packet, service: nat, emptied: bool, freed: bool)
    requires QueueOk(s) && p in s.queue && p.pcb < |s.pcbs|
    ensures OnlyAt(s, ForgetService(s, p, service, emptied, freed), p.pcb)
  {
    var pcb := s.pcbs[p.pcb];
    if pcb.ready && IsProbing(pcb.state) && service in pcb.services {
      if LessOne(p.content) == Probe(0, false) {
        Freed(s, p);
      } else {
        Changed(s, p.(content := LessOne(p.content)), p);
      }
    } else if !IsProbing(pcb.state) && freed {
      Freed(s, p);
    }
  }

  lemma DownElsewhere(s: State, j: nat, state: PcbState)
    requires QueueOk(s) && j < |s.pcbs|
    ensures OnlyAt(s, SetState(Deinit(s, j), j, state), j)
  {
    Cleared(s, j);
  }

  lemma SendElsewhere(s: State, j: nat)
    requires Valid(s) && Sends(s, Take, j)
    ensures OnlyAt(s, Step(s, Take), j)
  {
    var state := s.pcbs[j].state;
    if state == Probe1 || state == Probe2 {
      ProbeDispatched(s, j);
    } else if state == Probe3 {
      LastProbeDispatched(s, j);
    } else if state == Announce1 || state == Announce2 {
      AnnouncementDispatched(s, j);
    } else {
      LastDispatched(s, j);
    }
  }

  /** The event is no new probe, announcement, answer, removal or change of the interface for the pcb. */
  ghost predicate Calm(s: State, e: Event, i: nat) {
    match e
    case Tick(_) => true
    case Scheduler => true
    case Post => true
    case Take => true
    case Start(j, _, _, _) => j != i
    case Restart(j, _, _, _) => j != i
    case Announce(j, _, _, _) => j != i
    case Query(j, _) => j != i
    case Forget(at, _, _, _) => at < |s.queue| && s.queue[at].pcb != i
    case Up(j, _, _) => j != i
    case Down(j) => j != i
    case Duplicate(j) => j != i
  }

  /** A pcb is as before, and its packets are but for what the scheduler has queued. */
  ghost predicate Untouched(s: State, e: Event, t: State, i: nat)
    requires i < |s.pcbs|
  {
    && |t.pcbs| == |s.pcbs| && t.pcbs[i] == s.pcbs[i]
    && if e.Scheduler? then t.queue == RunQueue(s.queue, s.now) else Of(t.queue, i) == Of(s.queue, i)
  }

  /** A calm event that does not send a packet of the pcb does not touch it. */
  lemma CalmLeaves(s: State, e: Event, t: State, i: nat)
    requires Valid(s) && Next(s, e, t) && Calm(s, e, i) && i < |s.pcbs| && !Sends(s, e, i)
    ensures Untouched(s, e, t, i)
  {
    match e
    case Take =>
      if AtHead(s.queue, s.actions[0]) {
        SendElsewhere(s, s.queue[0].pcb);
      }
    case Start(j, services, ip, delay) =>
      assert s.pcbs[j := s.pcbs[j]] == s.pcbs;
      InitElsewhere(s, s.pcbs[j], j, services, ip, delay);
    case Restart(j, services, ip, delay) =>
      InitElsewhere(s, s.pcbs[j].(services := [], running := false), j, services, ip, delay);
    case Up(j, services, delay) => InitElsewhere(s, s.pcbs[j].(ready := true), j, services, true, delay);
    case Announce(j, services, ip, delay) => AnnounceElsewhere(s, j, services, ip, delay);
    case Query(j, delay) => Scheduled(s, j, Reply, delay);
    case Forget(at, service, emptied, freed) => ForgetElsewhere(s, s.queue[at], service, emptied, freed);
    case Down(j) => DownElsewhere(s, j, Off);
    case Duplicate(j) => DownElsewhere(s, j, Dup);
    case _ =>
  }

  // ----- A pcb on its way from probing to answering -----

  /** The state after k dispatches. */
  function StateAt(k: nat): PcbState {
    match k
    case 0 => Probe1
    case 1 => Probe2
    case 2 => Probe3
    case 3 => Announce1
    case 4 => Announce2
    case 5 => Announce3
    case _ => Running
  }

  /** How long after the k-th dispatch the next one is due: 250 ms up to the first announcement, then a second. */
  function Gap(k: nat): int {
    if k <= 3 then 250 else 1000
  }

  /** After k dispatches the pcb has one packet, a probe or an announcement, and none after six. */
  ghost predicate Stage(s: State, i: nat, k: nat, p: Packet) {
    && i < |s.pcbs| && k <= 6 && s.pcbs[i].state == StateAt(k)
    && if k < 6 then Of(s.queue, i) == [p] && p.pcb == i && (p.content.Probe? <==> k < 3) else Of(s.queue, i) == []
  }

  lemma BackStage(s: State, t: State, i: nat, k: nat, p: Packet, p': Packet)
    requires s.queue != [] && s.queue[0] == p && i < |s.pcbs| && Of(s.queue, i) == [p] && k < 5
    requires BackAfter(s, t, i, Gap(k + 1), StateAt(k + 1)) && (p.content.Probe? <==> k + 1 < 3)
    requires p' == Packet(p.id, s.now + Gap(k + 1), false, i, p.content)
    ensures Stage(t, i, k + 1, p')
  {
    assert Of(s.queue, i)[1..] == [];
  }

  lemma ProbeStage(s: State, i: nat, k: nat, p: Packet, p': Packet)
    requires Valid(s) && Stage(s, i, k, p) && Sends(s, Take, i) && k < 2
    requires p' == Packet(p.id, s.now + Gap(k + 1), false, i, p.content)
    ensures Stage(Step(s, Take), i, k + 1, p')
  {
    SentIsFirst(s, i);
    ProbeDispatched(s, i);
    BackStage(s, Step(s, Take), i, k, p, p');
  }

  lemma AnnouncementStage(s: State, i: nat, k: nat, p: Packet, p': Packet)
    requires Valid(s) && Stage(s, i, k, p) && Sends(s, Take, i) && 3 <= k < 5
    requires p' == Packet(p.id, s.now + Gap(k + 1), false, i, p.content)
    ensures Stage(Step(s, Take), i, k + 1, p')
  {
    SentIsFirst(s, i);
    AnnouncementDispatched(s, i);
    BackStage(s, Step(s, Take), i, k, p, p');
  }

  lemma StageSends(s: State, t: State, i: nat, k: nat, p: Packet) returns (p': Packet)
    requires Valid(s) && Stage(s, i, k, p) && Sends(s, Take, i) && t == Step(s, Take)
    ensures k < 6 && s.now > p.sendAt && Stage(t, i, k + 1, p')
    ensures k + 1 < 6 ==> p'.sendAt == s.now + Gap(k + 1)
  {
    SentIsFirst(s, i);
    p' := Packet(p.id, s.now + Gap(k + 1), false, i, p.content);
    if k < 2 {
      ProbeStage(s, i, k, p, p');
    } else if k == 2 {
      LastProbeDispatched(s, i);
      p' := Packet(s.nextId, s.now + 250, false, i, Reply);
    } else if k < 5 {
      AnnouncementStage(s, i, k, p, p');
    } else {
      LastDispatched(s, i);
    }
  }

  /** A scheduler run queues every packet that is due, and none loses its place. */
  lemma {:induction false} RunMarks(q: seq<Packet>, now: int, i: nat, p: Packet)
    requires Ordered(q) && Of(q, i) == [p]
    ensures Of(RunQueue(q, now), i) == [p] || Of(RunQueue(q, now), i) == [p.(queued := true)]
    ensures p.queued || p.sendAt < now ==> Of(RunQueue(q, now), i) == [p.(queued := true)]
    ensures Of(MarkDue(q, now), i) == [p] || Of(MarkDue(q, now), i) == [p.(queued := true)]
    ensures p.queued || p.sendAt < now ==> Of(MarkDue(q, now), i) == [p.(queued := true)]
    decreases |q|
  {
    OfRest(q, i);
    if q[0].pcb == i {
      NoneMarked(q[1..], now, i);
      if q[0].queued {
        OfRest(RunQueue(q, now), i);
      }
      if q[0].sendAt < now {
        OfRest(MarkDue(q, now), i);
      }
    } else {
      RunMarks(q[1..], now, i, p);
      OfMembers(q[1..], i);
      assert p in Of(q[1..], i);
      if q[0].queued {
        OfRest(RunQueue(q, now), i);
      }
      if q[0].sendAt < now {
        OfRest(MarkDue(q, now), i);
      }
    }
  }

  lemma NoneMarked(q: seq<Packet>, now: int, i: nat)
    requires Of(q, i) == []
    ensures Of(RunQueue(q, now), i) == [] && Of(MarkDue(q, now), i) == []
  {
    OfRun(q, now, i);
  }

  /** A calm event leaves the packet waiting, perhaps queued now, or sends it once it is due. */
  lemma CalmStep(s: State, e: Event, t: State, i: nat, k: nat, p: Packet) returns (p': Packet)
    requires Valid(s) && Next(s, e, t) && Calm(s, e, i) && Stage(s, i, k, p)
    ensures Sends(s, e, i) ==> k < 6 && s.now > p.sendAt && Stage(t, i, k + 1, p')
    ensures Sends(s, e, i) && k + 1 < 6 ==> p'.sendAt == s.now + Gap(k + 1)
    ensures !Sends(s, e, i) ==> Stage(t, i, k, p') && (p' == p || p' == p.(queued := true))
    ensures e.Scheduler? && p.sendAt < s.now ==> p' == p.(queued := true)
  {
    p' := p;
    if Sends(s, e, i) {
      p' := StageSends(s, t, i, k, p);
    } else {
      CalmLeaves(s, e, t, i);
      if e.Scheduler? {
        if k < 6 {
          RunMarks(s.queue, s.now, i, p);
          p' := if Of(t.queue, i) == [p] then p else p.(queued := true);
        } else {
          NoneMarked(s.queue, s.now, i);
        }
        if p.sendAt < s.now {
          p' := p.(queued := true);
        }
      }
    }
  }

  // ----- Runs -----

  /** From a to b every event is calm. */
  ghost predicate CalmRun(states: seq<State>, events: seq<Event>, i: nat, a: nat, b: nat) {
    && a <= b <= |events| && Run(states, events)
    && forall n :: a <= n < b ==> Calm(states[n], events[n], i)
  }

  /** When the packets of a pcb went out between two moments of a run. */
  ghost function SendLog(states: seq<State>, events: seq<Event>, i: nat, a: nat, b: nat): seq<int>
    requires a <= b <= |events| && |states| == |events| + 1
    decreases b
  {
    if a == b then []
    else SendLog(states, events, i, a, b - 1) + if Sends(states[b - 1], events[b - 1], i) then [states[b - 1].now]
        else []
  }

  /** When the next packet is due, after the dispatches of a log. */
  function DueAfter(k: nat, due: int, log: seq<int>): int {
    if log == [] then due else log[|log| - 1] + Gap(k + |log|)
  }

  /** Each dispatch is after the moment its packet was due. */
  ghost predicate Paced(k: nat, due: int, log: seq<int>) {
    log == [] || (Paced(k, due, log[..|log| - 1]) && log[|log| - 1] > DueAfter(k, due, log[..|log| - 1]))
  }

  /** A pcb that had the packet p after k dispatches is where the log has brought it, with the packet p'. */
  ghost predicate Reached(s: State, i: nat, k: nat, p: Packet, log: seq<int>, p': Packet) {
    && Stage(s, i, k + |log|, p') && Paced(k, p.sendAt, log)
    && (k + |log| < 6 ==> p'.sendAt == DueAfter(k, p.sendAt, log))
    && (log == [] ==> p' == p || p' == p.(queued := true)) && (log == [] && p.queued ==> p' == p)
  }

  lemma ReachedBySending(t: State, i: nat, k: nat, p: Packet, log: seq<int>, now: int, p': Packet)
    requires Paced(k, p.sendAt, log) && now > DueAfter(k, p.sendAt, log)
    requires Stage(t, i, k + |log| + 1, p') && (k + |log| + 1 < 6 ==> p'.sendAt == now + Gap(k + |log| + 1))
    ensures Reached(t, i, k, p, log + [now], p')
  {
    assert (log + [now])[..|log|] == log;
  }

  lemma ReachedMore(s: State, e: Event, t: State, i: nat, k: nat, p: Packet, log: seq<int>, q: Packet)
    returns (p': Packet)
    requires Valid(s) && Next(s, e, t) && Calm(s, e, i) && Reached(s, i, k, p, log, q)
    ensures Reached(t, i, k, p, log + if Sends(s, e, i) then [s.now] else [], p')
  {
    if Sends(s, e, i) {
      p' := CalmStep(s, e, t, i, k + |log|, q);
      ReachedBySending(t, i, k, p, log, s.now, p');
    } else {
      p' := CalmStep(s, e, t, i, k + |log|, q);
      assert log + [] == log;
    }
  }

  lemma ReachedAtFirst(s: State, i: nat, k: nat, p: Packet)
    requires Stage(s, i, k, p)
    ensures Reached(s, i, k, p, [], p)
  {
  }

  lemma CalmBefore(states: seq<State>, events: seq<Event>, i: nat, a: nat, b: nat)
    requires a < b && CalmRun(states, events, i, a, b)
    ensures CalmRun(states, events, i, a, b - 1) && Calm(states[b - 1], events[b - 1], i)
  {
  }

  lemma ReachedNext(states: seq<State>, events: seq<Event>, i: nat, n: nat, k: nat, p: Packet, log: seq<int>, q: Packet,
                    more: seq<int>)
    returns (p': Packet)
    requires Run(states, events) && n < |events| && Calm(states[n], events[n], i)
    requires Reached(states[n], i, k, p, log, q)
    requires more == log + if Sends(states[n], events[n], i) then [states[n].now] else []
    ensures Reached(states[n + 1], i, k, p, more, p')
  {
    RunValid(states, events, n);
    assert NextAt(states, events, n);
    p' := ReachedMore(states[n], events[n], states[n + 1], i, k, p, log, q);
  }

  /**
    Undisturbed, a pcb sends one packet after the other, none before it is due and six in all, and its
    state is given by their number.
   */
  lemma {:induction false} StagesHold(states: seq<State>, events: seq<Event>, i: nat, a: nat, b: nat, k: nat, p: Packet)
    returns (p': Packet)
    requires CalmRun(states, events, i, a, b) && Stage(states[a], i, k, p)
    ensures Reached(states[b], i, k, p, SendLog(states, events, i, a, b), p')
    decreases b
  {
    if a == b {
      p' := p;
      ReachedAtFirst(states[a], i, k, p);
    } else {
      CalmBefore(states, events, i, a, b);
      var q := StagesHold(states, events, i, a, b - 1, k, p);
      p' := ReachedNext(states, events, i, b - 1, k, p, SendLog(states, events, i, a, b - 1), q,
                        SendLog(states, events, i, a, b));
    }
  }

  // ----- What is served goes out -----

  /** How many actions were taken between two moments of a run. */
  ghost function Takes(events: seq<Event>, a: nat, b: nat): nat
    requires a <= b <= |events|
    decreases b
  {
    if a == b then 0 else Takes(events, a, b - 1) + if events[b - 1].Take? then 1 else 0
  }

  lemma {:induction false} TakesSplit(events: seq<Event>, a: nat, b: nat)
    requires a < b <= |events|
    ensures Takes(events, a, b) == (if events[a].Take? then 1 else 0) + Takes(events, a + 1, b)
    decreases b
  {
    if a + 1 < b {
      TakesSplit(events, a, b - 1);
    }
  }

  lemma {:induction false} LogSplit(states: seq<State>, events: seq<Event>, i: nat, a: nat, m: nat, b: nat)
    requires a <= m <= b <= |events| && |states| == |events| + 1
    ensures SendLog(states, events, i, a, b) == SendLog(states, events, i, a, m) + SendLog(states, events, i, m, b)
    decreases b
  {
    if m < b {
      LogSplit(states, events, i, a, m, b - 1);
    }
  }

  /** The packet of the pcb is queued, and its action is the n-th to be taken. */
  ghost predicate InLine(s: State, i: nat, p: Packet, n: nat) {
    Of(s.queue, i) == [p] && p.queued && n < |s.actions| && s.actions[n] == TxHandle(p.id)
  }

  lemma {:induction false} QueuedIsPending(q: seq<Packet>, p: Packet, now: int)
    requires QueuedFirst(q, now) && p in q && p.queued
    ensures p.id in FrontIds(q)
    decreases |q|
  {
    assert q == [q[0]] + q[1..];
    if p != q[0] {
      QueuedIsPending(q[1..], p, now);
    }
  }

  lemma {:induction false} PendingIsListed(actions: seq<Action>, live: set<nat>, id: nat) returns (n: nat)
    requires id in Pending(actions, live)
    ensures n < |actions| && actions[n] == TxHandle(id)
    decreases |actions|
  {
    if actions[0] == TxHandle(id) {
      n := 0;
    } else {
      n := PendingIsListed(actions[1..], live, id);
      n := n + 1;
    }
  }

  /** A queued packet is in line. */
  lemma QueuedIsInLine(s: State, i: nat, p: Packet) returns (n: nat)
    requires Valid(s) && Of(s.queue, i) == [p] && p.queued
    ensures InLine(s, i, p, n)
  {
    OfMembers(s.queue, i);
    assert p in Of(s.queue, i);
    QueuedIsPending(s.queue, p, s.now);
    n := PendingIsListed(s.actions, Live(s.queue), p.id);
  }

  /** With its action at the head, the packet is sent. */
  lemma HeadIsSent(s: State, e: Event, i: nat, p: Packet)
    requires Valid(s) && InLine(s, i, p, 0) && e.Take? && i < |s.pcbs|
    ensures Sends(s, e, i)
  {
    OfMembers(s.queue, i);
    assert p in Of(s.queue, i) && p.id in Live(s.queue);
    LiveActionIsHandled(s.queue, s.actions, s.now, s.nextId);
    SameId(s.queue, s.queue[0], p);
  }

  /** Otherwise it comes nearer with every action that is taken. */
  lemma LineMoves(s: State, e: Event, t: State, i: nat, k: nat, p: Packet, n: nat)
    requires Valid(s) && Next(s, e, t) && Calm(s, e, i) && Stage(s, i, k, p) && k < 6 && InLine(s, i, p, n)
    requires !Sends(s, e, i)
    ensures if e.Take? then n > 0 && InLine(t, i, p, n - 1) else InLine(t, i, p, n)
  {
    var p' := CalmStep(s, e, t, i, k, p);
    if e.Take? && n == 0 {
      HeadIsSent(s, e, i, p);
      assert false;
    }
    ActionsMove(s, e, t);
  }

  /** Taking an action drops the first one, and nothing else drops any. */
  lemma ActionsMove(s: State, e: Event, t: State)
    requires Valid(s) && Next(s, e, t)
    ensures if e.Take? then t.actions == s.actions[1..] else s.actions <= t.actions
  {
  }

  /** As many actions as are before it, and its own: then it is sent. */
  lemma {:induction false} LineDrains(states: seq<State>, events: seq<Event>, i: nat, a: nat, b: nat, k: nat, p: Packet,
                                      n: nat)
    requires CalmRun(states, events, i, a, b) && Stage(states[a], i, k, p) && k < 6
    requires InLine(states[a], i, p, n) && Takes(events, a, b) > n
    ensures SendLog(states, events, i, a, b) != []
    decreases b - a
  {
    RunValid(states, events, a);
    LogSplit(states, events, i, a, a + 1, b);
    if !Sends(states[a], events[a], i) {
      TakesSplit(events, a, b);
      assert NextAt(states, events, a);
      LineMoves(states[a], events[a], states[a + 1], i, k, p, n);
      var p' := CalmStep(states[a], events[a], states[a + 1], i, k, p);
      LineDrains(states, events, i, a + 1, b, k, p, if events[a].Take? then n - 1 else n);
    }
  }

  /** After a moment the scheduler has run, and all the actions that were then there have been taken. */
  ghost predicate Served(states: seq<State>, events: seq<Event>, a: nat, b: nat, due: int)
    requires a <= b <= |events| && |states| == |events| + 1
  {
    exists c :: a <= c < b && events[c].Scheduler? && states[c].now > due
                && Takes(events, c + 1, b) >= |states[c + 1].actions|
  }

  lemma ScheduledGoesOut(states: seq<State>, events: seq<Event>, i: nat, c: nat, b: nat, k: nat, p: Packet)
    requires CalmRun(states, events, i, c, b) && c < b && Stage(states[c], i, k, p) && k < 6
    requires events[c].Scheduler? && states[c].now > p.sendAt && Takes(events, c + 1, b) >= |states[c + 1].actions|
    ensures SendLog(states, events, i, c, b) != []
  {
    RunValid(states, events, c);
    assert NextAt(states, events, c);
    var p' := CalmStep(states[c], events[c], states[c + 1], i, k, p);
    RunValid(states, events, c + 1);
    var n := QueuedIsInLine(states[c + 1], i, p');
    LineDrains(states, events, i, c + 1, b, k, p', n);
    LogSplit(states, events, i, c, c + 1, b);
  }

  /** A packet whose moment is served goes out. */
  lemma ServedGoesOut(states: seq<State>, events: seq<Event>, i: nat, a: nat, b: nat, k: nat, p: Packet, due: int)
    requires CalmRun(states, events, i, a, b) && Stage(states[a], i, k, p) && k < 6
    requires Served(states, events, a, b, due) && p.sendAt <= due
    ensures SendLog(states, events, i, a, b) != []
  {
    var c: nat :| a <= c < b && events[c].Scheduler? && states[c].now > due
                  && Takes(events, c + 1, b) >= |states[c + 1].actions|;
    LogSplit(states, events, i, a, c, b);
    if SendLog(states, events, i, a, c) == [] {
      var p' := StagesHold(states, events, i, a, c, k, p);
      ScheduledGoesOut(states, events, i, c, b, k, p');
    }
  }

  lemma {:induction false} TimePasses(states: seq<State>, events: seq<Event>, a: nat, b: nat)
    requires Run(states, events) && a <= b <= |events|
    ensures states[a].now <= states[b].now
    decreases b
  {
    if a < b {
      TimePasses(states, events, a, b - 1);
      assert NextAt(states, events, b - 1);
      StepForward(states[b - 1], events[b - 1]);
    }
  }

  lemma StepForward(s: State, e: Event)
    requires Enabled(s, e) && forall p :: p in s.queue ==> p.pcb < |s.pcbs|
    ensures s.now <= Step(s, e).now
  {
  }

  lemma {:induction false} LogIsPast(states: seq<State>, events: seq<Event>, i: nat, a: nat, b: nat)
    requires Run(states, events) && a <= b <= |events|
    ensures forall j :: 0 <= j < |SendLog(states, events, i, a, b)| ==>
                SendLog(states, events, i, a, b)[j] <= states[b].now
    decreases b
  {
    if a < b {
      LogIsPast(states, events, i, a, b - 1);
      TimePasses(states, events, b - 1, b);
    }
  }

  /** The bounds of windows one after the other. */
  ghost predicate Windows(ends: seq<nat>, n: nat) {
    ends != [] && (forall j :: 0 <= j < |ends| ==> ends[j] <= n)
        && forall j :: 0 < j < |ends| ==> ends[j - 1] <= ends[j]
  }

  /** In each window everything is served that is due some time after its beginning. */
  ghost predicate Attended(states: seq<State>, events: seq<Event>, ends: seq<nat>, patience: int)
    requires Windows(ends, |events|) && |states| == |events| + 1
  {
    forall j :: 0 < j < |ends| ==> Served(states, events, ends[j - 1], ends[j], states[ends[j - 1]].now + patience)
  }

  /** One window more. */
  lemma WindowSends(states: seq<State>, events: seq<Event>, i: nat, k: nat, p: Packet, a: nat, b: nat, c: nat,
                    patience: int)
    requires a <= b <= c && CalmRun(states, events, i, a, c) && CalmRun(states, events, i, a, b)
    requires CalmRun(states, events, i, b, c)
    requires Stage(states[a], i, k, p) && p.sendAt <= states[a].now + patience && patience >= 1000
    requires Served(states, events, b, c, states[b].now + patience)
    ensures var log, more := SendLog(states, events, i, a, b), SendLog(states, events, i, b, c);
            SendLog(states, events, i, a, c) == log + more && (k + |log| < 6 ==> more != [])
  {
    LogSplit(states, events, i, a, b, c);
    var log := SendLog(states, events, i, a, b);
    var p' := StagesHold(states, events, i, a, b, k, p);
    if k + |log| < 6 {
      LogIsPast(states, events, i, a, b);
      TimePasses(states, events, a, b);
      ServedGoesOut(states, events, i, b, c, k + |log|, p', states[b].now + patience);
    }
  }

  lemma AttendedLess(states: seq<State>, events: seq<Event>, ends: seq<nat>, m: nat, patience: int)
    requires Windows(ends, |events|) && |states| == |events| + 1 && Attended(states, events, ends, patience)
    requires 0 < m < |ends|
    ensures Windows(ends[..m], |events|) && Attended(states, events, ends[..m], patience)
    ensures Served(states, events, ends[m - 1], ends[m], states[ends[m - 1]].now + patience)
  {
    var less := ends[..m];
    forall j | 0 < j < m
      ensures Served(states, events, less[j - 1], less[j], states[less[j - 1]].now + patience)
    {
      assert less[j - 1] == ends[j - 1] && less[j] == ends[j];
    }
  }

  /** With every window one more packet has gone out, up to the sixth. */
  lemma {:induction false} WindowsSend(states: seq<State>, events: seq<Event>, i: nat, k: nat, p: Packet,
                                       ends: seq<nat>,
                                       patience: int)
    requires Windows(ends, |events|) && CalmRun(states, events, i, ends[0], ends[|ends| - 1])
    requires ends[0] <= ends[|ends| - 1]
    requires Stage(states[ends[0]], i, k, p) && p.sendAt <= states[ends[0]].now + patience && patience >= 1000
    requires Attended(states, events, ends, patience)
    ensures var log := SendLog(states, events, i, ends[0], ends[|ends| - 1]);
            k + |log| >= if k + |ends| - 1 < 6 then k + |ends| - 1 else 6
    decreases |ends|
  {
    if |ends| > 1 {
      var m := |ends| - 1;
      WindowsRise(ends, m);
      AttendedLess(states, events, ends, m, patience);
      WindowsSend(states, events, i, k, p, ends[..m], patience);
      WindowSends(states, events, i, k, p, ends[0], ends[m - 1], ends[m], patience);
    }
  }

  lemma {:induction false} WindowsRise(ends: seq<nat>, m: nat)
    requires 0 < m < |ends| && forall j :: 0 < j < |ends| ==> ends[j - 1] <= ends[j]
    ensures ends[0] <= ends[m - 1] <= ends[m]
    decreases m
  {
    if m > 1 {
      WindowsRise(ends, m - 1);
    }
  }

  // ----- From the start of probing to answering -----

  /** The event starts probing anew, after a delay. */
  ghost predicate Begins(s: State, e: Event, i: nat, delay: int) {
    match e
    case Start(j, _, _, d) => j == i && d == delay
    case Restart(j, _, _, d) => j == i && d == delay
    case Up(j, _, d) => j == i && d == delay
    case Announce(j, _, _, d) => j == i && d == delay && i < |s.pcbs| && s.pcbs[i].ready && IsProbing(s.pcbs[i].state)
    case _ => false
  }

  lemma InitStage(s: State, pcb: Pcb, i: nat, services: seq<nat>, ip: bool, delay: int) returns (p: Packet)
    requires ValidBut(s, i) && pcb.ready && delay >= 0 && (services != [] || ip)
    ensures var t := InitProbe(s.(pcbs := s.pcbs[i := pcb]), i, services, ip, delay);
            Stage(t, i, 0, p) && p.sendAt == s.now + delay
  {
    var u := s.(pcbs := s.pcbs[i := pcb]);
    Cleared(u, i);
    var names := if IsProbing(pcb.state) then Unlisted(services, pcb.services) else services;
    var all := if IsProbing(pcb.state) then names + pcb.services else names;
    Scheduled(ClearPcb(u, i), i, Probe(|all|, pcb.ip || ip), delay);
    p := Packet(s.nextId, s.now + delay, false, i, Probe(|all|, pcb.ip || ip));
  }

  lemma BeginStage(s: State, e: Event, t: State, i: nat, delay: int) returns (p: Packet)
    requires Valid(s) && Next(s, e, t) && Begins(s, e, i, delay)
    ensures Stage(t, i, 0, p) && p.sendAt == s.now + delay && t.now == s.now
  {
    assert s.pcbs[i := s.pcbs[i]] == s.pcbs;
    match e
    case Start(_, services, ip, _) => p := InitStage(s, s.pcbs[i], i, services, ip, delay);
    case Restart(_, services, ip, _) =>
      p := InitStage(s, s.pcbs[i].(services := [], running := false), i, services, ip, delay);
    case Up(_, services, _) => p := InitStage(s, s.pcbs[i].(ready := true), i, services, true, delay);
    case Announce(_, services, ip, _) => p := InitStage(s, s.pcbs[i], i, services, ip, delay);
  }

  lemma {:induction false} PacedMeans(k: nat, due: int, log: seq<int>)
    requires Paced(k, due, log)
    ensures log != [] ==> log[0] > due
    ensures forall j :: 0 < j < |log| ==> log[j] > log[j - 1] + Gap(k + j)
    decreases |log|
  {
    if |log| > 0 {
      PacedMeans(k, due, log[..|log| - 1]);
    }
  }

  /**
    Where a pcb is when probing has started at a time and these packets have gone out: three probes and three
    announcements, each later than its delay after the one before; the state is given by how many, and exactly
    one packet is queued, for exactly that delay after the last, until all six are out.
   */
  ghost predicate OnItsWay(s: State, i: nat, start: int, delay: int, log: seq<int>) {
    && |log| <= 6 && i < |s.pcbs|
    && s.pcbs[i].state == [Probe1, Probe2, Probe3, Announce1, Announce2, Announce3, Running][|log|]
    && (log != [] ==> log[0] > start + delay)
    && (forall j :: 0 < j < |log| ==> log[j] > log[j - 1] + if j <= 3 then 250 else 1000)
    && var packets := Of(s.queue, i);
       if |log| == 6 then packets == []
       else |packets| == 1 && (packets[0].content.Probe? <==> |log| < 3)
            && packets[0].sendAt == if |log| == 0 then start + delay
                                    else log[|log| - 1] + if |log| <= 3 then 250 else 1000
  }

  lemma ReachedIsOnItsWay(s: State, i: nat, p: Packet, start: int, delay: int, log: seq<int>, p': Packet)
    requires Reached(s, i, 0, p, log, p') && p.sendAt == start + delay
    ensures OnItsWay(s, i, start, delay, log)
  {
    PacedMeans(0, p.sendAt, log);
  }

  lemma BegunStage(states: seq<State>, events: seq<Event>, i: nat, n: nat, delay: int) returns (p: Packet)
    requires Run(states, events) && n < |events| && Begins(states[n], events[n], i, delay)
    ensures Stage(states[n + 1], i, 0, p) && p.sendAt == states[n].now + delay && states[n + 1].now == states[n].now
  {
    RunValid(states, events, n);
    assert NextAt(states, events, n);
    p := BeginStage(states[n], events[n], states[n + 1], i, delay);
  }

  /** Once probing has started, and as long as nothing else happens to the pcb, it is on its way. */
  lemma UndisturbedProbing(states: seq<State>, events: seq<Event>, i: nat, n: nat, b: nat, delay: int)
    requires n < b && CalmRun(states, events, i, n + 1, b) && Begins(states[n], events[n], i, delay)
    ensures OnItsWay(states[b], i, states[n].now, delay, SendLog(states, events, i, n + 1, b))
  {
    var p := BegunStage(states, events, i, n, delay);
    var p' := StagesHold(states, events, i, n + 1, b, 0, p);
    ReachedIsOnItsWay(states[b], i, p, states[n].now, delay, SendLog(states, events, i, n + 1, b), p');
  }

  /** The pcb just answers, and has nothing left to send. */
  ghost predicate Answers(s: State, i: nat) {
    i < |s.pcbs| && s.pcbs[i].state == Running && Of(s.queue, i) == []
  }

  /**
    And when the scheduler runs and the actions are taken, in six windows one after the other, all six go out:
    the pcb has probed three times, announced three times, and answers.
   */
  lemma ProbingEnds(states: seq<State>, events: seq<Event>, i: nat, n: nat, ends: seq<nat>, delay: int, patience: int)
    requires |ends| == 7 && Windows(ends, |events|) && ends[0] == n + 1 && n < ends[6]
    requires CalmRun(states, events, i, n + 1, ends[6]) && Begins(states[n], events[n], i, delay)
    requires delay <= patience && 1000 <= patience && Attended(states, events, ends, patience)
    ensures |SendLog(states, events, i, n + 1, ends[6])| == 6 && Answers(states[ends[6]], i)
  {
    var p := BegunStage(states, events, i, n, delay);
    WindowsSend(states, events, i, 0, p, ends, patience);
    UndisturbedProbing(states, events, i, n, ends[6], delay);
  }

  /** From the third probe on, three such windows let the three announcements go out. */
  lemma AnnouncementsFollow(states: seq<State>, events: seq<Event>, i: nat, n: nat, ends: seq<nat>, patience: int)
    requires |ends| == 4 && Windows(ends, |events|) && ends[0] == n + 1 && n < ends[3]
    requires CalmRun(states, events, i, n + 1, ends[3]) && Sends(states[n], events[n], i)
    requires states[n].pcbs[i].state == Probe3 && 1000 <= patience && Attended(states, events, ends, patience)
    ensures var log := SendLog(states, events, i, n + 1, ends[3]);
            |log| == 3 && log[0] > states[n].now + 250 && log[1] > log[0] + 1000 && log[2] > log[1] + 1000
    ensures Answers(states[ends[3]], i)
  {
    RunValid(states, events, n);
    assert NextAt(states, events, n);
    LastProbeDispatched(states[n], i);
    var p := Packet(states[n].nextId, states[n].now + 250, false, i, Reply);
    assert Stage(states[n + 1], i, 3, p);
    WindowsSend(states, events, i, 3, p, ends, patience);
    var p' := StagesHold(states, events, i, n + 1, ends[3], 3, p);
    PacedMeans(3, p.sendAt, SendLog(states, events, i, n + 1, ends[3]));
  }
}
