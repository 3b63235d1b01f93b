/**
  The transmit queue of mdns.c and the action queue it feeds (lines 1584-1643, 5201-5212 and
  5271-5303): a list of packets sorted by the time to send them, of which the first few have been
  handed to the action queue. Every step of the source is a composition of the operations here.
 */
module TxQueue {

  /** What a packet carries, as far as the probing state depends on it. */
  datatype Content = Probe(count: nat, host: bool) | Reply

  datatype Packet = Packet(id: nat, sendAt: int, queued: bool, pcb: nat, content: Content)

  datatype Action = TxHandle(id: nat) | Other

  // ----- The operations -----

  /** _mdns_schedule_tx_packet: before the first packet that is to be sent later. */
  function Insert(q: seq<Packet>, p: Packet): seq<Packet> {
    if q == [] || q[0].sendAt > p.sendAt then [p] + q
    else [q[0]] + Insert(q[1..], p)
  }

  /** The packets that stay when those for which `keep` fails are freed. */
  function Keep(q: seq<Packet>, keep: Packet -> bool): seq<Packet> {
    if q == [] then []
    else (if keep(q[0]) then [q[0]] else []) + Keep(q[1..], keep)
  }

  /** The loop of _mdns_scheduler_run over the packets that are due. */
  function MarkDue(q: seq<Packet>, now: int): seq<Packet> {
    if q == [] || q[0].sendAt >= now then q
    else [q[0].(queued := true)] + MarkDue(q[1..], now)
  }

  function DueActions(q: seq<Packet>, now: int): seq<Action> {
    if q == [] || q[0].sendAt >= now then []
    else [TxHandle(q[0].id)] + DueActions(q[1..], now)
  }

  /** _mdns_scheduler_run: the queue after it; the search starts at the first packet not queued. */
  function RunQueue(q: seq<Packet>, now: int): seq<Packet> {
    if q != [] && q[0].queued then [q[0]] + RunQueue(q[1..], now) else MarkDue(q, now)
  }

  /** The actions that it sends. */
  function RunActions(q: seq<Packet>, now: int): seq<Action> {
    if q != [] && q[0].queued then RunActions(q[1..], now) else DueActions(q, now)
  }

  // ----- The invariant -----

  /** The ids of the queued packets at the front. */
  function FrontIds(q: seq<Packet>): seq<nat> {
    if q == [] || !q[0].queued then [] else [q[0].id] + FrontIds(q[1..])
  }

  /** The transmissions still to come, of packets that are alive. */
  function Pending(actions: seq<Action>, live: set<nat>): seq<nat> {
    if actions == [] then []
    else (if actions[0].TxHandle? && actions[0].id in live then [actions[0].id] else [])
         + Pending(actions[1..], live)
  }

  function Live(q: seq<Packet>): set<nat> {
    set p | p in q :: p.id
  }

  /** Sorted by the time to send, with distinct ids. */
  ghost predicate Ordered(q: seq<Packet>) {
    q == [] || (Ordered(q[1..]) && forall p :: p in q[1..] ==> q[0].sendAt <= p.sendAt && q[0].id != p.id)
  }

  /** The queued packets come first, and were due when they were queued. */
  ghost predicate QueuedFirst(q: seq<Packet>, now: int) {
    q == [] ||
    if q[0].queued then q[0].sendAt < now && QueuedFirst(q[1..], now)
    else forall p :: p in q ==> !p.queued
  }

  ghost predicate KnownIds(q: seq<Packet>, actions: seq<Action>, nextId: nat) {
    && (forall p :: p in q ==> p.id < nextId)
    && (forall a :: a in actions && a.TxHandle? ==> a.id < nextId)
  }

  /** The pending transmissions of live packets are those of the queued front, in its order. */
  ghost predicate Inv(q: seq<Packet>, actions: seq<Action>, now: int, nextId: nat) {
    && Ordered(q) && QueuedFirst(q, now) && KnownIds(q, actions, nextId)
    && Pending(actions, Live(q)) == FrontIds(q)
  }

  // ----- Pending transmissions -----

  lemma {:induction false} PendingSame(actions: seq<Action>, a: set<nat>, b: set<nat>)
    requires forall x :: x in actions && x.TxHandle? ==> (x.id in a <==> x.id in b)
    ensures Pending(actions, a) == Pending(actions, b)
    decreases |actions|
  {
    if actions != [] {
      PendingSame(actions[1..], a, b);
    }
  }

  lemma {:induction false} PendingConcat(x: seq<Action>, y: seq<Action>, live: set<nat>)
    ensures Pending(x + y, live) == Pending(x, live) + Pending(y, live)
    decreases |x|
  {
    if x == [] {
      assert x + y == y;
    } else {
      assert (x + y)[1..] == x[1..] + y;
      PendingConcat(x[1..], y, live);
    }
  }

  // ----- Scheduling a packet -----

  lemma {:induction false} InsertMembers(q: seq<Packet>, p: Packet)
    ensures forall x :: x in Insert(q, p) <==> x == p || x in q
    decreases |q|
  {
    if q != [] && q[0].sendAt <= p.sendAt {
      InsertMembers(q[1..], p);
      assert q == [q[0]] + q[1..];
    }
  }

  lemma {:induction false} InsertOrdered(q: seq<Packet>, p: Packet)
    requires Ordered(q) && forall x :: x in q ==> x.id != p.id
    ensures Ordered(Insert(q, p))
    decreases |q|
  {
    if q != [] && q[0].sendAt <= p.sendAt {
      InsertOrdered(q[1..], p);
      InsertMembers(q[1..], p);
      assert Insert(q, p)[1..] == Insert(q[1..], p);
    } else {
      assert Insert(q, p)[1..] == q;
    }
  }

  lemma {:induction false} InsertFront(q: seq<Packet>, p: Packet, now: int)
    requires QueuedFirst(q, now) && !p.queued && p.sendAt >= now
    ensures QueuedFirst(Insert(q, p), now) && FrontIds(Insert(q, p)) == FrontIds(q)
    decreases |q|
  {
    InsertMembers(q, p);
    if q != [] && q[0].queued {
      InsertFront(q[1..], p, now);
      assert Insert(q, p)[1..] == Insert(q[1..], p);
    }
  }

  /** A packet that is not in the queue and not due can be scheduled. */
  lemma InsertInv(q: seq<Packet>, actions: seq<Action>, now: int, nextId: nat, p: Packet)
    requires Inv(q, actions, now, nextId) && !p.queued && p.sendAt >= now && p.id < nextId
    requires p.id !in Live(q) && TxHandle(p.id) !in actions
    ensures Inv(Insert(q, p), actions, now, nextId)
  {
    InsertMembers(q, p);
    InsertOrdered(q, p);
    InsertFront(q, p, now);
    PendingSame(actions, Live(q), Live(Insert(q, p)));
  }

  // ----- Freeing packets -----

  function Filter(s: seq<nat>, live: set<nat>): seq<nat> {
    if s == [] then [] else (if s[0] in live then [s[0]] else []) + Filter(s[1..], live)
  }

  lemma {:induction false} PendingFilter(actions: seq<Action>, big: set<nat>, small: set<nat>)
    requires small <= big
    ensures Pending(actions, small) == Filter(Pending(actions, big), small)
    decreases |actions|
  {
    if actions != [] {
      PendingFilter(actions[1..], big, small);
      var rest := Pending(actions[1..], big);
      if actions[0].TxHandle? && actions[0].id in big {
        assert ([actions[0].id] + rest)[1..] == rest;
      } else {
        assert Pending(actions, big) == rest;
        assert Pending(actions, small) == Pending(actions[1..], small);
      }
    }
  }

  lemma {:induction false} KeepMembers(q: seq<Packet>, keep: Packet -> bool)
    ensures forall p :: p in Keep(q, keep) <==> p in q && keep(p)
    decreases |q|
  {
    if q != [] {
      KeepMembers(q[1..], keep);
      assert q == [q[0]] + q[1..];
    }
  }

  lemma {:induction false} KeepOrdered(q: seq<Packet>, keep: Packet -> bool)
    requires Ordered(q)
    ensures Ordered(Keep(q, keep))
    decreases |q|
  {
    if q != [] {
      KeepOrdered(q[1..], keep);
      KeepMembers(q[1..], keep);
      if keep(q[0]) {
        assert Keep(q, keep)[1..] == Keep(q[1..], keep);
      } else {
        assert Keep(q, keep) == Keep(q[1..], keep);
      }
    }
  }

  lemma {:induction false} SameId(q: seq<Packet>, a: Packet, b: Packet)
    requires Ordered(q) && a in q && b in q && a.id == b.id
    ensures a == b
    decreases |q|
  {
    assert q == [q[0]] + q[1..];
    if a != q[0] && b != q[0] {
      SameId(q[1..], a, b);
    }
  }

  lemma FilterFirst(x: nat, s: seq<nat>, live: set<nat>)
    ensures Filter([x] + s, live) == (if x in live then [x] else []) + Filter(s, live)
  {
    assert ([x] + s)[1..] == s;
  }

  lemma FrontIdsMore(p: Packet, q: seq<Packet>)
    requires p.queued
    ensures FrontIds([p] + q) == [p.id] + FrontIds(q)
  {
    assert ([p] + q)[1..] == q;
  }

  /** The ids of the queued front that are kept are those of the kept queued front. */
  lemma {:induction false} KeepFront(q: seq<Packet>, keep: Packet -> bool, live: set<nat>, now: int)
    requires QueuedFirst(q, now) && forall p :: p in q ==> (p.id in live <==> keep(p))
    ensures QueuedFirst(Keep(q, keep), now) && Filter(FrontIds(q), live) == FrontIds(Keep(q, keep))
    decreases |q|
  {
    KeepMembers(q, keep);
    if q != [] && q[0].queued {
      var q', r' := q[1..], Keep(q[1..], keep);
      KeepFront(q', keep, live, now);
      FilterFirst(q[0].id, FrontIds(q'), live);
      if keep(q[0]) {
        FrontIdsMore(q[0], r');
        assert ([q[0]] + r')[1..] == r';
      } else {
        assert Keep(q, keep) == r';
      }
    }
  }

  lemma KeepInv(q: seq<Packet>, actions: seq<Action>, now: int, nextId: nat, keep: Packet -> bool)
    requires Inv(q, actions, now, nextId)
    ensures Inv(Keep(q, keep), actions, now, nextId)
  {
    var r := Keep(q, keep);
    KeepMembers(q, keep);
    KeepOrdered(q, keep);
    forall p | p in q
      ensures p.id in Live(r) <==> keep(p)
    {
      if keep(p) {
        assert p in r;
      } else if p.id in Live(r) {
        var b :| b in r && b.id == p.id;
        SameId(q, p, b);
      }
    }
    KeepFront(q, keep, Live(r), now);
    PendingFilter(actions, Live(q), Live(r));
  }

  // ----- Running the scheduler -----

  /** A packet of the run's result is one of the queue, perhaps newly queued. */
  lemma {:induction false} MarkDueMembers(q: seq<Packet>, now: int)
    ensures forall p :: p in MarkDue(q, now) ==>
            p in q || (p.sendAt < now && exists x :: x in q && p == x.(queued := true))
    ensures forall x :: x in q ==> x in MarkDue(q, now) || x.(queued := true) in MarkDue(q, now)
    ensures forall a :: a in DueActions(q, now) ==> a.TxHandle? && a.id in Live(q)
    decreases |q|
  {
    if q != [] && q[0].sendAt < now {
      MarkDueMembers(q[1..], now);
      assert q == [q[0]] + q[1..];
    }
  }

  lemma {:induction false} MarkDueOrdered(q: seq<Packet>, now: int)
    requires Ordered(q)
    ensures Ordered(MarkDue(q, now))
    decreases |q|
  {
    if q != [] && q[0].sendAt < now {
      MarkDueOrdered(q[1..], now);
      MarkDueMembers(q[1..], now);
      assert MarkDue(q, now)[1..] == MarkDue(q[1..], now);
    }
  }

  /** The due packets become the queued front, and an action is sent for each. */
  lemma {:induction false} MarkDueFront(q: seq<Packet>, now: int, live: set<nat>)
    requires forall p :: p in q ==> !p.queued && p.id in live
    ensures QueuedFirst(MarkDue(q, now), now)
    ensures FrontIds(MarkDue(q, now)) == Pending(DueActions(q, now), live)
    decreases |q|
  {
    if q != [] && q[0].sendAt < now {
      MarkDueFront(q[1..], now, live);
      assert MarkDue(q, now)[1..] == MarkDue(q[1..], now);
      assert DueActions(q, now)[1..] == DueActions(q[1..], now);
    }
  }

  lemma RunPastQueued(p: Packet, q: seq<Packet>, now: int)
    requires p.queued
    ensures RunQueue([p] + q, now) == [p] + RunQueue(q, now) && RunActions([p] + q, now) == RunActions(q, now)
  {
    assert ([p] + q)[1..] == q;
  }

  lemma QueuedFirstMore(p: Packet, q: seq<Packet>, now: int)
    requires p.queued
    ensures QueuedFirst([p] + q, now) <==> p.sendAt < now && QueuedFirst(q, now)
  {
    assert ([p] + q)[1..] == q;
  }

  /** A scheduler run leaves the front queued and extends it by the packets it sends actions for. */
  lemma {:induction false} RunFront(q: seq<Packet>, now: int, live: set<nat>)
    requires QueuedFirst(q, now) && forall p :: p in q ==> p.id in live
    ensures QueuedFirst(RunQueue(q, now), now)
    ensures FrontIds(RunQueue(q, now)) == FrontIds(q) + Pending(RunActions(q, now), live)
    decreases |q|
  {
    if q != [] && q[0].queued {
      var p, q', r' := q[0], q[1..], RunQueue(q[1..], now);
      assert q == [p] + q';
      RunPastQueued(p, q', now);
      QueuedFirstMore(p, q', now);
      QueuedFirstMore(p, r', now);
      RunFront(q', now, live);
      FrontIdsMore(p, q');
      FrontIdsMore(p, r');
    } else {
      MarkDueFront(q, now, live);
    }
  }

  lemma {:induction false} RunMembers(q: seq<Packet>, now: int)
    ensures forall p :: p in RunQueue(q, now) ==>
            p in q || (p.sendAt < now && exists x :: x in q && p == x.(queued := true))
    ensures forall x :: x in q ==> x in RunQueue(q, now) || x.(queued := true) in RunQueue(q, now)
    ensures forall a :: a in RunActions(q, now) ==> a.TxHandle? && a.id in Live(q)
    decreases |q|
  {
    if q != [] && q[0].queued {
      RunMembers(q[1..], now);
      assert q == [q[0]] + q[1..];
    } else {
      MarkDueMembers(q, now);
    }
  }

  lemma {:induction false} RunOrdered(q: seq<Packet>, now: int)
    requires Ordered(q)
    ensures Ordered(RunQueue(q, now))
    decreases |q|
  {
    if q != [] && q[0].queued {
      RunOrdered(q[1..], now);
      RunMembers(q[1..], now);
      assert RunQueue(q, now)[1..] == RunQueue(q[1..], now);
    } else {
      MarkDueOrdered(q, now);
    }
  }

  lemma RunInv(q: seq<Packet>, actions: seq<Action>, now: int, nextId: nat)
    requires Inv(q, actions, now, nextId)
    ensures Inv(RunQueue(q, now), actions + RunActions(q, now), now, nextId)
  {
    var r, more := RunQueue(q, now), RunActions(q, now);
    RunFront(q, now, Live(q));
    RunMembers(q, now);
    RunOrdered(q, now);
    assert Live(r) == Live(q) by {
      forall x | x in q
        ensures x.id in Live(r)
      {
        assert x in r || x.(queued := true) in r;
      }
    }
    PendingConcat(actions, more, Live(q));
  }

  /** Sorted packets none of which is queued: those that are due are marked, and no other. */
  lemma {:induction false} MarkDueMeans(q: seq<Packet>, now: int)
    requires Ordered(q) && forall p :: p in q ==> !p.queued
    ensures |MarkDue(q, now)| == |q|
    ensures forall k :: 0 <= k < |q| ==> MarkDue(q, now)[k] == q[k].(queued := q[k].sendAt < now)
    decreases |q|
  {
    if q != [] && q[0].sendAt < now {
      MarkDueMeans(q[1..], now);
    } else if q != [] {
      forall k | 0 <= k < |q|
        ensures q[k].sendAt >= now && !q[k].queued
      {
        assert k > 0 ==> q[k] == q[1..][k - 1];
      }
    }
  }

  /** After a run exactly those packets are queued that were, or are due. */
  lemma {:induction false} RunMeans(q: seq<Packet>, now: int)
    requires Ordered(q) && QueuedFirst(q, now)
    ensures |RunQueue(q, now)| == |q|
    ensures forall k :: 0 <= k < |q| ==> RunQueue(q, now)[k] == q[k].(queued := q[k].sendAt < now)
    decreases |q|
  {
    if q != [] && q[0].queued {
      RunMeans(q[1..], now);
    } else {
      MarkDueMeans(q, now);
    }
  }

  // ----- Executing an action -----

  /** The test of ACTION_TX_HANDLE: the packet is at the head, and queued. */
  predicate AtHead(q: seq<Packet>, a: Action) {
    a.TxHandle? && q != [] && q[0].id == a.id && q[0].queued
  }

  /** The action of a live packet finds it at the head, due since before now; only dead packets are skipped. */
  lemma LiveActionIsHandled(q: seq<Packet>, actions: seq<Action>, now: int, nextId: nat)
    requires Inv(q, actions, now, nextId) && actions != [] && actions[0].TxHandle?
    ensures AtHead(q, actions[0]) <==> actions[0].id in Live(q)
    ensures AtHead(q, actions[0]) ==> q[0].sendAt < now
  {
    if actions[0].id in Live(q) {
      assert Pending(actions, Live(q))[0] == actions[0].id;
    }
  }

  lemma {:induction false} FrontIdsLive(q: seq<Packet>)
    ensures forall x :: x in FrontIds(q) ==> x in Live(q)
    decreases |q|
  {
    if q != [] && q[0].queued {
      FrontIdsLive(q[1..]);
      assert q == [q[0]] + q[1..];
    }
  }

  /** Taking the head off for transmission, together with its action. */
  lemma PopInv(q: seq<Packet>, actions: seq<Action>, now: int, nextId: nat)
    requires Inv(q, actions, now, nextId) && actions != [] && AtHead(q, actions[0])
    ensures Inv(q[1..], actions[1..], now, nextId)
    ensures q[0].id !in Live(q[1..]) && TxHandle(q[0].id) !in actions[1..]
  {
    var p, q', rest := q[0], q[1..], actions[1..];
    assert q == [p] + q';
    assert Pending(rest, Live(q)) == FrontIds(q') by {
      assert Pending(actions, Live(q))[1..] == Pending(rest, Live(q));
      assert FrontIds(q)[1..] == FrontIds(q');
    }
    FrontIdsLive(q');
    if TxHandle(p.id) in rest {
      PendingMember(rest, Live(q), p.id);
    }
    PendingSame(rest, Live(q), Live(q'));
  }

  lemma {:induction false} PendingMember(actions: seq<Action>, live: set<nat>, id: nat)
    requires id in live && TxHandle(id) in actions
    ensures id in Pending(actions, live)
    decreases |actions|
  {
    if actions[0] != TxHandle(id) {
      PendingMember(actions[1..], live, id);
    }
  }

  /** Dropping an action that is not a live packet's. */
  lemma DropInv(q: seq<Packet>, actions: seq<Action>, now: int, nextId: nat)
    requires Inv(q, actions, now, nextId) && actions != [] && !AtHead(q, actions[0])
    ensures Inv(q, actions[1..], now, nextId)
  {
    if actions[0].TxHandle? {
      LiveActionIsHandled(q, actions, now, nextId);
    }
    assert Pending(actions, Live(q)) == Pending(actions[1..], Live(q));
  }

  lemma {:induction false} LaterInv(q: seq<Packet>, actions: seq<Action>, now: int, later: int, nextId: nat, more: nat)
    requires Inv(q, actions, now, nextId) && now <= later && nextId <= more
    ensures Inv(q, actions, later, more)
  {
    LaterFront(q, now, later);
  }

  lemma {:induction false} LaterFront(q: seq<Packet>, now: int, later: int)
    requires QueuedFirst(q, now) && now <= later
    ensures QueuedFirst(q, later)
    decreases |q|
  {
    if q != [] && q[0].queued {
      LaterFront(q[1..], now, later);
    }
  }

  lemma OtherInv(q: seq<Packet>, actions: seq<Action>, now: int, nextId: nat)
    requires Inv(q, actions, now, nextId)
    ensures Inv(q, actions + [Other], now, nextId)
  {
    PendingConcat(actions, [Other], Live(q));
    assert [Other][1..] == [];
    assert Pending([Other], Live(q)) == [];
  }

  /** The invariant, position by position. */
  lemma {:induction false} InvMeans(q: seq<Packet>, now: int)
    requires Ordered(q) && QueuedFirst(q, now)
    ensures forall i, j :: 0 <= i < j < |q| ==> q[i].sendAt <= q[j].sendAt && q[i].id != q[j].id
    ensures forall i, j :: 0 <= i < j < |q| && q[j].queued ==> q[i].queued
    decreases |q|
  {
    if q != [] {
      assert Ordered(q[1..]);
      if q[0].queued {
        InvMeans(q[1..], now);
      } else {
        assert forall p :: p in q[1..] ==> !p.queued;
        NoneQueued(q[1..], now);
        InvMeans(q[1..], now);
      }
      forall i, j | 0 <= i < j < |q|
        ensures q[i].sendAt <= q[j].sendAt && q[i].id != q[j].id && (q[j].queued ==> q[i].queued)
      {
        assert q[j] == q[1..][j - 1] && q[j] in q[1..];
        if i > 0 {
          assert q[i] == q[1..][i - 1];
        }
      }
    }
  }

  lemma NoneQueued(q: seq<Packet>, now: int)
    requires forall p :: p in q ==> !p.queued
    ensures QueuedFirst(q, now)
  {
  }
}
