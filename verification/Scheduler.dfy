/**
  The cron job scheduler of main/comp/cron (jobs.cpp lines 54-181, cron.cpp lines 41-157 and 212-259):
  the sorted job list and the loop that fires the first job, takes it out and schedules it again.
 */
module Scheduler {
  import opened CronSearch
  import opened CronCorrect

  /** A job: which object it is, its id, its schedule, when it runs next, and since when that has been planned. */
  datatype Job = Job(key: nat, id: int, expr: Expr, next: int, since: int)

  datatype Firing = Firing(key: nat, due: int, at: int)

  /** `fired` is history. */
  datatype State = State(zone: int, now: int, jobs: seq<Job>, nextId: nat, fired: seq<Firing>)

  // ----- The list -----

  /** _cron_job_list_insert: before the first job that runs later. */
  function Insert(jobs: seq<Job>, j: Job): seq<Job> {
    if jobs == [] || j.next < jobs[0].next then [j] + jobs else [jobs[0]] + Insert(jobs[1..], j)
  }

  datatype Removal = Crash | NotFound | Removed(jobs: seq<Job>)

  /**
    The loop of cron_job_list_remove from a node on: it looks at the node, moves on, and stops as soon
    as the node it has come to is the last one, without looking at that.
   */
  function RemoveFrom(jobs: seq<Job>, id: int): Removal
    requires jobs != []
  {
    if jobs[0].id == id then Removed(jobs[1..])
    else if |jobs| == 1 then Crash
    else if |jobs| == 2 then NotFound
    else
      match RemoveFrom(jobs[1..], id)
      case Removed(rest) => Removed([jobs[0]] + rest)
      case r => r
  }

  /** cron_job_list_remove */
  function Remove(jobs: seq<Job>, id: int): Removal {
    if jobs == [] then Crash else RemoveFrom(jobs, id)
  }

  /** The position of the first job with an id, or the length. */
  function Find(jobs: seq<Job>, id: int): (n: nat)
    ensures n <= |jobs|
    ensures n < |jobs| ==> jobs[n].id == id
  {
    if jobs == [] || jobs[0].id == id then 0 else 1 + Find(jobs[1..], id)
  }

  lemma {:induction false} FindIsFirst(jobs: seq<Job>, id: int)
    ensures forall k :: 0 <= k < Find(jobs, id) ==> jobs[k].id != id
  {
    if jobs != [] && jobs[0].id != id {
      FindIsFirst(jobs[1..], id);
    }
  }

  /**
    Removal takes out exactly the job with the id, unless it is the last of a longer list; it crashes on
    an empty list and on a single other job.
   */
  lemma {:induction false} RemoveExact(jobs: seq<Job>, id: int)
    ensures var n := Find(jobs, id);
            match Remove(jobs, id)
            case Removed(rest) => n < |jobs| && (n == 0 || n < |jobs| - 1) && rest == jobs[..n] + jobs[n + 1..]
            case NotFound => |jobs| >= 2 && n >= |jobs| - 1
            case Crash => jobs == [] || (|jobs| == 1 && n == 1)
  {
    if jobs != [] && jobs[0].id != id && |jobs| > 2 {
      RemoveExact(jobs[1..], id);
      var n := Find(jobs[1..], id);
      if n < |jobs| - 1 {
        assert jobs[..n + 1] == [jobs[0]] + jobs[1..][..n];
        assert jobs[1..][n + 1..] == jobs[n + 2..];
      }
    }
  }

  // ----- Steps -----

  /** What cron_next gives for a time of day in a zone. */
  ghost function NextTime(e: Expr, zone: int, now: int): int
    requires NonEmpty(e)
  {
    match CronNext(e, now + zone)
    case Found(z) => z - zone
    case Failed => -1
  }

  /** An expression for which there is always a next time, and for which the search finds it. */
  ghost predicate Plannable(e: Expr) {
    NonEmpty(e) && OneDayFree(e) && SecondsOK(e) && MonthsOK(e) && Yearly(e)
  }

  /** cron_job_schedule for a job that is not in the list; an id is given out when it has none. */
  ghost function Schedule(s: State, j: Job): State
    requires NonEmpty(j.expr)
  {
    s.(jobs := Insert(s.jobs, Replanned(j, s.zone, s.now, s.nextId)), nextId := if j.id == -1 then s.nextId + 1
        else s.nextId)
  }

  /** One round of cron_schedule_task. */
  ghost function LoopRound(s: State): State
    requires s.jobs != [] && NonEmpty(s.jobs[0].expr)
  {
    var j := s.jobs[0];
    if s.now < j.next then s
    else
      var t := s.(fired := s.fired + [Firing(j.key, j.next, s.now)]);
      match Remove(s.jobs, j.id)
      case Removed(rest) => Schedule(t.(jobs := rest), j)
      case _ => Schedule(t, j)
  }

  /** cron_job_clear_all: the first job is destroyed until there is none. */
  function ClearJobs(jobs: seq<Job>): seq<Job>
    decreases |jobs|
  {
    if jobs == [] then []
    else
      match Remove(jobs, jobs[0].id)
      case Removed(rest) => if |rest| < |jobs| then ClearJobs(rest) else jobs
      case _ => jobs
  }

  datatype Event =
    | Tick(later: int)
    | Create(key: nat, expr: Expr)
    | Loop
    | Destroy(id: int)
    | Clear

  /** A new job is a new object; a job is destroyed only when its removal works. */
  ghost predicate Enabled(s: State, e: Event) {
    match e
    case Tick(later) => later >= s.now
    case Create(key, expr) => Plannable(expr) && (forall j :: j in s.jobs ==> j.key != key)
        && (forall f :: f in s.fired ==> f.key != key)
    case Loop => s.jobs != []
    case Destroy(id) => Remove(s.jobs, id).Removed?
    case Clear => true
  }

  ghost function Step(s: State, e: Event): State
    requires Enabled(s, e) && forall j :: j in s.jobs ==> NonEmpty(j.expr)
  {
    match e
    case Tick(later) => s.(now := later)
    case Create(key, expr) => Schedule(s, Job(key, -1, expr, 0, s.now))
    case Loop => LoopRound(s)
    case Destroy(id) => s.(jobs := Remove(s.jobs, id).jobs)
    case Clear => s.(jobs := ClearJobs(s.jobs), nextId := if ClearJobs(s.jobs) == [] then 0 else s.nextId)
  }

  // ----- The invariant -----

  /** Sorted by the next time, no two jobs with the same id or of the same object. */
  ghost predicate Ordered(jobs: seq<Job>) {
    jobs == [] ||
    (Ordered(jobs[1..])
        && forall j :: j in jobs[1..] ==> jobs[0].next <= j.next && jobs[0].id != j.id && jobs[0].key != j.key)
  }

  /** The job's next time is the first match after it was planned. */
  ghost predicate Planned(j: Job, zone: int, now: int, nextId: nat) {
    0 <= j.id < nextId && Plannable(j.expr) && j.since <= now && IsNext(j.expr, j.since + zone, j.next + zone)
  }

  /** No firing was early, and none of a job was for a time that had passed at its previous firing. */
  ghost predicate FiredWell(fired: seq<Firing>, now: int) {
    && (forall k :: 0 <= k < |fired| ==> fired[k].due <= fired[k].at <= now)
    && (forall i, k :: 0 <= i < k < |fired| && fired[i].key == fired[k].key ==> fired[i].at < fired[k].due)
  }

  ghost predicate Valid(s: State) {
    && Ordered(s.jobs)
    && (forall j {:trigger Planned(j, s.zone, s.now, s.nextId)} :: j in s.jobs ==> Planned(j, s.zone, s.now, s.nextId))
    && FiredWell(s.fired, s.now)
    && (forall f, j :: f in s.fired && j in s.jobs && f.key == j.key ==> f.at <= j.since)
  }

  lemma {:induction false} InsertMembers(jobs: seq<Job>, j: Job)
    ensures forall x :: x in Insert(jobs, j) <==> x == j || x in jobs
  {
    if jobs != [] && jobs[0].next <= j.next {
      InsertMembers(jobs[1..], j);
      assert jobs == [jobs[0]] + jobs[1..];
    }
  }

  lemma {:induction false} InsertOrdered(jobs: seq<Job>, j: Job)
    requires Ordered(jobs) && forall x :: x in jobs ==> x.id != j.id && x.key != j.key
    ensures Ordered(Insert(jobs, j))
  {
    if jobs != [] && jobs[0].next <= j.next {
      InsertOrdered(jobs[1..], j);
      InsertMembers(jobs[1..], j);
      assert Insert(jobs, j)[1..] == Insert(jobs[1..], j);
    } else {
      assert Insert(jobs, j)[1..] == jobs;
    }
  }

  /** A job comes after those that run at the same time or before, and before the others. */
  lemma {:induction false} InsertStable(jobs: seq<Job>, j: Job) returns (n: nat)
    requires Ordered(jobs)
    ensures n <= |jobs| && Insert(jobs, j) == jobs[..n] + [j] + jobs[n..]
    ensures forall k :: 0 <= k < n ==> jobs[k].next <= j.next
    ensures forall k :: n <= k < |jobs| ==> jobs[k].next > j.next
  {
    if jobs != [] && jobs[0].next <= j.next {
      var m := InsertStable(jobs[1..], j);
      n := m + 1;
      assert jobs[..n] == [jobs[0]] + jobs[1..][..m];
      assert jobs[n..] == jobs[1..][m..];
    } else {
      n := 0;
      assert jobs == [] || forall k :: 0 <= k < |jobs| ==> jobs[k] == jobs[0] || jobs[k] in jobs[1..];
    }
  }

  lemma {:induction false} OrderedWithout(jobs: seq<Job>, n: nat)
    requires Ordered(jobs) && n < |jobs|
    ensures Ordered(jobs[..n] + jobs[n + 1..])
    decreases n
  {
    if n == 0 {
      assert jobs[..0] + jobs[1..] == jobs[1..];
    } else {
      OrderedWithout(jobs[1..], n - 1);
      var rest := jobs[1..][..n - 1] + jobs[1..][n..];
      assert jobs[..n] + jobs[n + 1..] == [jobs[0]] + rest;
      assert ([jobs[0]] + rest)[1..] == rest;
      forall x | x in rest
        ensures x in jobs[1..]
      {
      }
    }
  }

  /** What is removed is a job of the list, and the others stay in their order. */
  lemma RemovedValid(s: State, id: int)
    requires Valid(s) && Remove(s.jobs, id).Removed?
    ensures Valid(s.(jobs := Remove(s.jobs, id).jobs))
    ensures forall x :: x in Remove(s.jobs, id).jobs ==> x in s.jobs
  {
    RemoveExact(s.jobs, id);
    var n := Find(s.jobs, id);
    OrderedWithout(s.jobs, n);
  }

  /** The job as Schedule plans it. */
  ghost function Replanned(j: Job, zone: int, now: int, nextId: nat): Job
    requires NonEmpty(j.expr)
  {
    j.(next := NextTime(j.expr, zone, now), since := now, id := if j.id == -1 then nextId else j.id)
  }

  lemma TimeOf(e: Expr, zone: int, now: int, outcome: Outcome)
    requires NonEmpty(e) && CronNext(e, now + zone) == outcome
    ensures NextTime(e, zone, now) == match outcome case Found(z) => z - zone case Failed => -1
  {
  }

  /** A plannable expression's next time is its first match after now. */
  lemma TimeIsNext(e: Expr, zone: int, now: int) returns (z: int)
    requires Plannable(e)
    ensures NextTime(e, zone, now) == z - zone && IsNext(e, now + zone, z)
  {
    CronNextExists(e, now + zone);
    z := CronNext(e, now + zone).at;
    TimeOf(e, zone, now, Found(z));
  }

  lemma PlannedNow(j: Job, zone: int, now: int, nextId: nat, more: nat)
    requires Plannable(j.expr) && (if j.id == -1 then more == nextId + 1 else more == nextId && 0 <= j.id < nextId)
    ensures var p := Replanned(j, zone, now, nextId); p.next > now && Planned(p, zone, now, more)
  {
    var z := TimeIsNext(j.expr, zone, now);
    assert Replanned(j, zone, now, nextId).next + zone == z;
  }

  lemma PlannedStill(j: Job, zone: int, now: int, nextId: nat, later: int, more: nat)
    requires Planned(j, zone, now, nextId) && now <= later && nextId <= more
    ensures Planned(j, zone, later, more)
  {
  }

  /** Scheduling plans a job for later than now. */
  lemma ScheduleValid(s: State, j: Job)
    requires Valid(s) && Plannable(j.expr) && (j.id == -1 || 0 <= j.id < s.nextId)
    requires forall x :: x in s.jobs ==> 0 <= x.id < s.nextId && x.id != j.id && x.key != j.key
    requires forall f :: f in s.fired && f.key == j.key ==> f.at <= s.now
    ensures Valid(Schedule(s, j))
    ensures exists p :: p in Schedule(s, j).jobs && p.key == j.key && p.next > s.now && (j.id != -1 ==> p.id == j.id)
  {
    var t := Schedule(s, j);
    var p := Replanned(j, s.zone, s.now, s.nextId);
    PlannedNow(j, s.zone, s.now, s.nextId, t.nextId);
    InsertMembers(s.jobs, p);
    InsertOrdered(s.jobs, p);
    forall x | x in t.jobs
      ensures Planned(x, t.zone, t.now, t.nextId)
    {
      if x != p {
        PlannedStill(x, s.zone, s.now, s.nextId, t.now, t.nextId);
      }
    }
  }

  lemma IdsKnown(s: State)
    requires Valid(s)
    ensures forall x :: x in s.jobs ==> 0 <= x.id < s.nextId && NonEmpty(x.expr)
  {
    forall x | x in s.jobs
      ensures 0 <= x.id < s.nextId && NonEmpty(x.expr)
    {
      assert Planned(x, s.zone, s.now, s.nextId);
    }
  }

  lemma FiredMore(fired: seq<Firing>, f: Firing, now: int)
    requires FiredWell(fired, now) && f.due <= f.at == now
    requires forall g :: g in fired && g.key == f.key ==> g.at < f.due
    ensures FiredWell(fired + [f], now)
  {
  }

  lemma HeadIsRemoved(jobs: seq<Job>)
    requires jobs != []
    ensures Remove(jobs, jobs[0].id) == Removed(jobs[1..])
  {
  }

  /** A round of the loop fires only a job that is due, keeps all jobs, and plans the fired one for later than now. */
  lemma LoopRoundValid(s: State)
    requires Valid(s) && s.jobs != [] && NonEmpty(s.jobs[0].expr)
    ensures Valid(LoopRound(s))
    ensures s.now < s.jobs[0].next ==> LoopRound(s) == s
    ensures s.now >= s.jobs[0].next ==>
              LoopRound(s).fired == s.fired + [Firing(s.jobs[0].key, s.jobs[0].next, s.now)]
              && exists p :: p in LoopRound(s).jobs && p.key == s.jobs[0].key && p.id == s.jobs[0].id && p.next > s.now
  {
    var j := s.jobs[0];
    if s.now >= j.next {
      HeadIsRemoved(s.jobs);
      assert Planned(j, s.zone, s.now, s.nextId);
      var f := Firing(j.key, j.next, s.now);
      assert s.jobs == [j] + s.jobs[1..];
      FiredMore(s.fired, f, s.now);
      var t := s.(fired := s.fired + [f], jobs := s.jobs[1..]);
      IdsKnown(s);
      ScheduleValid(t, j);
    }
  }

  /** The fired job is back in its place with its new time; all others are untouched and in their order. */
  lemma LoopRoundExact(s: State) returns (n: nat)
    requires Valid(s) && s.jobs != [] && NonEmpty(s.jobs[0].expr) && s.now >= s.jobs[0].next
    ensures var j, rest := s.jobs[0], s.jobs[1..];
            var p := j.(next := NextTime(j.expr, s.zone, s.now), since := s.now);
            && n <= |rest| && LoopRound(s).jobs == rest[..n] + [p] + rest[n..]
            && (forall k :: 0 <= k < n ==> rest[k].next <= p.next)
            && (forall k :: n <= k < |rest| ==> rest[k].next > p.next)
    ensures LoopRound(s).nextId == s.nextId
  {
    var j := s.jobs[0];
    HeadIsRemoved(s.jobs);
    assert Planned(j, s.zone, s.now, s.nextId);
    n := InsertStable(s.jobs[1..], Replanned(j, s.zone, s.now, s.nextId));
  }

  lemma {:induction false} ClearedAll(jobs: seq<Job>)
    ensures ClearJobs(jobs) == []
    decreases |jobs|
  {
    if jobs != [] {
      HeadIsRemoved(jobs);
      ClearedAll(jobs[1..]);
    }
  }

  lemma TickValid(s: State, later: int)
    requires Valid(s) && later >= s.now
    ensures Valid(s.(now := later))
  {
    forall x | x in s.jobs
      ensures Planned(x, s.zone, later, s.nextId)
    {
      PlannedStill(x, s.zone, s.now, s.nextId, later, s.nextId);
    }
  }

  /** What every step keeps. */
  lemma StepValid(s: State, e: Event)
    requires Valid(s) && Enabled(s, e) && forall j :: j in s.jobs ==> NonEmpty(j.expr)
    ensures Valid(Step(s, e))
  {
    IdsKnown(s);
    match e
    case Tick(later) => TickValid(s, later);
    case Create(key, expr) => ScheduleValid(s, Job(key, -1, expr, 0, s.now));
    case Loop => LoopRoundValid(s);
    case Destroy(id) => RemovedValid(s, id);
    case Clear => ClearedAll(s.jobs);
  }

  // ----- Whole runs -----

  /** How many jobs are due. */
  function Due(jobs: seq<Job>, now: int): nat {
    if jobs == [] then 0 else (if jobs[0].next <= now then 1 else 0) + Due(jobs[1..], now)
  }

  lemma {:induction false} DueInsert(jobs: seq<Job>, j: Job, now: int)
    requires j.next > now
    ensures Due(Insert(jobs, j), now) == Due(jobs, now)
  {
    if jobs != [] && jobs[0].next <= j.next {
      DueInsert(jobs[1..], j, now);
      assert Insert(jobs, j)[1..] == Insert(jobs[1..], j);
    } else {
      assert Insert(jobs, j)[1..] == jobs;
    }
  }

  lemma {:induction false} NoneDue(jobs: seq<Job>, now: int)
    requires Ordered(jobs) && (jobs != [] ==> jobs[0].next > now)
    ensures Due(jobs, now) == 0 && forall j :: j in jobs ==> j.next > now
  {
    if |jobs| > 1 {
      assert jobs[1] in jobs[1..];
      NoneDue(jobs[1..], now);
      assert jobs == [jobs[0]] + jobs[1..];
    }
  }

  /** While the first job is due, each round of the loop leaves one job less that is. */
  lemma LoopRoundDue(s: State)
    requires Valid(s) && s.jobs != [] && NonEmpty(s.jobs[0].expr) && s.jobs[0].next <= s.now
    ensures LoopRound(s).jobs != [] && Due(LoopRound(s).jobs, s.now) == Due(s.jobs, s.now) - 1
    ensures LoopRound(s).now == s.now && |LoopRound(s).fired| == |s.fired| + 1 && s.fired <= LoopRound(s).fired
  {
    var j := s.jobs[0];
    HeadIsRemoved(s.jobs);
    assert Planned(j, s.zone, s.now, s.nextId);
    PlannedNow(j, s.zone, s.now, s.nextId, s.nextId);
    DueInsert(s.jobs[1..], Replanned(j, s.zone, s.now, s.nextId), s.now);
  }

  ghost function LoopRounds(s: State, n: nat): (t: State)
    requires Valid(s)
    decreases n
  {
    if n == 0 || s.jobs == [] then s
    else
      IdsKnown(s);
      LoopRoundValid(s);
      LoopRounds(LoopRound(s), n - 1)
  }

  /** Nothing is due any more, after n firings. */
  ghost predicate CaughtUp(s: State, t: State, n: nat) {
    && Valid(t) && t.now == s.now && (forall j :: j in t.jobs ==> j.next > t.now)
    && |t.fired| == |s.fired| + n && s.fired <= t.fired
  }

  lemma OneCaughtUp(s: State, r: State, t: State, n: nat)
    requires CaughtUp(r, t, n) && r.now == s.now && |r.fired| == |s.fired| + 1 && s.fired <= r.fired
    ensures CaughtUp(s, t, n + 1)
  {
  }

  /** At a fixed time as many rounds as jobs are due fire each of those, and then nothing is due. */
  lemma {:induction false} CatchesUp(s: State, n: nat)
    requires Valid(s) && n == Due(s.jobs, s.now)
    ensures CaughtUp(s, LoopRounds(s, n), n)
    decreases n
  {
    if s.jobs == [] || s.jobs[0].next > s.now {
      NoneDue(s.jobs, s.now);
      assert n == 0 && LoopRounds(s, n) == s;
    } else {
      IdsKnown(s);
      LoopRoundValid(s);
      LoopRoundDue(s);
      CatchesUp(LoopRound(s), n - 1);
      OneCaughtUp(s, LoopRound(s), LoopRounds(LoopRound(s), n - 1), n - 1);
    }
  }

  ghost predicate Next(s: State, e: Event, t: State) {
    Enabled(s, e) && (forall j :: j in s.jobs ==> NonEmpty(j.expr)) && t == Step(s, e)
  }

  /** A run that begins without jobs. */
  ghost predicate Run(states: seq<State>, events: seq<Event>) {
    && |states| == |events| + 1 && states[0].jobs == [] && states[0].fired == []
    && forall k :: 0 <= k < |events| ==> Next(states[k], events[k], states[k + 1])
  }

  lemma {:induction false} RunValid(states: seq<State>, events: seq<Event>, n: nat)
    requires Run(states, events) && n <= |events|
    ensures Valid(states[n])
  {
    if n > 0 {
      RunValid(states, events, n - 1);
      assert Next(states[n - 1], events[n - 1], states[n]);
      StepValid(states[n - 1], events[n - 1]);
    }
  }

  // ----- The jobs of the firmware -----

  /** A job at h:m every day is planned for the next time the clock shows that. */
  lemma DailyPlan(j: Job, h: int, m: int, zone: int, now: int, nextId: nat)
    requires NonEmpty(j.expr) && Daily(j.expr, h, m)
    ensures Replanned(j, zone, now, nextId).next == NextAt(now + zone, h, m) - zone
  {
    DailyNext(j.expr, h, m, now + zone);
    TimeOf(j.expr, zone, now, Found(NextAt(now + zone, h, m)));
  }
}
