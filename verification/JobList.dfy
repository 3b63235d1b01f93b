/**
  The job list of jobs.cpp as it is: nodes that point to the next node and to a job, a head pointer and
  the counter for ids; with the loop of cron.cpp over it.
 */
module JobList {
  import opened CronSearch
  import opened CronCorrect
  import CronDays
  import CronEngine
  import opened Scheduler

  /** cron_job */
  class CronJob {
    const key: nat
    var id: int
    var expression: Expr
    var nextExecution: int
    /** When nextExecution was computed. */
    ghost var since: int

    ghost function View(): Job
      reads this
    {
      Job(key, id, expression, nextExecution, since)
    }

    constructor (key: nat, expression: Expr)
      ensures this.key == key && id == -1 && this.expression == expression
    {
      this.key, this.id, this.expression, nextExecution := key, -1, expression, 0;
      since := 0;
    }
  }

  class Node {
    const job: CronJob
    var next: Node?

    constructor (job: CronJob)
      ensures this.job == job && next == null
    {
      this.job, next := job, null;
    }
  }

  /** From a pointer the nodes of `spine` follow, and then the list ends. */
  ghost predicate Chain(at: Node?, spine: seq<Node>)
    reads spine
    decreases |spine|
  {
    if spine == [] then at == null else at == spine[0] && spine[0] !in spine[1..] && Chain(spine[0].next, spine[1..])
  }

  ghost function JobsOf(spine: seq<Node>): set<CronJob> {
    set n | n in spine :: n.job
  }

  /** What the list says, node by node. */
  ghost function Views(spine: seq<Node>): (v: seq<Job>)
    reads JobsOf(spine)
    ensures |v| == |spine|
  {
    if spine == [] then [] else [spine[0].job.View()] + Views(spine[1..])
  }

  /** Relinking nodes does not touch the jobs. */
  twostate lemma ViewsKept(spine: seq<Node>)
    requires forall n :: n in spine ==> n.job.View() == old(n.job.View())
    ensures Views(spine) == old(Views(spine))
  {
    if spine != [] {
      ViewsKept(spine[1..]);
    }
  }

  lemma {:induction false} ViewsConcat(a: seq<Node>, b: seq<Node>)
    ensures Views(a + b) == Views(a) + Views(b)
  {
    if a == [] {
      assert a + b == b;
    } else {
      assert (a + b)[1..] == a[1..] + b;
      ViewsConcat(a[1..], b);
    }
  }

  lemma {:induction false} ViewsAt(spine: seq<Node>)
    ensures |Views(spine)| == |spine|
    ensures forall i :: 0 <= i < |spine| ==> Views(spine)[i] == spine[i].job.View()
  {
    if spine != [] {
      ViewsAt(spine[1..]);
    }
  }

  lemma ViewsInserted(spine: seq<Node>, k: nat, node: Node)
    requires k <= |spine|
    ensures k <= |Views(spine)|
    ensures Views(spine[..k] + [node] + spine[k..]) == Views(spine)[..k] + [node.job.View()] + Views(spine)[k..]
  {
    assert spine == spine[..k] + spine[k..];
    ViewsConcat(spine[..k], spine[k..]);
    ViewsConcat(spine[..k] + [node], spine[k..]);
    ViewsConcat(spine[..k], [node]);
    assert [node][1..] == [];
    assert Views([node]) == [node.job.View()] + Views([]);
    ViewsAt(spine);
    ViewsAt(spine[..k]);
  }

  lemma ViewsRemoved(spine: seq<Node>, n: nat)
    requires n < |spine|
    ensures |Views(spine)| == |spine|
    ensures Views(spine[..n] + spine[n + 1..]) == Views(spine)[..n] + Views(spine)[n + 1..]
  {
    ViewsConcat(spine[..n], spine[n + 1..]);
    assert spine == spine[..n + 1] + spine[n + 1..] && spine == spine[..n] + spine[n..];
    ViewsConcat(spine[..n], spine[n..]);
    ViewsConcat(spine[..n + 1], spine[n + 1..]);
    ViewsAt(spine);
    ViewsAt(spine[..n]);
    ViewsAt(spine[..n + 1]);
  }

  function Following(spine: seq<Node>, i: nat): Node? {
    if i + 1 < |spine| then spine[i + 1] else null
  }

  /** The chain pointer by pointer. */
  lemma {:induction false} ChainAt(at: Node?, spine: seq<Node>)
    requires Chain(at, spine)
    ensures forall i :: 0 <= i < |spine| ==> spine[i].next == Following(spine, i)
    ensures forall i, j :: 0 <= i < j < |spine| ==> spine[i] != spine[j]
    ensures at == if spine == [] then null else spine[0]
    decreases |spine|
  {
    if spine != [] {
      ChainAt(spine[0].next, spine[1..]);
      forall i | 0 <= i < |spine|
        ensures spine[i].next == Following(spine, i)
      {
        if i > 0 {
          assert spine[i] == spine[1..][i - 1];
        }
      }
      forall i, j | 0 <= i < j < |spine|
        ensures spine[i] != spine[j]
      {
        assert spine[j] == spine[1..][j - 1];
        if i > 0 {
          assert spine[i] == spine[1..][i - 1];
        }
      }
    }
  }

  lemma {:induction false} ChainFrom(at: Node?, spine: seq<Node>)
    requires forall i :: 0 <= i < |spine| ==> spine[i].next == Following(spine, i)
    requires forall i, j :: 0 <= i < j < |spine| ==> spine[i] != spine[j]
    requires at == if spine == [] then null else spine[0]
    ensures Chain(at, spine)
    decreases |spine|
  {
    if spine != [] {
      var rest := spine[1..];
      assert spine[0].next == Following(spine, 0);
      forall i | 0 <= i < |rest|
        ensures rest[i].next == Following(rest, i)
      {
        assert rest[i] == spine[i + 1];
        assert spine[i + 1].next == Following(spine, i + 1);
      }
      ChainFrom(spine[0].next, rest);
    }
  }

  lemma PutBefore(spine: seq<Node>, rest: seq<Node>, node: Node, m: nat)
    requires spine != [] && m < |spine| && rest == spine[1..][..m] + [node] + spine[1..][m..]
    ensures ([spine[0]] + rest)[1..] == rest && [spine[0]] + rest == spine[..m + 1] + [node] + spine[m + 1..]
    ensures forall n :: n in rest ==> n == node || n in spine[1..]
  {
  }

  /** _cron_job_list_insert: behind the nodes whose jobs do not run later. */
  method InsertNode(nextNode: Node?, newNode: Node, ghost spine: seq<Node>)
    returns (r: Node?, ghost after: seq<Node>, ghost k: nat)
    requires Chain(nextNode, spine) && newNode !in spine
    modifies newNode, spine
    ensures Chain(r, after) && k <= |spine| && after == spine[..k] + [newNode] + spine[k..]
    ensures forall i :: 0 <= i < k ==> spine[i].job.nextExecution <= newNode.job.nextExecution
    ensures k < |spine| ==> newNode.job.nextExecution < spine[k].job.nextExecution
    decreases |spine|
  {
    if nextNode == null || newNode.job.nextExecution < nextNode.job.nextExecution {
      newNode.next := nextNode;
      r, after, k := newNode, [newNode] + spine, 0;
      assert after[1..] == spine;
    } else {
      ghost var rest, m;
      var next;
      next, rest, m := InsertNode(nextNode.next, newNode, spine[1..]);
      nextNode.next := next;
      r, after, k := nextNode, [spine[0]] + rest, m + 1;
      PutBefore(spine, rest, newNode, m);
    }
  }

  lemma {:induction false} InsertedAt(jobs: seq<Job>, j: Job, k: nat)
    requires k <= |jobs|
            && (forall i :: 0 <= i < k ==> jobs[i].next <= j.next) && (k < |jobs| ==> j.next < jobs[k].next)
    ensures Insert(jobs, j) == jobs[..k] + [j] + jobs[k..]
    decreases k
  {
    if k > 0 {
      InsertedAt(jobs[1..], j, k - 1);
      assert jobs[..k] == [jobs[0]] + jobs[1..][..k - 1];
      assert jobs[k..] == jobs[1..][k - 1..];
    }
  }

  lemma SplicedNodes(spine: seq<Node>, k: nat, node: Node, spliced: seq<Node>)
    requires k <= |spine| && spliced == spine[..k] + [node] + spine[k..]
    ensures forall n :: n in spliced ==> n == node || (n in spine && n.job in JobsOf(spine))
  {
    forall n | n in spliced && n != node
      ensures n in spine
    {
      var i: nat :| i < |spliced| && spliced[i] == n;
      assert n == if i < k then spine[i] else spine[i - 1];
    }
  }

  lemma WithoutOne(spine: seq<Node>, n: nat, rest: seq<Node>)
    requires n < |spine| && rest == spine[..n] + spine[n + 1..]
    requires forall i, j :: 0 <= i < j < |spine| ==> spine[i] != spine[j]
    ensures forall i, j :: 0 <= i < j < |rest| ==> rest[i] != rest[j]
    ensures forall i :: 0 <= i < |rest| ==> rest[i] == spine[if i < n then i else i + 1]
  {
    forall i, j | 0 <= i < j < |rest|
      ensures rest[i] != rest[j]
    {
      assert rest[i] == spine[if i < n then i else i + 1] && rest[j] == spine[if j < n then j else j + 1];
    }
  }

  /** The list's static state. */
  class CronJobList {
    var nextId: nat
    var first: Node?
    ghost var spine: seq<Node>

    ghost predicate Valid()
      reads this, spine
    {
      Chain(first, spine)
    }

    ghost function Contents(): (c: seq<Job>)
      reads this, JobsOf(spine)
      ensures |c| == |spine|
    {
      Views(spine)
    }

    constructor ()
      ensures Valid() && spine == [] && nextId == 0
    {
      nextId, first, spine := 0, null, [];
    }

    /** The part of cron_job_list_insert under the lock. */
    method Link(job: CronJob) returns (ghost node: Node, ghost k: nat)
      requires Valid()
      modifies this, spine
      ensures Valid() && nextId == old(nextId) && node.job == job && fresh(node)
      ensures k <= |old(spine)| && spine == old(spine)[..k] + [node] + old(spine)[k..]
      ensures forall i :: 0 <= i < k ==> old(spine)[i].job.nextExecution <= job.nextExecution
      ensures k < |old(spine)| ==> job.nextExecution < old(spine)[k].job.nextExecution
    {
      var newNode := new Node(job);
      first, spine, k := InsertNode(first, newNode, spine);
      node := newNode;
    }

    /** cron_job_list_insert, for a job that is not in the list; an id is given out after the insertion. */
    method ListInsert(job: CronJob) returns (id: int)
      requires Valid() && job !in JobsOf(spine)
      modifies this, spine, job`id
      ensures Valid()
              && (forall n :: n in spine ==>
                  (n in old(spine) || fresh(n)) && (n.job == job || n.job in old(JobsOf(spine))))
      ensures id == job.id == (if old(job.id) == -1 then old(nextId) else old(job.id))
      ensures job.View() == old(job.View()).(id := id)
      ensures nextId == if old(job.id) == -1 then old(nextId) + 1 else old(nextId)
      ensures Contents() == Insert(old(Contents()), job.View())
    {
      ghost var was, before := spine, Contents();
      ViewsAt(was);
      assert forall i :: 0 <= i < |was| ==> before[i].next == was[i].job.nextExecution;
      ghost var node, k := Link(job);
      if job.id == -1 {
        job.id := nextId;
        nextId := nextId + 1;
      }
      id := job.id;
      ViewsKept(was);
      ViewsInserted(was, k, node);
      SplicedNodes(was, k, node, spine);
      InsertedAt(before, job.View(), k);
    }

    /** The relinking of lines 104-111 in jobs.cpp. */
    method Unlink(prev: Node?, node: Node, ghost n: nat)
      requires Valid() && n < |spine| && node == spine[n] && (n > 0 ==> prev == spine[n - 1])
      modifies this, spine
      ensures Valid() && nextId == old(nextId) && spine == old(spine)[..n] + old(spine)[n + 1..]
      ensures Contents() == old(Contents()[..n] + Contents()[n + 1..])
    {
      ghost var was := spine;
      ViewsRemoved(was, n);
      ChainAt(first, was);
      if node == first {
        first := node.next;
      } else {
        prev.next := node.next;
      }
      spine := was[..n] + was[n + 1..];
      ViewsKept(spine);
      WithoutOne(was, n, spine);
      forall i | 0 <= i < |spine|
        ensures spine[i].next == Following(spine, i)
      {
        if i < n {
          assert was[i].next == Following(was, i) || (i == n - 1 && was[i] == prev);
        } else {
          assert was[i + 1].next == Following(was, i + 1);
        }
      }
      ChainFrom(first, spine);
    }

    /** cron_job_list_remove, when it does not run off the list. */
    method ListRemove(id: int) returns (ret: int, ghost n: nat)
      requires Valid() && Remove(Contents(), id) != Crash
      modifies this, spine
      ensures Valid() && nextId == old(nextId)
      ensures ret == 0 ==> Remove(old(Contents()), id) == Removed(Contents())
      ensures ret == 0 ==> n < |old(spine)| && (forall k :: 0 <= k < n ==> old(Contents())[k].id != id)
      ensures ret == 0 ==> old(Contents())[n].id == id && spine == old(spine)[..n] + old(spine)[n + 1..]
      ensures ret != 0 ==>
              ret == -1 && Remove(old(Contents()), id) == NotFound && spine == old(spine)
                  && Contents() == old(Contents())
    {
      ret := -1;
      ViewsAt(spine);
      ChainAt(first, spine);
      var node, prev, searching := first, first, true;
      n := 0;
      RemoveSingle(Contents(), id);
      while searching
        invariant n < |spine| && node == spine[n] && (n > 0 ==> prev == spine[n - 1])
        invariant searching ==> n == 0 || n < |spine| - 1
        invariant !searching ==> n > 0 && n == |spine| - 1
        invariant forall k :: 0 <= k < n ==> Contents()[k].id != id
        decreases searching, |spine| - n
      {
        if node.job.id == id {
          RemoveFound(Contents(), id, n);
          Unlink(prev, node, n);
          ret := 0;
          return;
        }
        assert node.next == Following(spine, n);
        prev := node;
        node := node.next;
        n := n + 1;
        assert node.next == Following(spine, n);
        searching := node.next != null;
      }
      RemoveMissed(Contents(), id);
    }

    /** No job is in the list twice. */
    ghost predicate Unique()
      reads this
    {
      forall i, j :: 0 <= i < j < |spine| ==> spine[i].job != spine[j].job
    }

    /** The next execution of a job that is in no list. */
    method Plan(job: CronJob, now: int, zone: int, ghost x: int)
      requires NonEmpty(job.expression) && x == now + zone && CronDays.NextCovered(job.expression, x) && now >= 0
      modifies job`nextExecution, job`since
      ensures job.View() == old(job.View()).(next := NextTime(job.expression, zone, now), since := now)
    {
      job.nextExecution := CronEngine.CronNextTime(job.expression, now, zone, x);
      job.since := now;
    }

    /** cron_job_schedule, at a time that is not before 1970. */
    method Schedule(job: CronJob, now: int, zone: int, ghost x: int)
      requires Valid() && Unique() && job !in JobsOf(spine)
      requires NonEmpty(job.expression) && x == now + zone && CronDays.NextCovered(job.expression, x) && now >= 0
      modifies this, spine, job
      ensures Valid() && (forall n :: n in spine ==> n.job == job || n.job in old(JobsOf(spine)))
      ensures Contents() == Insert(old(Contents()), Replanned(old(job.View()), zone, now, old(nextId)))
      ensures nextId == if old(job.id) == -1 then old(nextId) + 1 else old(nextId)
    {
      Plan(job, now, zone, x);
      ghost var planned := job.View();
      ViewsKept(spine);
      var id := ListInsert(job);
      assert planned.(id := id) == Replanned(old(job.View()), zone, now, old(nextId));
    }

    /** The branch of cron_schedule_task in which the first job is due: it is taken off the list and planned anew. */
    method Fire(now: int, zone: int, ghost x: int, ghost e: Expr)
      requires Valid() && Unique() && spine != [] && now >= 0
      requires NonEmpty(e) && e == spine[0].job.expression && x == now + zone && CronDays.NextCovered(e, x)
      requires spine[0].job.id != -1
      modifies this, spine, spine[0].job
      ensures Valid() && nextId == old(nextId)
      ensures Contents() == Insert(old(Contents())[1..], Replanned(old(Contents())[0], zone, now, old(nextId)))
    {
      var job := first.job;
      HeadIsRemoved(Contents());
      var ret, n := ListRemove(job.id);
      assert n == 0;
      assert spine == old(spine)[1..];
      Schedule(job, now, zone, x);
    }

    /** One round of cron_schedule_task: whether the first job was fired. */
    method Round(now: int, zone: int, ghost x: int, ghost e: Expr) returns (fired: bool)
      requires Valid() && Unique() && spine != [] && now >= 0
      requires NonEmpty(e) && e == spine[0].job.expression && x == now + zone && CronDays.NextCovered(e, x)
      requires spine[0].job.id != -1
      modifies this, spine, spine[0].job
      ensures Valid() && nextId == old(nextId)
      ensures fired <==> now >= old(spine[0].job.nextExecution)
      ensures Contents() == LoopRound(State(zone, now, old(Contents()), old(nextId), [])).jobs
    {
      var job := first.job;
      RoundIs(State(zone, now, Contents(), nextId, []), spine);
      fired := now >= job.nextExecution;
      if fired {
        Fire(now, zone, x, e);
      }
    }

    /** cron_job_clear_all: the first job is removed until there is none. */
    method ClearAll()
      requires Valid()
      modifies this, spine
      ensures Valid() && Contents() == [] && nextId == 0
    {
      while first != null
        invariant Valid() && (forall i :: 0 <= i < |spine| ==> spine[i] in old(spine))
        decreases |spine|
      {
        ghost var was := spine;
        HeadIsRemoved(Contents());
        var ret, n := ListRemove(first.job.id);
        assert |spine| < |was| && forall i :: 0 <= i < |spine| ==> spine[i] in was;
      }
      nextId := 0;
    }
  }

  lemma RoundIs(s: State, spine: seq<Node>)
    requires spine != [] && s.jobs == Views(spine) && NonEmpty(spine[0].job.expression) && spine[0].job.id != -1
    ensures s.jobs[0] == spine[0].job.View() && s.jobs[1..] == Views(spine[1..])
    ensures LoopRound(s).jobs == if s.now < s.jobs[0].next then s.jobs
                                 else Insert(s.jobs[1..], Replanned(s.jobs[0], s.zone, s.now, s.nextId))
  {
    HeadIsRemoved(s.jobs);
  }

  lemma RemoveSingle(jobs: seq<Job>, id: int)
    requires Remove(jobs, id) != Crash
    ensures jobs != [] && (jobs[0].id == id || |jobs| > 1)
  {
  }

  lemma {:induction false} RemoveFound(jobs: seq<Job>, id: int, n: nat)
    requires n < |jobs| && jobs[n].id == id && (n == 0 || n < |jobs| - 1) && forall k :: 0 <= k < n ==> jobs[k].id != id
    ensures Remove(jobs, id) == Removed(jobs[..n] + jobs[n + 1..])
    decreases n
  {
    if n == 0 {
      assert jobs[..0] + jobs[1..] == jobs[1..];
    } else {
      RemoveFound(jobs[1..], id, n - 1);
      assert jobs[..n] + jobs[n + 1..] == [jobs[0]] + (jobs[1..][..n - 1] + jobs[1..][n..]);
    }
  }

  lemma {:induction false} RemoveMissed(jobs: seq<Job>, id: int)
    requires |jobs| > 1 && forall k :: 0 <= k < |jobs| - 1 ==> jobs[k].id != id
    ensures Remove(jobs, id) == NotFound
  {
    if |jobs| > 2 {
      RemoveMissed(jobs[1..], id);
    }
  }
}
