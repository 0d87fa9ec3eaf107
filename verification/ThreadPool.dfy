/**
  The pool with named waitgroups (lib/joinable_thread_pool.h) as a protocol: every step
  is what one thread does while it holds the mutex, and threads take steps in any order.
  A task's own work happens between its Dequeue and its Finish.
*/
module ThreadPool {
  import T = TopPages

  /** A submitted task: its waitgroup, and its number in order of submission. */
  datatype Task = Task(id: int, number: nat)

  datatype Worker = Idle | Busy(task: Task) | Gone

  datatype Pool = Pool(
    tasks: seq<Task>,
    waitgroups: map<int, nat>,
    workers: seq<Worker>,
    exitFlag: bool,
    submitted: seq<Task>,
    started: seq<Task>,
    finished: seq<Task>)

  datatype Step = Submit(id: int) | Dequeue(w: nat) | Finish(w: nat) | Join(id: int) | Shutdown | Leave(w: nat)

  function Init(n: nat): Pool {
    Pool([], map[], seq(n, i => Idle), false, [], [], [])
  }

  function CountOf(waitgroups: map<int, nat>, id: int): nat {
    if id in waitgroups then waitgroups[id] else 0
  }

  const SIZE_MAX: nat := 0xFFFF_FFFF_FFFF_FFFF

  /** The counter is unsigned: below zero it wraps, which the invariant rules out. */
  function OneLess(count: nat): nat {
    if count == 0 then SIZE_MAX else count - 1
  }

  /** When a thread may take a step; a thread that may not waits. */
  predicate Enabled(p: Pool, step: Step) {
    match step
    case Submit(_) => true
    case Dequeue(w) => w < |p.workers| && p.workers[w].Idle? && p.tasks != []
    case Finish(w) => w < |p.workers| && p.workers[w].Busy?
    case Join(id) => id !in p.waitgroups || p.waitgroups[id] == 0
    case Shutdown => true
    case Leave(w) => w < |p.workers| && p.workers[w].Idle? && p.exitFlag && p.tasks == []
  }

  function Next(p: Pool, step: Step): Pool
    requires Enabled(p, step)
  {
    match step
    case Submit(id) =>
      var t := Task(id, |p.submitted|);
      p.(tasks := p.tasks + [t], waitgroups := p.waitgroups[id := CountOf(p.waitgroups, id) + 1], submitted := p.submitted + [t])
    case Dequeue(w) =>
      var t := p.tasks[0];
      p.(tasks := p.tasks[1..], workers := p.workers[w := Busy(t)], started := p.started + [t])
    case Finish(w) =>
      var t := p.workers[w].task;
      p.(workers := p.workers[w := Idle],
         waitgroups := if t.id in p.waitgroups then p.waitgroups[t.id := OneLess(p.waitgroups[t.id])] else p.waitgroups,
         finished := p.finished + [t])
    case Join(id) => p.(waitgroups := p.waitgroups - {id})
    case Shutdown => p.(exitFlag := true)
    case Leave(w) => p.(workers := p.workers[w := Gone])
  }

  // ---------------------------------------------------------------- the invariant

  function Named(tasks: seq<Task>, id: int): seq<Task> {
    if tasks == [] then []
    else Named(tasks[..|tasks| - 1], id) + if tasks[|tasks| - 1].id == id then [tasks[|tasks| - 1]] else []
  }

  /** The tasks workers are busy with. */
  function Running(workers: seq<Worker>): seq<Task> {
    if workers == [] then []
    else Running(workers[..|workers| - 1]) + if workers[|workers| - 1].Busy? then [workers[|workers| - 1].task] else []
  }

  ghost predicate Inv(p: Pool) {
    && p.submitted == p.started + p.tasks
    && (forall i | 0 <= i < |p.submitted| :: p.submitted[i].number == i)
    && multiset(p.started) == multiset(p.finished) + multiset(Running(p.workers))
    && (forall id :: CountOf(p.waitgroups, id) == |Named(p.tasks, id)| + |Named(Running(p.workers), id)|)
  }

  lemma {:induction false} NamedJoin(a: seq<Task>, b: seq<Task>, id: int)
    ensures Named(a + b, id) == Named(a, id) + Named(b, id)
  {
    if b == [] {
      assert a + b == a;
    } else {
      assert (a + b)[..|a + b| - 1] == a + b[..|b| - 1];
      NamedJoin(a, b[..|b| - 1], id);
    }
  }

  lemma NamedOne(t: Task, id: int)
    ensures Named([t], id) == if t.id == id then [t] else []
  {
    assert [t][..0] == [];
  }

  /** One worker's change shows in one place among the running tasks. */
  lemma {:induction false} WorkerChanged(workers: seq<Worker>, w: nat, x: Worker) returns (before: seq<Task>, after: seq<Task>)
    requires w < |workers|
    ensures Running(workers) == before + Running([workers[w]]) + after
    ensures Running(workers[w := x]) == before + Running([x]) + after
  {
    hide Running;
    var last := |workers| - 1;
    RunningLast(workers);
    RunningLast(workers[w := x]);
    if w == last {
      assert workers[w := x][..last] == workers[..last];
      before, after := Running(workers[..last]), [];
      assert before + Running([workers[w]]) + [] == before + Running([workers[w]]);
      assert before + Running([x]) + [] == before + Running([x]);
    } else {
      assert workers[w := x][..last] == workers[..last][w := x];
      var rest;
      before, rest := WorkerChanged(workers[..last], w, x);
      after := rest + Running([workers[last]]);
      assert before + Running([workers[w]]) + rest + Running([workers[last]]) == before + Running([workers[w]]) + after;
      assert before + Running([x]) + rest + Running([workers[last]]) == before + Running([x]) + after;
    }
  }

  lemma RunningLast(workers: seq<Worker>)
    requires workers != []
    ensures Running(workers) == Running(workers[..|workers| - 1]) + Running([workers[|workers| - 1]])
  {
    RunningOne(workers[|workers| - 1]);
  }

  lemma RunningOne(x: Worker)
    ensures Running([x]) == if x.Busy? then [x.task] else []
  {
    assert [x][..0] == [];
  }

  /** One task more in the middle of a list. */
  lemma Inserted(before: seq<Task>, t: Task, after: seq<Task>)
    ensures multiset(before + [t] + after) == multiset(before + after) + multiset{t}
    ensures forall id :: |Named(before + [t] + after, id)| == |Named(before + after, id)| + if t.id == id then 1 else 0
  {
    hide Named;
    forall id ensures |Named(before + [t] + after, id)| == |Named(before + after, id)| + if t.id == id then 1 else 0 {
      NamedJoin(before, [t], id);
      NamedJoin(before + [t], after, id);
      NamedJoin(before, after, id);
      NamedOne(t, id);
    }
  }

  /** `more` is `less` with one task t more. */
  ghost predicate OneMore(more: seq<Task>, less: seq<Task>, t: Task) {
    && multiset(more) == multiset(less) + multiset{t}
    && forall id :: |Named(more, id)| == |Named(less, id)| + if t.id == id then 1 else 0
  }

  /** What changes about the running tasks when worker w changes from `workers[w]` to x. */
  lemma RunningChange(workers: seq<Worker>, w: nat, x: Worker)
    requires w < |workers| && !(workers[w].Busy? && x.Busy?)
    ensures var now, next := Running(workers), Running(workers[w := x]);
            if x.Busy? then OneMore(next, now, x.task)
            else if workers[w].Busy? then OneMore(now, next, workers[w].task)
            else next == now
  {
    hide Running, Named;
    var before, after := WorkerChanged(workers, w, x);
    RunningOne(x);
    RunningOne(workers[w]);
    assert before + [] + after == before + after;
    if x.Busy? { Inserted(before, x.task, after); }
    if workers[w].Busy? { Inserted(before, workers[w].task, after); }
  }

  lemma {:induction false} NoneRunning(n: nat)
    ensures Running(seq(n, i => Idle)) == []
  {
    if n > 0 {
      NoneRunning(n - 1);
      assert seq(n, i => Idle)[..n - 1] == seq(n - 1, i => Idle);
    }
  }

  lemma InvInit(n: nat)
    ensures Inv(Init(n))
  {
    NoneRunning(n);
  }

  /** Every step of every thread keeps the invariant. */
  lemma InvNext(p: Pool, step: Step)
    requires Inv(p) && Enabled(p, step)
    ensures Inv(Next(p, step))
  {
    hide Running, Named;
    match step
    case Submit(id) => SubmitKeeps(p, id);
    case Dequeue(w) => DequeueKeeps(p, w);
    case Finish(w) => FinishKeeps(p, w);
    case Join(id) =>
    case Shutdown =>
    case Leave(w) => RunningChange(p.workers, w, Gone);
  }

  lemma SubmitKeeps(p: Pool, id: int)
    requires Inv(p)
    ensures Inv(Next(p, Submit(id)))
  {
    hide Running, Named;
    var t := Task(id, |p.submitted|);
    forall x ensures |Named(p.tasks + [t], x)| == |Named(p.tasks, x)| + if id == x then 1 else 0 {
      NamedJoin(p.tasks, [t], x);
      NamedOne(t, x);
    }
  }

  lemma DequeueKeeps(p: Pool, w: nat)
    requires Inv(p) && Enabled(p, Dequeue(w))
    ensures Inv(Next(p, Dequeue(w)))
  {
    hide Running, Named;
    var t := p.tasks[0];
    assert p.tasks == [t] + p.tasks[1..];
    RunningChange(p.workers, w, Busy(t));
    assert p.started + p.tasks == (p.started + [t]) + p.tasks[1..];
    forall x ensures |Named(p.tasks, x)| == |Named(p.tasks[1..], x)| + if t.id == x then 1 else 0 {
      NamedJoin([t], p.tasks[1..], x);
      NamedOne(t, x);
    }
  }

  lemma FinishKeeps(p: Pool, w: nat)
    requires Inv(p) && Enabled(p, Finish(w))
    ensures Inv(Next(p, Finish(w)))
  {
    hide Running, Named;
    var t := p.workers[w].task;
    RunningChange(p.workers, w, Idle);
    assert CountOf(p.waitgroups, t.id) >= 1;
  }

  // ---------------------------------------------------------------- whole runs

  /** Threads take these steps, one after the other, each when it is enabled. */
  ghost predicate IsRun(states: seq<Pool>, steps: seq<Step>, n: nat) {
    && |states| == |steps| + 1 && states[0] == Init(n)
    && forall i | 0 <= i < |steps| :: Enabled(states[i], steps[i]) && states[i + 1] == Next(states[i], steps[i])
  }

  lemma {:induction false} RunInv(states: seq<Pool>, steps: seq<Step>, n: nat, i: nat)
    requires IsRun(states, steps, n) && i < |states|
    ensures Inv(states[i])
  {
    if i == 0 {
      InvInit(n);
    } else {
      RunInv(states, steps, n, i - 1);
      InvNext(states[i - 1], steps[i - 1]);
    }
  }

  /**
    In any interleaving: tasks are dequeued in the order they were submitted, each at most
    once, and a waitgroup counts its queued and running tasks.
  */
  lemma FifoOnce(states: seq<Pool>, steps: seq<Step>, n: nat, i: nat)
    requires IsRun(states, steps, n) && i < |states|
    ensures var p := states[i];
            && p.started <= p.submitted
            && (forall j, k | 0 <= j < k < |p.started| :: p.started[j] != p.started[k])
            && (forall t :: multiset(p.finished)[t] + multiset(Running(p.workers))[t] <= 1)
            && forall id :: CountOf(p.waitgroups, id) == |Named(p.tasks, id)| + |Named(Running(p.workers), id)|
  {
    hide Running, Named;
    RunInv(states, steps, n, i);
    var p := states[i];
    forall j | 0 <= j < |p.started| ensures p.started[j].number == j { assert p.submitted[j] == p.started[j]; }
    forall t ensures multiset(p.finished)[t] + multiset(Running(p.workers))[t] <= 1 {
      AtMostOnce(p.started, t);
      assert multiset(p.started)[t] == (multiset(p.finished) + multiset(Running(p.workers)))[t];
    }
  }

  lemma {:induction false} AtMostOnce(s: seq<Task>, t: Task)
    requires forall j | 0 <= j < |s| :: s[j].number == j
    ensures multiset(s)[t] <= 1
  {
    if s != [] {
      var last := |s| - 1;
      assert s == s[..last] + [s[last]];
      AtMostOnce(s[..last], t);
      if t == s[last] { assert t !in s[..last]; }
    }
  }

  function Less(s: seq<Task>, k: nat): (r: seq<Task>)
    requires k < |s|
    ensures |r| == |s| - 1
  {
    s[..k] + s[k + 1..]
  }

  lemma LessOne(s: seq<Task>, k: nat, id: int)
    requires k < |s|
    ensures multiset(s) == multiset(Less(s, k)) + multiset{s[k]}
    ensures multiset(Named(s, id)) == multiset(Named(Less(s, k), id)) + if s[k].id == id then multiset{s[k]} else multiset{}
  {
    hide Named;
    assert s == s[..k] + [s[k]] + s[k + 1..];
    NamedJoin(s[..k], [s[k]], id);
    NamedJoin(s[..k] + [s[k]], s[k + 1..], id);
    NamedJoin(s[..k], s[k + 1..], id);
    NamedOne(s[k], id);
  }

  lemma {:induction false} NamedSame(a: seq<Task>, b: seq<Task>, id: int)
    requires multiset(a) == multiset(b)
    ensures multiset(Named(a, id)) == multiset(Named(b, id))
    decreases |a|
  {
    hide Named, Less;
    if a == [] {
      assert |multiset(b)| == |b|;
    } else {
      assert a[0] in multiset(b);
      var k :| 0 <= k < |b| && b[k] == a[0];
      LessOne(a, 0, id);
      LessOne(b, k, id);
      assert multiset(Less(a, 0)) == multiset(a) - multiset{a[0]} == multiset(Less(b, k));
      NamedSame(Less(a, 0), Less(b, k), id);
    }
  }

  /** When join(id) passes, every task submitted under id so far has finished, once, and none is queued or running. */
  lemma JoinPasses(states: seq<Pool>, steps: seq<Step>, n: nat, i: nat, id: int)
    requires IsRun(states, steps, n) && i < |steps| && steps[i] == Join(id)
    ensures var p := states[i];
            && Named(p.tasks, id) == [] && Named(Running(p.workers), id) == []
            && multiset(Named(p.finished, id)) == multiset(Named(p.submitted, id))
  {
    hide Running, Named;
    RunInv(states, steps, n, i);
    var p := states[i];
    var running := Running(p.workers);
    NamedJoin(p.started, p.tasks, id);
    NamedJoin(p.finished, running, id);
    NamedSame(p.started, p.finished + running, id);
    assert Named(p.started, id) + [] == Named(p.started, id) && Named(p.finished, id) + [] == Named(p.finished, id);
  }

  // ---------------------------------------------------------------- nobody waits in vain

  /** A worker takes a task exactly when it is idle and one is queued, and ends the one it is busy with whenever it likes. */
  lemma WorkerMay(p: Pool, w: nat)
    ensures Enabled(p, Dequeue(w)) <==> w < |p.workers| && p.workers[w] == Idle && |p.tasks| > 0
    ensures Enabled(p, Finish(w)) <==> w < |p.workers| && exists t :: p.workers[w] == Busy(t)
  {
  }

  /** In any run a join is let through exactly when every task submitted under its id has finished. */
  lemma JoinsWhenDone(states: seq<Pool>, steps: seq<Step>, n: nat, i: nat, id: int)
    requires IsRun(states, steps, n) && i < |states|
    ensures Enabled(states[i], Join(id)) <==> |Named(states[i].finished, id)| == |Named(states[i].submitted, id)|
  {
    hide Running, Named;
    RunInv(states, steps, n, i);
    var p := states[i];
    var running := Running(p.workers);
    NamedJoin(p.started, p.tasks, id);
    NamedJoin(p.finished, running, id);
    NamedSame(p.started, p.finished + running, id);
    SameCount(Named(p.started, id), Named(p.finished + running, id));
  }

  lemma SameCount(a: seq<Task>, b: seq<Task>)
    requires multiset(a) == multiset(b)
    ensures |a| == |b|
  {
    assert |multiset(a)| == |a| && |multiset(b)| == |b|;
  }

  /** Before the pool shuts down no worker has left. */
  ghost predicate NoneGone(p: Pool, n: nat) {
    |p.workers| == n && (!p.exitFlag ==> forall w | 0 <= w < n :: !p.workers[w].Gone?)
  }

  lemma {:induction false} RunNoneGone(states: seq<Pool>, steps: seq<Step>, n: nat, i: nat)
    requires IsRun(states, steps, n) && i < |states|
    ensures NoneGone(states[i], n)
  {
    if i > 0 { RunNoneGone(states, steps, n, i - 1); }
  }

  /** In any run of a pool with workers that is not shut down, a task that is queued or running leaves some worker a step to take. */
  lemma NeverStuck(states: seq<Pool>, steps: seq<Step>, n: nat, i: nat)
    requires IsRun(states, steps, n) && i < |states| && 0 < n && !states[i].exitFlag
    requires states[i].tasks != [] || Running(states[i].workers) != []
    ensures exists w :: Enabled(states[i], Dequeue(w)) || Enabled(states[i], Finish(w))
  {
    hide Running;
    RunNoneGone(states, steps, n, i);
    var p := states[i];
    if p.tasks != [] {
      assert Enabled(p, Dequeue(0)) || Enabled(p, Finish(0));
    } else {
      var w := BusyOne(p.workers);
      assert Enabled(p, Finish(w));
    }
  }

  lemma {:induction false} BusyOne(workers: seq<Worker>) returns (w: nat)
    requires Running(workers) != []
    ensures w < |workers| && workers[w].Busy?
  {
    var last := |workers| - 1;
    if workers[last].Busy? { w := last; } else { w := BusyOne(workers[..last]); }
  }

  /** Steps that are left when nothing more is submitted. */
  function Work(p: Pool): nat {
    2 * |p.tasks| + |Running(p.workers)|
  }

  /** Each step of a worker on a task leaves less work, and only a submission makes more, so joins are let through in the end. */
  lemma WorkEnds(p: Pool, step: Step)
    requires Enabled(p, step)
    ensures step.Dequeue? || step.Finish? ==> Work(Next(p, step)) == Work(p) - 1
    ensures step.Submit? ==> Work(Next(p, step)) == Work(p) + 2
    ensures step.Join? || step.Shutdown? || step.Leave? ==> Work(Next(p, step)) == Work(p)
  {
    hide Running, Named;
    match step
    case Dequeue(w) => CountChange(p.workers, w, Busy(p.tasks[0]));
    case Finish(w) => CountChange(p.workers, w, Idle);
    case Leave(w) => CountChange(p.workers, w, Gone);
    case _ =>
  }

  lemma CountChange(workers: seq<Worker>, w: nat, x: Worker)
    requires w < |workers| && !(workers[w].Busy? && x.Busy?)
    ensures |Running(workers[w := x])| ==
            |Running(workers)| + (if x.Busy? then 1 else 0) - (if workers[w].Busy? then 1 else 0)
  {
    hide Running;
    var before, after := WorkerChanged(workers, w, x);
    RunningOne(x);
    RunningOne(workers[w]);
  }

  // ---------------------------------------------------------------- handle_query

  /** What the collector holds: each finished task appended its chunk's pages. */
  function Collected(tasks: seq<Task>, pages: Task -> seq<T.Page>): seq<T.Page> {
    if tasks == [] then [] else Collected(tasks[..|tasks| - 1], pages) + pages(tasks[|tasks| - 1])
  }

  lemma {:induction false} CollectedJoin(a: seq<Task>, b: seq<Task>, pages: Task -> seq<T.Page>)
    ensures Collected(a + b, pages) == Collected(a, pages) + Collected(b, pages)
  {
    if b == [] {
      assert a + b == a;
    } else {
      assert (a + b)[..|a + b| - 1] == a + b[..|b| - 1];
      CollectedJoin(a, b[..|b| - 1], pages);
    }
  }

  lemma CollectedOne(t: Task, pages: Task -> seq<T.Page>)
    ensures Collected([t], pages) == pages(t)
  {
    assert [t][..0] == [];
    assert [] + pages(t) == pages(t);
  }

  lemma CollectedLess(s: seq<Task>, k: nat, pages: Task -> seq<T.Page>)
    requires k < |s|
    ensures multiset(s) == multiset(Less(s, k)) + multiset{s[k]}
    ensures multiset(Collected(s, pages)) == multiset(Collected(Less(s, k), pages)) + multiset(pages(s[k]))
  {
    hide Collected;
    assert s == s[..k] + [s[k]] + s[k + 1..];
    CollectedJoin(s[..k], [s[k]], pages);
    CollectedJoin(s[..k] + [s[k]], s[k + 1..], pages);
    CollectedJoin(s[..k], s[k + 1..], pages);
    CollectedOne(s[k], pages);
    Middle(Collected(s[..k], pages), pages(s[k]), Collected(s[k + 1..], pages));
  }

  lemma Middle(a: seq<T.Page>, b: seq<T.Page>, c: seq<T.Page>)
    ensures multiset(a + b + c) == multiset(a + c) + multiset(b)
  {
  }

  lemma {:induction false} CollectedSame(a: seq<Task>, b: seq<Task>, pages: Task -> seq<T.Page>)
    requires multiset(a) == multiset(b)
    ensures multiset(Collected(a, pages)) == multiset(Collected(b, pages))
    decreases |a|
  {
    hide Collected, Less;
    if a == [] {
      assert |multiset(b)| == |b|;
    } else {
      assert a[0] in multiset(b);
      var k :| 0 <= k < |b| && b[k] == a[0];
      CollectedLess(a, 0, pages);
      CollectedLess(b, k, pages);
      assert multiset(Less(a, 0)) == multiset(a) - multiset{a[0]} == multiset(Less(b, k));
      CollectedSame(Less(a, 0), Less(b, k), pages);
    }
  }

  /** How often the first steps submit under this id. */
  function Submissions(steps: seq<Step>, id: int): nat {
    if steps == [] then 0 else Submissions(steps[..|steps| - 1], id) + if steps[|steps| - 1] == Submit(id) then 1 else 0
  }

  lemma {:induction false} SubmittedCount(states: seq<Pool>, steps: seq<Step>, n: nat, i: nat, id: int)
    requires IsRun(states, steps, n) && i < |states|
    ensures |Named(states[i].submitted, id)| == Submissions(steps[..i], id)
  {
    if i > 0 {
      hide Running, Named, Inv;
      SubmittedCount(states, steps, n, i - 1, id);
      assert steps[..i][..i - 1] == steps[..i - 1];
      var before := states[i - 1];
      if steps[i - 1].Submit? {
        var t := Task(steps[i - 1].id, |before.submitted|);
        NamedJoin(before.submitted, [t], id);
        NamedOne(t, id);
      }
    } else {
      assert states[0].submitted == [];
      assert steps[..0] == [];
    }
  }

  /**
    handle_query submits one task per chunk under a fresh id, so that the k-th task of the
    id appends the pages of chunk k, and joins on it: whatever the interleaving, and whoever
    else uses the pool, the collector then holds every chunk's pages exactly once.
  */
  lemma EveryChunkOnce(states: seq<Pool>, steps: seq<Step>, n: nat, i: nat, id: int, chunks: seq<seq<T.Page>>, pages: Task -> seq<T.Page>)
    requires IsRun(states, steps, n) && i < |steps| && steps[i] == Join(id)
    requires Submissions(steps[..i], id) == |chunks|
    requires forall k | 0 <= k < |chunks| && k < |Named(states[i].submitted, id)| :: pages(Named(states[i].submitted, id)[k]) == chunks[k]
    ensures |Named(states[i].finished, id)| == |chunks|
    ensures multiset(Collected(Named(states[i].finished, id), pages)) == multiset(T.Joined(chunks))
  {
    hide Named, Collected, Running, T.Joined;
    SubmittedCount(states, steps, n, i, id);
    JoinPasses(states, steps, n, i, id);
    var finished, submitted := Named(states[i].finished, id), Named(states[i].submitted, id);
    assert |multiset(finished)| == |finished| && |multiset(submitted)| == |submitted|;
    CollectedSame(finished, submitted, pages);
    CollectedIsJoined(submitted, chunks, pages);
  }

  lemma {:induction false} CollectedIsJoined(tasks: seq<Task>, chunks: seq<seq<T.Page>>, pages: Task -> seq<T.Page>)
    requires |tasks| == |chunks| && forall k | 0 <= k < |chunks| :: pages(tasks[k]) == chunks[k]
    ensures Collected(tasks, pages) == T.Joined(chunks)
  {
    if tasks != [] {
      var last := |tasks| - 1;
      CollectedIsJoined(tasks[..last], chunks[..last], pages);
    }
  }
}
