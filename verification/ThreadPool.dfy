/** `ThreadPool` of httplib.h as a monitor over steps: a queue, its workers, producers, one closing
    thread, a mutex and a condition variable. A run is any sequence of enabled steps, so every
    interleaving, every choice of `notify_one` and every spurious wake-up is covered. */
module ThreadPool {

  type Job = nat

  /** Where a worker is: outside the lock on its way to it (loop start or woken), holding it and about to
      test the wait predicate, blocked in `wait` with no notification pending, running a job, gone. */
  datatype WorkerPc = Acquiring | Checking | Waiting | Running(job: Job) | Exited

  /** Who holds `mutex_`. A producer has or has not pushed its job yet. */
  datatype Holder = Nobody | ByWorker(i: nat) | ByProducer(job: Job, pushed: bool) | ByCloser

  /** How far `shutdown()` has got: not called, flag set, `notify_all` done, all threads joined. */
  datatype CloserPc = Open | FlagSet | Notified | Joined

  /** `jobs`, `shutdown`, the lock holder and the program counters; and the history: jobs in the order
      pushed, started and finished, and how many had been pushed when the flag was set. */
  datatype Pool = Pool(
    workers: seq<WorkerPc>, jobs: seq<Job>, shutdown: bool, holder: Holder, closer: CloserPc,
    enqueued: seq<Job>, started: seq<Job>, finished: multiset<Job>, early: nat)

  datatype Step =
    | Lock(i: nat) | Check(i: nat) | Finish(i: nat) | Spurious(i: nat)
    | EnqueueLock(job: Job) | EnqueuePush | EnqueueNotify(woken: nat)
    | ShutdownLock | ShutdownFlag | NotifyAll | Join

  function Init(n: nat): Pool {
    Pool(seq(n, i => Acquiring), [], false, Nobody, Open, [], [], multiset{}, 0)
  }

  predicate AnyWaiting(workers: seq<WorkerPc>) { exists i :: 0 <= i < |workers| && workers[i] == Waiting }

  predicate AllExited(workers: seq<WorkerPc>) { forall i :: 0 <= i < |workers| ==> workers[i] == Exited }

  predicate Enabled(p: Pool, step: Step) {
    match step
    case Lock(i) => i < |p.workers| && p.workers[i] == Acquiring && p.holder == Nobody
    case Check(i) => i < |p.workers| && p.workers[i] == Checking && p.holder == ByWorker(i)
    case Finish(i) => i < |p.workers| && p.workers[i].Running?
    case Spurious(i) => i < |p.workers| && p.workers[i] == Waiting
    case EnqueueLock(_) => p.holder == Nobody
    case EnqueuePush => p.holder.ByProducer? && !p.holder.pushed
    case EnqueueNotify(woken) =>
      p.holder.ByProducer? && p.holder.pushed &&
      (AnyWaiting(p.workers) ==> woken < |p.workers| && p.workers[woken] == Waiting)
    case ShutdownLock => p.holder == Nobody && p.closer == Open
    case ShutdownFlag => p.holder == ByCloser
    case NotifyAll => p.closer == FlagSet
    case Join => p.closer == Notified && AllExited(p.workers)
  }

  /** The critical section of a worker: block, leave, or take the front job. */
  function CheckQueue(p: Pool, i: nat): Pool
    requires i < |p.workers|
  {
    if p.jobs == [] && !p.shutdown then p.(workers := p.workers[i := Waiting], holder := Nobody)
    else if p.jobs == [] then p.(workers := p.workers[i := Exited], holder := Nobody)
    else p.(workers := p.workers[i := Running(p.jobs[0])], holder := Nobody,
            jobs := p.jobs[1..], started := p.started + [p.jobs[0]])
  }

  function Woken(pc: WorkerPc): WorkerPc { if pc == Waiting then Acquiring else pc }

  function Apply(p: Pool, step: Step): Pool
    requires Enabled(p, step)
  {
    match step
    case Lock(i) => p.(workers := p.workers[i := Checking], holder := ByWorker(i))
    case Check(i) => CheckQueue(p, i)
    case Finish(i) =>
      p.(workers := p.workers[i := Acquiring], finished := p.finished + multiset{p.workers[i].job})
    case Spurious(i) => p.(workers := p.workers[i := Acquiring])
    case EnqueueLock(job) => p.(holder := ByProducer(job, false))
    case EnqueuePush =>
      p.(holder := ByProducer(p.holder.job, true), jobs := p.jobs + [p.holder.job],
         enqueued := p.enqueued + [p.holder.job])
    case EnqueueNotify(woken) =>
      if AnyWaiting(p.workers) then p.(workers := p.workers[woken := Acquiring], holder := Nobody)
      else p.(holder := Nobody)
    case ShutdownLock => p.(holder := ByCloser)
    case ShutdownFlag => p.(shutdown := true, holder := Nobody, closer := FlagSet, early := |p.enqueued|)
    case NotifyAll =>
      p.(workers := seq(|p.workers|, i requires 0 <= i < |p.workers| => Woken(p.workers[i])), closer := Notified)
    case Join => p.(closer := Joined)
  }

  // ---- Counting workers -----------------------------------------------------------------------

  function IsRechecking(pc: WorkerPc): nat { if pc == Acquiring || pc == Checking then 1 else 0 }

  /** How many workers are going to look at the queue before they can block. */
  function Recheckers(workers: seq<WorkerPc>): nat {
    if workers == [] then 0 else IsRechecking(workers[0]) + Recheckers(workers[1..])
  }

  function JobOf(pc: WorkerPc): multiset<Job> { if pc.Running? then multiset{pc.job} else multiset{} }

  function RunningJobs(workers: seq<WorkerPc>): multiset<Job> {
    if workers == [] then multiset{} else JobOf(workers[0]) + RunningJobs(workers[1..])
  }

  /** A bound on the steps a worker still takes by itself, a queued job counting four. */
  function WeightOf(pc: WorkerPc): nat {
    match pc
    case Acquiring => 2
    case Checking => 1
    case Waiting => 0
    case Running(_) => 3
    case Exited => 0
  }

  function Weight(workers: seq<WorkerPc>): nat {
    if workers == [] then 0 else WeightOf(workers[0]) + Weight(workers[1..])
  }

  lemma {:induction false} Update(workers: seq<WorkerPc>, i: nat, pc: WorkerPc)
    requires i < |workers|
    ensures Recheckers(workers[i := pc]) + IsRechecking(workers[i]) == Recheckers(workers) + IsRechecking(pc)
    ensures Weight(workers[i := pc]) + WeightOf(workers[i]) == Weight(workers) + WeightOf(pc)
  {
    if i == 0 {
      assert workers[i := pc][1..] == workers[1..];
    } else {
      assert workers[i := pc][1..] == workers[1..][i - 1 := pc];
      Update(workers[1..], i - 1, pc);
    }
  }

  lemma {:induction false} UpdateRunning(workers: seq<WorkerPc>, i: nat, pc: WorkerPc, job: Job)
    requires i < |workers|
    ensures RunningJobs(workers[i := pc])[job] + JobOf(workers[i])[job] == RunningJobs(workers)[job] + JobOf(pc)[job]
  {
    if i == 0 {
      assert workers[i := pc][1..] == workers[1..];
    } else {
      assert workers[i := pc][1..] == workers[1..][i - 1 := pc];
      UpdateRunning(workers[1..], i - 1, pc, job);
    }
  }

  lemma {:induction false} WakeAll(workers: seq<WorkerPc>, woken: seq<WorkerPc>)
    requires |woken| == |workers| && forall i :: 0 <= i < |workers| ==> woken[i] == Woken(workers[i])
    ensures RunningJobs(woken) == RunningJobs(workers)
    ensures !AnyWaiting(woken)
  {
    if workers != [] {
      WakeAll(workers[1..], woken[1..]);
      assert woken[0] == Woken(workers[0]);
    }
  }

  lemma {:induction false} NoneRunning(workers: seq<WorkerPc>)
    requires AllExited(workers)
    ensures RunningJobs(workers) == multiset{}
  {
    if workers != [] { NoneRunning(workers[1..]); }
  }

  lemma {:induction false} SomeRechecker(workers: seq<WorkerPc>) returns (i: nat)
    requires Recheckers(workers) > 0
    ensures i < |workers| && IsRechecking(workers[i]) == 1
  {
    if IsRechecking(workers[0]) == 1 {
      i := 0;
    } else {
      i := SomeRechecker(workers[1..]);
      i := i + 1;
    }
  }

  // ---- The invariant ----------------------------------------------------------------------------

  /** Every job pushed was started, in the order pushed, or is still queued in that order; and every job
      started is running or finished, counted with repetition. */
  predicate Conserved(p: Pool) {
    && p.enqueued == p.started + p.jobs
    && multiset(p.started) == RunningJobs(p.workers) + p.finished
  }

  function Unannounced(holder: Holder): nat { if holder.ByProducer? && holder.pushed then 1 else 0 }

  /** No lost wake-up: while a worker sleeps unnotified, the workers about to re-check the queue, with the
      notification a producer is about to send, cover it. */
  predicate NoLostWakeUp(p: Pool) {
    AnyWaiting(p.workers) ==> |p.jobs| <= Recheckers(p.workers) + Unannounced(p.holder)
  }

  /** A worker is in its critical section exactly when it holds the lock. */
  predicate Exclusive(p: Pool) {
    && (forall i :: 0 <= i < |p.workers| ==> (p.workers[i] == Checking <==> p.holder == ByWorker(i)))
    && (p.holder.ByWorker? ==> p.holder.i < |p.workers|)
  }

  predicate Closing(p: Pool) {
    && (p.shutdown <==> p.closer != Open)
    && (p.holder == ByCloser ==> p.closer == Open)
    && (p.closer == Notified || p.closer == Joined ==> !AnyWaiting(p.workers))
    && (p.closer == Joined ==> AllExited(p.workers))
    && p.early <= |p.enqueued|
    && (forall i :: 0 <= i < |p.workers| && p.workers[i] == Exited ==> p.shutdown && p.early <= |p.started|)
  }

  predicate Inv(p: Pool) { Conserved(p) && NoLostWakeUp(p) && Exclusive(p) && Closing(p) }

  lemma {:induction false} InitRunning(n: nat)
    ensures RunningJobs(seq(n, i => Acquiring)) == multiset{}
  {
    if n > 0 {
      InitRunning(n - 1);
      assert seq(n, i => Acquiring)[1..] == seq(n - 1, i => Acquiring);
    }
  }

  lemma InitInv(n: nat)
    ensures Inv(Init(n))
  {
    InitRunning(n);
  }

  lemma TakeConserves(p: Pool, i: nat)
    requires Conserved(p) && i < |p.workers| && p.workers[i] == Checking && p.jobs != []
    ensures Conserved(CheckQueue(p, i))
  {
    var p' := CheckQueue(p, i);
    var job := p.jobs[0];
    assert p.started + p.jobs == p.started + [job] + p.jobs[1..];
    forall j ensures RunningJobs(p'.workers)[j] == (RunningJobs(p.workers) + multiset{job})[j] {
      UpdateRunning(p.workers, i, Running(job), j);
    }
    assert RunningJobs(p'.workers) == RunningJobs(p.workers) + multiset{job};
  }

  /** A worker that neither takes nor ends a job leaves the running jobs as they were. */
  lemma MovedIdle(p: Pool, i: nat, pc: WorkerPc)
    requires i < |p.workers| && !p.workers[i].Running? && !pc.Running?
    ensures RunningJobs(p.workers[i := pc]) == RunningJobs(p.workers)
  {
    forall j ensures RunningJobs(p.workers[i := pc])[j] == RunningJobs(p.workers)[j] {
      UpdateRunning(p.workers, i, pc, j);
    }
  }

  lemma FinishConserves(p: Pool, i: nat)
    requires Conserved(p) && i < |p.workers| && p.workers[i].Running?
    ensures Conserved(Apply(p, Finish(i)))
  {
    hide RunningJobs, Enabled;
    var job := p.workers[i].job;
    var after := RunningJobs(p.workers[i := Acquiring]);
    forall j ensures RunningJobs(p.workers)[j] == (after + multiset{job})[j] {
      UpdateRunning(p.workers, i, Acquiring, j);
    }
    assert RunningJobs(p.workers) == after + multiset{job};
  }

  lemma StepConserves(p: Pool, step: Step)
    requires Inv(p) && Enabled(p, step)
    ensures Conserved(Apply(p, step))
  {
    var p' := Apply(p, step);
    match step
    case Lock(i) => MovedIdle(p, i, Checking);
    case Check(i) => if p.jobs != [] { TakeConserves(p, i); } else { MovedIdle(p, i, p'.workers[i]); }
    case Finish(i) => FinishConserves(p, i);
    case Spurious(i) => MovedIdle(p, i, Acquiring);
    case EnqueuePush => assert p.started + (p.jobs + [p.holder.job]) == p.started + p.jobs + [p.holder.job];
    case EnqueueNotify(woken) => if AnyWaiting(p.workers) { MovedIdle(p, woken, Acquiring); }
    case NotifyAll => WakeAll(p.workers, p'.workers);
    case _ =>
  }

  /** The worker that sleeps finds no job; the one that takes a job leaves one fewer. */
  lemma CheckWakes(p: Pool, i: nat)
    requires NoLostWakeUp(p) && i < |p.workers| && p.workers[i] == Checking && p.holder == ByWorker(i)
    ensures NoLostWakeUp(CheckQueue(p, i))
  {
    hide Recheckers, AnyWaiting;
    var p' := CheckQueue(p, i);
    Update(p.workers, i, p'.workers[i]);
    if p.jobs != [] { StillWaiting(p.workers, i, p'.workers[i]); }
  }

  lemma StepWakes(p: Pool, step: Step)
    requires Inv(p) && Enabled(p, step)
    ensures NoLostWakeUp(Apply(p, step))
  {
    hide Conserved, Closing, Recheckers, CheckQueue, AnyWaiting;
    var p' := Apply(p, step);
    match step
    case Lock(i) => MovedAwake(p, i, Checking);
    case Check(i) => CheckWakes(p, i);
    case Finish(i) => MovedAwake(p, i, Acquiring);
    case Spurious(i) => MovedAwake(p, i, Acquiring);
    case EnqueueNotify(woken) => if AnyWaiting(p.workers) { MovedAwake(p, woken, Acquiring); }
    case NotifyAll => WakeAll(p.workers, p'.workers);
    case _ =>
  }

  lemma MovedAwake(p: Pool, i: nat, pc: WorkerPc)
    requires i < |p.workers| && IsRechecking(pc) == 1
    ensures Recheckers(p.workers[i := pc]) == Recheckers(p.workers) + 1 - IsRechecking(p.workers[i])
    ensures AnyWaiting(p.workers[i := pc]) ==> AnyWaiting(p.workers)
  {
    Update(p.workers, i, pc);
    StillWaiting(p.workers, i, pc);
  }

  lemma StillWaiting(workers: seq<WorkerPc>, i: nat, pc: WorkerPc)
    requires i < |workers| && pc != Waiting
    ensures AnyWaiting(workers[i := pc]) ==> AnyWaiting(workers)
  {
    if AnyWaiting(workers[i := pc]) {
      var k :| 0 <= k < |workers| && workers[i := pc][k] == Waiting;
      assert workers[k] == Waiting;
    }
  }

  lemma StepExclusive(p: Pool, step: Step)
    requires Inv(p) && Enabled(p, step)
    ensures Exclusive(Apply(p, step))
  {
    hide Conserved, NoLostWakeUp, Closing, AnyWaiting, AllExited;
  }

  lemma SomeoneLeft(workers: seq<WorkerPc>, i: nat)
    requires i < |workers| && workers[i] != Exited
    ensures !AllExited(workers)
  {
  }

  lemma StepCloses(p: Pool, step: Step)
    requires Inv(p) && Enabled(p, step)
    ensures Closing(Apply(p, step))
  {
    hide NoLostWakeUp, CheckQueue, AnyWaiting, AllExited, Recheckers, RunningJobs;
    var p' := Apply(p, step);
    match step
    case Lock(i) =>
      StillWaiting(p.workers, i, Checking);
      SomeoneLeft(p.workers, i);
    case Check(i) => CheckCloses(p, i);
    case Finish(i) =>
      StillWaiting(p.workers, i, Acquiring);
      SomeoneLeft(p.workers, i);
    case Spurious(i) =>
      StillWaiting(p.workers, i, Acquiring);
      SomeoneLeft(p.workers, i);
    case EnqueueNotify(woken) =>
      if AnyWaiting(p.workers) {
        StillWaiting(p.workers, woken, Acquiring);
        SomeoneLeft(p.workers, woken);
      }
    case NotifyAll => WakeAll(p.workers, p'.workers);
    case _ =>
  }

  lemma CheckCloses(p: Pool, i: nat)
    requires Inv(p) && i < |p.workers| && p.workers[i] == Checking && p.holder == ByWorker(i)
    ensures Closing(CheckQueue(p, i))
  {
    hide NoLostWakeUp, AnyWaiting;
    var p' := CheckQueue(p, i);
    if p'.workers[i] != Waiting { StillWaiting(p.workers, i, p'.workers[i]); }
  }

  lemma StepInv(p: Pool, step: Step)
    requires Inv(p) && Enabled(p, step)
    ensures Inv(Apply(p, step))
  {
    StepConserves(p, step);
    StepWakes(p, step);
    StepExclusive(p, step);
    StepCloses(p, step);
  }

  // ---- Runs -------------------------------------------------------------------------------------

  /** `steps` can be taken one after another from `p`. */
  predicate CanRun(p: Pool, steps: seq<Step>)
    decreases |steps|
  {
    steps == [] || (Enabled(p, steps[0]) && CanRun(Apply(p, steps[0]), steps[1..]))
  }

  function After(p: Pool, steps: seq<Step>): Pool
    requires CanRun(p, steps)
    decreases |steps|
  {
    if steps == [] then p else After(Apply(p, steps[0]), steps[1..])
  }

  lemma {:induction false} RunInv(p: Pool, steps: seq<Step>)
    requires Inv(p) && CanRun(p, steps)
    ensures Inv(After(p, steps))
    decreases |steps|
  {
    if steps != [] {
      StepInv(p, steps[0]);
      RunInv(Apply(p, steps[0]), steps[1..]);
    }
  }

  /** In every reachable state: jobs start in the order pushed, each at most once; pushed jobs are queued,
      running or finished; and no wake-up is lost. */
  lemma {:induction false} Safety(n: nat, steps: seq<Step>)
    requires CanRun(Init(n), steps)
    ensures var p := After(Init(n), steps);
            && p.enqueued == p.started + p.jobs
            && multiset(p.enqueued) == multiset(p.jobs) + RunningJobs(p.workers) + p.finished
            && (AnyWaiting(p.workers) ==> |p.jobs| <= Recheckers(p.workers) + Unannounced(p.holder))
  {
    InitInv(n);
    RunInv(Init(n), steps);
  }

  /** A queued job is never left to sleeping workers: with the lock free and no shutdown, some worker is
      on its way to the queue or will be when its job ends. */
  lemma {:induction false} QueuedJobIsServed(n: nat, steps: seq<Step>)
    requires n > 0 && CanRun(Init(n), steps)
    requires var p := After(Init(n), steps); p.jobs != [] && p.holder == Nobody && !p.shutdown
    ensures var p := After(Init(n), steps);
            exists i :: 0 <= i < |p.workers| && (p.workers[i] == Acquiring || p.workers[i].Running?)
  {
    InitInv(n);
    RunInv(Init(n), steps);
    SameSize(Init(n), steps);
    var p := After(Init(n), steps);
    if AnyWaiting(p.workers) {
      var i := SomeRechecker(p.workers);
      assert p.workers[i] == Acquiring;
    } else {
      assert p.workers[0] == Acquiring || p.workers[0].Running?;
    }
  }

  lemma {:induction false} SameSize(p: Pool, steps: seq<Step>)
    requires CanRun(p, steps)
    ensures |After(p, steps).workers| == |p.workers|
    decreases |steps|
  {
    if steps != [] { SameSize(Apply(p, steps[0]), steps[1..]); }
  }

  /** When `shutdown()` has joined a pool with workers, every job pushed before its flag was set has been
      run to the end. */
  lemma {:induction false} ShutdownRunsEarlyJobs(n: nat, steps: seq<Step>)
    requires n > 0 && CanRun(Init(n), steps)
    requires After(Init(n), steps).closer == Joined
    ensures var p := After(Init(n), steps);
            && p.early <= |p.enqueued| && multiset(p.enqueued[..p.early]) <= p.finished
            && (p.early == |p.enqueued| ==> p.jobs == [] && p.finished == multiset(p.enqueued))
  {
    InitInv(n);
    RunInv(Init(n), steps);
    SameSize(Init(n), steps);
    var p := After(Init(n), steps);
    assert p.workers[0] == Exited;
    NoneRunning(p.workers);
    PrefixFinished(p.enqueued, p.started, p.jobs, p.early);
  }

  lemma PrefixFinished(enqueued: seq<Job>, started: seq<Job>, jobs: seq<Job>, early: nat)
    requires enqueued == started + jobs && early <= |started|
    ensures multiset(enqueued[..early]) <= multiset(started)
    ensures early == |enqueued| ==> jobs == [] && started == enqueued
  {
    assert started == enqueued[..early] + started[early..];
  }

  lemma {:induction false} RunCons(p: Pool, step: Step, rest: seq<Step>)
    requires Enabled(p, step) && CanRun(Apply(p, step), rest)
    ensures CanRun(p, [step] + rest) && After(p, [step] + rest) == After(Apply(p, step), rest)
  {
    assert ([step] + rest)[1..] == rest;
  }

  /** A pool of `n` after the flag, before any push, the first `k` workers gone. */
  function Leaving(n: nat, k: nat): Pool {
    Init(n).(workers := seq(n, i => if i < k then Exited else Acquiring), shutdown := true, closer := FlagSet)
  }

  lemma OneLeaves(n: nat, k: nat)
    requires k < n
    ensures Enabled(Leaving(n, k), Lock(k)) && Enabled(Apply(Leaving(n, k), Lock(k)), Check(k))
    ensures Apply(Apply(Leaving(n, k), Lock(k)), Check(k)) == Leaving(n, k + 1)
  {
    assert Leaving(n, k).workers[k := Checking][k := Exited] == Leaving(n, k + 1).workers;
  }

  lemma {:induction false} WorkersLeave(n: nat, k: nat, rest: seq<Step>) returns (steps: seq<Step>)
    requires k <= n && CanRun(Leaving(n, n), rest)
    ensures CanRun(Leaving(n, k), steps) && After(Leaving(n, k), steps) == After(Leaving(n, n), rest)
    decreases n - k
  {
    if k == n {
      steps := rest;
    } else {
      var later := WorkersLeave(n, k + 1, rest);
      OneLeaves(n, k);
      hide Apply, Enabled, CanRun, After, Leaving;
      RunCons(Apply(Leaving(n, k), Lock(k)), Check(k), later);
      RunCons(Leaving(n, k), Lock(k), [Check(k)] + later);
      steps := [Lock(k)] + ([Check(k)] + later);
    }
  }

  lemma FlagFirst(n: nat)
    ensures Enabled(Init(n), ShutdownLock) && Enabled(Apply(Init(n), ShutdownLock), ShutdownFlag)
    ensures Apply(Apply(Init(n), ShutdownLock), ShutdownFlag) == Leaving(n, 0)
  {
    assert Init(n).workers == Leaving(n, 0).workers;
  }

  function PushSteps(job: Job): seq<Step> { [EnqueueLock(job), EnqueuePush, EnqueueNotify(0), NotifyAll, Join] }

  lemma PushToNobody(n: nat, job: Job)
    ensures CanRun(Leaving(n, n), PushSteps(job))
    ensures After(Leaving(n, n), PushSteps(job)) ==
            Leaving(n, n).(jobs := [job], enqueued := [job], closer := Joined)
  {
    var q0 := Leaving(n, n);
    var q1 := q0.(holder := ByProducer(job, false));
    var q2 := q0.(holder := ByProducer(job, true), jobs := [job], enqueued := [job]);
    var q3 := q2.(holder := Nobody);
    var q4 := q3.(closer := Notified);
    assert [] + [job] == [job] && !AnyWaiting(q2.workers);
    assert Apply(q3, NotifyAll).workers == q3.workers;
    assert Enabled(q4, Join) && Apply(q4, Join) == q4.(closer := Joined);
    assert Enabled(q3, NotifyAll) && Apply(q3, NotifyAll) == q4;
    assert Enabled(q2, EnqueueNotify(0)) && Apply(q2, EnqueueNotify(0)) == q3;
    assert Enabled(q1, EnqueuePush) && Apply(q1, EnqueuePush) == q2;
    assert Enabled(q0, EnqueueLock(job)) && Apply(q0, EnqueueLock(job)) == q1;
    NoSteps(Apply(q4, Join));
    hide Apply, Enabled, CanRun, After, Leaving;
    RunCons(q4, Join, []);
    assert [Join] + [] == [Join];
    RunCons(q3, NotifyAll, [Join]);
    RunCons(q2, EnqueueNotify(0), [NotifyAll, Join]);
    RunCons(q1, EnqueuePush, [EnqueueNotify(0), NotifyAll, Join]);
    RunCons(q0, EnqueueLock(job), [EnqueuePush, EnqueueNotify(0), NotifyAll, Join]);
  }

  lemma {:induction false} NoSteps(p: Pool)
    ensures CanRun(p, []) && After(p, []) == p
  {
  }

  /** How many pushes of a run came when every worker had left. */
  function Missed(p: Pool, steps: seq<Step>): nat
    requires CanRun(p, steps)
    decreases |steps|
  {
    if steps == [] then 0 else MissedAt(p, steps[0]) + Missed(Apply(p, steps[0]), steps[1..])
  }

  function MissedAt(p: Pool, step: Step): nat { if step.EnqueuePush? && AllExited(p.workers) then 1 else 0 }

  /** How many jobs are queued with nobody left to take them. */
  function Stranded(p: Pool): nat { if AllExited(p.workers) then |p.jobs| else 0 }

  /** The last worker leaves an empty queue; from then on only pushes change the queue. */
  lemma StrandedGrows(p: Pool, step: Step)
    requires Inv(p) && Enabled(p, step)
    ensures Stranded(Apply(p, step)) == Stranded(p) + MissedAt(p, step)
  {
    hide Inv, AnyWaiting;
    match step
    case Lock(i) => assert Apply(p, step).workers[i] != Exited;
    case Spurious(i) => assert Apply(p, step).workers[i] != Exited;
    case EnqueueNotify(woken) => if AnyWaiting(p.workers) { assert Apply(p, step).workers[woken] != Exited; }
    case Check(i) => assert Apply(p, step).workers[i] == Exited ==> p.jobs == [];
    case NotifyAll =>
      var p' := Apply(p, step);
      assert forall i :: 0 <= i < |p.workers| ==> p'.workers[i] == Woken(p.workers[i]);
    case Finish(i) => assert Apply(p, step).workers[i] != Exited;
    case _ =>
  }

  lemma {:induction false} MissedAreStranded(p: Pool, steps: seq<Step>)
    requires Inv(p) && CanRun(p, steps)
    ensures Stranded(After(p, steps)) == Stranded(p) + Missed(p, steps)
    decreases |steps|
  {
    hide Inv, Stranded, MissedAt, Apply;
    if steps != [] {
      StepInv(p, steps[0]);
      StrandedGrows(p, steps[0]);
      MissedAreStranded(Apply(p, steps[0]), steps[1..]);
    }
  }

  /** Which jobs a pool that was shut down has lost, in every run and for any number of workers: exactly
      those pushed when all workers had left. They are the last ones pushed and still queued; all the
      others have been run to the end. */
  lemma {:induction false} LateJobsLostExactly(n: nat, steps: seq<Step>)
    requires CanRun(Init(n), steps) && After(Init(n), steps).closer == Joined
    ensures var p, lost := After(Init(n), steps), Missed(Init(n), steps);
            && lost <= |p.enqueued|
            && p.jobs == p.enqueued[|p.enqueued| - lost..]
            && p.finished == multiset(p.enqueued[..|p.enqueued| - lost])
            && (p.finished == multiset(p.enqueued) <==> lost == 0)
  {
    var p := After(Init(n), steps);
    InitInv(n);
    RunInv(Init(n), steps);
    MissedAreStranded(Init(n), steps);
    NoneRunning(p.workers);
    assert Stranded(p) == |p.jobs|;
    assert |multiset(p.enqueued)| == |p.enqueued|;
    assert |multiset(p.started)| == |p.started|;
  }

  /** Jobs do get lost so, in a pool of any size: all workers leave between the flag and the push. */
  lemma LateJobCanBeLost(n: nat, job: Job)
    ensures exists steps :: CanRun(Init(n), steps) && After(Init(n), steps).closer == Joined &&
                            After(Init(n), steps).jobs == [job] && After(Init(n), steps).finished == multiset{}
  {
    PushToNobody(n, job);
    FlagFirst(n);
    var later := WorkersLeave(n, 0, PushSteps(job));
    var flagged := Apply(Init(n), ShutdownLock);
    assert After(Leaving(n, n), PushSteps(job)).finished == multiset{};
    hide Apply, Enabled, CanRun, After, Leaving, Init;
    RunCons(flagged, ShutdownFlag, later);
    RunCons(Init(n), ShutdownLock, [ShutdownFlag] + later);
  }

  // ---- Shutdown ends ------------------------------------------------------------------------------

  predicate WorkerStep(step: Step) { step.Lock? || step.Check? || step.Finish? || step.Spurious? }

  function Work(p: Pool): nat { 4 * |p.jobs| + Weight(p.workers) }

  /** After `notify_all`, a worker's every step brings the end nearer and none can fall asleep. */
  lemma WorkShrinks(p: Pool, step: Step)
    requires Inv(p) && Enabled(p, step) && WorkerStep(step) && p.closer == Notified
    ensures Work(Apply(p, step)) < Work(p) && Apply(p, step).closer == Notified
  {
    match step
    case Lock(i) => Update(p.workers, i, Checking);
    case Check(i) => Update(p.workers, i, CheckQueue(p, i).workers[i]);
    case Finish(i) => Update(p.workers, i, Acquiring);
    case Spurious(i) =>
  }

  /** After `notify_all`, with no producer in the lock, either every worker is gone or one can step. */
  lemma SomeoneCanStep(p: Pool)
    requires Inv(p) && p.closer == Notified && !p.holder.ByProducer?
    ensures AllExited(p.workers) || exists step :: WorkerStep(step) && Enabled(p, step)
  {
    if !AllExited(p.workers) {
      var i :| 0 <= i < |p.workers| && p.workers[i] != Exited;
      if p.holder.ByWorker? {
        assert Enabled(p, Check(p.holder.i));
      } else if p.workers[i] == Acquiring {
        assert Enabled(p, Lock(i));
      } else {
        assert Enabled(p, Finish(i));
      }
    }
  }

  lemma {:induction false} WorkBound(p: Pool, steps: seq<Step>)
    requires Inv(p) && p.closer == Notified && !p.holder.ByProducer?
    requires CanRun(p, steps) && forall k :: 0 <= k < |steps| ==> WorkerStep(steps[k])
    ensures var q := After(p, steps);
            |steps| + Work(q) <= Work(p) && Inv(q) && q.closer == Notified && !q.holder.ByProducer?
    decreases |steps|
  {
    if steps != [] {
      StepInv(p, steps[0]);
      WorkShrinks(p, steps[0]);
      WorkBound(Apply(p, steps[0]), steps[1..]);
    }
  }

  /** `shutdown()` returns: once everyone is notified and no more jobs come, any run of worker steps is
      bounded, no worker is blocked after it, and one that cannot go on has all workers gone, so `join`
      can happen. */
  lemma {:induction false} ShutdownEnds(n: nat, before: seq<Step>, steps: seq<Step>)
    requires CanRun(Init(n), before)
    requires After(Init(n), before).closer == Notified && !After(Init(n), before).holder.ByProducer?
    requires CanRun(After(Init(n), before), steps) && forall k :: 0 <= k < |steps| ==> WorkerStep(steps[k])
    ensures |steps| <= Work(After(Init(n), before))
    ensures var q := After(After(Init(n), before), steps);
            && !AnyWaiting(q.workers)
            && (Enabled(q, Join) || exists step :: WorkerStep(step) && Enabled(q, step))
  {
    hide After, CanRun, Apply, Init, Work;
    InitInv(n);
    RunInv(Init(n), before);
    WorkBound(After(Init(n), before), steps);
    SomeoneCanStep(After(After(Init(n), before), steps));
  }
}
