/**
 The task manager as a transition system: every public method and every
 step of a worker is an `Action`, and a run is any interleaving of enabled
 actions. `Inv` is the bookkeeping that every reachable manager keeps;
 the remaining lemmas are about how a single task's record can evolve.
 */
module TaskSystem {
  import opened Common
  import opened Tasks

  datatype Action =
    | Submit(kind: string, work: WorkFn, metadata: Metadata)
    | Dequeue
    | Finish(id: TaskId, outcome: Outcome)
    | Report(id: TaskId, progress: real, processed: int, total: int)
    | Cancel(id: TaskId)
    | ClearCancelledTasks
    | Cleanup(maxAge: int)
    | StartPool
    | StopPool
    | SetCallback(present: bool)

  /** A worker can only take an entry while the pool runs and a worker is idle; only a cancelled handle can be interrupted. */
  predicate Enabled(m: Manager, a: Action) {
    match a
    case Dequeue => m.isRunning && |m.queue| > 0 && |m.running| < m.workers
    case Finish(id, o) => id in m.running && (o.Interrupted? ==> m.running[id].interrupted)
    case _ => true
  }

  /** The manager as written. */
  function Apply(m: Manager, a: Action, now: Time): Manager
    requires Enabled(m, a)
  {
    match a
    case Submit(kind, work, md) => CreateTask(m, kind, work, md, now).0
    case Dequeue => WorkerStart(m, now)
    case Finish(id, o) => WorkerFinish(m, id, o, now)
    case Report(id, p, processed, total) => UpdateProgress(m, id, p, processed, total, now)
    case Cancel(id) => CancelTask(m, id, now).0
    case ClearCancelledTasks => ClearCancelled(m).0
    case Cleanup(maxAge) => CleanupCompleted(m, now, maxAge)
    case StartPool => Start(m)
    case StopPool => Stop(m)
    case SetCallback(present) => SetProgressCallback(m, present)
  }

  /** The manager with the corrected worker ending. */
  function ApplyFixed(m: Manager, a: Action, now: Time): Manager
    requires Enabled(m, a)
  {
    match a
    case Finish(id, o) => WorkerFinishFixed(m, id, o, now)
    case _ => Apply(m, a, now)
  }

  predicate DistinctIds(q: seq<Entry>) {
    forall i, j :: 0 <= i < j < |q| ==> q[i].id != q[j].id
  }

  /**
   Every reachable manager: records are filed under their own ids; the queue
   holds each Pending task exactly once and nothing else; a Pending task has
   neither started nor finished and has no execution; a Running task has one;
   progress stays within 0..100.
   */
  ghost predicate Inv(m: Manager) {
    WellFiled(m) && QueueSound(m) && PendingQueued(m) && RunningTracked(m)
  }

  /** Records are filed under their own ids, which the counter issued, with progress in 0..100. */
  ghost predicate WellFiled(m: Manager) {
    && IdsIssued(m)
    && (forall k :: k in m.tasks ==> m.tasks[k].id == k)
    && (forall k :: k in m.tasks ==> 0.0 <= m.tasks[k].progress <= 100.0)
  }

  /** Each queue entry is a distinct Pending task with no execution. */
  ghost predicate QueueSound(m: Manager) {
    && DistinctIds(m.queue)
    && (forall i :: 0 <= i < |m.queue| ==>
          && m.queue[i].id in m.tasks
          && m.tasks[m.queue[i].id].status == Pending
          && m.queue[i].id !in m.running)
  }

  /** A Pending task is queued and has neither started nor finished. */
  ghost predicate PendingQueued(m: Manager) {
    forall k :: k in m.tasks && m.tasks[k].status == Pending ==>
      && Queued(m.queue, k)
      && m.tasks[k].startedAt.None? && m.tasks[k].completedAt.None?
      && m.tasks[k].result.None? && m.tasks[k].errorMessage.None?
  }

  /** A Running task has an execution and a start time. */
  ghost predicate RunningTracked(m: Manager) {
    forall k :: k in m.tasks && m.tasks[k].status == Running ==> k in m.running && m.tasks[k].startedAt.Some?
  }

  lemma InvInit(maxWorkers: nat)
    ensures Inv(NewManager(maxWorkers))
  {
  }

  lemma {:induction false} WithoutDistinct(q: seq<Entry>, id: TaskId)
    requires DistinctIds(q)
    ensures DistinctIds(Without(q, id))
    decreases |q|
  {
    if q != [] {
      WithoutDistinct(q[1..], id);
      if q[0].id != id {
        var w := Without(q[1..], id);
        forall e | e in w
          ensures e.id != q[0].id
        {
          var j :| 0 <= j < |q[1..]| && q[1..][j] == e;
          assert q[j + 1] == e;
        }
      }
    }
  }

  lemma InvSubmit(m: Manager, kind: string, work: WorkFn, md: Metadata, now: Time)
    requires Inv(m)
    ensures Inv(CreateTask(m, kind, work, md, now).0)
  {
    SubmitWellFiled(m, kind, work, md, now);
    SubmitQueueSound(m, kind, work, md, now);
    SubmitPendingQueued(m, kind, work, md, now);
    SubmitRunningTracked(m, kind, work, md, now);
  }

  lemma SubmitWellFiled(m: Manager, kind: string, work: WorkFn, md: Metadata, now: Time)
    requires Inv(m)
    ensures WellFiled(CreateTask(m, kind, work, md, now).0)
  {
  }

  lemma SubmitQueueSound(m: Manager, kind: string, work: WorkFn, md: Metadata, now: Time)
    requires Inv(m)
    ensures QueueSound(CreateTask(m, kind, work, md, now).0)
  {
  }

  lemma SubmitPendingQueued(m: Manager, kind: string, work: WorkFn, md: Metadata, now: Time)
    requires PendingQueued(m)
    ensures PendingQueued(CreateTask(m, kind, work, md, now).0)
  {
    var r := CreateTask(m, kind, work, md, now);
    var m' := r.0;
    forall k | k in m'.tasks && m'.tasks[k].status == Pending
      ensures Queued(m'.queue, k) && (k != r.1 ==> m'.tasks[k] == m.tasks[k])
    {
      if k == r.1 {
        assert m'.queue[|m.queue|].id == k;
      } else {
        var i :| 0 <= i < |m.queue| && m.queue[i].id == k;
        assert m'.queue[i].id == k;
      }
    }
  }

  lemma SubmitRunningTracked(m: Manager, kind: string, work: WorkFn, md: Metadata, now: Time)
    requires RunningTracked(m)
    ensures RunningTracked(CreateTask(m, kind, work, md, now).0)
  {
    var r := CreateTask(m, kind, work, md, now);
    forall k | k in r.0.tasks && r.0.tasks[k].status == Running
      ensures k in r.0.running && r.0.tasks[k].startedAt.Some?
    {
      assert k != r.1;
      assert r.0.tasks[k] == m.tasks[k];
    }
  }

  lemma InvDequeue(m: Manager, now: Time)
    requires Inv(m) && m.isRunning && |m.queue| > 0 && |m.running| < m.workers
    ensures Inv(WorkerStart(m, now))
  {
    DequeueWellFiled(m, now);
    DequeueQueueSound(m, now);
    DequeuePendingQueued(m, now);
    DequeueRunningTracked(m, now);
  }

  lemma DequeueWellFiled(m: Manager, now: Time)
    requires WellFiled(m) && m.isRunning && |m.queue| > 0 && |m.running| < m.workers
    ensures WellFiled(WorkerStart(m, now))
  {
    var m' := WorkerStart(m, now);
    var x := m.queue[0].id;
    assert m'.queue == m.queue[1..];
    assert x < m.nextId;
    WellFiledAfter(m, m', x);
  }

  /**
   A step that keeps the id counter and the set of records, changes at most
   the record of `x` (keeping its id and its progress in range), only drops
   queue entries and only adds `x` to the executions keeps records well filed.
   */
  lemma WellFiledAfter(m: Manager, m': Manager, x: TaskId)
    requires WellFiled(m)
    requires m'.nextId == m.nextId && m'.tasks.Keys == m.tasks.Keys && x < m.nextId
    requires m'.running.Keys <= m.running.Keys + {x}
    requires forall e :: e in m'.queue ==> e in m.queue
    requires forall k :: k in m.tasks && k != x ==> m'.tasks[k] == m.tasks[k]
    requires x in m.tasks ==> m'.tasks[x].id == x && 0.0 <= m'.tasks[x].progress <= 100.0
    ensures WellFiled(m')
  {
    forall i | 0 <= i < |m'.queue|
      ensures m'.queue[i].id < m'.nextId
    {
      assert m'.queue[i] in m.queue;
      var j :| 0 <= j < |m.queue| && m.queue[j] == m'.queue[i];
    }
  }


  lemma DequeueQueueSound(m: Manager, now: Time)
    requires QueueSound(m) && m.isRunning && |m.queue| > 0 && |m.running| < m.workers
    ensures QueueSound(WorkerStart(m, now))
  {
    var m' := WorkerStart(m, now);
    var e := m.queue[0];
    assert !ObservedCancelled(m, e.id);
    forall i | 0 <= i < |m'.queue|
      ensures m'.queue[i].id in m'.tasks && m'.tasks[m'.queue[i].id].status == Pending && m'.queue[i].id !in m'.running
    {
      assert m'.queue[i] == m.queue[i + 1];
      assert m.queue[i + 1].id != e.id;
    }
  }

  lemma DequeuePendingQueued(m: Manager, now: Time)
    requires QueueSound(m) && PendingQueued(m) && m.isRunning && |m.queue| > 0 && |m.running| < m.workers
    ensures PendingQueued(WorkerStart(m, now))
  {
    var m' := WorkerStart(m, now);
    var e := m.queue[0];
    assert !ObservedCancelled(m, e.id);
    forall k | k in m'.tasks && m'.tasks[k].status == Pending
      ensures Queued(m'.queue, k) && m'.tasks[k] == m.tasks[k]
    {
      assert k != e.id;
      var i :| 0 <= i < |m.queue| && m.queue[i].id == k;
      assert i != 0;
      assert m'.queue[i - 1].id == k;
    }
  }

  lemma DequeueRunningTracked(m: Manager, now: Time)
    requires QueueSound(m) && RunningTracked(m) && m.isRunning && |m.queue| > 0 && |m.running| < m.workers
    ensures RunningTracked(WorkerStart(m, now))
  {
    var m' := WorkerStart(m, now);
    var e := m.queue[0];
    assert !ObservedCancelled(m, e.id);
    forall k | k in m'.tasks && m'.tasks[k].status == Running
      ensures k in m'.running && m'.tasks[k].startedAt.Some?
    {
      if k != e.id {
        assert m'.tasks[k] == m.tasks[k];
      }
    }
  }

  lemma InvFinish(m: Manager, id: TaskId, o: Outcome, now: Time)
    requires Inv(m) && id in m.running && (o.Interrupted? ==> m.running[id].interrupted)
    ensures Inv(WorkerFinish(m, id, o, now))
  {
    FinishWellFiled(m, id, o, now);
    FinishQueueSound(m, id, o, now);
    FinishPendingQueued(m, id, o, now);
    FinishRunningTracked(m, id, o, now);
  }

  lemma FinishWellFiled(m: Manager, id: TaskId, o: Outcome, now: Time)
    requires WellFiled(m) && id in m.running && (o.Interrupted? ==> m.running[id].interrupted)
    ensures WellFiled(WorkerFinish(m, id, o, now))
  {
    WellFiledAfter(m, WorkerFinish(m, id, o, now), id);
  }

  lemma FinishQueueSound(m: Manager, id: TaskId, o: Outcome, now: Time)
    requires QueueSound(m) && PendingQueued(m) && id in m.running && (o.Interrupted? ==> m.running[id].interrupted)
    ensures QueueSound(WorkerFinish(m, id, o, now))
  {
  }

  lemma FinishPendingQueued(m: Manager, id: TaskId, o: Outcome, now: Time)
    requires QueueSound(m) && PendingQueued(m) && id in m.running && (o.Interrupted? ==> m.running[id].interrupted)
    ensures PendingQueued(WorkerFinish(m, id, o, now))
  {
  }

  lemma FinishRunningTracked(m: Manager, id: TaskId, o: Outcome, now: Time)
    requires RunningTracked(m) && id in m.running && (o.Interrupted? ==> m.running[id].interrupted)
    ensures RunningTracked(WorkerFinish(m, id, o, now))
  {
  }


  lemma InvFinishFixed(m: Manager, id: TaskId, o: Outcome, now: Time)
    requires Inv(m) && id in m.running && (o.Interrupted? ==> m.running[id].interrupted)
    ensures Inv(WorkerFinishFixed(m, id, o, now))
  {
    if id in m.tasks && m.tasks[id].status == Running {
      InvFinish(m, id, o, now);
    } else {
      FinishedStepKeepsInv(m, WorkerFinishFixed(m, id, o, now), id);
    }
  }

  /**
   Dropping the execution of `x` while its record, if any, is finished and
   keeps its id, status and progress, and nothing else changes, keeps `Inv`.
   */
  lemma FinishedStepKeepsInv(m: Manager, m': Manager, x: TaskId)
    requires Inv(m)
    requires x in m.running
    requires m'.nextId == m.nextId && m'.queue == m.queue && m'.tasks.Keys == m.tasks.Keys
    requires m'.running.Keys == m.running.Keys - {x}
    requires forall k :: k in m.tasks && k != x ==> m'.tasks[k] == m.tasks[k]
    requires x in m.tasks ==>
               && m.tasks[x].status.IsFinished() && m'.tasks[x].status == m.tasks[x].status
               && m'.tasks[x].id == x && m'.tasks[x].progress == m.tasks[x].progress
    ensures Inv(m')
  {
    WellFiledAfter(m, m', x);
    FinishedStepQueueSound(m, m', x);
    FinishedStepPendingQueued(m, m', x);
    FinishedStepRunningTracked(m, m', x);
  }

  lemma FinishedStepQueueSound(m: Manager, m': Manager, x: TaskId)
    requires QueueSound(m)
    requires x in m.running
    requires m'.nextId == m.nextId && m'.queue == m.queue && m'.tasks.Keys == m.tasks.Keys
    requires m'.running.Keys == m.running.Keys - {x}
    requires forall k :: k in m.tasks && k != x ==> m'.tasks[k] == m.tasks[k]
    requires x in m.tasks ==>
               && m.tasks[x].status.IsFinished() && m'.tasks[x].status == m.tasks[x].status
               && m'.tasks[x].id == x && m'.tasks[x].progress == m.tasks[x].progress
    ensures QueueSound(m')
  {
    forall i | 0 <= i < |m'.queue|
      ensures m'.tasks[m'.queue[i].id] == m.tasks[m.queue[i].id]
    {
      assert m.queue[i].id != x;
    }
  }

  lemma FinishedStepPendingQueued(m: Manager, m': Manager, x: TaskId)
    requires PendingQueued(m)
    requires x in m.running
    requires m'.nextId == m.nextId && m'.queue == m.queue && m'.tasks.Keys == m.tasks.Keys
    requires m'.running.Keys == m.running.Keys - {x}
    requires forall k :: k in m.tasks && k != x ==> m'.tasks[k] == m.tasks[k]
    requires x in m.tasks ==>
               && m.tasks[x].status.IsFinished() && m'.tasks[x].status == m.tasks[x].status
               && m'.tasks[x].id == x && m'.tasks[x].progress == m.tasks[x].progress
    ensures PendingQueued(m')
  {
  }

  lemma FinishedStepRunningTracked(m: Manager, m': Manager, x: TaskId)
    requires RunningTracked(m)
    requires x in m.running
    requires m'.nextId == m.nextId && m'.queue == m.queue && m'.tasks.Keys == m.tasks.Keys
    requires m'.running.Keys == m.running.Keys - {x}
    requires forall k :: k in m.tasks && k != x ==> m'.tasks[k] == m.tasks[k]
    requires x in m.tasks ==>
               && m.tasks[x].status.IsFinished() && m'.tasks[x].status == m.tasks[x].status
               && m'.tasks[x].id == x && m'.tasks[x].progress == m.tasks[x].progress
    ensures RunningTracked(m')
  {
  }


  lemma InvReport(m: Manager, id: TaskId, p: real, processed: int, total: int, now: Time)
    requires Inv(m)
    ensures Inv(UpdateProgress(m, id, p, processed, total, now))
  {
    ReportWellFiled(m, id, p, processed, total, now);
    ReportQueueSound(m, id, p, processed, total, now);
    ReportPendingQueued(m, id, p, processed, total, now);
    ReportRunningTracked(m, id, p, processed, total, now);
  }

  lemma ReportWellFiled(m: Manager, id: TaskId, p: real, processed: int, total: int, now: Time)
    requires WellFiled(m)
    ensures WellFiled(UpdateProgress(m, id, p, processed, total, now))
  {
    if id in m.tasks {
      WellFiledAfter(m, UpdateProgress(m, id, p, processed, total, now), id);
    }
  }

  lemma ReportQueueSound(m: Manager, id: TaskId, p: real, processed: int, total: int, now: Time)
    requires QueueSound(m)
    ensures QueueSound(UpdateProgress(m, id, p, processed, total, now))
  {
  }

  lemma ReportPendingQueued(m: Manager, id: TaskId, p: real, processed: int, total: int, now: Time)
    requires PendingQueued(m)
    ensures PendingQueued(UpdateProgress(m, id, p, processed, total, now))
  {
  }

  lemma ReportRunningTracked(m: Manager, id: TaskId, p: real, processed: int, total: int, now: Time)
    requires RunningTracked(m)
    ensures RunningTracked(UpdateProgress(m, id, p, processed, total, now))
  {
  }


  lemma InvCancel(m: Manager, id: TaskId, now: Time)
    requires Inv(m)
    ensures Inv(CancelTask(m, id, now).0)
  {
    CancelWellFiled(m, id, now);
    CancelQueueSound(m, id, now);
    CancelPendingQueued(m, id, now);
    CancelRunningTracked(m, id, now);
  }

  lemma CancelWellFiled(m: Manager, id: TaskId, now: Time)
    requires WellFiled(m)
    ensures WellFiled(CancelTask(m, id, now).0)
  {
    var r := CancelTask(m, id, now);
    if r.1 {
      assert forall e :: e in r.0.queue ==> e in m.queue;
      WellFiledAfter(m, r.0, id);
    }
  }

  /** Every entry left in the queue was already in it, under another id. */
  lemma CancelQueueFrom(m: Manager, id: TaskId, now: Time, i: int)
    requires Inv(m) && CancelTask(m, id, now).1
    requires 0 <= i < |CancelTask(m, id, now).0.queue|
    ensures CancelTask(m, id, now).0.queue[i].id != id
    ensures exists j :: 0 <= j < |m.queue| && m.queue[j] == CancelTask(m, id, now).0.queue[i]
  {
    var r := CancelTask(m, id, now);
    if m.tasks[id].status == Pending {
      var e := r.0.queue[i];
      assert e in Without(m.queue, id);
    } else {
      assert r.0.queue == m.queue;
      assert m.queue[i].id != id;
    }
  }

  lemma CancelQueueSound(m: Manager, id: TaskId, now: Time)
    requires Inv(m)
    ensures QueueSound(CancelTask(m, id, now).0)
  {
    var r := CancelTask(m, id, now);
    var m' := r.0;
    if r.1 {
      if m.tasks[id].status == Pending {
        WithoutDistinct(m.queue, id);
      }
      forall i | 0 <= i < |m'.queue|
        ensures m'.queue[i].id in m'.tasks && m'.tasks[m'.queue[i].id].status == Pending && m'.queue[i].id !in m'.running
      {
        CancelQueueFrom(m, id, now, i);
        var j :| 0 <= j < |m.queue| && m.queue[j] == m'.queue[i];
      }
    }
  }

  lemma CancelPendingQueued(m: Manager, id: TaskId, now: Time)
    requires PendingQueued(m)
    ensures PendingQueued(CancelTask(m, id, now).0)
  {
    var r := CancelTask(m, id, now);
    var m' := r.0;
    if r.1 {
      forall k | k in m'.tasks && m'.tasks[k].status == Pending
        ensures Queued(m'.queue, k) && m'.tasks[k] == m.tasks[k]
      {
        assert k != id;
        if m.tasks[id].status == Pending {
          QueuedWithout(m.queue, id, k);
        }
      }
    }
  }

  /** Dropping the entries of one task keeps every other task queued. */
  lemma QueuedWithout(q: seq<Entry>, id: TaskId, k: TaskId)
    requires Queued(q, k) && k != id
    ensures Queued(Without(q, id), k)
  {
    var i :| 0 <= i < |q| && q[i].id == k;
    assert q[i] in q;
    var w := Without(q, id);
    assert q[i] in w;
    var j :| 0 <= j < |w| && w[j] == q[i];
  }

  lemma CancelRunningTracked(m: Manager, id: TaskId, now: Time)
    requires RunningTracked(m)
    ensures RunningTracked(CancelTask(m, id, now).0)
  {
    var r := CancelTask(m, id, now);
    var m' := r.0;
    if r.1 {
      forall k | k in m'.tasks && m'.tasks[k].status == Running
        ensures k in m'.running && m'.tasks[k].startedAt.Some?
      {
        assert k != id;
        assert m'.tasks[k] == m.tasks[k];
      }
    }
  }

  lemma InvClear(m: Manager)
    requires Inv(m)
    ensures Inv(ClearCancelled(m).0)
  {
    DropRecordsKeepsInv(m, ClearCancelled(m).0);
  }

  lemma InvCleanup(m: Manager, now: Time, maxAge: int)
    requires Inv(m)
    ensures Inv(CleanupCompleted(m, now, maxAge))
  {
    DropRecordsKeepsInv(m, CleanupCompleted(m, now, maxAge));
  }

  /** Deleting records other than Pending ones, and changing nothing else, keeps `Inv`. */
  lemma DropRecordsKeepsInv(m: Manager, m': Manager)
    requires Inv(m)
    requires m'.queue == m.queue && m'.running == m.running && m'.nextId == m.nextId
    requires m'.tasks.Keys <= m.tasks.Keys
    requires forall k :: k in m'.tasks ==> m'.tasks[k] == m.tasks[k]
    requires forall k :: k in m.tasks && m.tasks[k].status == Pending ==> k in m'.tasks
    ensures Inv(m')
  {
    assert IdsIssued(m');
    forall i | 0 <= i < |m'.queue|
      ensures m'.queue[i].id in m'.tasks && m'.tasks[m'.queue[i].id] == m.tasks[m.queue[i].id]
    {
    }
  }

  /** Every action of the manager as written keeps the bookkeeping invariant. */
  lemma InvPreserved(m: Manager, a: Action, now: Time)
    requires Inv(m) && Enabled(m, a)
    ensures Inv(Apply(m, a, now))
  {
    match a
    case Submit(kind, work, md) => InvSubmit(m, kind, work, md, now);
    case Dequeue => InvDequeue(m, now);
    case Finish(id, o) => InvFinish(m, id, o, now);
    case Report(id, p, processed, total) => InvReport(m, id, p, processed, total, now);
    case Cancel(id) => InvCancel(m, id, now);
    case ClearCancelledTasks => InvClear(m);
    case Cleanup(maxAge) => InvCleanup(m, now, maxAge);
    case StartPool =>
    case StopPool =>
    case SetCallback(present) =>
  }

  /** The same for the manager with the corrected worker ending. */
  lemma InvPreservedFixed(m: Manager, a: Action, now: Time)
    requires Inv(m) && Enabled(m, a)
    ensures Inv(ApplyFixed(m, a, now))
  {
    match a
    case Finish(id, o) => InvFinishFixed(m, id, o, now);
    case _ => InvPreserved(m, a, now);
  }

  /** A worker never meets a Cancelled record: cancelling a Pending task also takes it out of the queue. */
  lemma DequeueStartsPending(m: Manager, now: Time)
    requires Inv(m) && m.isRunning && |m.queue| > 0 && |m.running| < m.workers
    ensures var id := m.queue[0].id;
            && m.tasks[id].status == Pending
            && WorkerStart(m, now).tasks[id].status == Running
            && id in WorkerStart(m, now).running
  {
  }

  /** A task that can never run again: no execution, no queue entry, and any record it has is Cancelled. */
  ghost predicate Dormant(m: Manager, id: TaskId) {
    && id < m.nextId
    && id !in m.running
    && !Queued(m.queue, id)
    && (id in m.tasks ==> m.tasks[id].status == Cancelled)
  }

  /** Cancelling a Pending task makes it dormant. */
  lemma CancelPendingIsDormant(m: Manager, id: TaskId, now: Time)
    requires Inv(m) && id in m.tasks && m.tasks[id].status == Pending
    ensures CancelTask(m, id, now).1
    ensures Dormant(CancelTask(m, id, now).0, id)
  {
  }

  /** Whatever happens next, a dormant task stays dormant, so it is never started. */
  lemma DormantStable(m: Manager, a: Action, now: Time, id: TaskId)
    requires Inv(m) && Enabled(m, a) && Dormant(m, id)
    ensures Dormant(Apply(m, a, now), id)
  {
    match a
    case Submit(kind, work, md) => DormantAfterSubmit(m, kind, work, md, now, id);
    case Dequeue => DormantAfterDequeue(m, now, id);
    case Cancel(cid) => DormantAfterCancel(m, cid, now, id);
    case _ =>
  }

  lemma DormantAfterSubmit(m: Manager, kind: string, work: WorkFn, md: Metadata, now: Time, id: TaskId)
    requires Dormant(m, id)
    ensures Dormant(CreateTask(m, kind, work, md, now).0, id)
  {
  }

  lemma DormantAfterDequeue(m: Manager, now: Time, id: TaskId)
    requires QueueSound(m) && m.isRunning && |m.queue| > 0 && |m.running| < m.workers && Dormant(m, id)
    ensures Dormant(WorkerStart(m, now), id)
  {
    assert m.queue[0].id != id;
  }

  lemma DormantAfterCancel(m: Manager, cid: TaskId, now: Time, id: TaskId)
    requires QueueSound(m) && Dormant(m, id)
    ensures Dormant(CancelTask(m, cid, now).0, id)
  {
  }

  /** With the corrected ending, a finished record keeps its status and timestamps for as long as it exists. */
  lemma FixedFinishedStays(m: Manager, a: Action, now: Time, id: TaskId)
    requires WellFiled(m) && QueueSound(m) && Enabled(m, a)
    requires id in m.tasks && m.tasks[id].status.IsFinished()
    ensures var r := ApplyFixed(m, a, now);
            id in r.tasks ==>
              && r.tasks[id].status == m.tasks[id].status
              && r.tasks[id].startedAt == m.tasks[id].startedAt
              && r.tasks[id].completedAt == m.tasks[id].completedAt
              && r.tasks[id].progress == m.tasks[id].progress
  {
    match a
    case Submit(kind, work, md) =>
      assert id < m.nextId;
    case Dequeue =>
      assert m.queue[0].id != id;
    case Finish(fid, o) =>
      FixedFinishKeeps(m, fid, o, now, id);
    case _ =>
  }

  lemma FixedFinishKeeps(m: Manager, fid: TaskId, o: Outcome, now: Time, id: TaskId)
    requires fid in m.running && (o.Interrupted? ==> m.running[fid].interrupted)
    requires id in m.tasks && m.tasks[id].status.IsFinished()
    ensures var r := WorkerFinishFixed(m, fid, o, now);
            && r.tasks[id].status == m.tasks[id].status
            && r.tasks[id].startedAt == m.tasks[id].startedAt
            && r.tasks[id].completedAt == m.tasks[id].completedAt
            && r.tasks[id].progress == m.tasks[id].progress
  {
  }

  /** A second cancellation of the same task is refused and changes nothing. */
  lemma CancelTwice(m: Manager, id: TaskId, now: Time, later: Time)
    requires CancelTask(m, id, now).1
    ensures var m' := CancelTask(m, id, now).0;
            !CancelTask(m', id, later).1 && CancelTask(m', id, later).0 == m'
  {
  }

  /**
   As written, a finished record is not final. A task cancelled while its
   execution is already returning ends Completed; a task that reports 100%
   and then raises ends Failed after having been Completed.
   */
  lemma FinishedRecordOverwritten()
    ensures var m3 := CancelledWhileRunning();
            m3.tasks[0].status == Cancelled && WorkerFinish(m3, 0, Returned(Null), 3).tasks[0].status == Completed
    ensures var m3 := CompletedWhileRunning();
            m3.tasks[0].status == Completed && WorkerFinish(m3, 0, Raised("boom"), 3).tasks[0].status == Failed
  {
    CancelledWhileRunningFacts();
    CompletedWhileRunningFacts();
  }

  /** The corrected ending on the same two runs leaves Cancelled and Completed in place. */
  lemma FixedKeepsFinishedRecord()
    ensures WorkerFinishFixed(CancelledWhileRunning(), 0, Returned(Null), 3).tasks[0].status == Cancelled
    ensures WorkerFinishFixed(CompletedWhileRunning(), 0, Raised("boom"), 3).tasks[0].status == Completed
  {
    CancelledWhileRunningFacts();
    CompletedWhileRunningFacts();
  }

  /** One worker runs a download that is started at time 1. */
  function StartedDownload(): Manager {
    var m0 := Start(NewManager(1));
    var m1 := CreateTask(m0, "download", DownloadMusic, map[], 0).0;
    WorkerStart(m1, 1)
  }

  /** The running download, cancelled at time 2 while its execution is still in flight. */
  function CancelledWhileRunning(): Manager {
    CancelTask(StartedDownload(), 0, 2).0
  }

  /** The running download, reporting 100% at time 2 while its execution is still in flight. */
  function CompletedWhileRunning(): Manager {
    UpdateProgress(StartedDownload(), 0, 100.0, 1, 1, 2)
  }

  lemma StartedDownloadFacts()
    ensures var m := StartedDownload(); 0 in m.tasks && m.tasks[0].status == Running && 0 in m.running
  {
    var m0 := Start(NewManager(1));
    var m1 := CreateTask(m0, "download", DownloadMusic, map[], 0).0;
    assert m1.tasks[0].status == Pending && m1.queue[0].id == 0;
  }

  lemma CancelledWhileRunningFacts()
    ensures var m := CancelledWhileRunning(); 0 in m.tasks && m.tasks[0].status == Cancelled && 0 in m.running
  {
    StartedDownloadFacts();
  }

  lemma CompletedWhileRunningFacts()
    ensures var m := CompletedWhileRunning(); 0 in m.tasks && m.tasks[0].status == Completed && 0 in m.running
  {
    StartedDownloadFacts();
  }
}
