/**
 The background task manager: a registry of task records, a FIFO queue of
 pending entries, the map of in-flight executions, and the operations that
 move a record through Pending, Running, Completed, Failed and Cancelled.

 Every method of the manager is modelled as one atomic transition on an
 immutable `Manager` value. Timestamps come from an abstract clock passed
 to each transition; the progress callback is modelled by the list of task
 ids it has been called with.
 */
module Tasks {
  import opened Common

  type TaskId = nat

  /** Seconds from an abstract clock; only compared and subtracted. */
  type Time = int

  datatype TaskStatus = Pending | Running | Completed | Failed | Cancelled {
    /** Completed, Failed and Cancelled; the other two are "active". */
    predicate IsFinished() {
      Completed? || Failed? || Cancelled?
    }
  }

  /** The values found in metadata bags and returned by work functions. */
  datatype Value = Text(text: string) | Num(num: int) | Flag(flag: bool) | Nums(items: seq<int>) | Null

  type Metadata = map<string, Value>

  /** The callables handed to `create_task`, identified by which download they run. */
  datatype WorkFn = DownloadMusic | DownloadPlaylist | DownloadArtist

  datatype TaskInfo = TaskInfo(
    id: TaskId,
    kind: string,
    status: TaskStatus,
    createdAt: Time,
    startedAt: Option<Time>,
    completedAt: Option<Time>,
    progress: real,
    totalItems: int,
    processedItems: int,
    result: Option<Value>,
    errorMessage: Option<string>,
    metadata: Metadata)

  /** One queued `(task_id, task_func, task_type, metadata)` tuple. */
  datatype Entry = Entry(id: TaskId, work: WorkFn, kind: string, metadata: Metadata)

  /**
   The asyncio task that runs one work function. `params` is what the work
   function is called with; `interrupted` records that `cancel()` was called
   on the handle.
   */
  datatype Handle = Handle(work: WorkFn, params: Metadata, interrupted: bool)

  /** How the awaited execution ended, as seen by the worker. */
  datatype Outcome = Returned(value: Value) | Interrupted | Raised(message: string)

  datatype Manager = Manager(
    maxWorkers: nat,
    tasks: map<TaskId, TaskInfo>,
    queue: seq<Entry>,
    running: map<TaskId, Handle>,
    isRunning: bool,
    workers: nat,
    nextId: TaskId,
    hasCallback: bool,
    notified: seq<TaskId>)

  /** The message the worker stores when an execution is interrupted. */
  const CancelledMessage: string := "任务已被用户取消"

  /** The key under which the worker injects the task id into the call parameters. */
  const TaskIdKey: string := "task_id"

  function NewManager(maxWorkers: nat): (m: Manager)
    ensures m.tasks == map[] && m.queue == [] && m.running == map[]
    ensures !m.isRunning && m.workers == 0 && !m.hasCallback && m.notified == []
    ensures m.maxWorkers == maxWorkers
  {
    Manager(maxWorkers, map[], [], map[], false, 0, 0, false, [])
  }

  /** Every id the manager knows about was handed out by the id counter. */
  ghost predicate IdsIssued(m: Manager) {
    && (forall k :: k in m.tasks ==> k < m.nextId)
    && (forall i :: 0 <= i < |m.queue| ==> m.queue[i].id < m.nextId)
    && (forall k :: k in m.running ==> k < m.nextId)
  }

  /** `get_task(task_id)` returned a record and that record is Cancelled. */
  predicate ObservedCancelled(m: Manager, id: TaskId) {
    id in m.tasks && m.tasks[id].status == Cancelled
  }

  // ---------------------------------------------------------------------------
  // Pool lifecycle

  /** `start`: a second call while running does nothing; otherwise one worker per slot is added. */
  function Start(m: Manager): (r: Manager)
    ensures m.isRunning ==> r == m
    ensures !m.isRunning ==> r.isRunning && r.workers == m.workers + m.maxWorkers
    ensures r.tasks == m.tasks && r.queue == m.queue && r.running == m.running
    ensures r.nextId == m.nextId && r.hasCallback == m.hasCallback && r.notified == m.notified
  {
    if m.isRunning then m else m.(isRunning := true, workers := m.workers + m.maxWorkers)
  }

  /**
   `stop`: the flag drops, the workers are cancelled and forgotten, and the
   cancellation reaches every in-flight execution the workers are awaiting.
   */
  function Stop(m: Manager): (r: Manager)
    ensures !r.isRunning && r.workers == 0
    ensures r.running.Keys == m.running.Keys
    ensures forall k :: k in r.running ==> r.running[k] == m.running[k].(interrupted := true)
    ensures r.tasks == m.tasks && r.queue == m.queue
    ensures r.nextId == m.nextId && r.hasCallback == m.hasCallback && r.notified == m.notified
  {
    m.(isRunning := false, workers := 0,
       running := map k | k in m.running :: m.running[k].(interrupted := true))
  }

  /** `set_progress_callback`: only whether a callable is installed matters. */
  function SetProgressCallback(m: Manager, present: bool): (r: Manager)
    ensures r.hasCallback == present
    ensures r.tasks == m.tasks && r.queue == m.queue && r.running == m.running && r.notified == m.notified
  {
    m.(hasCallback := present)
  }

  // ---------------------------------------------------------------------------
  // Submission

  /**
   `create_task`: store a Pending record under a fresh id and append one entry
   for it at the tail of the queue.
   */
  function CreateTask(m: Manager, kind: string, work: WorkFn, metadata: Metadata, now: Time): (r: (Manager, TaskId))
    ensures r.1 == m.nextId && r.0.nextId == m.nextId + 1
    ensures r.1 in r.0.tasks
    ensures var t := r.0.tasks[r.1];
            && t.id == r.1 && t.kind == kind && t.status == Pending && t.createdAt == now
            && t.startedAt.None? && t.completedAt.None? && t.progress == 0.0
            && t.totalItems == 0 && t.processedItems == 0
            && t.result.None? && t.errorMessage.None? && t.metadata == metadata
    ensures r.0.tasks.Keys == m.tasks.Keys + {r.1}
    ensures forall k :: k in m.tasks && k != r.1 ==> r.0.tasks[k] == m.tasks[k]
    ensures r.0.queue == m.queue + [Entry(r.1, work, kind, metadata)]
    ensures r.0.running == m.running && r.0.isRunning == m.isRunning && r.0.notified == m.notified
    ensures r.0.workers == m.workers && r.0.maxWorkers == m.maxWorkers && r.0.hasCallback == m.hasCallback
  {
    var id := m.nextId;
    var info := TaskInfo(id, kind, Pending, now, None, None, 0.0, 0, 0, None, None, metadata);
    (m.(tasks := m.tasks[id := info], queue := m.queue + [Entry(id, work, kind, metadata)], nextId := id + 1), id)
  }
  /** Ids are issued in increasing order: the new task's id is fresh, and the map grows by one. */
  lemma CreateTaskIssuesFreshId(m: Manager, kind: string, work: WorkFn, metadata: Metadata, now: Time)
    requires IdsIssued(m)
    ensures var r := CreateTask(m, kind, work, metadata, now);
            r.1 !in m.tasks && |r.0.tasks| == |m.tasks| + 1 && IdsIssued(r.0)
  {
    var r := CreateTask(m, kind, work, metadata, now);
    assert r.0.tasks.Keys == m.tasks.Keys + {r.1};
    assert forall i :: 0 <= i < |m.queue| ==> r.0.queue[i] == m.queue[i];
  }


  // ---------------------------------------------------------------------------
  // Worker

  /** `_execute_task`'s parameter bag: a copy of the metadata with the task id added. */
  function TaskParams(metadata: Metadata, id: TaskId): (params: Metadata)
    ensures params.Keys == metadata.Keys + {TaskIdKey}
    ensures params[TaskIdKey] == Num(id)
    ensures forall k :: k in metadata && k != TaskIdKey ==> params[k] == metadata[k]
  {
    metadata[TaskIdKey := Num(id)]
  }

  /**
   One iteration of `_worker` up to the point where it awaits the execution:
   take the head of the queue; skip it if its record is already Cancelled;
   otherwise mark the record Running and register a fresh handle. An entry
   whose record has disappeared is still executed.
   */
  function WorkerStart(m: Manager, now: Time): (r: Manager)
    requires m.isRunning && |m.queue| > 0 && |m.running| < m.workers
    ensures r.queue == m.queue[1..]
    ensures r.tasks.Keys == m.tasks.Keys
    ensures forall k :: k in m.tasks && k != m.queue[0].id ==> r.tasks[k] == m.tasks[k]
    ensures ObservedCancelled(m, m.queue[0].id) ==> r.tasks == m.tasks && r.running == m.running
    ensures !ObservedCancelled(m, m.queue[0].id) ==>
              var e := m.queue[0];
              && r.running.Keys == m.running.Keys + {e.id}
              && r.running[e.id] == Handle(e.work, TaskParams(e.metadata, e.id), false)
              && (forall k :: k in m.running && k != e.id ==> r.running[k] == m.running[k])
              && (e.id in m.tasks ==> r.tasks[e.id] == m.tasks[e.id].(status := Running, startedAt := Some(now)))
    ensures r.nextId == m.nextId && r.notified == m.notified && r.isRunning == m.isRunning
    ensures r.workers == m.workers && r.maxWorkers == m.maxWorkers && r.hasCallback == m.hasCallback
  {
    var e := m.queue[0];
    if ObservedCancelled(m, e.id) then m.(queue := m.queue[1..])
    else m.(queue := m.queue[1..], tasks := MarkRunning(m.tasks, e.id, now), running := Register(m.running, e))
  }

  /** The record of a starting task, if it still exists, turns Running with its start time. */
  function MarkRunning(tasks: map<TaskId, TaskInfo>, id: TaskId, now: Time): (r: map<TaskId, TaskInfo>)
    ensures r.Keys == tasks.Keys
    ensures forall k :: k in tasks && k != id ==> r[k] == tasks[k]
    ensures id in tasks ==> r[id] == tasks[id].(status := Running, startedAt := Some(now))
  {
    if id in tasks then tasks[id := tasks[id].(status := Running, startedAt := Some(now))] else tasks
  }

  /** The starting task's handle joins the running ones, carrying its parameters and the task id. */
  function Register(running: map<TaskId, Handle>, e: Entry): (r: map<TaskId, Handle>)
    ensures r.Keys == running.Keys + {e.id}
    ensures r[e.id] == Handle(e.work, TaskParams(e.metadata, e.id), false)
    ensures forall k :: k in running && k != e.id ==> r[k] == running[k]
  {
    running[e.id := Handle(e.work, TaskParams(e.metadata, e.id), false)]
  }

  /** The record as the worker writes it once the awaited execution has ended. */
  function Settle(t: TaskInfo, outcome: Outcome, now: Time): (s: TaskInfo)
    ensures s.id == t.id && s.kind == t.kind && s.createdAt == t.createdAt && s.startedAt == t.startedAt
    ensures s.metadata == t.metadata && s.totalItems == t.totalItems && s.processedItems == t.processedItems
    ensures s.completedAt == Some(now) && s.status.IsFinished()
    ensures outcome.Returned? ==> s.status == Completed && s.progress == 100.0
                                  && s.result == Some(outcome.value) && s.errorMessage == t.errorMessage
    ensures outcome.Interrupted? ==> s.status == Cancelled && s.progress == t.progress
                                     && s.errorMessage == Some(CancelledMessage) && s.result == t.result
    ensures outcome.Raised? ==> s.status == Failed && s.progress == t.progress
                                && s.errorMessage == Some(outcome.message) && s.result == t.result
  {
    match outcome
    case Returned(v) => t.(status := Completed, completedAt := Some(now), progress := 100.0, result := Some(v))
    case Interrupted => t.(status := Cancelled, completedAt := Some(now), errorMessage := Some(CancelledMessage))
    case Raised(msg) => t.(status := Failed, completedAt := Some(now), errorMessage := Some(msg))
  }

  /**
   The rest of the `_worker` iteration: write the outcome into the record
   without looking at its current status, report progress for it (which
   notifies), and drop the handle. An `Interrupted` outcome needs a handle
   that was cancelled; a `Returned` outcome is possible even then, when the
   execution had already finished before the cancellation arrived.
   */
  function WorkerFinish(m: Manager, id: TaskId, outcome: Outcome, now: Time): (r: Manager)
    requires id in m.running
    requires outcome.Interrupted? ==> m.running[id].interrupted
    ensures r.running == m.running - {id}
    ensures r.queue == m.queue && r.nextId == m.nextId && r.isRunning == m.isRunning
    ensures r.tasks.Keys == m.tasks.Keys
    ensures forall k :: k in m.tasks && k != id ==> r.tasks[k] == m.tasks[k]
    ensures id in m.tasks ==> r.tasks[id] == Settle(m.tasks[id], outcome, now)
    ensures r.notified == m.notified + (if id in m.tasks && m.hasCallback then [id] else [])
  {
    if id !in m.tasks then m.(running := m.running - {id})
    else
      var t := Settle(m.tasks[id], outcome, now);
      var m1 := m.(tasks := m.tasks[id := t]);
      var m2 := UpdateProgress(m1, id, t.progress, t.processedItems, t.totalItems, now);
      m2.(running := m2.running - {id})
  }

  /**
   The corrected worker ending: an execution's outcome is written only while
   the record is still Running. When the record was completed early through
   a 100% progress report, a normal return only attaches its result. Any
   other finished record is left as it is.
   */
  function WorkerFinishFixed(m: Manager, id: TaskId, outcome: Outcome, now: Time): (r: Manager)
    requires id in m.running
    requires outcome.Interrupted? ==> m.running[id].interrupted
    ensures r.running == m.running - {id}
    ensures r.queue == m.queue && r.nextId == m.nextId && r.isRunning == m.isRunning
    ensures r.tasks.Keys == m.tasks.Keys
    ensures forall k :: k in m.tasks && k != id ==> r.tasks[k] == m.tasks[k]
    ensures id in m.tasks && m.tasks[id].status == Running ==> r.tasks[id] == Settle(m.tasks[id], outcome, now)
    ensures id in m.tasks && m.tasks[id].status.IsFinished() ==>
              && r.tasks[id].status == m.tasks[id].status
              && r.tasks[id].progress == m.tasks[id].progress
              && r.tasks[id].startedAt == m.tasks[id].startedAt
              && r.tasks[id].completedAt == m.tasks[id].completedAt
              && r.tasks[id].errorMessage == m.tasks[id].errorMessage
    ensures id in m.tasks && m.tasks[id].status == Completed && outcome.Returned? ==>
              r.tasks[id].result == Some(outcome.value)
  {
    if id in m.tasks && m.tasks[id].status == Running then WorkerFinish(m, id, outcome, now)
    else if id in m.tasks && m.tasks[id].status == Completed && outcome.Returned? then
      m.(tasks := m.tasks[id := m.tasks[id].(result := Some(outcome.value))], running := m.running - {id})
    else m.(running := m.running - {id})
  }

  // ---------------------------------------------------------------------------
  // Progress

  /** `min(100.0, max(0.0, p))`. */
  function Clamp(p: real): (r: real)
    ensures 0.0 <= r <= 100.0
    ensures 0.0 <= p <= 100.0 ==> r == p
    ensures p < 0.0 ==> r == 0.0
    ensures 100.0 < p ==> r == 100.0
  {
    if p > 100.0 then 100.0 else if p < 0.0 then 0.0 else p
  }

  /**
   `update_task_progress`. An active record takes the clamped progress and the
   item counts; a finished one keeps them. A Running record reaching 100 is
   completed on the spot. The callback is called once for an existing record;
   whatever it raises is swallowed, so its only trace is the notification.
   An unknown id changes nothing.
   */
  function UpdateProgress(m: Manager, id: TaskId, p: real, processed: int, total: int, now: Time): (r: Manager)
    ensures id !in m.tasks ==> r == m
    ensures r.queue == m.queue && r.running == m.running && r.nextId == m.nextId
    ensures r.isRunning == m.isRunning && r.workers == m.workers && r.hasCallback == m.hasCallback
    ensures r.tasks.Keys == m.tasks.Keys
    ensures forall k :: k in m.tasks && k != id ==> r.tasks[k] == m.tasks[k]
    ensures id in m.tasks ==> r.notified == m.notified + (if m.hasCallback then [id] else [])
    ensures id in m.tasks && !m.tasks[id].status.IsFinished() ==>
              && r.tasks[id].progress == Clamp(p)
              && r.tasks[id].processedItems == processed
              && r.tasks[id].totalItems == total
    ensures id in m.tasks && m.tasks[id].status.IsFinished() ==> r.tasks[id] == m.tasks[id]
    ensures id in m.tasks && m.tasks[id].status == Running && p >= 100.0 ==>
              r.tasks[id].status == Completed && r.tasks[id].completedAt == Some(now)
    ensures id in m.tasks && !(m.tasks[id].status == Running && p >= 100.0) ==>
              r.tasks[id].status == m.tasks[id].status && r.tasks[id].completedAt == m.tasks[id].completedAt
    ensures id in m.tasks ==>
              && r.tasks[id].id == m.tasks[id].id && r.tasks[id].kind == m.tasks[id].kind
              && r.tasks[id].createdAt == m.tasks[id].createdAt && r.tasks[id].startedAt == m.tasks[id].startedAt
              && r.tasks[id].result == m.tasks[id].result && r.tasks[id].errorMessage == m.tasks[id].errorMessage
              && r.tasks[id].metadata == m.tasks[id].metadata
  {
    if id !in m.tasks then m
    else
      var t := m.tasks[id];
      var t1 := if t.status == Running || t.status == Pending
                then t.(progress := Clamp(p), processedItems := processed, totalItems := total)
                else t;
      var t2 := if p >= 100.0 && t1.status == Running
                then t1.(status := Completed, completedAt := Some(now))
                else t1;
      m.(tasks := m.tasks[id := t2], notified := m.notified + (if m.hasCallback then [id] else []))
  }

  // ---------------------------------------------------------------------------
  // Cancellation

  /**
   `cancel_task`: an active record becomes Cancelled with a completion time;
   a running handle is signalled and a Pending id is taken out of the queue.
   The error message is left as it was. Anything else returns false and
   changes nothing.
   */
  function CancelTask(m: Manager, id: TaskId, now: Time): (r: (Manager, bool))
    ensures r.1 <==> id in m.tasks && (m.tasks[id].status == Pending || m.tasks[id].status == Running)
    ensures !r.1 ==> r.0 == m
    ensures r.1 ==>
              && r.0.tasks.Keys == m.tasks.Keys
              && (forall k :: k in m.tasks && k != id ==> r.0.tasks[k] == m.tasks[k])
              && r.0.tasks[id] == m.tasks[id].(status := Cancelled, completedAt := Some(now))
              && r.0.tasks[id].errorMessage == m.tasks[id].errorMessage
              && r.0.notified == m.notified + (if m.hasCallback then [id] else [])
    ensures r.1 ==> r.0.running.Keys == m.running.Keys
    ensures r.1 && id in m.running ==> r.0.running == m.running[id := m.running[id].(interrupted := true)]
    ensures r.1 && id !in m.running ==> r.0.running == m.running
    ensures r.1 && m.tasks[id].status == Pending ==> r.0.queue == Without(m.queue, id)
    ensures r.1 && m.tasks[id].status == Running ==> r.0.queue == m.queue
    ensures r.0.nextId == m.nextId && r.0.isRunning == m.isRunning && r.0.workers == m.workers
  {
    if id in m.tasks && (m.tasks[id].status == Pending || m.tasks[id].status == Running) then
      var t := m.tasks[id];
      var running := if id in m.running then m.running[id := m.running[id].(interrupted := true)] else m.running;
      var queue := if t.status == Pending then Without(m.queue, id) else m.queue;
      var m1 := m.(running := running, queue := queue,
                   tasks := m.tasks[id := t.(status := Cancelled, completedAt := Some(now))]);
      (UpdateProgress(m1, id, t.progress, t.processedItems, t.totalItems, now), true)
    else (m, false)
  }

  /** The queue with every entry for `id` taken out and the rest in their original order. */
  function Without(q: seq<Entry>, id: TaskId): (r: seq<Entry>)
    ensures |r| <= |q|
    ensures forall i :: 0 <= i < |r| ==> r[i].id != id
    ensures forall e :: e in r ==> e in q
    ensures forall e :: e in q && e.id != id ==> e in r
  {
    if q == [] then []
    else if q[0].id == id then Without(q[1..], id)
    else [q[0]] + Without(q[1..], id)
  }

  /** Removal distributes over concatenation, so FIFO order among the survivors is kept. */
  lemma {:induction false} WithoutAppend(a: seq<Entry>, b: seq<Entry>, id: TaskId)
    ensures Without(a + b, id) == Without(a, id) + Without(b, id)
    decreases |a|
  {
    if a == [] {
      assert a + b == b;
    } else {
      assert (a + b)[1..] == a[1..] + b;
      WithoutAppend(a[1..], b, id);
    }
  }

  /** One more entry of the queue looked at by the drain loop. */
  lemma DrainStep(q: seq<Entry>, n: nat, id: TaskId)
    requires n < |q|
    ensures Without(q[..n + 1], id) == Without(q[..n], id) + (if q[n].id == id then [] else [q[n]])
    ensures Queued(q[..n + 1], id) <==> Queued(q[..n], id) || q[n].id == id
  {
    var e := q[n];
    assert q[..n + 1] == q[..n] + [e];
    WithoutAppend(q[..n], [e], id);
    assert [e][1..] == [];
    QueuedSnoc(q[..n], e, id);
  }

  /** The queue holds an entry for task `id`. */
  predicate Queued(q: seq<Entry>, id: TaskId) {
    exists i :: 0 <= i < |q| && q[i].id == id
  }

  lemma QueuedSnoc(q: seq<Entry>, e: Entry, id: TaskId)
    ensures Queued(q + [e], id) <==> Queued(q, id) || e.id == id
  {
    if Queued(q + [e], id) && e.id != id {
      var i :| 0 <= i < |q| + 1 && (q + [e])[i].id == id;
      assert q[i].id == id;
    }
    if Queued(q, id) {
      var i :| 0 <= i < |q| && q[i].id == id;
      assert (q + [e])[i].id == id;
    }
    if e.id == id {
      assert (q + [e])[|q|].id == id;
    }
  }

  /** A queue holding no entry for `id` is left untouched. */
  lemma {:induction false} WithoutAbsent(q: seq<Entry>, id: TaskId)
    requires forall i :: 0 <= i < |q| ==> q[i].id != id
    ensures Without(q, id) == q
    decreases |q|
  {
    if q != [] {
      WithoutAbsent(q[1..], id);
    }
  }

  /**
   `_remove_from_queue` as written: drain every entry into a temporary queue,
   dropping those for `id`, then move the temporary queue back.
   */
  method RemoveFromQueue(q: seq<Entry>, id: TaskId) returns (r: seq<Entry>, removed: bool)
    ensures r == Without(q, id)
    ensures removed <==> Queued(q, id)
  {
    var temp;
    temp, removed := DrainQueue(q, id);
    r := Refill(temp);
  }

  /** The first loop: take every entry off the queue, keeping those not for `id`. */
  method DrainQueue(q: seq<Entry>, id: TaskId) returns (temp: seq<Entry>, removed: bool)
    ensures temp == Without(q, id)
    ensures removed <==> Queued(q, id)
  {
    var source := q;
    temp := [];
    removed := false;
    var n := 0;
    while source != []
      invariant 0 <= n <= |q| && source == q[n..]
      invariant temp == Without(q[..n], id)
      invariant removed <==> Queued(q[..n], id)
      decreases |source|
    {
      var e := source[0];
      DrainStep(q, n, id);
      source := source[1..];
      if e.id == id {
        removed := true;
      } else {
        temp := temp + [e];
      }
      n := n + 1;
    }
    assert q[..n] == q;
  }

  /** The second loop: move the kept entries back in their order. */
  method Refill(temp: seq<Entry>) returns (back: seq<Entry>)
    ensures back == temp
  {
    back := [];
    var k := 0;
    while k < |temp|
      invariant 0 <= k <= |temp|
      invariant back == temp[..k]
    {
      back := back + [temp[k]];
      k := k + 1;
    }
    assert temp[..k] == temp;
  }

  // ---------------------------------------------------------------------------
  // Housekeeping

  datatype ClearReport = ClearReport(success: bool, clearedCount: int, totalBefore: nat, totalAfter: nat, cleared: set<TaskId>)

  /**
   `clear_cancelled_tasks`: delete every Cancelled record, keep every other
   record as it is, and report how many went.
   */
  function ClearCancelled(m: Manager): (r: (Manager, ClearReport))
    ensures r.0.tasks.Keys == set k | k in m.tasks && m.tasks[k].status != Cancelled
    ensures forall k :: k in r.0.tasks ==> r.0.tasks[k] == m.tasks[k]
    ensures r.1.cleared == set k | k in m.tasks && m.tasks[k].status == Cancelled
    ensures r.1.success
    ensures r.1.totalBefore == |m.tasks| && r.1.totalAfter == |r.0.tasks|
    ensures r.1.clearedCount == r.1.totalBefore - r.1.totalAfter == |r.1.cleared|
    ensures r.0.queue == m.queue && r.0.running == m.running && r.0.nextId == m.nextId
  {
    var kept := map k | k in m.tasks && m.tasks[k].status != Cancelled :: m.tasks[k];
    var gone := set k | k in m.tasks && m.tasks[k].status == Cancelled;
    KeysSplit(m.tasks, kept, gone);
    (m.(tasks := kept), ClearReport(true, |m.tasks| - |kept|, |m.tasks|, |kept|, gone))
  }

  lemma KeysSplit(tasks: map<TaskId, TaskInfo>, kept: map<TaskId, TaskInfo>, gone: set<TaskId>)
    requires kept.Keys == set k | k in tasks && tasks[k].status != Cancelled
    requires gone == set k | k in tasks && tasks[k].status == Cancelled
    ensures |tasks| == |kept| + |gone|
  {
    assert tasks.Keys == kept.Keys + gone;
    assert kept.Keys !! gone;
  }

  /** The record finished long enough ago; a completion time of 0 counts as missing. */
  predicate Expired(t: TaskInfo, now: Time, maxAge: int) {
    t.completedAt.Some? && t.completedAt.value != 0 && now - t.completedAt.value > maxAge
  }

  /** `cleanup_completed_tasks`: delete exactly the records that finished more than `maxAge` ago. */
  function CleanupCompleted(m: Manager, now: Time, maxAge: int): (r: Manager)
    ensures r.tasks.Keys == set k | k in m.tasks && !Expired(m.tasks[k], now, maxAge)
    ensures forall k :: k in r.tasks ==> r.tasks[k] == m.tasks[k]
    ensures r.queue == m.queue && r.running == m.running && r.nextId == m.nextId && r.notified == m.notified
  {
    m.(tasks := map k | k in m.tasks && !Expired(m.tasks[k], now, maxAge) :: m.tasks[k])
  }
}
