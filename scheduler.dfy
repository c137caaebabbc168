/** The job scheduler of the batch pipeline: a table of tasks, a FIFO queue of task ids
    waiting for a worker, the retry rule applied on failure and on timeout, status counts,
    and the launching of speculative copies of a task. Clock readings are parameters. */
module Scheduler {
  import opened Common

  datatype TaskState = Pending | Running | Completed | Failed

  /** The `Task` dataclass. Its `result` dictionary is kept as its text. */
  datatype Task = Task(
    taskId: string,
    taskType: string,
    inputFiles: seq<string>,
    outputDir: string,
    state: TaskState,
    workerId: Option<string>,
    startTime: Option<int>,
    endTime: Option<int>,
    result: Option<string>,
    error: Option<string>,
    attempts: int)

  /** `Task(task_id, task_type, input_files, output_dir)` with every other field defaulted. */
  function NewTask(taskId: string, taskType: string, inputFiles: seq<string>, outputDir: string): (t: Task)
    ensures t.state == Pending && t.attempts == 0 && t.workerId.None? && t.taskId == taskId
  {
    Task(taskId, taskType, inputFiles, outputDir, Pending, None, None, None, None, None, 0)
  }

  /** A task as `get_next_task` leaves it for `worker` at time `now`. */
  function Dispatched(t: Task, worker: string, now: int): (r: Task)
    ensures r.state == Running && r.workerId == Some(worker) && r.startTime == Some(now)
    ensures r.attempts == t.attempts + 1
    ensures r.(state := t.state, workerId := t.workerId, startTime := t.startTime, attempts := t.attempts) == t
  {
    t.(state := Running, workerId := Some(worker), startTime := Some(now), attempts := t.attempts + 1)
  }

  /** The retry rule of `fail_task`: back to the queue while attempts remain, failed for
      good otherwise. The flag says whether it is queued again. */
  function OnFailure(t: Task, maxRetries: int, error: string, now: int): (r: (Task, bool))
    ensures r.1 <==> t.attempts < maxRetries
    ensures r.1 ==> r.0 == t.(state := Pending, workerId := None, error := Some(error))
    ensures !r.1 ==> r.0 == t.(state := Failed, endTime := Some(now), error := Some(error))
  {
    if t.attempts < maxRetries then (t.(state := Pending, workerId := None, error := Some(error)), true)
    else (t.(state := Failed, endTime := Some(now), error := Some(error)), false)
  }

  /** The retry rule of `check_timeouts`, which leaves `end_time` alone. */
  function OnTimeout(t: Task, maxRetries: int): (r: (Task, bool))
    ensures r.1 <==> t.attempts < maxRetries
    ensures r.0.state == (if r.1 then Pending else Failed) && r.0.attempts == t.attempts
    ensures r.1 ==> r.0 == t.(state := Pending, workerId := None, error := Some("timeout"))
    ensures !r.1 ==> r.0 == t.(state := Failed, error := Some("timeout after max retries"))
  {
    if t.attempts < maxRetries then (t.(state := Pending, workerId := None, error := Some("timeout")), true)
    else (t.(state := Failed, error := Some("timeout after max retries")), false)
  }

  /** A running task whose start time is set (and, as Python truthiness requires, not zero) and
      lies more than `timeout` before `now`. */
  predicate TimedOut(t: Task, now: int, timeout: int) {
    t.state == Running && t.startTime.Some? && t.startTime.value != 0 && now - t.startTime.value > timeout
  }

  /** The ids of `order`, in order, that `check_timeouts` puts back on the queue. */
  function Requeued(order: seq<string>, tasks: map<string, Task>, now: int, timeout: int, maxRetries: int): seq<string>
    decreases |order|
  {
    if |order| == 0 then []
    else
      var id := order[0];
      var here := if id in tasks && TimedOut(tasks[id], now, timeout) && tasks[id].attempts < maxRetries then [id] else [];
      here + Requeued(order[1..], tasks, now, timeout, maxRetries)
  }

  /** The table of tasks after `check_timeouts`. */
  ghost function AfterTimeouts(tasks: map<string, Task>, now: int, timeout: int, maxRetries: int): map<string, Task> {
    map id | id in tasks :: if TimedOut(tasks[id], now, timeout) then OnTimeout(tasks[id], maxRetries).0 else tasks[id]
  }

  /** The number of ids of `order` whose task is in state `s`. */
  function CountState(order: seq<string>, tasks: map<string, Task>, s: TaskState): (r: nat)
    ensures r <= |order|
    decreases |order|
  {
    if |order| == 0 then 0
    else (if order[0] in tasks && tasks[order[0]].state == s then 1 else 0) + CountState(order[1..], tasks, s)
  }

  /** Every task is counted in exactly one state. */
  lemma {:induction false} CountsPartition(order: seq<string>, tasks: map<string, Task>)
    requires forall id :: id in order ==> id in tasks
    ensures CountState(order, tasks, Pending) + CountState(order, tasks, Running) +
      CountState(order, tasks, Completed) + CountState(order, tasks, Failed) == |order|
    decreases |order|
  {
    if |order| > 0 {
      assert forall id :: id in order[1..] ==> id in order;
      CountsPartition(order[1..], tasks);
    }
  }

  lemma {:induction false} CountSnoc(order: seq<string>, tasks: map<string, Task>, s: TaskState, id: string)
    ensures CountState(order + [id], tasks, s) ==
      CountState(order, tasks, s) + (if id in tasks && tasks[id].state == s then 1 else 0)
    decreases |order|
  {
    if |order| == 0 {
      assert order + [id] == [id];
    } else {
      assert (order + [id])[0] == order[0] && (order + [id])[1..] == order[1..] + [id];
      CountSnoc(order[1..], tasks, s, id);
    }
  }

  lemma {:induction false} RequeuedSnoc(order: seq<string>, tasks: map<string, Task>, now: int, timeout: int,
                                        maxRetries: int, id: string)
    ensures Requeued(order + [id], tasks, now, timeout, maxRetries) ==
      Requeued(order, tasks, now, timeout, maxRetries) +
      (if id in tasks && TimedOut(tasks[id], now, timeout) && tasks[id].attempts < maxRetries then [id] else [])
    decreases |order|
  {
    if |order| == 0 {
      assert order + [id] == [id];
    } else {
      assert (order + [id])[0] == order[0] && (order + [id])[1..] == order[1..] + [id];
      RequeuedSnoc(order[1..], tasks, now, timeout, maxRetries, id);
    }
  }

  /** The state the loop of `check_timeouts` has reached after the ids `visited`. */
  ghost predicate SweptTo(tasks0: map<string, Task>, queue0: seq<string>, visited: seq<string>,
                          now: int, timeout: int, maxRetries: int, tasks: map<string, Task>, queue: seq<string>)
  {
    tasks.Keys == tasks0.Keys &&
    (forall id :: id in tasks0 ==>
      tasks[id] == if id in visited && TimedOut(tasks0[id], now, timeout) then OnTimeout(tasks0[id], maxRetries).0 else tasks0[id]) &&
    queue == queue0 + Requeued(visited, tasks0, now, timeout, maxRetries)
  }

  lemma SweepStep(tasks0: map<string, Task>, queue0: seq<string>, visited: seq<string>, id: string,
                  now: int, timeout: int, maxRetries: int, tasks: map<string, Task>, queue: seq<string>)
    requires id !in visited && id in tasks0
    requires SweptTo(tasks0, queue0, visited, now, timeout, maxRetries, tasks, queue)
    ensures tasks[id] == tasks0[id]
    ensures TimedOut(tasks[id], now, timeout) ==>
      SweptTo(tasks0, queue0, visited + [id], now, timeout, maxRetries, tasks[id := OnTimeout(tasks[id], maxRetries).0],
              if OnTimeout(tasks[id], maxRetries).1 then queue + [id] else queue)
    ensures !TimedOut(tasks[id], now, timeout) ==>
      SweptTo(tasks0, queue0, visited + [id], now, timeout, maxRetries, tasks, queue)
  {
    RequeuedSnoc(visited, tasks0, now, timeout, maxRetries, id);
  }

  lemma NotInPrefix(order: seq<string>, i: nat)
    requires i < |order| && Distinct(order)
    ensures order[i] !in order[..i]
  {
    forall j | 0 <= j < i ensures order[..i][j] != order[i] {
      assert order[j] != order[i];
    }
  }

  /** The loop of `check_timeouts` over the table of tasks in its key order. */
  method Sweep(tasks0: map<string, Task>, queue0: seq<string>, order: seq<string>, now: int, timeout: int, maxRetries: int)
    returns (tasks: map<string, Task>, queue: seq<string>)
    requires Distinct(order) && forall id :: id in tasks0 <==> id in order
    ensures tasks == AfterTimeouts(tasks0, now, timeout, maxRetries)
    ensures queue == queue0 + Requeued(order, tasks0, now, timeout, maxRetries)
  {
    tasks, queue := tasks0, queue0;
    var i := 0;
    ghost var visited: seq<string> := [];
    while i < |order|
      invariant 0 <= i <= |order| && visited == order[..i]
      invariant SweptTo(tasks0, queue0, visited, now, timeout, maxRetries, tasks, queue)
    {
      var id := order[i];
      NotInPrefix(order, i);
      SweepStep(tasks0, queue0, visited, id, now, timeout, maxRetries, tasks, queue);
      var t := tasks[id];
      if TimedOut(t, now, timeout) {
        var (t', again) := OnTimeout(t, maxRetries);
        tasks := tasks[id := t'];
        if again {
          queue := queue + [id];
        }
      }
      PrefixSnoc(order, i);
      visited := visited + [id];
      i := i + 1;
    }
    assert order[..i] == order;
    MapExt(tasks, AfterTimeouts(tasks0, now, timeout, maxRetries));
  }

  /** The status counts of `get_status`. */
  datatype Status = Status(total: nat, pending: nat, running: nat, completed: nat, failed: nat)

  /** The scheduler's task table (with its keys in insertion order, the order in which
      Python's dictionary iterates) and its queue of waiting task ids. */
  class JobScheduler {
    var tasks: map<string, Task>
    var order: seq<string>
    var pendingQueue: seq<string>
    const maxRetries: int
    const taskTimeout: int

    ghost predicate Valid()
      reads this
    {
      Distinct(order) && (forall id :: id in tasks <==> id in order) &&
      (forall id :: id in pendingQueue ==> id in tasks)
    }

    constructor(maxRetries: int, taskTimeout: int)
      ensures Valid() && tasks == map[] && pendingQueue == []
      ensures this.maxRetries == maxRetries && this.taskTimeout == taskTimeout
    {
      tasks := map[];
      order := [];
      pendingQueue := [];
      this.maxRetries := maxRetries;
      this.taskTimeout := taskTimeout;
    }

    /** `add_task(task)`: `task` is stored under its id and its id queued. */
    method AddTask(task: Task)
      requires Valid()
      modifies this
      ensures Valid()
      ensures tasks == old(tasks)[task.taskId := task]
      ensures pendingQueue == old(pendingQueue) + [task.taskId]
    {
      Store(task);
      pendingQueue := pendingQueue + [task.taskId];
    }

    /** `self.tasks[task.task_id] = task`: a new key goes last in the iteration order. */
    method Store(task: Task)
      requires Valid()
      modifies this
      ensures tasks == old(tasks)[task.taskId := task]
      ensures order == if task.taskId in old(tasks) then old(order) else old(order) + [task.taskId]
      ensures pendingQueue == old(pendingQueue)
      ensures Valid()
    {
      if task.taskId !in tasks {
        DistinctSnoc(order, task.taskId);
        order := order + [task.taskId];
      }
      tasks := tasks[task.taskId := task];
    }

    /** `get_next_task(worker_id)` at time `now`: the entry at the head of the queue, if any,
        is dispatched to the worker. */
    method GetNextTask(worker: string, now: int) returns (r: Option<Task>)
      requires Valid()
      modifies this
      ensures Valid() && order == old(order)
      ensures r.None? <==> old(pendingQueue) == []
      ensures r.None? ==> tasks == old(tasks) && pendingQueue == old(pendingQueue)
      ensures r.Some? ==> var id := old(pendingQueue)[0];
        r.value.taskId == old(tasks)[id].taskId && r.value == Dispatched(old(tasks)[id], worker, now) &&
        tasks == old(tasks)[id := r.value] && pendingQueue == old(pendingQueue)[1..]
    {
      if pendingQueue == [] {
        return None;
      }
      var id := pendingQueue[0];
      pendingQueue := pendingQueue[1..];
      var t := Dispatched(tasks[id], worker, now);
      tasks := tasks[id := t];
      r := Some(t);
    }

    /** `complete_task(task_id, result)` at time `now`; an unknown id changes nothing. */
    method CompleteTask(id: string, result: string, now: int)
      requires Valid()
      modifies this
      ensures Valid() && order == old(order) && pendingQueue == old(pendingQueue)
      ensures id !in old(tasks) ==> tasks == old(tasks)
      ensures id in old(tasks) ==>
        tasks == old(tasks)[id := old(tasks)[id].(state := Completed, endTime := Some(now), result := Some(result))]
    {
      if id !in tasks {
        return;
      }
      tasks := tasks[id := tasks[id].(state := Completed, endTime := Some(now), result := Some(result))];
    }

    /** `fail_task(task_id, error)` at time `now`: the retry rule; an unknown id changes
        nothing. */
    method FailTask(id: string, error: string, now: int)
      requires Valid()
      modifies this
      ensures Valid() && order == old(order)
      ensures id !in old(tasks) ==> tasks == old(tasks) && pendingQueue == old(pendingQueue)
      ensures id in old(tasks) ==> var (t, again) := OnFailure(old(tasks)[id], maxRetries, error, now);
        tasks == old(tasks)[id := t] &&
        pendingQueue == old(pendingQueue) + (if again then [id] else [])
    {
      if id !in tasks {
        return;
      }
      var (t, again) := OnFailure(tasks[id], maxRetries, error, now);
      tasks := tasks[id := t];
      if again {
        pendingQueue := pendingQueue + [id];
      }
    }

    /** `check_timeouts()` at time `now`: every timed-out running task goes through the
        timeout retry rule, in the table's order; no other task changes. */
    method CheckTimeouts(now: int)
      requires Valid()
      modifies this
      ensures Valid() && order == old(order)
      ensures tasks == AfterTimeouts(old(tasks), now, taskTimeout, maxRetries)
      ensures pendingQueue == old(pendingQueue) + Requeued(order, old(tasks), now, taskTimeout, maxRetries)
    {
      var t, q := Sweep(tasks, pendingQueue, order, now, taskTimeout, maxRetries);
      RequeuedIn(order, tasks, now, taskTimeout, maxRetries);
      tasks, pendingQueue := t, q;
    }

    /** `get_status()`. */
    method GetStatus() returns (s: Status)
      requires Valid()
      ensures s.total == |tasks|
      ensures s.pending == CountState(order, tasks, Pending) && s.running == CountState(order, tasks, Running)
      ensures s.completed == CountState(order, tasks, Completed) && s.failed == CountState(order, tasks, Failed)
      ensures s.pending + s.running + s.completed + s.failed == s.total
    {
      var order := this.order;
      var tasks := this.tasks;
      var pending, running, completed, failed := 0, 0, 0, 0;
      var i := 0;
      while i < |order|
        invariant 0 <= i <= |order|
        invariant pending == CountState(order[..i], tasks, Pending) && running == CountState(order[..i], tasks, Running)
        invariant completed == CountState(order[..i], tasks, Completed) && failed == CountState(order[..i], tasks, Failed)
      {
        var st := tasks[order[i]].state;
        CountSnoc(order[..i], tasks, Pending, order[i]);
        CountSnoc(order[..i], tasks, Running, order[i]);
        CountSnoc(order[..i], tasks, Completed, order[i]);
        CountSnoc(order[..i], tasks, Failed, order[i]);
        PrefixSnoc(order, i);
        match st {
          case Pending => pending := pending + 1;
          case Running => running := running + 1;
          case Completed => completed := completed + 1;
          case Failed => failed := failed + 1;
        }
        i := i + 1;
      }
      assert order[..i] == order;
      CountsPartition(order, tasks);
      TableSize(order, tasks);
      s := Status(|tasks|, pending, running, completed, failed);
    }

    /** `all_complete()`: every task has finished, well or not. */
    method AllComplete() returns (r: bool)
      requires Valid()
      ensures r <==> forall id :: id in tasks ==> tasks[id].state in {Completed, Failed}
    {
      var order := this.order;
      var i := 0;
      while i < |order|
        invariant 0 <= i <= |order|
        invariant forall j :: 0 <= j < i ==> tasks[order[j]].state in {Completed, Failed}
      {
        if tasks[order[i]].state !in {Completed, Failed} {
          return false;
        }
        i := i + 1;
      }
      forall id | id in tasks ensures tasks[id].state in {Completed, Failed} {
        var j :| 0 <= j < |order| && order[j] == id;
      }
      return true;
    }

    /** `any_failed()`. */
    function AnyFailed(): (r: bool)
      reads this
      requires Valid()
      ensures r <==> exists id :: id in tasks && tasks[id].state == Failed
    {
      SomeFailed(order, tasks)
    }
  }

  /** `any(t.state == FAILED for t in ...)` over the tasks of `order`. */
  function SomeFailed(order: seq<string>, tasks: map<string, Task>): (r: bool)
    requires forall id :: id in order ==> id in tasks
    ensures r <==> exists i :: 0 <= i < |order| && tasks[order[i]].state == Failed
    decreases |order|
  {
    if |order| == 0 then false
    else if tasks[order[0]].state == Failed then true
    else
      assert forall id :: id in order[1..] ==> id in order;
      var rest := SomeFailed(order[1..], tasks);
      assert rest <==> exists i :: 1 <= i < |order| && tasks[order[i]].state == Failed by {
        if rest {
          var i :| 0 <= i < |order[1..]| && tasks[order[1..][i]].state == Failed;
          assert order[i + 1] == order[1..][i];
        }
        if exists i :: 1 <= i < |order| && tasks[order[i]].state == Failed {
          var i :| 1 <= i < |order| && tasks[order[i]].state == Failed;
          assert order[1..][i - 1] == order[i];
        }
      }
      rest
  }

  lemma DistinctSnoc(s: seq<string>, x: string)
    requires Distinct(s) && x !in s
    ensures Distinct(s + [x])
  {
    var t := s + [x];
    forall i, j | 0 <= i < j < |t| ensures t[i] != t[j] {
      if j == |s| {
        assert t[i] == s[i];
      } else {
        assert t[i] == s[i] && t[j] == s[j];
      }
    }
  }

  /** A repeat-free key order lists each key of the table once. */
  lemma TableSize(order: seq<string>, tasks: map<string, Task>)
    requires Distinct(order) && forall id :: id in tasks <==> id in order
    ensures |tasks| == |order|
  {
    DistinctCardinality(order);
    assert tasks.Keys == set x | x in order;
  }

  /** Every id `check_timeouts` queues again is a task of the table. */
  lemma {:induction false} RequeuedIn(order: seq<string>, tasks: map<string, Task>, now: int, timeout: int, maxRetries: int)
    ensures forall id :: id in Requeued(order, tasks, now, timeout, maxRetries) ==> id in tasks && id in order
    decreases |order|
  {
    if |order| > 0 {
      RequeuedIn(order[1..], tasks, now, timeout, maxRetries);
    }
  }

  /** The speculative-execution helper: copies of slow tasks. */
  class SpeculativeExecution {
    const scheduler: JobScheduler
    var speculativeTasks: map<string, string>

    constructor(scheduler: JobScheduler)
      ensures this.scheduler == scheduler && speculativeTasks == map[]
    {
      this.scheduler := scheduler;
      speculativeTasks := map[];
    }

    /** `launch_speculative_task(original_task_id)`, with `tag` standing for the eight hex
        digits of a fresh uuid: a pending copy of the original is added and queued, and
        recorded as the original's speculative copy. An unknown original gives `None`. */
    method LaunchSpeculativeTask(originalId: string, tag: string) returns (r: Option<string>)
      requires scheduler.Valid()
      modifies this, scheduler
      ensures scheduler.Valid()
      ensures r.None? <==> originalId !in old(scheduler.tasks)
      ensures r.None? ==> (scheduler.tasks == old(scheduler.tasks) && scheduler.pendingQueue == old(scheduler.pendingQueue) &&
        speculativeTasks == old(speculativeTasks))
      ensures r.Some? ==> var o := old(scheduler.tasks)[originalId];
        r.value == originalId + "_spec_" + tag &&
        scheduler.tasks == old(scheduler.tasks)[r.value := NewTask(r.value, o.taskType, o.inputFiles, o.outputDir)] &&
        scheduler.pendingQueue == old(scheduler.pendingQueue) + [r.value] &&
        speculativeTasks == old(speculativeTasks)[originalId := r.value]
    {
      if originalId !in scheduler.tasks {
        return None;
      }
      var original := scheduler.tasks[originalId];
      var specId := originalId + "_spec_" + tag;
      var spec := NewTask(specId, original.taskType, original.inputFiles, original.outputDir);
      scheduler.AddTask(spec);
      speculativeTasks := speculativeTasks[originalId := specId];
      return Some(specId);
    }
  }
}
