/** One task of the window: its lifecycle status and the fields the window updates. */
module TaskThreads {

  datatype ThreadStatus = Initialized | Pending | InProgress | Terminated

  /** Position of a status in the lifecycle Initialized -> Pending -> InProgress -> Terminated. */
  function Rank(st: ThreadStatus): (r: nat)
    ensures r <= 3
    ensures r == 3 <==> st == Terminated
  {
    match st
    case Initialized => 0
    case Pending => 1
    case InProgress => 2
    case Terminated => 3
  }

  /** The ranks put the four statuses in lifecycle order, one status per rank. */
  lemma LifecycleOrder(a: ThreadStatus, b: ThreadStatus)
    ensures Rank(Initialized) < Rank(Pending) < Rank(InProgress) < Rank(Terminated)
    ensures Rank(a) == Rank(b) ==> a == b
  {
  }

  /**
   * A task record. `taskStartTime` is a stamp of the window's logical clock; `cancelled` is the state
   * of the task's own CancellationTokenSource.
   */
  datatype TaskThread = TaskThread(
    taskId: int,
    status: ThreadStatus,
    counter: int,
    taskStartTime: int,
    cancelled: bool,
    isForcedStop: bool)

  /** The TaskThread constructor. The start time keeps its default value, 0 on the logical clock. */
  function NewTask(id: int): (t: TaskThread)
    ensures t.taskId == id && t.status == Initialized && t.counter == 0
    ensures !t.cancelled && !t.isForcedStop
  {
    TaskThread(id, Initialized, 0, 0, false, false)
  }

  /** What `StopTask(task, forced)` does to the task: record the kind of stop, then cancel the token. */
  function Stopped(t: TaskThread, forced: bool): TaskThread
  {
    t.(isForcedStop := forced, cancelled := true)
  }

  /** `StopTask` applied through the window's task table; an unknown id stands for the null check. */
  function StopIn(tasks: map<int, TaskThread>, id: int, forced: bool): map<int, TaskThread>
  {
    if id in tasks then tasks[id := Stopped(tasks[id], forced)] else tasks
  }
}
