/**
 * The admission controller of the main window as a sequential state machine. Each function below is
 * one dispatcher-serialised step of the window; the class in module MainWindows performs the same steps
 * in place and is proved against these functions.
 */
module WindowSpec {

  import opened Wrappers
  import opened Collections
  import opened TaskThreads
  import opened StartOrder
  import Int32

  /**
   * The window's state. `permits` is the semaphore's current count. `waiting` holds the tasks whose
   * `WaitAsync` has not completed yet, `looping` those whose `RunTaskLoop` has not passed its `finally`.
   * `clock` is the logical clock that stands for `DateTime.Now`. `issued` (permits ever handed to the
   * semaphore) and `retired` (permits kept by force-stopped tasks) are bookkeeping of the model only.
   */
  datatype Window = Window(
    nextTaskId: int,
    maxConcurrentTasks: int,
    permits: int,
    initializedThreads: seq<int>,
    pendingThreads: seq<int>,
    activeThreads: seq<int>,
    tasks: map<int, TaskThread>,
    waiting: set<int>,
    looping: set<int>,
    clock: int,
    issued: int,
    retired: int)

  /** The limit read from the text box when the window opens: the parsed value, or 3. */
  function InitialLimit(parsed: Option<int>): int
  {
    match parsed
    case Some(m) => m
    case None => 3
  }

  /** The window constructor: no tasks, the limit from the text box and as many permits. */
  function Init(parsed: Option<int>): Window
  {
    var max := InitialLimit(parsed);
    Window(1, max, max, [], [], [], map[], {}, {}, 1, max, 0)
  }

  /** `btnCreateThread_Click`: a new task with the next id is added to the initialized list. */
  function CreateThread(s: Window): Window
  {
    var id := s.nextTaskId;
    s.(nextTaskId := id + 1,
       tasks := s.tasks[id := NewTask(id)],
       initializedThreads := s.initializedThreads + [id])
  }

  /** `lbCreated_MouseDoubleClick`: the task moves to the end of the pending list and starts its wait for a permit. */
  function EnqueueThread(s: Window, id: int): Window
    requires id in s.tasks
  {
    s.(initializedThreads := Remove(s.initializedThreads, id),
       tasks := s.tasks[id := s.tasks[id].(status := Pending)],
       pendingThreads := s.pendingThreads + [id],
       waiting := s.waiting + {id})
  }

  /**
   * `StartTaskFromPending` after its `WaitAsync` completes. A cancelled wait returns without effect.
   * Otherwise one permit is taken; if the task is still pending (the `Contains` check) it moves to the end
   * of the active list as InProgress with the current clock as its start stamp; then its loop starts.
   */
  function StartTaskFromPending(s: Window, id: int): Window
    requires id in s.tasks
  {
    if s.tasks[id].cancelled then s.(waiting := s.waiting - {id})
    else
      var s1 := s.(permits := s.permits - 1, waiting := s.waiting - {id});
      var s2 :=
        if id in s1.pendingThreads then
          s1.(pendingThreads := Remove(s1.pendingThreads, id),
              tasks := s1.tasks[id := s1.tasks[id].(status := InProgress, taskStartTime := s1.clock)],
              clock := s1.clock + 1,
              activeThreads := s1.activeThreads + [id])
        else s1;
      s2.(looping := s2.looping + {id})
  }

  /** One iteration of the `while` loop of `RunTaskLoop`: the delay elapsed uncancelled and the counter goes up. */
  function TickTaskLoop(s: Window, id: int): Window
    requires id in s.tasks
  {
    s.(tasks := s.tasks[id := s.tasks[id].(counter := s.tasks[id].counter + 1)])
  }

  /** `StopTask(task, forced)`. */
  function StopTask(s: Window, id: int, forced: bool): Window
  {
    s.(tasks := StopIn(s.tasks, id, forced))
  }

  /**
   * The `finally` block of `RunTaskLoop`: the permit goes back unless the stop was forced; the task leaves
   * the active list as Terminated.
   */
  function FinishTaskLoop(s: Window, id: int): Window
    requires id in s.tasks
  {
    var s1 := if !s.tasks[id].isForcedStop then s.(permits := s.permits + 1) else s.(retired := s.retired + 1);
    s1.(activeThreads := Remove(s1.activeThreads, id),
        tasks := s1.tasks[id := s1.tasks[id].(status := Terminated)],
        looping := s1.looping - {id})
  }

  /**
   * How many iterations the victim loop of `btnUpdateMax_Click` completes. `excess` is the unchecked 32-bit
   * difference `activeThreads.Count - newMax`; the loop runs `excess` times when that many tasks are active,
   * otherwise it stops all of them and the next index throws, and the exception is swallowed. So exactly
   * `newMax` tasks are left unstopped for a limit in 0..Count, none for a negative limit, and for a
   * difference too large for an `int` the wrapped `excess` is negative and nothing is stopped.
   */
  function VictimCount(activeCount: nat, newMax: int): (r: nat)
    ensures r <= activeCount
    ensures Int32.MIN <= activeCount - newMax <= 0 ==> r == 0
    ensures 0 < activeCount - newMax <= Int32.MAX && newMax >= 0 ==> r == activeCount - newMax
    ensures 0 < activeCount - newMax <= Int32.MAX && newMax < 0 ==> r == activeCount
    ensures Int32.MAX < activeCount - newMax && Int32.IsInt32(newMax) && activeCount <= Int32.MAX ==> r == 0
  {
    Victims(Int32.Wrap(activeCount - newMax), activeCount)
  }

  /** How far the victim loop gets over `count` candidates: `excess` steps, cut short by the throwing indexer. */
  function Victims(excess: int, count: nat): (r: nat)
    ensures r <= count
    ensures excess <= 0 ==> r == 0
    ensures 0 < excess <= count ==> r == excess
    ensures excess > count ==> r == count
  {
    if excess <= 0 then 0 else if excess <= count then excess else count
  }

  /**
   * `btnUpdateMax_Click`. An unparsable text changes nothing. Otherwise the limit is overwritten; a higher
   * limit releases the difference; a lower one force-stops the earliest-started active tasks in excess.
   * Both differences are unchecked `int` subtractions. A wrapped `diff` below 1 makes `Release` throw, and
   * the handler swallows the exception, so the permits stay as they were.
   */
  function UpdateMax(s: Window, parsed: Option<int>): Window
  {
    match parsed
    case None => s
    case Some(newMax) =>
      var oldMax := s.maxConcurrentTasks;
      var s1 := s.(maxConcurrentTasks := newMax);
      if newMax > oldMax then
        var diff := Int32.Wrap(newMax - oldMax);
        if diff >= 1 then s1.(permits := s1.permits + diff, issued := s1.issued + diff) else s1
      else if newMax < oldMax && Int32.Wrap(|s.activeThreads| - newMax) > 0 then
        var toStop := SortByStart(s.activeThreads, s.tasks);
        var n := VictimCount(|toStop|, newMax);
        s1.(tasks := ForceStopAll(s1.tasks, toStop[..n]))
      else s1
  }

  /** The steps a caller or a completing continuation can take. */
  datatype Event =
    | Create
    | Enqueue(id: int)
    | Admit(id: int)
    | Tick(id: int)
    | Stop(id: int, forced: bool)
    | Finish(id: int)
    | Resize(parsed: Option<int>)

  /**
   * When a step can happen: a double click needs a task selected in the initialized list, a wait completes
   * either by cancellation or with a permit, a tick needs a running uncancelled loop, and the `finally`
   * runs once a running loop has been cancelled.
   */
  ghost predicate Enabled(s: Window, e: Event)
  {
    match e
    case Create => true
    case Enqueue(id) => id in s.initializedThreads && id in s.tasks
    case Admit(id) => id in s.waiting && id in s.tasks && (s.tasks[id].cancelled || s.permits > 0)
    case Tick(id) => id in s.looping && id in s.tasks && !s.tasks[id].cancelled
    case Stop(id, forced) => true
    case Finish(id) => id in s.looping && id in s.tasks && s.tasks[id].cancelled
    case Resize(parsed) => true
  }

  function Apply(s: Window, e: Event): Window
    requires Enabled(s, e)
  {
    match e
    case Create => CreateThread(s)
    case Enqueue(id) => EnqueueThread(s, id)
    case Admit(id) => StartTaskFromPending(s, id)
    case Tick(id) => TickTaskLoop(s, id)
    case Stop(id, forced) => StopTask(s, id, forced)
    case Finish(id) => FinishTaskLoop(s, id)
    case Resize(parsed) => UpdateMax(s, parsed)
  }

  /** The events can be taken one after another from `s`. */
  ghost predicate Runnable(s: Window, es: seq<Event>)
    decreases |es|
  {
    es == [] || (Enabled(s, es[0]) && Runnable(Apply(s, es[0]), es[1..]))
  }

  function Run(s: Window, es: seq<Event>): Window
    requires Runnable(s, es)
    decreases |es|
  {
    if es == [] then s else Run(Apply(s, es[0]), es[1..])
  }

  // ---------------------------------------------------------------------------------------------
  // The invariant of the window

  /** The table holds exactly the ids 1 .. nextTaskId - 1; each record carries its own id and a non-negative counter. */
  ghost predicate IdsValid(s: Window)
  {
    s.nextTaskId >= 1 &&
    (forall id :: 1 <= id < s.nextTaskId ==> id in s.tasks) &&
    forall id :: id in s.tasks ==>
      1 <= id < s.nextTaskId && s.tasks[id].taskId == id && s.tasks[id].counter >= 0
  }

  /** Every task is in at most one of the three lists, and at most once in it. */
  ghost predicate ListsDisjoint(s: Window)
  {
    NoDup(s.initializedThreads) && NoDup(s.pendingThreads) && NoDup(s.activeThreads) &&
    (forall id :: id in s.initializedThreads ==> id !in s.pendingThreads && id !in s.activeThreads) &&
    (forall id :: id in s.pendingThreads ==> id !in s.activeThreads)
  }

  /** A recorded task that is in none of the three lists. */
  ghost predicate InNoList(s: Window, id: int)
  {
    id in s.tasks && id !in s.initializedThreads && id !in s.pendingThreads && id !in s.activeThreads
  }

  /** The list a task is in agrees with its status; a task in no list is Terminated. */
  ghost predicate StatusMatches(s: Window)
  {
    (forall id :: id in s.initializedThreads ==> id in s.tasks && s.tasks[id].status == Initialized) &&
    (forall id :: id in s.pendingThreads ==> id in s.tasks && s.tasks[id].status == Pending) &&
    (forall id :: id in s.activeThreads ==>
      id in s.tasks && s.tasks[id].status == InProgress && 1 <= s.tasks[id].taskStartTime < s.clock) &&
    (forall id :: InNoList(s, id) ==> s.tasks[id].status == Terminated)
  }

  /**
   * The continuations agree with the lists: an outstanding wait belongs to a pending task, a pending task
   * without one was cancelled, and a task has a running loop exactly when it is active.
   */
  ghost predicate ControlMatches(s: Window)
  {
    (forall id :: id in s.waiting ==> id in s.pendingThreads) &&
    (forall id :: id in s.pendingThreads && id !in s.waiting ==> id in s.tasks && s.tasks[id].cancelled) &&
    (forall id :: id in s.looping ==> id in s.activeThreads) &&
    (forall id :: id in s.activeThreads ==> id in s.looping)
  }

  /**
   * Permits are conserved: each permit handed to the semaphore is available, held by an active task, or
   * kept for good by a force-stopped task that has finished.
   */
  ghost predicate PermitsConserved(s: Window)
  {
    s.permits >= 0 && s.retired >= 0 && s.permits + |s.activeThreads| + s.retired == s.issued
  }

  ghost predicate Inv(s: Window)
  {
    s.clock >= 1 &&
    IdsValid(s) && ListsDisjoint(s) && StatusMatches(s) && ControlMatches(s) &&
    StrictlyByStart(s.activeThreads, s.tasks) &&
    PermitsConserved(s)
  }
}
