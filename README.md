# Admission controller of the WpfApp4 main window

The main window of WpfApp4 manages simulated tasks. A task is created (`Initialized`), double-clicked into
the pending list (`Pending`), admitted by a `SemaphoreSlim` whose count is the number of free slots
(`InProgress`, counting one tick per second), and stopped through its cancellation token (`Terminated`).
The limit `maxConcurrentTasks` can be changed at run time. Raising it releases the difference to the
semaphore. Lowering it releases nothing; instead the earliest-started running tasks in excess are stopped
with `IsForcedStop` set, so that their loops do not return their permits.

This project models that controller as a sequential state machine, one step per dispatcher-serialised
callback:

- `TaskThreads` (task_thread.dfy): `ThreadStatus`, the task record and what `StopTask` does to a task.
- `Collections` (collections.dfy): the `Add` / `Remove` behaviour of the three observable lists.
- `StartOrder` (start_order.dfy): the sort by start time and the force-stop loop over a prefix of it.
- `WindowSpec` (window_spec.dfy): the window's state as a value, one function per step, the events and
  when each is enabled, and the invariant `Inv`.
- `WindowProofs` (window_proofs.dfy): each step keeps `Inv` and has the promised effect; every task only
  moves forward; every reachable state satisfies `Inv`.
- `MainWindows` (main_window.dfy): class `MainWindow`, whose fields are the window's fields and whose
  methods perform the steps in place, each proved equal to its `WindowSpec` function.

The invariant says:
- the task table holds exactly the ids 1 .. `nextTaskId` - 1, each record carrying its own id, and every
  task is in at most one list and at most once;
- a task's list matches its status, and a task in no list is `Terminated`;
- an outstanding permit wait belongs to a pending task, so the `Contains` check in
  `StartTaskFromPending` always succeeds; a task that is pending without one was cancelled;
- a task's loop runs exactly while it is in the active list;
- the active list is in strictly increasing start order, so the sort before victim selection returns the
  active list unchanged;
- permits are conserved: available + held by active tasks + kept by finished forced stops = all permits
  ever given to the semaphore.

Points where the code behaves in ways a reader might not expect, all modelled as written:
- Lowering the limit stops the earliest-started tasks. The latest-started task survives, not the earliest.
- Any `int` is accepted as a new limit, zero and negative ones included. The code uses C#'s default
  unchecked `int` arithmetic, which the `Int32` module models. `excess = Count - newMax` is computed
  modulo 2^32. When the exact difference lies in 1..`int.MaxValue` and the limit is negative, every
  active task is force-stopped. The next index into the sorted copy then throws, and the exception is
  swallowed after the limit has already been overwritten (`VictimCount`). When the exact difference
  exceeds `int.MaxValue` (a limit near `int.MinValue`), the wrapped `excess` is negative and no task is
  stopped at all.
- Raising the limit computes `diff = newMax - oldMax` modulo 2^32 as well. A difference above
  `int.MaxValue` wraps to a negative count, `Release` throws, the exception is swallowed, and no permit
  is added although the limit was overwritten.
- Lowering the limit never lowers the permit count. "limit = permits + non-forced holders" therefore does
  not hold. The conservation law above takes its place.
- A wait that ends by cancellation only returns. The task stays in the pending list with status `Pending`;
  it is not terminated. The code only ever stops active tasks (`lbWorking_MouseDoubleClick` at
  WpfApp4/MainWindow.xaml.cs:133 and the victim loop at :225), so this branch (:147-150) is reachable only
  because the model lets `StopTask` target any task.
- A `WaitAsync` that finds a free permit completes synchronously, inside the double-click handler. The
  model splits this into two steps, `Enqueue` and `Admit`, which a caller may run back to back.

Inputs the window reads from its UI are parameters: the parse result of the text box is an
`Option<int>`, and the selected list item is a task id.

## Model

| member | source | states |
|---|---|---|
| TaskThreads.Rank | WpfApp4/MainWindow.xaml.cs:19-25 | each status has a rank of at most 3, and `Terminated` alone has the top rank |
| TaskThreads.LifecycleOrder | WpfApp4/MainWindow.xaml.cs:19-25 | the ranks order the statuses as declared, Initialized < Pending < InProgress < Terminated, and distinct statuses have distinct ranks |
| TaskThreads.NewTask | WpfApp4/MainWindow.xaml.cs:53-60 | a new task has the given id, status `Initialized`, counter 0, an uncancelled token and no forced stop |
| TaskThreads.Stopped | WpfApp4/MainWindow.xaml.cs:195-198 | what `StopTask` does to a task, setting `IsForcedStop` and cancelling the token; no contract of its own, `WindowProofs.StopPreservesInv` states its effect |
| TaskThreads.StopIn | WpfApp4/MainWindow.xaml.cs:195-198 | `StopTask` through the task table, an unknown id standing for null; no contract of its own, `WindowProofs.StopPreservesInv` and `StartOrder.ForceStopAllSpec` state its effect |
| Int32.Wrap | WpfApp4/MainWindow.xaml.cs:213-218 | the result of unchecked `int` arithmetic is an `int`; an exact result in range is kept; an exact result in `int.MaxValue` + 1 .. 2^32 - 1 loses 2^32 and turns negative; one in -2^32 .. `int.MinValue` - 1 gains 2^32 and turns non-negative |
| Int32.WrapCongruent | WpfApp4/MainWindow.xaml.cs:213-218 | the wrapped value differs from the exact one by a multiple of 2^32, and it is the only `int` that does |
| WindowSpec.InitialLimit | WpfApp4/MainWindow.xaml.cs:85-92 | the parsed limit, or 3 when the text does not parse; no contract of its own, `WindowProofs.InitEstablishesInv` states it |
| WindowSpec.Init | WpfApp4/MainWindow.xaml.cs:85-93 | the constructor's state as a value; no contract of its own, its properties are those of `WindowProofs.InitEstablishesInv` |
| WindowSpec.CreateThread | WpfApp4/MainWindow.xaml.cs:100-101 | the create step as a value; no contract of its own, its effect is stated by `WindowProofs.CreatePreservesInv` |
| WindowSpec.EnqueueThread | WpfApp4/MainWindow.xaml.cs:113-119 | the double-click step as a value; no contract of its own, its effect is stated by `WindowProofs.EnqueuePreservesInv` |
| WindowSpec.StartTaskFromPending | WpfApp4/MainWindow.xaml.cs:141-164 | a wait's completion as a value; no contract of its own, its effect is stated by `WindowProofs.AdmitPreservesInv` |
| WindowSpec.TickTaskLoop | WpfApp4/MainWindow.xaml.cs:170-176 | one loop iteration as a value; no contract of its own, its effect is stated by `WindowProofs.TickPreservesInv` |
| WindowSpec.StopTask | WpfApp4/MainWindow.xaml.cs:193-200 | `StopTask` as a value; no contract of its own, its effect is stated by `WindowProofs.StopPreservesInv` |
| WindowSpec.FinishTaskLoop | WpfApp4/MainWindow.xaml.cs:180-190 | the `finally` block as a value; no contract of its own, its effect is stated by `WindowProofs.FinishPreservesInv` |
| WindowSpec.UpdateMax | WpfApp4/MainWindow.xaml.cs:206-228 | the limit change as a value; no contract of its own, its effect is stated by `WindowProofs.UpdateMaxPreservesInv`, `UpdateMaxLowering`, `UpdateMaxStopsEarliest` and `UpdateMaxLeavesLive` |
| WindowSpec.Enabled | WpfApp4/MainWindow.xaml.cs:145-186 | when each step can happen: a wait at :145 completes by cancellation or with a positive count, the loop at :170 ticks while uncancelled and runs its `finally` once cancelled; no contract of its own, `WindowProofs.StepPreservesInv` proves every enabled step keeps the invariant |
| WindowSpec.VictimCount | WpfApp4/MainWindow.xaml.cs:218-226 | how many sorted active tasks the victim loop stops: none when the exact excess lies in -2^31..0, the excess when it is positive, fits an `int` and the limit is non-negative, every active task for a negative limit (the indexer throws after the last one), and none when the exact excess exceeds `int.MaxValue` and so wraps negative |
| WindowSpec.Victims | WpfApp4/MainWindow.xaml.cs:223-226 | the loop `for i < excess` over `count` candidates runs no step for a non-positive excess, `excess` steps when that many candidates exist, and `count` steps otherwise, the indexer throwing at the end |
| MainWindows.MainWindow.constructor | WpfApp4/MainWindow.xaml.cs:77-94 | the window starts with no tasks, the parsed limit (3 if unparsable) and that many permits, and satisfies the invariant |
| WindowProofs.InitEstablishesInv | WpfApp4/MainWindow.xaml.cs:85-93 | the initial limit is the parsed value or 3, the permit count equals it, ids start at 1, and the invariant holds |
| MainWindows.MainWindow.CreateThread | WpfApp4/MainWindow.xaml.cs:96-101 | performs the create step in place, returns the new id, which is fresh, and keeps the invariant |
| WindowProofs.CreatePreservesInv | WpfApp4/MainWindow.xaml.cs:100-101 | the new task gets the next id, is `Initialized` with counter 0, not cancelled or forced, and is appended to the initialized list only; earlier tasks and the permits are unchanged; the invariant is kept |
| MainWindows.MainWindow.EnqueueThread | WpfApp4/MainWindow.xaml.cs:109-119 | performs the double-click step in place for a task of the initialized list and starts its permit wait |
| WindowProofs.EnqueuePreservesInv | WpfApp4/MainWindow.xaml.cs:113-117 | the task leaves the initialized list, becomes `Pending` and is appended to the pending list; the active list and the permits are unchanged; every task stays in at most one list |
| MainWindows.MainWindow.StartTaskFromPending | WpfApp4/MainWindow.xaml.cs:141-164 | completes a task's wait, by cancellation or with a permit that exists only while the count is positive, and starts its loop |
| WindowProofs.AdmitPreservesInv | WpfApp4/MainWindow.xaml.cs:145-161 | a cancelled wait changes no list, task or permit and the task stays pending; otherwise the task is still pending, exactly one permit is used, and the task moves to the end of the active list as `InProgress` with a start stamp later than every other active task's |
| MainWindows.MainWindow.TickTaskLoop | WpfApp4/MainWindow.xaml.cs:170-176 | one loop iteration of an uncancelled running task, in place |
| MainWindows.MainWindow.RunTaskLoopFor | WpfApp4/MainWindow.xaml.cs:170-177 | n uninterrupted loop iterations raise the task's counter by exactly n and change nothing else |
| WindowProofs.TickPreservesInv | WpfApp4/MainWindow.xaml.cs:172-176 | a tick raises that task's counter by exactly 1 and leaves every other field and task unchanged |
| MainWindows.MainWindow.StopTask | WpfApp4/MainWindow.xaml.cs:193-200 | performs `StopTask` in place; an unknown id, standing for null, changes nothing |
| WindowProofs.StopPreservesInv | WpfApp4/MainWindow.xaml.cs:195-199 | the task gets `IsForcedStop := forced` and is cancelled; lists, status, counter, start stamp, permits and other tasks are untouched; on an already-cancelled task only the forced flag can change |
| MainWindows.MainWindow.FinishTaskLoop | WpfApp4/MainWindow.xaml.cs:180-190 | performs the `finally` block in place for a running task whose token is cancelled |
| WindowProofs.FinishPreservesInv | WpfApp4/MainWindow.xaml.cs:182-189 | the permit count rises by exactly 1 if and only if the task is not forced, and stays the same otherwise; the task leaves the active list and becomes `Terminated` with its counter unchanged |
| MainWindows.MainWindow.UpdateMax | WpfApp4/MainWindow.xaml.cs:202-239 | performs the limit change in place and keeps the invariant |
| MainWindows.MainWindow.Raise | WpfApp4/MainWindow.xaml.cs:209-215 | overwrites the limit and adds the wrapped difference to the permits when it is at least 1; a wrapped difference below 1 makes `Release` throw and adds nothing |
| MainWindows.MainWindow.Lower | WpfApp4/MainWindow.xaml.cs:209-227 | overwrites the limit and force-stops as many entries of the sorted copy as the loop reaches for the wrapped excess, and changes nothing else |
| MainWindows.MainWindow.StopEarliest | WpfApp4/MainWindow.xaml.cs:221-226 | the victim loop force-stops the first `excess` entries of the sorted copy, or all of them when it is shorter |
| WindowProofs.UpdateMaxPreservesInv | WpfApp4/MainWindow.xaml.cs:206-216 | unparsable text changes nothing; otherwise the limit becomes the new value and the lists are untouched; a higher limit adds exactly the difference to the permits when it fits an `int` and nothing when it wraps; a lower or equal one leaves the permits unchanged; a higher or equal one touches no task; an equal one changes nothing at all |
| WindowProofs.UpdateMaxLowering | WpfApp4/MainWindow.xaml.cs:216-227 | lowering the limit overwrites it and force-stops the first `Victims` entries of the sorted copy for the wrapped excess, and changes nothing else |
| WindowProofs.UpdateMaxForcesPrefix | WpfApp4/MainWindow.xaml.cs:216-227 | lowering the limit force-stops exactly the first `VictimCount` tasks of the active list itself |
| WindowProofs.UpdateMaxStopsEarliest | WpfApp4/MainWindow.xaml.cs:216-227 | when the limit is lowered, the sorted copy is the active list, and exactly the first k active tasks are marked forced and cancelled, each starting before every survivor; every other task is untouched; k = \|active\| - newMax when the limit is non-negative and the difference fits an `int`, 0 when there is no excess, \|active\| for a negative limit, and 0 when the difference exceeds `int.MaxValue` |
| WindowProofs.ActiveStartOrder | WpfApp4/MainWindow.xaml.cs:222-225 | every active task before a cut starts earlier than every active task after it |
| WindowProofs.UpdateMaxLeavesLive | WpfApp4/MainWindow.xaml.cs:218-226 | after lowering the limit to newMax, at most max(newMax, 0) active tasks remain uncancelled whenever `Count - newMax` fits an `int`; when it does not, no task is touched |
| StartOrder.Insert | WpfApp4/MainWindow.xaml.cs:222 | one insertion step of the sort; no contract of its own, `StartOrder.InsertSpec` proves it keeps start order and adds exactly the inserted id |
| StartOrder.SortByStart | WpfApp4/MainWindow.xaml.cs:222 | `toStop.Sort` by start time; no contract of its own, `SortByStartSpec` proves it sorted and a permutation, and `SortByStartFixed` proves it returns the active list unchanged |
| StartOrder.SortByStartSpec | WpfApp4/MainWindow.xaml.cs:221-222 | the sorted copy is in ascending start order and is a permutation of the active list |
| StartOrder.SortByStartFixed | WpfApp4/MainWindow.xaml.cs:222 | a list already in strictly ascending start order is its own sorted copy |
| StartOrder.ForceStopAll | WpfApp4/MainWindow.xaml.cs:223-225 | the victim loop's `StopTask(toStop[i], true)` calls in turn; no contract of its own, `ForceStopAllSpec` states its effect |
| StartOrder.ForceStopAllSpec | WpfApp4/MainWindow.xaml.cs:223-225 | stopping a list of tasks in turn leaves each listed task forced and cancelled with its other fields unchanged, and every other task untouched |
| StartOrder.RemoveKeepsOrder | WpfApp4/MainWindow.xaml.cs:187 | removing a task from an active list in start order keeps it in start order |
| Collections.Remove | WpfApp4/MainWindow.xaml.cs:115 | removing a present element shortens the list by one, removing an absent one changes nothing, and nothing new appears |
| Collections.FirstIndex | WpfApp4/MainWindow.xaml.cs:115 | for a present element, a position holding it with no earlier occurrence |
| Collections.RemoveFirst | WpfApp4/MainWindow.xaml.cs:115 | removing a present element cuts out exactly its first occurrence and keeps everything before and after it |
| Collections.RemoveMembers | WpfApp4/MainWindow.xaml.cs:156 | in a list without duplicates, removing x leaves exactly the other elements, still without duplicates |
| WindowProofs.StepPreservesInv | WpfApp4/MainWindow.xaml.cs:96-239 | every enabled step keeps the invariant |
| WindowProofs.ReachableInv | WpfApp4/MainWindow.xaml.cs:77-239 | every state reachable from the constructor by enabled steps satisfies the invariant: each task in at most one list, status matching the list, the active list in start order, permits conserved |
| WindowProofs.StepAdvances | WpfApp4/MainWindow.xaml.cs:100-189 | no step forgets a task or reuses an id; a task's status only moves forward, so `Terminated` is never left; its counter never decreases, rises by at most 1 per step and is frozen once terminated; its start stamp is fixed once admitted; a cancellation is never undone |

## Left out

- WPF plumbing is not modelled: `InitializeComponent`, the `ItemsSource` bindings and `MessageBox`. The
  selected list item becomes a task-id argument. `lbWorking_MouseDoubleClick` is `StopTask(task, false)`
  on an active task, so it is covered by `StopTask`.
- `int.TryParse` is replaced by an `Option<int>` argument, because .NET's culture and whitespace rules
  are library behaviour outside this model.
- Task objects are records in a map from task id to `TaskThread`, and the three lists hold ids. Ids are
  unique, so an id stands for one object reference. Assigning a task's field replaces its map entry.
- Threads and `Dispatcher.Invoke` are not modelled. The model's atomic steps may interleave in any order
  their enabling conditions allow. That includes a graceful stop followed by a limit change that sets
  `IsForcedStop` before the task's `finally` reads it; the model does not exclude this ordering.
  One source interleaving has no counterpart among the model's steps: once the `Task.Delay` at
  WpfApp4/MainWindow.xaml.cs:172 has completed, the `Counter++` at :173-176 runs without checking the
  token. A stop that lands while that continuation is still queued on the dispatcher is therefore
  followed by one more increment. The model's `Tick` needs an uncancelled token, so it never produces
  that last tick.
- A semaphore wait that finds the token cancelled ends by cancellation, even when a permit is free. Which
  of the two wins a real race is left open.
- `SemaphoreSlim` internals are not modelled: its waiter queue, its fairness, and the `int.MaxValue`
  ceiling (a `Release` past it would throw). Only the integer count is modelled.
- `DateTime.Now` becomes a logical clock that advances at each admission, so start stamps are distinct.
  A real clock can give two tasks the same time, and `List.Sort` (unstable) may then order them either
  way.
- `Task.Delay(1000)` is one tick step. Time itself is not modelled.
- Integers are unbounded except in the limit change: the 32-bit overflow of `nextTaskId`, `Counter` and
  the semaphore's count is not modelled. In the limit change, `diff` and `excess` wrap as C# computes
  them. `int.TryParse` and `Count` only produce `int` values, so the `VictimCount` cases are stated for
  those; for a limit outside that range it only promises a count no larger than the active list.
- `INotifyPropertyChanged`, `StatusInfo` and the display text are not modelled.
- Exceptions are modelled only by their effect, since the handler swallows them. The out-of-range index
  in the victim loop ends the loop at the end of the sorted copy. `Release` with a wrapped count below 1
  adds no permit.
- MainWindows.MainWindow.constructor: requires a non-negative initial limit, because `SemaphoreSlim`
  rejects a negative initial count and the window is then never constructed.
- `issued` and `retired` are model bookkeeping (ghost fields of the class). They are not part of the
  source; they exist to state permit conservation.
