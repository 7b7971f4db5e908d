/**
 * The main window's admission controller as an object whose handlers update its fields in place. Each
 * method is one dispatcher-serialised step and is proved to do what the matching function of module
 * WindowSpec describes, which in turn keeps the invariant proved in module WindowProofs.
 */
module MainWindows {

  import opened Wrappers
  import opened Collections
  import opened TaskThreads
  import opened StartOrder
  import WindowSpec
  import WindowProofs
  import Int32

  class MainWindow {
    var nextTaskId: int
    var maxConcurrentTasks: int
    /** The current count of the window's SemaphoreSlim. */
    var permits: int
    var initializedThreads: seq<int>
    var pendingThreads: seq<int>
    var activeThreads: seq<int>
    /** The task objects, by their id. */
    var tasks: map<int, TaskThread>
    /** Tasks whose `WaitAsync` has not completed. */
    var waiting: set<int>
    /** Tasks whose `RunTaskLoop` has not run its `finally` block. */
    var looping: set<int>
    /** The logical clock standing for `DateTime.Now`. */
    var clock: int
    /** Permits ever handed to the semaphore, and permits kept for good by finished forced stops. */
    ghost var issued: int
    ghost var retired: int

    ghost function Snapshot(): WindowSpec.Window
      reads this
    {
      WindowSpec.Window(nextTaskId, maxConcurrentTasks, permits, initializedThreads, pendingThreads,
                        activeThreads, tasks, waiting, looping, clock, issued, retired)
    }

    ghost predicate Valid()
      reads this
    {
      WindowSpec.Inv(Snapshot())
    }

    /**
     * The window constructor: the limit is the text box's value, 3 if it does not parse, and the semaphore
     * starts with that many permits (its constructor refuses a negative count).
     */
    constructor (initialText: Option<int>)
      requires WindowSpec.InitialLimit(initialText) >= 0
      ensures Valid()
      ensures Snapshot() == WindowSpec.Init(initialText)
    {
      nextTaskId := 1;
      initializedThreads, pendingThreads, activeThreads := [], [], [];
      tasks := map[];
      waiting, looping := {}, {};
      clock := 1;
      if initialText.Some? {
        maxConcurrentTasks := initialText.value;
      } else {
        maxConcurrentTasks := 3;
      }
      permits := maxConcurrentTasks;
      issued, retired := maxConcurrentTasks, 0;
      new;
      WindowProofs.InitEstablishesInv(initialText);
    }

    /** `btnCreateThread_Click`; returns the id of the new task. */
    method CreateThread() returns (id: int)
      requires Valid()
      modifies this
      ensures Valid()
      ensures Snapshot() == WindowSpec.CreateThread(old(Snapshot()))
      ensures id == old(nextTaskId) && id !in old(tasks)
    {
      WindowProofs.CreatePreservesInv(Snapshot());
      id := nextTaskId;
      nextTaskId := nextTaskId + 1;
      tasks := tasks[id := NewTask(id)];
      initializedThreads := initializedThreads + [id];
    }

    /** `lbCreated_MouseDoubleClick` on the task `id` selected in the initialized list. */
    method EnqueueThread(id: int)
      requires Valid() && id in initializedThreads
      modifies this
      ensures Valid()
      ensures Snapshot() == WindowSpec.EnqueueThread(old(Snapshot()), id)
    {
      WindowProofs.EnqueuePreservesInv(Snapshot(), id);
      initializedThreads := Remove(initializedThreads, id);
      tasks := tasks[id := tasks[id].(status := Pending)];
      pendingThreads := pendingThreads + [id];
      // StartTaskFromPending(task): its WaitAsync is now outstanding.
      waiting := waiting + {id};
    }

    /**
     * `StartTaskFromPending` once the `WaitAsync` of task `id` completes: by cancellation, or with a permit,
     * which the semaphore hands out only while its count is positive.
     */
    method StartTaskFromPending(id: int)
      requires Valid() && id in waiting
      requires tasks[id].cancelled || permits > 0
      modifies this
      ensures Valid()
      ensures Snapshot() == WindowSpec.StartTaskFromPending(old(Snapshot()), id)
    {
      ghost var before := Snapshot();
      WindowProofs.AdmitPreservesInv(before, id);
      waiting := waiting - {id};
      if tasks[id].cancelled {
        assert Snapshot() == WindowSpec.StartTaskFromPending(before, id);
        return;
      }
      permits := permits - 1;
      if id in pendingThreads {
        pendingThreads := Remove(pendingThreads, id);
        tasks := tasks[id := tasks[id].(status := InProgress, taskStartTime := clock)];
        clock := clock + 1;
        activeThreads := activeThreads + [id];
      }
      // RunTaskLoop(task)
      looping := looping + {id};
      assert Snapshot() == WindowSpec.StartTaskFromPending(before, id);
    }

    /** One iteration of the loop of `RunTaskLoop`: the delay has elapsed without cancellation. */
    method TickTaskLoop(id: int)
      requires Valid() && id in looping
      requires !tasks[id].cancelled
      modifies this
      ensures Valid()
      ensures Snapshot() == WindowSpec.TickTaskLoop(old(Snapshot()), id)
    {
      WindowProofs.TickPreservesInv(Snapshot(), id);
      tasks := tasks[id := tasks[id].(counter := tasks[id].counter + 1)];
    }

    /**
     * The loop of `RunTaskLoop` running `n` iterations with no cancellation in between: the counter rises by
     * exactly `n` and nothing else changes.
     */
    method RunTaskLoopFor(id: int, n: nat)
      requires Valid() && id in looping
      requires !tasks[id].cancelled
      modifies this
      ensures Valid()
      ensures Snapshot() == old(Snapshot()).(tasks := old(tasks)[id := old(tasks)[id].(counter := old(tasks)[id].counter + n)])
    {
      var i := 0;
      while i < n
        invariant 0 <= i <= n
        invariant Valid() && id in looping && id in tasks && !tasks[id].cancelled
        invariant Snapshot() == old(Snapshot()).(tasks := old(tasks)[id := old(tasks)[id].(counter := old(tasks)[id].counter + i)])
      {
        TickTaskLoop(id);
        i := i + 1;
      }
    }

    /** `StopTask(task, forced)`; an id without a task stands for the null reference. */
    method StopTask(id: int, forced: bool)
      requires Valid()
      modifies this
      ensures Valid()
      ensures Snapshot() == WindowSpec.StopTask(old(Snapshot()), id, forced)
    {
      ghost var before := Snapshot();
      WindowProofs.StopPreservesInv(before, id, forced);
      if id in tasks {
        tasks := tasks[id := Stopped(tasks[id], forced)];
      }
      assert Snapshot() == WindowSpec.StopTask(before, id, forced);
    }

    /** The `finally` block of `RunTaskLoop` for task `id`, whose token has been cancelled. */
    method FinishTaskLoop(id: int)
      requires Valid() && id in looping
      requires tasks[id].cancelled
      modifies this
      ensures Valid()
      ensures Snapshot() == WindowSpec.FinishTaskLoop(old(Snapshot()), id)
    {
      ghost var before := Snapshot();
      WindowProofs.FinishPreservesInv(before, id);
      if !tasks[id].isForcedStop {
        permits := permits + 1;
      } else {
        retired := retired + 1;
      }
      activeThreads, tasks, looping :=
        Remove(activeThreads, id), tasks[id := tasks[id].(status := Terminated)], looping - {id};
      assert Snapshot() == WindowSpec.FinishTaskLoop(before, id);
    }

    /** `btnUpdateMax_Click` with the text box's parse result. */
    method UpdateMax(parsed: Option<int>)
      requires Valid()
      modifies this
      ensures Valid()
      ensures Snapshot() == WindowSpec.UpdateMax(old(Snapshot()), parsed)
    {
      ghost var before := Snapshot();
      if parsed.None? {
        return;
      }
      var newMax := parsed.value;
      if newMax > maxConcurrentTasks {
        Raise(newMax);
      } else if newMax < maxConcurrentTasks {
        WindowProofs.UpdateMaxLowering(before, newMax);
        Lower(newMax);
      }
    }

    /** The raising half of `btnUpdateMax_Click`: the difference is released as new permits. */
    method Raise(newMax: int)
      requires Valid()
      modifies this
      ensures Valid()
      ensures var diff := Int32.Wrap(newMax - old(maxConcurrentTasks));
        Snapshot() == if diff >= 1
          then old(Snapshot()).(maxConcurrentTasks := newMax, permits := old(permits) + diff, issued := old(issued) + diff)
          else old(Snapshot()).(maxConcurrentTasks := newMax)
    {
      var diff := Int32.Wrap(newMax - maxConcurrentTasks);
      maxConcurrentTasks := newMax;
      // Release(diff) throws for a wrapped diff below 1; the handler swallows the exception.
      if diff >= 1 {
        permits := permits + diff;
        issued := issued + diff;
      }
    }

    /** The lowering half of `btnUpdateMax_Click`: the earliest-started active tasks are force-stopped. */
    method Lower(newMax: int)
      requires Valid()
      modifies this
      ensures Valid()
      ensures var toStop := SortByStart(old(activeThreads), old(tasks));
        Snapshot() == old(Snapshot()).(maxConcurrentTasks := newMax, tasks :=
          ForceStopAll(old(tasks), toStop[..WindowSpec.Victims(Int32.Wrap(|old(activeThreads)| - newMax), |toStop|)]))
    {
      maxConcurrentTasks := newMax;
      var excess := Int32.Wrap(|activeThreads| - newMax);
      var toStop := SortByStart(activeThreads, tasks);
      if excess > 0 {
        StopEarliest(toStop, excess);
      } else {
        assert toStop[..0] == [];
      }
    }

    /**
     * The victim loop of `btnUpdateMax_Click`: `StopTask(toStop[i], true)` for i from 0 while i < excess.
     * Once i reaches the end of `toStop` the indexer throws and the handler swallows the exception.
     */
    method StopEarliest(toStop: seq<int>, excess: int)
      requires Valid()
      modifies this
      ensures Valid()
      ensures Snapshot() == old(Snapshot()).(tasks := ForceStopAll(old(tasks), toStop[..WindowSpec.Victims(excess, |toStop|)]))
    {
      var i := 0;
      while i < excess && i < |toStop|
        invariant 0 <= i <= |toStop| && (excess > 0 ==> i <= excess) && (excess <= 0 ==> i == 0)
        invariant Valid()
        invariant Snapshot() == old(Snapshot()).(tasks := ForceStopAll(old(tasks), toStop[..i]))
      {
        assert toStop[..i + 1][..i] == toStop[..i];
        StopTask(toStop[i], true);
        i := i + 1;
      }
    }
  }
}
