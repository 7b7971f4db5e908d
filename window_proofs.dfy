/**
 * What the steps of the window guarantee: each step keeps the invariant of module WindowSpec, has the
 * effect the handlers promise, and moves every task forward in its lifecycle only.
 */
module WindowProofs {

  import opened Wrappers
  import opened Collections
  import opened TaskThreads
  import opened StartOrder
  import opened WindowSpec
  import Int32

  /** The window starts with no task, the limit from the text box (3 if unparsable), and as many permits. */
  lemma InitEstablishesInv(parsed: Option<int>)
    requires InitialLimit(parsed) >= 0
    ensures Inv(Init(parsed))
    ensures parsed.Some? ==> Init(parsed).maxConcurrentTasks == parsed.value
    ensures parsed.None? ==> Init(parsed).maxConcurrentTasks == 3
    ensures Init(parsed).permits == Init(parsed).maxConcurrentTasks
    ensures Init(parsed).nextTaskId == 1 && Init(parsed).tasks == map[]
  {
  }

  /**
   * A created task gets the next id, which no task had before, starts Initialized with counter 0 and not
   * forced, and is appended to the initialized list only; the permits do not change.
   */
  lemma CreatePreservesInv(s: Window)
    requires Inv(s)
    ensures var s' := CreateThread(s); var id := s.nextTaskId;
      Inv(s') &&
      id !in s.tasks && s'.nextTaskId == id + 1 &&
      s'.tasks[id].taskId == id && s'.tasks[id].status == Initialized && s'.tasks[id].counter == 0 &&
      !s'.tasks[id].isForcedStop && !s'.tasks[id].cancelled &&
      s'.initializedThreads == s.initializedThreads + [id] &&
      s'.pendingThreads == s.pendingThreads && s'.activeThreads == s.activeThreads &&
      s'.permits == s.permits && s'.maxConcurrentTasks == s.maxConcurrentTasks &&
      (forall y :: y in s.tasks ==> y in s'.tasks && s'.tasks[y] == s.tasks[y])
  {
    var s' := CreateThread(s);
    var id := s.nextTaskId;
    assert id !in s.initializedThreads && id !in s.pendingThreads && id !in s.activeThreads;
    AppendFresh(s.initializedThreads, id);
    StrictlyByStartFrame(s.activeThreads, s.tasks, s'.tasks);
    assert StatusMatches(s') by {
      forall y | InNoList(s', y) ensures s'.tasks[y].status == Terminated {
        assert InNoList(s, y);
      }
    }
  }

  /**
   * Enqueueing takes the task out of the initialized list, sets it Pending and appends it to the pending
   * list; the active list and the permits are unchanged.
   */
  lemma EnqueuePreservesInv(s: Window, id: int)
    requires Inv(s) && Enabled(s, Enqueue(id))
    ensures var s' := EnqueueThread(s, id);
      Inv(s') &&
      (forall y :: y in s'.initializedThreads <==> y in s.initializedThreads && y != id) &&
      s'.pendingThreads == s.pendingThreads + [id] && s'.tasks[id].status == Pending &&
      s'.activeThreads == s.activeThreads && s'.permits == s.permits &&
      s'.tasks == s.tasks[id := s.tasks[id].(status := Pending)] &&
      s'.nextTaskId == s.nextTaskId && s'.maxConcurrentTasks == s.maxConcurrentTasks
  {
    var s' := EnqueueThread(s, id);
    RemoveMembers(s.initializedThreads, id);
    AppendFresh(s.pendingThreads, id);
    StrictlyByStartFrame(s.activeThreads, s.tasks, s'.tasks);
    assert StatusMatches(s') by {
      forall y | InNoList(s', y) ensures s'.tasks[y].status == Terminated {
        assert InNoList(s, y);
      }
    }
  }

  /**
   * The completion of a task's wait. A cancelled wait changes no list, task or permit. Otherwise the task
   * is still pending (so the `Contains` check always succeeds), exactly one permit is consumed, and the task
   * moves from the pending list to the end of the active list as InProgress with a stamp later than that of
   * every other active task.
   */
  lemma AdmitPreservesInv(s: Window, id: int)
    requires Inv(s) && Enabled(s, Admit(id))
    ensures var s' := StartTaskFromPending(s, id);
      Inv(s') && id !in s'.waiting &&
      (s.tasks[id].cancelled ==>
        s'.initializedThreads == s.initializedThreads && s'.pendingThreads == s.pendingThreads &&
        s'.activeThreads == s.activeThreads && s'.tasks == s.tasks && s'.permits == s.permits &&
        id in s'.pendingThreads && s'.tasks[id].status == Pending) &&
      (!s.tasks[id].cancelled ==>
        id in s.pendingThreads &&
        s'.permits == s.permits - 1 &&
        (forall y :: y in s'.pendingThreads <==> y in s.pendingThreads && y != id) &&
        s'.activeThreads == s.activeThreads + [id] &&
        s'.initializedThreads == s.initializedThreads &&
        s'.tasks[id] == s.tasks[id].(status := InProgress, taskStartTime := s.clock) &&
        (forall y :: y in s.activeThreads ==> s.tasks[y].taskStartTime < s'.tasks[id].taskStartTime) &&
        (forall y :: y in s.tasks && y != id ==> y in s'.tasks && s'.tasks[y] == s.tasks[y]))
  {
    var s' := StartTaskFromPending(s, id);
    if s.tasks[id].cancelled {
      assert ControlMatches(s');
    } else {
      assert id in s.pendingThreads;
      assert id !in s.activeThreads && id !in s.initializedThreads;
      RemoveMembers(s.pendingThreads, id);
      AppendFresh(s.activeThreads, id);
      StrictlyByStartFrame(s.activeThreads, s.tasks, s'.tasks);
      forall y | y in s.activeThreads ensures StartOf(s'.tasks, y) < StartOf(s'.tasks, id) {
      }
      AppendLater(s.activeThreads, id, s'.tasks);
      assert StatusMatches(s') by {
        forall y | InNoList(s', y) ensures s'.tasks[y].status == Terminated {
          assert InNoList(s, y);
        }
      }
      assert |s'.activeThreads| == |s.activeThreads| + 1;
    }
  }

  /** A tick raises the task's counter by exactly one and changes nothing else. */
  lemma TickPreservesInv(s: Window, id: int)
    requires Inv(s) && Enabled(s, Tick(id))
    ensures var s' := TickTaskLoop(s, id);
      Inv(s') &&
      s'.tasks[id] == s.tasks[id].(counter := s.tasks[id].counter + 1) &&
      s'.tasks.Keys == s.tasks.Keys &&
      (forall y :: y in s.tasks && y != id ==> s'.tasks[y] == s.tasks[y]) &&
      s' == s.(tasks := s'.tasks)
  {
    var s' := TickTaskLoop(s, id);
    StrictlyByStartFrame(s.activeThreads, s.tasks, s'.tasks);
    assert StatusMatches(s') by {
      forall y | InNoList(s', y) ensures s'.tasks[y].status == Terminated {
        assert InNoList(s, y);
      }
    }
  }

  /** The task table changes only in the stop flags, and no cancellation is undone. */
  ghost predicate OnlyStopFlags(m: map<int, TaskThread>, m': map<int, TaskThread>)
  {
    m'.Keys == m.Keys &&
    forall id :: id in m ==>
      m'[id].taskId == m[id].taskId && m'[id].status == m[id].status &&
      m'[id].counter == m[id].counter && m'[id].taskStartTime == m[id].taskStartTime &&
      (m[id].cancelled ==> m'[id].cancelled)
  }

  /** Changing only stop flags keeps the invariant. */
  lemma InvUnderStopFlags(s: Window, m: map<int, TaskThread>)
    requires Inv(s) && OnlyStopFlags(s.tasks, m)
    ensures Inv(s.(tasks := m))
  {
    var s' := s.(tasks := m);
    StrictlyByStartFrame(s.activeThreads, s.tasks, m);
    assert StatusMatches(s') by {
      forall y | InNoList(s', y) ensures s'.tasks[y].status == Terminated {
        assert InNoList(s, y);
      }
    }
  }

  /**
   * `StopTask(task, forced)` records `forced` and cancels the task, leaving lists, status, counter and
   * permits alone; stopping a task that is already cancelled changes only its forced flag.
   */
  lemma StopPreservesInv(s: Window, id: int, forced: bool)
    requires Inv(s)
    ensures var s' := StopTask(s, id, forced);
      Inv(s') &&
      s' == s.(tasks := s'.tasks) && s'.tasks.Keys == s.tasks.Keys &&
      (id in s.tasks ==>
        s'.tasks[id].cancelled && s'.tasks[id].isForcedStop == forced &&
        s'.tasks[id].status == s.tasks[id].status && s'.tasks[id].counter == s.tasks[id].counter &&
        s'.tasks[id].taskStartTime == s.tasks[id].taskStartTime) &&
      (id in s.tasks && s.tasks[id].cancelled ==>
        s'.tasks[id].(isForcedStop := s.tasks[id].isForcedStop) == s.tasks[id]) &&
      (forall y :: y in s.tasks && y != id ==> s'.tasks[y] == s.tasks[y])
  {
    InvUnderStopFlags(s, StopTask(s, id, forced).tasks);
  }

  /**
   * The `finally` of a task's loop: the permit count rises by one exactly when the stop was not forced,
   * and the task leaves the active list as Terminated with its counter unchanged.
   */
  lemma FinishPreservesInv(s: Window, id: int)
    requires Inv(s) && Enabled(s, Finish(id))
    ensures var s' := FinishTaskLoop(s, id);
      Inv(s') &&
      (s'.permits == s.permits + 1 <==> !s.tasks[id].isForcedStop) &&
      (s'.permits == s.permits <==> s.tasks[id].isForcedStop) &&
      id in s.activeThreads &&
      (forall y :: y in s'.activeThreads <==> y in s.activeThreads && y != id) &&
      s'.tasks[id] == s.tasks[id].(status := Terminated) &&
      s'.initializedThreads == s.initializedThreads && s'.pendingThreads == s.pendingThreads &&
      (forall y :: y in s.tasks && y != id ==> y in s'.tasks && s'.tasks[y] == s.tasks[y])
  {
    var s' := FinishTaskLoop(s, id);
    assert id in s.activeThreads;
    assert id !in s.initializedThreads && id !in s.pendingThreads;
    RemoveMembers(s.activeThreads, id);
    RemoveKeepsOrder(s.activeThreads, id, s.tasks);
    StrictlyByStartFrame(s'.activeThreads, s.tasks, s'.tasks);
    assert StatusMatches(s') by {
      forall y | InNoList(s', y) ensures s'.tasks[y].status == Terminated {
        if y != id {
          assert InNoList(s, y);
        }
      }
    }
    assert |s'.activeThreads| == |s.activeThreads| - 1;
  }

  /**
   * The limit change. Unparsable text changes nothing. Otherwise the limit becomes the new value and the
   * lists are untouched. A higher limit adds exactly the difference to the permits, unless the difference
   * overflows an `int`, and touches no task. A lower or equal one leaves the permits as they were, and an
   * equal one changes nothing at all.
   */
  lemma UpdateMaxPreservesInv(s: Window, parsed: Option<int>)
    requires Inv(s)
    ensures var s' := UpdateMax(s, parsed);
      Inv(s') &&
      (parsed.None? ==> s' == s) &&
      (parsed.Some? ==>
        s'.maxConcurrentTasks == parsed.value &&
        s'.initializedThreads == s.initializedThreads && s'.pendingThreads == s.pendingThreads &&
        s'.activeThreads == s.activeThreads &&
        (s.maxConcurrentTasks < parsed.value <= s.maxConcurrentTasks + Int32.MAX ==>
          s'.permits == s.permits + (parsed.value - s.maxConcurrentTasks)) &&
        (s.maxConcurrentTasks + Int32.MAX < parsed.value <= s.maxConcurrentTasks + 0xffff_ffff ==>
          s'.permits == s.permits) &&
        (parsed.value <= s.maxConcurrentTasks ==> s'.permits == s.permits) &&
        (parsed.value >= s.maxConcurrentTasks ==> s'.tasks == s.tasks) &&
        (parsed.value == s.maxConcurrentTasks ==> s' == s))
  {
    if parsed.Some? {
      var newMax := parsed.value;
      if newMax > s.maxConcurrentTasks {
        assert PermitsConserved(UpdateMax(s, parsed));
      } else if newMax < s.maxConcurrentTasks && Int32.Wrap(|s.activeThreads| - newMax) > 0 {
        VictimsOnlyStop(s, newMax);
      }
    }
  }

  /** Force-stopping the victims touches only stop flags. */
  lemma VictimsOnlyStop(s: Window, newMax: int)
    requires Inv(s) && newMax < s.maxConcurrentTasks && Int32.Wrap(|s.activeThreads| - newMax) > 0
    ensures Inv(UpdateMax(s, Some(newMax)))
  {
    var toStop := SortByStart(s.activeThreads, s.tasks);
    var n := VictimCount(|toStop|, newMax);
    var m := ForceStopAll(s.tasks, toStop[..n]);
    ForceStopAllSpec(s.tasks, toStop[..n]);
    assert OnlyStopFlags(s.tasks, m);
    InvUnderStopFlags(s, m);
    InvIgnoresLimit(s.(tasks := m), newMax);
    assert UpdateMax(s, Some(newMax)) == s.(tasks := m).(maxConcurrentTasks := newMax);
  }

  /** The invariant does not mention the limit. */
  lemma InvIgnoresLimit(s: Window, newMax: int)
    requires Inv(s)
    ensures Inv(s.(maxConcurrentTasks := newMax))
  {
  }

  /**
   * Victim selection when the limit is lowered: since active tasks are in admission order, the sorted copy
   * is the active list itself, and exactly its first `VictimCount` entries (the earliest-started tasks, all
   * of them for a negative limit) are marked forced and cancelled; every other task is untouched.
   */
  lemma UpdateMaxStopsEarliest(s: Window, newMax: int)
    requires Inv(s) && newMax < s.maxConcurrentTasks
    ensures var s' := UpdateMax(s, Some(newMax)); var k := VictimCount(|s.activeThreads|, newMax);
      k <= |s.activeThreads| &&
      (Int32.MIN <= |s.activeThreads| - newMax <= 0 ==> k == 0) &&
      (0 <= newMax < |s.activeThreads| && |s.activeThreads| - newMax <= Int32.MAX ==> k == |s.activeThreads| - newMax) &&
      (newMax < 0 && |s.activeThreads| - newMax <= Int32.MAX ==> k == |s.activeThreads|) &&
      (Int32.MAX < |s.activeThreads| - newMax && Int32.IsInt32(newMax) && |s.activeThreads| <= Int32.MAX ==> k == 0) &&
      SortByStart(s.activeThreads, s.tasks) == s.activeThreads &&
      s'.tasks.Keys == s.tasks.Keys &&
      (forall id :: id in s.tasks ==>
        s'.tasks[id] == if id in s.activeThreads[..k] then Stopped(s.tasks[id], true) else s.tasks[id]) &&
      (forall i, j :: 0 <= i < k <= j < |s.activeThreads| ==>
        s.tasks[s.activeThreads[i]].taskStartTime < s.tasks[s.activeThreads[j]].taskStartTime)
  {
    var k := VictimCount(|s.activeThreads|, newMax);
    SortByStartFixed(s.activeThreads, s.tasks);
    UpdateMaxForcesPrefix(s, newMax);
    ForceStopAllSpec(s.tasks, s.activeThreads[..k]);
    ActiveStartOrder(s, k);
  }

  /** The active tasks before position `k` all started before those from `k` on. */
  lemma ActiveStartOrder(s: Window, k: nat)
    requires Inv(s)
    ensures forall i, j :: 0 <= i < k <= j < |s.activeThreads| ==>
      s.activeThreads[i] in s.tasks && s.activeThreads[j] in s.tasks &&
      s.tasks[s.activeThreads[i]].taskStartTime < s.tasks[s.activeThreads[j]].taskStartTime
  {
    var a := s.activeThreads;
    assert forall id :: id in a ==> id in s.tasks;
    assert forall i, j :: 0 <= i < j < |a| ==> StartOf(s.tasks, a[i]) < StartOf(s.tasks, a[j]);
    forall i, j | 0 <= i < k <= j < |a|
      ensures a[i] in s.tasks && a[j] in s.tasks && s.tasks[a[i]].taskStartTime < s.tasks[a[j]].taskStartTime
    {
      assert a[i] in a && a[j] in a;
      assert StartOf(s.tasks, a[i]) < StartOf(s.tasks, a[j]);
    }
  }

  /**
   * Lowering the limit stops as many entries of the sorted copy as the victim loop reaches for the wrapped
   * excess, and changes nothing else.
   */
  lemma UpdateMaxLowering(s: Window, newMax: int)
    requires newMax < s.maxConcurrentTasks
    ensures var toStop := SortByStart(s.activeThreads, s.tasks);
      UpdateMax(s, Some(newMax)) ==
        s.(maxConcurrentTasks := newMax).(tasks :=
          ForceStopAll(s.tasks, toStop[..Victims(Int32.Wrap(|s.activeThreads| - newMax), |toStop|)]))
  {
    var toStop := SortByStart(s.activeThreads, s.tasks);
    SortByStartSpec(s.activeThreads, s.tasks);
    if Int32.Wrap(|s.activeThreads| - newMax) <= 0 {
      assert toStop[..0] == [];
    }
  }

  /** Lowering the limit force-stops the first `VictimCount` active tasks, whichever way the wrapped excess falls. */
  lemma UpdateMaxForcesPrefix(s: Window, newMax: int)
    requires StrictlyByStart(s.activeThreads, s.tasks) && newMax < s.maxConcurrentTasks
    ensures UpdateMax(s, Some(newMax)).tasks ==
      ForceStopAll(s.tasks, s.activeThreads[..VictimCount(|s.activeThreads|, newMax)])
  {
    if Int32.Wrap(|s.activeThreads| - newMax) > 0 {
      ForcesPrefixWhenExcess(s, newMax);
    } else {
      ForcesPrefixWithoutExcess(s, newMax);
    }
  }

  lemma ForcesPrefixWhenExcess(s: Window, newMax: int)
    requires StrictlyByStart(s.activeThreads, s.tasks) && newMax < s.maxConcurrentTasks
    requires Int32.Wrap(|s.activeThreads| - newMax) > 0
    ensures UpdateMax(s, Some(newMax)).tasks ==
      ForceStopAll(s.tasks, s.activeThreads[..VictimCount(|s.activeThreads|, newMax)])
  {
    SortByStartFixed(s.activeThreads, s.tasks);
    var s1 := s.(maxConcurrentTasks := newMax);
    assert UpdateMax(s, Some(newMax)) ==
      s1.(tasks := ForceStopAll(s1.tasks, s.activeThreads[..VictimCount(|s.activeThreads|, newMax)]));
  }

  lemma ForcesPrefixWithoutExcess(s: Window, newMax: int)
    requires StrictlyByStart(s.activeThreads, s.tasks) && newMax < s.maxConcurrentTasks
    requires Int32.Wrap(|s.activeThreads| - newMax) <= 0
    ensures UpdateMax(s, Some(newMax)).tasks ==
      ForceStopAll(s.tasks, s.activeThreads[..VictimCount(|s.activeThreads|, newMax)])
  {
    assert VictimCount(|s.activeThreads|, newMax) == 0;
    assert s.activeThreads[..0] == [];
  }

  /** Number of listed tasks whose token is not cancelled. */
  ghost function LiveCount(xs: seq<int>, tasks: map<int, TaskThread>): nat
  {
    if xs == [] then 0
    else LiveCount(xs[..|xs| - 1], tasks) + (if xs[|xs| - 1] in tasks && !tasks[xs[|xs| - 1]].cancelled then 1 else 0)
  }

  lemma {:induction false} LiveCountBound(xs: seq<int>, k: nat, tasks: map<int, TaskThread>)
    requires k <= |xs|
    requires forall i :: 0 <= i < k ==> xs[i] in tasks && tasks[xs[i]].cancelled
    ensures LiveCount(xs, tasks) <= |xs| - k
  {
    if xs != [] {
      var init := xs[..|xs| - 1];
      if k == |xs| {
        LiveCountBound(init, k - 1, tasks);
      } else {
        LiveCountBound(init, k, tasks);
      }
    }
  }

  /**
   * After the limit is lowered to `newMax`, at most `newMax` active tasks (none for a negative limit) are
   * still uncancelled, as long as `Count - newMax` fits an `int`; when it does not, the wrapped `excess` is
   * negative and no task is touched.
   */
  lemma UpdateMaxLeavesLive(s: Window, newMax: int)
    requires Inv(s) && newMax < s.maxConcurrentTasks
    ensures var s' := UpdateMax(s, Some(newMax));
      (|s.activeThreads| - newMax <= Int32.MAX ==>
        LiveCount(s'.activeThreads, s'.tasks) <= if newMax >= 0 then newMax else 0) &&
      (Int32.MAX < |s.activeThreads| - newMax && Int32.IsInt32(newMax) && |s.activeThreads| <= Int32.MAX ==>
        s'.tasks == s.tasks)
  {
    var s' := UpdateMax(s, Some(newMax));
    var k := VictimCount(|s.activeThreads|, newMax);
    UpdateMaxStopsEarliest(s, newMax);
    UpdateMaxPreservesInv(s, Some(newMax));
    forall i | 0 <= i < k ensures s'.activeThreads[i] in s'.tasks && s'.tasks[s'.activeThreads[i]].cancelled {
      assert s.activeThreads[i] in s.activeThreads[..k];
    }
    LiveCountBound(s'.activeThreads, k, s'.tasks);
    if Int32.MAX < |s.activeThreads| - newMax && Int32.IsInt32(newMax) && |s.activeThreads| <= Int32.MAX {
      assert k == 0;
      assert s'.tasks == s.tasks;
    }
  }

  /** Every step keeps the invariant. */
  lemma StepPreservesInv(s: Window, e: Event)
    requires Inv(s) && Enabled(s, e)
    ensures Inv(Apply(s, e))
  {
    match e
    case Create => CreatePreservesInv(s);
    case Enqueue(id) => EnqueuePreservesInv(s, id);
    case Admit(id) => AdmitPreservesInv(s, id);
    case Tick(id) => TickPreservesInv(s, id);
    case Stop(id, forced) => StopPreservesInv(s, id, forced);
    case Finish(id) => FinishPreservesInv(s, id);
    case Resize(parsed) => UpdateMaxPreservesInv(s, parsed);
  }

  /** Every state reachable from the window's construction satisfies the invariant. */
  lemma {:induction false} RunPreservesInv(s: Window, es: seq<Event>)
    requires Inv(s) && Runnable(s, es)
    ensures Inv(Run(s, es))
    decreases |es|
  {
    if es != [] {
      StepPreservesInv(s, es[0]);
      RunPreservesInv(Apply(s, es[0]), es[1..]);
    }
  }

  lemma ReachableInv(parsed: Option<int>, es: seq<Event>)
    requires InitialLimit(parsed) >= 0 && Runnable(Init(parsed), es)
    ensures Inv(Run(Init(parsed), es))
  {
    InitEstablishesInv(parsed);
    RunPreservesInv(Init(parsed), es);
  }

  /**
   * A task moves forward only: it keeps its id, its status never goes back (so Terminated is never left),
   * its counter never decreases and rises by at most one per step, a terminated task's counter is frozen,
   * its start stamp is fixed once it is admitted, and cancellation is never undone.
   */
  ghost predicate Advances(t: TaskThread, t': TaskThread)
  {
    t'.taskId == t.taskId &&
    Rank(t.status) <= Rank(t'.status) &&
    t.counter <= t'.counter <= t.counter + 1 &&
    (t.status == Terminated ==> t'.status == Terminated && t'.counter == t.counter) &&
    (Rank(t.status) >= 2 ==> t'.taskStartTime == t.taskStartTime) &&
    (t.cancelled ==> t'.cancelled)
  }

  /** No step of the window moves a task backwards or forgets it, and ids are never reused. */
  lemma StepAdvances(s: Window, e: Event)
    requires Inv(s) && Enabled(s, e)
    ensures var s' := Apply(s, e);
      s'.nextTaskId >= s.nextTaskId &&
      (forall id :: id in s.tasks ==> id in s'.tasks && Advances(s.tasks[id], s'.tasks[id])) &&
      (forall id :: id in s'.tasks && id !in s.tasks ==> id >= s.nextTaskId)
  {
    var s' := Apply(s, e);
    match e
    case Create => CreatePreservesInv(s);
    case Enqueue(id) => EnqueuePreservesInv(s, id);
    case Admit(id) => AdmitPreservesInv(s, id);
    case Tick(id) =>
      TickPreservesInv(s, id);
      assert s.tasks[id].status != Terminated;
    case Stop(id, forced) => StopPreservesInv(s, id, forced);
    case Finish(id) => FinishPreservesInv(s, id);
    case Resize(parsed) =>
      UpdateMaxPreservesInv(s, parsed);
      if parsed.Some? && parsed.value < s.maxConcurrentTasks {
        UpdateMaxStopsEarliest(s, parsed.value);
      }
  }
}
