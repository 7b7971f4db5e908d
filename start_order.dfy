/**
 * Ordering of tasks by their start stamp, as used by the victim selection of the limit change:
 * a sorted copy of the active list, and force-stopping a prefix of it.
 */
module StartOrder {

  import opened TaskThreads
  import Collections

  /** Start stamp of a task; an id without a task record reads as the default stamp 0. */
  function StartOf(tasks: map<int, TaskThread>, id: int): int
  {
    if id in tasks then tasks[id].taskStartTime else 0
  }

  /** The list is in ascending order of start stamps. */
  ghost predicate ByStart(xs: seq<int>, tasks: map<int, TaskThread>)
  {
    forall i, j :: 0 <= i < j < |xs| ==> StartOf(tasks, xs[i]) <= StartOf(tasks, xs[j])
  }

  /** The list is in strictly ascending order of start stamps (so no two entries share a stamp). */
  ghost predicate StrictlyByStart(xs: seq<int>, tasks: map<int, TaskThread>)
  {
    forall i, j :: 0 <= i < j < |xs| ==> StartOf(tasks, xs[i]) < StartOf(tasks, xs[j])
  }

  function Insert(x: int, ys: seq<int>, tasks: map<int, TaskThread>): seq<int>
  {
    if ys == [] then [x]
    else if StartOf(tasks, x) <= StartOf(tasks, ys[0]) then [x] + ys
    else [ys[0]] + Insert(x, ys[1..], tasks)
  }

  /** `List.Sort` with the comparison of start times: a sort of the ids by their start stamps. */
  function SortByStart(xs: seq<int>, tasks: map<int, TaskThread>): seq<int>
  {
    if xs == [] then [] else Insert(xs[0], SortByStart(xs[1..], tasks), tasks)
  }

  /** `ByStart` for `strict == false`, `StrictlyByStart` for `strict == true`. */
  ghost predicate Ordered(xs: seq<int>, tasks: map<int, TaskThread>, strict: bool)
  {
    if strict then StrictlyByStart(xs, tasks) else ByStart(xs, tasks)
  }

  /** Task `a` starts before task `b`, strictly or not. */
  predicate Precedes(tasks: map<int, TaskThread>, a: int, b: int, strict: bool)
  {
    if strict then StartOf(tasks, a) < StartOf(tasks, b) else StartOf(tasks, a) <= StartOf(tasks, b)
  }

  /** A list headed by `a` is in start order when its tail is and `a` precedes every entry of the tail. */
  lemma ConsOrdered(a: int, r: seq<int>, tasks: map<int, TaskThread>, strict: bool)
    requires Ordered(r, tasks, strict)
    requires forall y :: y in r ==> Precedes(tasks, a, y, strict)
    ensures Ordered([a] + r, tasks, strict)
  {
    var full := [a] + r;
    forall i, j | 0 <= i < j < |full| ensures Precedes(tasks, full[i], full[j], strict) {
      assert full[j] == r[j - 1];
      assert r[j - 1] in r;
      if i > 0 {
        assert full[i] == r[i - 1];
      }
    }
  }

  /** The tail of a list in start order is in start order, and its head precedes every entry of it. */
  lemma TailOrdered(xs: seq<int>, tasks: map<int, TaskThread>, strict: bool)
    requires xs != [] && Ordered(xs, tasks, strict)
    ensures Ordered(xs[1..], tasks, strict)
    ensures forall y :: y in xs[1..] ==> Precedes(tasks, xs[0], y, strict)
  {
    var tail := xs[1..];
    forall i, j | 0 <= i < j < |tail| ensures Precedes(tasks, tail[i], tail[j], strict) {
      assert tail[i] == xs[i + 1] && tail[j] == xs[j + 1];
    }
    forall y | y in tail ensures Precedes(tasks, xs[0], y, strict) {
      var k :| 0 <= k < |tail| && tail[k] == y;
      assert xs[k + 1] == y;
    }
  }

  /** Inserting `x` into a list in ascending start order keeps it in order and adds exactly `x`. */
  lemma {:induction false} InsertSpec(x: int, ys: seq<int>, tasks: map<int, TaskThread>)
    requires ByStart(ys, tasks)
    ensures ByStart(Insert(x, ys, tasks), tasks)
    ensures multiset(Insert(x, ys, tasks)) == multiset(ys) + multiset{x}
  {
    if ys == [] {
    } else if StartOf(tasks, x) <= StartOf(tasks, ys[0]) {
      TailOrdered(ys, tasks, false);
      ConsOrdered(x, ys, tasks, false);
    } else {
      var tail := ys[1..];
      TailOrdered(ys, tasks, false);
      InsertSpec(x, tail, tasks);
      var ins := Insert(x, tail, tasks);
      assert ys == [ys[0]] + tail;
      forall y | y in ins ensures StartOf(tasks, ys[0]) <= StartOf(tasks, y) {
        assert y in multiset(ins);
        assert y == x || y in multiset(tail);
      }
      ConsOrdered(ys[0], ins, tasks, false);
    }
  }

  /** The sorted copy is in ascending start order and holds exactly the ids of the original list. */
  lemma {:induction false} SortByStartSpec(xs: seq<int>, tasks: map<int, TaskThread>)
    ensures ByStart(SortByStart(xs, tasks), tasks)
    ensures multiset(SortByStart(xs, tasks)) == multiset(xs)
    ensures |SortByStart(xs, tasks)| == |xs|
  {
    if xs != [] {
      SortByStartSpec(xs[1..], tasks);
      InsertSpec(xs[0], SortByStart(xs[1..], tasks), tasks);
      assert xs == [xs[0]] + xs[1..];
    }
    assert |multiset(SortByStart(xs, tasks))| == |SortByStart(xs, tasks)|;
  }

  /** A list whose stamps are already strictly ascending is its own sorted copy. */
  lemma {:induction false} SortByStartFixed(xs: seq<int>, tasks: map<int, TaskThread>)
    requires StrictlyByStart(xs, tasks)
    ensures SortByStart(xs, tasks) == xs
  {
    if xs != [] {
      var tail := xs[1..];
      TailOrdered(xs, tasks, true);
      SortByStartFixed(tail, tasks);
      if tail != [] {
        assert tail[0] == xs[1];
        assert tail[0] in tail;
      }
      assert xs == [xs[0]] + tail;
    }
  }

  /** Removing one id keeps a strictly ascending list strictly ascending. */
  lemma {:induction false} RemoveKeepsOrder(xs: seq<int>, x: int, tasks: map<int, TaskThread>)
    requires StrictlyByStart(xs, tasks)
    ensures StrictlyByStart(Collections.Remove(xs, x), tasks)
  {
    if xs != [] {
      TailOrdered(xs, tasks, true);
      if xs[0] != x {
        RemoveKeepsOrder(xs[1..], x, tasks);
        ConsOrdered(xs[0], Collections.Remove(xs[1..], x), tasks, true);
      }
    }
  }

  /** Order by start stamps depends only on the stamps of the listed ids. */
  lemma StrictlyByStartFrame(xs: seq<int>, tasks: map<int, TaskThread>, tasks': map<int, TaskThread>)
    requires StrictlyByStart(xs, tasks)
    requires forall y :: y in xs ==> StartOf(tasks, y) == StartOf(tasks', y)
    ensures StrictlyByStart(xs, tasks')
  {
    forall i, j | 0 <= i < j < |xs| ensures StartOf(tasks', xs[i]) < StartOf(tasks', xs[j]) {
      assert xs[i] in xs && xs[j] in xs;
    }
  }

  /** Appending an id whose stamp is later than every listed one keeps the list strictly ascending. */
  lemma AppendLater(xs: seq<int>, x: int, tasks: map<int, TaskThread>)
    requires StrictlyByStart(xs, tasks)
    requires forall y :: y in xs ==> StartOf(tasks, y) < StartOf(tasks, x)
    ensures StrictlyByStart(xs + [x], tasks)
  {
    var ys := xs + [x];
    forall i, j | 0 <= i < j < |ys| ensures StartOf(tasks, ys[i]) < StartOf(tasks, ys[j]) {
      assert ys[i] == xs[i];
      assert xs[i] in xs;
      if j < |xs| {
        assert ys[j] == xs[j];
      }
    }
  }

  /**
   * The `for` loop of the limit change: `StopTask(ids[i], true)` for i = 0, 1, ... in order,
   * written so that each call extends the previous prefix by one id.
   */
  function ForceStopAll(tasks: map<int, TaskThread>, ids: seq<int>): map<int, TaskThread>
    decreases |ids|
  {
    if ids == [] then tasks
    else StopIn(ForceStopAll(tasks, ids[..|ids| - 1]), ids[|ids| - 1], true)
  }

  /** Every listed task ends forced and cancelled with its other fields untouched; every other task is untouched. */
  lemma {:induction false} ForceStopAllSpec(tasks: map<int, TaskThread>, ids: seq<int>)
    ensures ForceStopAll(tasks, ids).Keys == tasks.Keys
    ensures forall id :: id in tasks ==>
      ForceStopAll(tasks, ids)[id] == if id in ids then Stopped(tasks[id], true) else tasks[id]
    decreases |ids|
  {
    if ids != [] {
      var init := ids[..|ids| - 1];
      var last := ids[|ids| - 1];
      ForceStopAllSpec(tasks, init);
      assert ids == init + [last];
      forall id | id in tasks
        ensures ForceStopAll(tasks, ids)[id] == if id in ids then Stopped(tasks[id], true) else tasks[id]
      {
        assert id in ids <==> id in init || id == last;
      }
    }
  }
}
