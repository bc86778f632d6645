/** Shutdown in virtual time (`src/server.rs` `drain_project_loops`, `drain_join_set` and the end of `run`).

    A task finishes by itself at a given instant or never; an abort takes effect at once. */
module Drain {
  import opened Common

  const SHUTDOWN_DRAIN: nat := 5 * NANOS

  /** When each task finishes by itself. */
  type Tasks = map<nat, Option<nat>>

  predicate FinishesBy(t: Option<nat>, at: nat) { t.Some? && t.value <= at }

  function TimelyOf(tasks: Tasks, ids: set<nat>, deadline: nat): set<nat>
    requires ids <= tasks.Keys
  {
    set k | k in ids && FinishesBy(tasks[k], deadline)
  }

  /** The tasks that finish by themselves by the deadline. */
  function Timely(tasks: Tasks, deadline: nat): set<nat> { TimelyOf(tasks, tasks.Keys, deadline) }

  function Late(tasks: Tasks, deadline: nat): set<nat> { tasks.Keys - Timely(tasks, deadline) }

  lemma TimelyMeans(tasks: Tasks, deadline: nat, k: nat)
    ensures k in Timely(tasks, deadline) <==> k in tasks && tasks[k].Some? && tasks[k].value <= deadline
    ensures k in Late(tasks, deadline) <==> k in tasks && (tasks[k].None? || tasks[k].value > deadline)
  {
  }

  /** The drain ends when the last timely task has finished, or at the deadline if some task is late; never later, and
      not before it starts. */
  ghost predicate EndsRight(tasks: Tasks, start: nat, deadline: nat, end: nat) {
    && start <= end
    && (forall k :: k in Timely(tasks, deadline) ==> tasks[k].value <= end)
    && (if Late(tasks, deadline) == {}
        then end == start || exists k :: k in tasks && tasks[k] == Some(end)
        else end == Max(start, deadline))
  }

  /** Some task of `left` with the earliest finishing time, if any of them ever finishes. */
  method Earliest(tasks: Tasks, left: set<nat>) returns (first: Option<nat>)
    requires left <= tasks.Keys
    ensures first.Some? ==> first.value in left && tasks[first.value].Some?
    ensures first.Some? ==> forall k :: k in left && tasks[k].Some? ==> tasks[first.value].value <= tasks[k].value
    ensures first.None? ==> forall k :: k in left ==> tasks[k].None?
  {
    first := None;
    var todo := left;
    while todo != {}
      invariant todo <= left
      invariant first.Some? ==> first.value in left && tasks[first.value].Some?
      invariant first.Some? ==>
                  forall k :: k in left - todo && tasks[k].Some? ==> tasks[first.value].value <= tasks[k].value
      invariant first.None? ==> forall k :: k in left - todo ==> tasks[k].None?
      decreases todo
    {
      var k :| k in todo;
      if tasks[k].Some? && (first.None? || tasks[k].value < tasks[first.value].value) {
        first := Some(k);
      }
      todo := todo - {k};
    }
  }

  /** All of `joined` have finished by `end`, and `end` is no later than it had to be. */
  ghost predicate JoinedBy(tasks: Tasks, joined: set<nat>, start: nat, end: nat) {
    && joined <= tasks.Keys && start <= end
    && (forall k :: k in joined ==> FinishesBy(tasks[k], end))
    && (end == start || exists k :: k in joined && tasks[k] == Some(end))
  }

  lemma JoinOne(tasks: Tasks, joined: set<nat>, start: nat, end: nat, k: nat)
    requires JoinedBy(tasks, joined, start, end) && k in tasks && tasks[k].Some?
    ensures JoinedBy(tasks, joined + {k}, start, Max(end, tasks[k].value))
  {
    if end != start && tasks[k].value < end {
      var j :| j in joined && tasks[j] == Some(end);
      assert j in joined + {k};
    }
    if tasks[k].value >= end { assert k in joined + {k}; }
  }

  lemma AllJoined(tasks: Tasks, start: nat, end: nat, deadline: nat)
    requires JoinedBy(tasks, tasks.Keys, start, end) && end <= deadline
    ensures Timely(tasks, deadline) == tasks.Keys && Late(tasks, deadline) == {}
    ensures EndsRight(tasks, start, deadline, end)
  {
  }

  /** The limit strikes when no remaining task finishes before it. */
  lemma LimitStrikes(tasks: Tasks, left: set<nat>, start: nat, end: nat, deadline: nat)
    requires left <= tasks.Keys && left != {} && end <= deadline
    requires JoinedBy(tasks, tasks.Keys - left, start, end)
    requires forall k :: k in left && tasks[k].Some? ==> Max(end, tasks[k].value) >= deadline
    ensures EndsRight(tasks, start, deadline, deadline)
    ensures Timely(tasks, deadline) == (tasks.Keys - left) + TimelyOf(tasks, left, deadline)
    ensures Late(tasks, deadline) == left - TimelyOf(tasks, left, deadline)
  {
    forall k | k in tasks.Keys - left ensures FinishesBy(tasks[k], deadline) {
    }
    if Late(tasks, deadline) == {} && end < deadline {
      var k :| k in left;
      assert k !in Late(tasks, deadline);
      assert tasks[k] == Some(deadline);
    }
  }

  /** At the limit: tasks that have finished by now are joined, all others are aborted. */
  method AbortRest(tasks: Tasks, left: set<nat>, start: nat, now: nat, deadline: nat)
    returns (completed: set<nat>, aborted: set<nat>)
    requires left <= tasks.Keys && left != {} && now <= deadline
    requires JoinedBy(tasks, tasks.Keys - left, start, now)
    requires forall k :: k in left && tasks[k].Some? ==> Max(now, tasks[k].value) >= deadline
    ensures completed == Timely(tasks, deadline) && aborted == Late(tasks, deadline)
    ensures EndsRight(tasks, start, deadline, deadline)
  {
    LimitStrikes(tasks, left, start, now, deadline);
    completed := (tasks.Keys - left) + TimelyOf(tasks, left, deadline);
    aborted := left - TimelyOf(tasks, left, deadline);
  }

  /** One turn of `select!`: the next task to join, or none when the limit is taken. */
  method SelectNext(tasks: Tasks, left: set<nat>, now: nat, deadline: nat, preferTask: bool) returns (next: Option<nat>)
    requires left <= tasks.Keys && now <= deadline
    ensures next.Some? ==> next.value in left && tasks[next.value].Some?
    ensures next.Some? ==> Max(now, tasks[next.value].value) <= deadline
    ensures next.None? ==> forall k :: k in left && tasks[k].Some? ==> Max(now, tasks[k].value) >= deadline
  {
    next := Earliest(tasks, left);
    if next.Some? {
      var ready := Max(now, tasks[next.value].value);
      if ready > deadline || (ready == deadline && !preferTask) {
        next := None;
      }
    }
  }

  /** `drain_join_set`: join tasks as they finish until none is left or the limit strikes, then abort the rest. When a
      task and the limit are ready together, `preferTask` says which one `select!` happens to take. */
  method DrainJoinSet(tasks: Tasks, start: nat, limit: nat, preferTask: nat -> bool)
    returns (end: nat, completed: set<nat>, aborted: set<nat>)
    ensures completed == Timely(tasks, start + limit) && aborted == Late(tasks, start + limit)
    ensures EndsRight(tasks, start, start + limit, end) && end <= start + limit
  {
    var deadline := start + limit;
    end, completed, aborted := start, {}, {};
    var left, round := tasks.Keys, 0;
    while left != {}
      invariant left <= tasks.Keys && completed == tasks.Keys - left
      invariant JoinedBy(tasks, completed, start, end) && end <= deadline
      decreases left
    {
      var next := SelectNext(tasks, left, end, deadline, preferTask(round));
      if next.None? {
        completed, aborted := AbortRest(tasks, left, start, end, deadline);
        end := deadline;
        return;
      }
      JoinOne(tasks, completed, start, end, next.value);
      assert completed + {next.value} == tasks.Keys - (left - {next.value});
      end, completed, left := Max(end, tasks[next.value].value), completed + {next.value}, left - {next.value};
      round := round + 1;
    }
    assert completed == tasks.Keys;
    AllJoined(tasks, start, end, deadline);
  }

  /** `drain_project_loops`: one shared deadline over all handles, in whatever order the map yields them. */
  method DrainProjectLoops(handles: seq<nat>, tasks: Tasks, start: nat, deadline: nat)
    returns (end: nat, completed: set<nat>, aborted: set<nat>)
    requires start <= deadline && Distinct(handles) && Elements(handles) == tasks.Keys
    ensures completed == Timely(tasks, deadline) && aborted == Late(tasks, deadline)
    ensures EndsRight(tasks, start, deadline, end) && end <= deadline
  {
    end, completed, aborted := start, {}, {};
    for i := 0 to |handles|
      invariant completed == (set k | k in Timely(tasks, deadline) && k in handles[..i])
      invariant aborted == (set k | k in Late(tasks, deadline) && k in handles[..i])
      invariant start <= end <= deadline
      invariant forall k :: k in completed ==> tasks[k].value <= end
      invariant aborted == {} ==> end == start || exists k :: k in completed && tasks[k] == Some(end)
      invariant aborted != {} ==> end == deadline
    {
      var h := handles[i];
      assert h in Elements(handles);
      assert handles[..i + 1] == handles[..i] + [h];
      if FinishesBy(tasks[h], deadline) {
        ghost var was := end;
        end := Max(end, tasks[h].value);
        completed := completed + {h};
        assert h in completed;
      } else {
        end := deadline;
        aborted := aborted + {h};
        assert h in aborted;
      }
    }
    assert handles[..|handles|] == handles;
    assert forall k :: k in tasks ==> k in Elements(handles);
  }

  /** Two drains in a row, under one deadline, are a drain of all tasks. */
  lemma DrainsInARow(a: Tasks, b: Tasks, start: nat, mid: nat, deadline: nat, end: nat)
    requires a.Keys !! b.Keys && start <= mid <= deadline && end <= deadline
    requires EndsRight(a, start, deadline, mid) && EndsRight(b, mid, deadline, end)
    ensures Timely(a + b, deadline) == Timely(a, deadline) + Timely(b, deadline)
    ensures Late(a + b, deadline) == Late(a, deadline) + Late(b, deadline)
    ensures EndsRight(a + b, start, deadline, end)
  {
    var all := a + b;
    assert forall k :: k in a ==> all[k] == a[k];
    assert forall k :: k in b ==> all[k] == b[k];
    assert Timely(all, deadline) == Timely(a, deadline) + Timely(b, deadline);
    assert Late(all, deadline) == Late(a, deadline) + Late(b, deadline);
    if Late(all, deadline) == {} && end != start {
      if end != mid {
        var k :| k in b && b[k] == Some(end);
        assert k in all && all[k] == Some(end);
      } else {
        var k :| k in a && a[k] == Some(end);
        assert k in all && all[k] == Some(end);
      }
    }
  }

  /** The drain part of `run`: project loops first, then the admin connections with what is left of the budget. For any
      number of tasks and any finishing times it ends within the 5 seconds, and a task is aborted exactly when it
      would not have finished by the one shared deadline. */
  method Shutdown(start: nat, handles: seq<nat>, loops: Tasks, connections: Tasks, preferTask: nat -> bool)
    returns (end: nat, completed: set<nat>, aborted: set<nat>)
    requires Distinct(handles) && Elements(handles) == loops.Keys && loops.Keys !! connections.Keys
    ensures start <= end <= start + 5_000_000_000
    ensures completed == Timely(loops + connections, start + 5_000_000_000)
    ensures aborted == Late(loops + connections, start + 5_000_000_000)
    ensures completed + aborted == loops.Keys + connections.Keys && completed !! aborted
    ensures aborted != {} ==> end == start + 5_000_000_000
    ensures EndsRight(loops + connections, start, start + 5_000_000_000, end)
  {
    var deadline := start + SHUTDOWN_DRAIN;
    var t, loopsDone, loopsAborted := DrainProjectLoops(handles, loops, start, deadline);
    var remaining := if deadline >= t then deadline - t else 0;
    var connsDone, connsAborted;
    end, connsDone, connsAborted := DrainJoinSet(connections, t, remaining, preferTask);
    completed, aborted := loopsDone + connsDone, loopsAborted + connsAborted;
    DrainsInARow(loops, connections, start, t, deadline, end);
  }
}
