/** What registry, task handle, socket file and accept loops of a name are after any run, however operations on the
    name overlap: each is what the last step that touched it left. */
module Overlap {
  import opened Common
  import opened Lifecycle

  // ---- exactly when an unregister deletes a live project's socket -----------------------------------

  predicate RegistersAt(s: State, st: Step, n: string) { Commits(s, st) && st.name == n }

  predicate LeavesAt(s: State, st: Step, n: string) { st.UnregisterCommit? && st.name == n }

  /** Step `c` registered the name and no step before `r` took it out. */
  ghost predicate RegisteredSince(ss: seq<State>, sts: seq<Step>, n: string, c: nat, r: nat)
    requires c < r <= |sts| < |ss|
  {
    RegistersAt(ss[c], sts[c], n) && forall k :: c < k < r ==> !LeavesAt(ss[k], sts[k], n)
  }

  /** At or after `start` and before `r` the name was registered and not taken out since. */
  ghost predicate RegisteredFrom(ss: seq<State>, sts: seq<Step>, n: string, start: nat, r: nat)
    requires r <= |sts| < |ss|
  {
    exists c: nat :: start <= c < r && RegisteredSince(ss, sts, n, c, r)
  }

  lemma RegistryEffect(s: State, st: Step, n: string)
    requires Enabled(s, st)
    ensures n in Apply(s, st).registry <==>
            RegistersAt(s, st, n) || (n in s.registry && !LeavesAt(s, st, n))
    ensures RegistersAt(s, st, n) ==> Apply(s, st).registry[n] == st.inc && n !in s.registry
    ensures n in s.registry && n in Apply(s, st).registry ==> Apply(s, st).registry[n] == s.registry[n]
  {
  }

  lemma RegisteredNext(ss: seq<State>, sts: seq<Step>, n: string, start: nat, r: nat)
    requires start <= r < |sts| < |ss|
    ensures RegisteredFrom(ss, sts, n, start, r + 1) <==>
            RegistersAt(ss[r], sts[r], n) || (RegisteredFrom(ss, sts, n, start, r) && !LeavesAt(ss[r], sts[r], n))
  {
    if RegistersAt(ss[r], sts[r], n) {
      assert RegisteredSince(ss, sts, n, r, r + 1);
    } else if RegisteredFrom(ss, sts, n, start, r + 1) {
      var c: nat :| start <= c < r + 1 && RegisteredSince(ss, sts, n, c, r + 1);
      assert !LeavesAt(ss[r], sts[r], n) && RegisteredSince(ss, sts, n, c, r);
    } else if RegisteredFrom(ss, sts, n, start, r) && !LeavesAt(ss[r], sts[r], n) {
      var c: nat :| start <= c < r && RegisteredSince(ss, sts, n, c, r);
      assert RegisteredSince(ss, sts, n, c, r + 1);
    }
  }

  lemma {:induction false} InRegistryIff(ss: seq<State>, sts: seq<Step>, n: string, start: nat, r: nat)
    requires Run(ss, sts) && start <= r <= |sts| && n !in ss[start].registry
    ensures n in ss[r].registry <==> RegisteredFrom(ss, sts, n, start, r)
    decreases r
  {
    if r > start {
      assert StepAt(ss, sts, r - 1);
      RegistryEffect(ss[r - 1], sts[r - 1], n);
      InRegistryIff(ss, sts, n, start, r - 1);
      RegisteredNext(ss, sts, n, start, r - 1);
    }
  }

  lemma {:induction false} RegisteredInc(ss: seq<State>, sts: seq<Step>, n: string, c: nat, r: nat)
    requires Run(ss, sts) && c < r <= |sts| && RegisteredSince(ss, sts, n, c, r)
    ensures n in ss[r].registry && ss[r].registry[n] == sts[c].inc
    decreases r
  {
    assert StepAt(ss, sts, r - 1);
    RegistryEffect(ss[r - 1], sts[r - 1], n);
    if r > c + 1 {
      assert RegisteredSince(ss, sts, n, c, r - 1);
      RegisteredInc(ss, sts, n, c, r - 1);
    }
  }

  /** In any interleaving, the last step of an unregister leaves a registered project without its socket exactly when
      the name was registered again after the unregister had taken it out of the registry. */
  lemma UnregisterDeletesLiveSocketIff(ss: seq<State>, sts: seq<Step>, n: string, u: nat, r: nat)
    requires Run(ss, sts) && u < r < |sts|
    requires sts[u].UnregisterCommit? && sts[u].name == n
    requires sts[r].RemoveSocket? && sts[r].ok && sts[r].op == sts[u].op
    ensures n in ss[r + 1].registry && n !in ss[r + 1].files <==> RegisteredFrom(ss, sts, n, u + 1, r)
  {
    assert StepAt(ss, sts, u);
    InRegistryIff(ss, sts, n, u + 1, r);
    assert StepAt(ss, sts, r);
    OpForward(ss, sts, sts[u].op, u + 1, r);
  }

  // ---- how operations and handles move ---------------------------------------------------------------

  function Stage(o: Op): nat {
    match o
    case Committed(_, _) => 0
    case Spawned(_, _) => 1
    case Registered(_) => 2
    case Taken(_, _) => 0
    case Draining(_, _, _) => 1
    case Drained(_, _) => 2
    case Unregistered(_) => 3
    case Refused(_) => 0
  }

  lemma OpEffect(s: State, st: Step, op: nat)
    requires Enabled(s, st) && op in s.ops
    ensures op in Apply(s, st).ops && Apply(s, st).ops[op].name == s.ops[op].name
    ensures Apply(s, st).ops[op] == s.ops[op] || Stage(Apply(s, st).ops[op]) > Stage(s.ops[op])
  {
  }

  /** An operation keeps its name and only moves forward. */
  lemma {:induction false} OpForward(ss: seq<State>, sts: seq<Step>, op: nat, i: nat, j: nat)
    requires Run(ss, sts) && i <= j < |ss| && op in ss[i].ops
    ensures op in ss[j].ops && ss[j].ops[op].name == ss[i].ops[op].name
    ensures ss[j].ops[op] == ss[i].ops[op] || Stage(ss[j].ops[op]) > Stage(ss[i].ops[op])
    decreases j
  {
    if i < j {
      OpForward(ss, sts, op, i, j - 1);
      assert StepAt(ss, sts, j - 1);
      OpEffect(ss[j - 1], sts[j - 1], op);
    }
  }

  /** Where the join handle of a loop is. */
  datatype Place = InTasks | InOp(op: nat)

  predicate Holds(s: State, l: Loop, p: Place) {
    match p
    case InTasks => l.name in s.tasks && s.tasks[l.name] == l.inc
    case InOp(op) =>
      && op in s.ops
      && (s.ops[op] == Committed(l.name, l.inc) || s.ops[op] == Spawned(l.name, l.inc)
          || (s.ops[op].Draining? && s.ops[op].name == l.name && s.ops[op].handle == Some(l.inc)))
  }

  /** A handle is in one place at most; while its project is registered the loop it belongs to runs, once spawned. */
  ghost predicate HandleInv(s: State) {
    && (forall l, p, q :: Holds(s, l, p) && Holds(s, l, q) ==> p == q)
    && (forall l, p :: Holds(s, l, p) ==> l.inc in s.used)
    && (forall l, p :: Holds(s, l, p) && IsRegistered(s, l) && (p.InOp? ==> !s.ops[p.op].Committed?) ==> l in s.running)
  }

  /** A step creates one handle with a fresh incarnation, or moves one from its place to another, or drops one. */
  lemma HoldsEffect(s: State, st: Step, l: Loop, p: Place)
    requires Enabled(s, st) && Holds(Apply(s, st), l, p)
    ensures || Holds(s, l, p)
            || (st.RegisterCommit? && l.inc == st.inc && p == InOp(st.op))
            || (st.TaskInsert? && p == InTasks && Holds(s, l, InOp(st.op)))
            || (st.TaskRemove? && p == InOp(st.op) && Holds(s, l, InTasks))
    ensures st.TaskInsert? || st.AwaitLoop? ==> p != InOp(st.op)
    ensures st.TaskRemove? ==> p != InTasks || l.name != s.ops[st.op].name
  {
  }

  lemma StepKeepsUnique(s: State, st: Step)
    requires Enabled(s, st) && HandleInv(s)
    ensures forall l, p, q :: Holds(Apply(s, st), l, p) && Holds(Apply(s, st), l, q) ==> p == q
    ensures forall l, p :: Holds(Apply(s, st), l, p) ==> l.inc in Apply(s, st).used
  {
    forall l, p, q | Holds(Apply(s, st), l, p) && Holds(Apply(s, st), l, q)
      ensures p == q && l.inc in Apply(s, st).used
    {
      HoldsEffect(s, st, l, p);
      HoldsEffect(s, st, l, q);
    }
  }

  /** An unregister drops the handle it has awaited, so a handle that is still somewhere is another one. */
  lemma AwaitDrops(s: State, op: nat, l: Loop, p: Place)
    requires Enabled(s, AwaitLoop(op)) && HandleInv(s) && Holds(Apply(s, AwaitLoop(op)), l, p)
    ensures s.ops[op] != Draining(l.name, s.ops[op].inc, Some(l.inc))
  {
    HoldsEffect(s, AwaitLoop(op), l, p);
    assert Holds(s, l, p) && p != InOp(op);
    assert !Holds(s, l, InOp(op));
  }

  lemma StepKeepsRunning(s: State, st: Step, l: Loop, p: Place)
    requires Enabled(s, st) && HandleInv(s)
    requires Holds(Apply(s, st), l, p) && IsRegistered(Apply(s, st), l)
    requires p.InOp? ==> !Apply(s, st).ops[p.op].Committed?
    ensures l in Apply(s, st).running
  {
    HoldsEffect(s, st, l, p);
    RegistryEffect(s, st, l.name);
    if st.AwaitLoop? {
      AwaitDrops(s, st.op, l, p);
    }
  }

  lemma {:induction false} RunHandles(ss: seq<State>, sts: seq<Step>, i: nat)
    requires Run(ss, sts) && i < |ss|
    ensures HandleInv(ss[i])
  {
    if i > 0 {
      RunHandles(ss, sts, i - 1);
      var s, st := ss[i - 1], sts[i - 1];
      assert StepAt(ss, sts, i - 1);
      StepKeepsUnique(s, st);
      forall l, p | Holds(ss[i], l, p) && IsRegistered(ss[i], l) && (p.InOp? ==> !ss[i].ops[p.op].Committed?)
        ensures l in ss[i].running
      {
        StepKeepsRunning(s, st, l, p);
      }
    }
  }

  // ---- exactly when a stored handle is whose -----------------------------------------------------------

  predicate InsertsAt(s: State, st: Step, n: string, j: nat) {
    st.TaskInsert? && st.op in s.ops && s.ops[st.op] == Spawned(n, j)
  }

  /** The step touches the handle stored for `n`. */
  predicate TouchesTask(s: State, st: Step, n: string) {
    (st.TaskInsert? || st.TaskRemove?) && st.op in s.ops && s.ops[st.op].name == n
  }

  /** Step `k` stored the handle of incarnation `j` and nothing before `i` touched it. */
  ghost predicate InsertedSince(ss: seq<State>, sts: seq<Step>, n: string, j: nat, k: nat, i: nat)
    requires k < i <= |sts| < |ss|
  {
    InsertsAt(ss[k], sts[k], n, j) && forall m :: k < m < i ==> !TouchesTask(ss[m], sts[m], n)
  }

  /** The last step before `i` that touched the handle of `n` stored that of incarnation `j`. */
  ghost predicate InsertedLast(ss: seq<State>, sts: seq<Step>, n: string, j: nat, i: nat)
    requires i <= |sts| < |ss|
  {
    exists k: nat :: k < i && InsertedSince(ss, sts, n, j, k, i)
  }

  lemma TaskEffect(s: State, st: Step, n: string, j: nat)
    requires Enabled(s, st)
    ensures At(Apply(s, st).tasks, n) == Some(j) <==>
            InsertsAt(s, st, n, j) || (At(s.tasks, n) == Some(j) && !TouchesTask(s, st, n))
  {
  }

  lemma InsertedNext(ss: seq<State>, sts: seq<Step>, n: string, j: nat, i: nat)
    requires i < |sts| < |ss|
    ensures InsertedLast(ss, sts, n, j, i + 1) <==>
            InsertsAt(ss[i], sts[i], n, j) || (InsertedLast(ss, sts, n, j, i) && !TouchesTask(ss[i], sts[i], n))
  {
    if InsertsAt(ss[i], sts[i], n, j) {
      assert InsertedSince(ss, sts, n, j, i, i + 1);
    } else if InsertedLast(ss, sts, n, j, i + 1) {
      var k: nat :| k < i + 1 && InsertedSince(ss, sts, n, j, k, i + 1);
      assert !TouchesTask(ss[i], sts[i], n) && InsertedSince(ss, sts, n, j, k, i);
    } else if InsertedLast(ss, sts, n, j, i) && !TouchesTask(ss[i], sts[i], n) {
      var k: nat :| k < i && InsertedSince(ss, sts, n, j, k, i);
      assert InsertedSince(ss, sts, n, j, k, i + 1);
    }
  }

  lemma {:induction false} HandleIff(ss: seq<State>, sts: seq<Step>, n: string, j: nat, i: nat)
    requires Run(ss, sts) && i <= |sts|
    ensures At(ss[i].tasks, n) == Some(j) <==> InsertedLast(ss, sts, n, j, i)
  {
    if i > 0 {
      HandleIff(ss, sts, n, j, i - 1);
      assert StepAt(ss, sts, i - 1);
      TaskEffect(ss[i - 1], sts[i - 1], n, j);
      InsertedNext(ss, sts, n, j, i - 1);
    }
  }

  // ---- exactly when an unregister ends a live project's loop -------------------------------------------

  /** The step from `s` to `s'` ends the accept loop of the project registered as `n`. */
  predicate EndsLiveLoop(s: State, s': State, n: string) {
    n in s.registry && Loop(n, s.registry[n]) in s.running && Loop(n, s.registry[n]) !in s'.running
  }

  /** The operation waits for the handle that its `TaskRemove` found. */
  lemma AwaitedHandle(ss: seq<State>, sts: seq<Step>, op: nat, t: nat, w: nat)
    requires Run(ss, sts) && t < w < |sts| && sts[t] == TaskRemove(op) && sts[w] == AwaitLoop(op)
    ensures op in ss[t].ops && op in ss[w].ops && ss[w].ops[op].Draining? && ss[w].ops[op].name == ss[t].ops[op].name
    ensures ss[w].ops[op].handle == At(ss[t].tasks, ss[t].ops[op].name)
  {
    assert StepAt(ss, sts, t);
    assert StepAt(ss, sts, w);
    OpForward(ss, sts, op, t + 1, w);
  }

  lemma AwaitEndsIff(ss: seq<State>, sts: seq<Step>, n: string, op: nat, t: nat, w: nat)
    requires Run(ss, sts) && t < w < |sts| && sts[t] == TaskRemove(op) && sts[w] == AwaitLoop(op)
    requires op in ss[t].ops && ss[t].ops[op].name == n && n in ss[w].registry
    ensures EndsLiveLoop(ss[w], ss[w + 1], n) <==> InsertedLast(ss, sts, n, ss[w].registry[n], t)
  {
    var l := Loop(n, ss[w].registry[n]);
    AwaitedHandle(ss, sts, op, t, w);
    HandleIff(ss, sts, n, l.inc, t);
    RunHandles(ss, sts, w);
    assert StepAt(ss, sts, w);
    assert ss[w].ops[op].handle == Some(l.inc) ==> Holds(ss[w], l, InOp(op));
  }

  /** In any interleaving, an unregister that committed at `u`, took a handle at `t` and awaited it at `w` ends the
      accept loop of a registered project if and only if the name was registered again in between, at some `c`, is
      still registered, and the handle stored last before `t` was that new incarnation's. */
  lemma UnregisterEndsLiveLoopIff(ss: seq<State>, sts: seq<Step>, n: string, op: nat, u: nat, t: nat, w: nat)
    requires Run(ss, sts) && u < t < w < |sts|
    requires sts[u] == UnregisterCommit(op, n) && sts[t] == TaskRemove(op) && sts[w] == AwaitLoop(op)
    ensures EndsLiveLoop(ss[w], ss[w + 1], n) <==>
            exists c: nat :: u < c < w && RegisteredSince(ss, sts, n, c, w) && InsertedLast(ss, sts, n, sts[c].inc, t)
  {
    assert StepAt(ss, sts, u);
    OpForward(ss, sts, op, u + 1, t);
    InRegistryIff(ss, sts, n, u + 1, w);
    if n in ss[w].registry {
      AwaitEndsIff(ss, sts, n, op, t, w);
      forall c: nat | u < c < w && RegisteredSince(ss, sts, n, c, w) ensures sts[c].inc == ss[w].registry[n] {
        RegisteredInc(ss, sts, n, c, w);
      }
    }
  }

  // ---- exactly when a handle is left behind ---------------------------------------------------------------

  /** In any interleaving, an unregister leaves the handle of the incarnation it took out behind if and only if the
      registration stored that handle after the unregister had looked for it, and nothing touched it since. */
  lemma UnregisterLeavesHandleIff(ss: seq<State>, sts: seq<Step>, n: string, op: nat, u: nat, t: nat, i: nat)
    requires Run(ss, sts) && u < t < i <= |sts|
    requires sts[u] == UnregisterCommit(op, n) && n in ss[u].registry && sts[t] == TaskRemove(op)
    ensures At(ss[i].tasks, n) == Some(ss[u].registry[n]) <==>
            exists k: nat :: t < k < i && InsertedSince(ss, sts, n, ss[u].registry[n], k, i)
  {
    assert StepAt(ss, sts, u);
    OpForward(ss, sts, op, u + 1, t);
    assert StepAt(ss, sts, t) && TouchesTask(ss[t], sts[t], n);
    HandleIff(ss, sts, n, ss[u].registry[n], i);
  }

  /** In any run, a handle is stored for an unregistered name if and only if the last step that touched the handle was
      a registration's and the name was taken out after every registration of it. */
  lemma OrphanedHandleIff(ss: seq<State>, sts: seq<Step>, n: string, j: nat, i: nat)
    requires Run(ss, sts) && i <= |sts|
    ensures n !in ss[i].registry && At(ss[i].tasks, n) == Some(j) <==>
            InsertedLast(ss, sts, n, j, i) && !RegisteredFrom(ss, sts, n, 0, i)
  {
    HandleIff(ss, sts, n, j, i);
    InRegistryIff(ss, sts, n, 0, i);
  }

  /** In any run, a registered name lacks its own handle (it has none, or that of another incarnation) if and only if
      the handle stored last is not that of the registration that stands. */
  lemma RegisteredWithoutOwnHandleIff(ss: seq<State>, sts: seq<Step>, n: string, i: nat)
    requires Run(ss, sts) && i <= |sts|
    ensures n in ss[i].registry && At(ss[i].tasks, n) != At(ss[i].registry, n) <==>
            exists c: nat :: c < i && RegisteredSince(ss, sts, n, c, i) && !InsertedLast(ss, sts, n, sts[c].inc, i)
  {
    InRegistryIff(ss, sts, n, 0, i);
    forall c: nat | c < i && RegisteredSince(ss, sts, n, c, i) ensures At(ss[i].registry, n) == Some(sts[c].inc) {
      RegisteredInc(ss, sts, n, c, i);
    }
    if n in ss[i].registry {
      HandleIff(ss, sts, n, ss[i].registry[n], i);
    }
  }

  // ---- exactly when an accept loop runs ----------------------------------------------------------------------

  predicate SpawnsAt(s: State, st: Step, l: Loop) {
    st.Spawn? && st.op in s.ops && s.ops[st.op] == Committed(l.name, l.inc)
  }

  /** The loop ends by itself, or an unregister that holds its handle has awaited or aborted it. */
  predicate EndsAt(s: State, st: Step, l: Loop) {
    || st == LoopExit(l)
    || (st.AwaitLoop? && st.op in s.ops && s.ops[st.op].Draining?
        && s.ops[st.op].name == l.name && s.ops[st.op].handle == Some(l.inc))
  }

  /** Step `k` spawned the loop and no step before `i` ended it. */
  ghost predicate SpawnedSince(ss: seq<State>, sts: seq<Step>, l: Loop, k: nat, i: nat)
    requires k < i <= |sts| < |ss|
  {
    SpawnsAt(ss[k], sts[k], l) && forall m :: k < m < i ==> !EndsAt(ss[m], sts[m], l)
  }

  ghost predicate LeftRunning(ss: seq<State>, sts: seq<Step>, l: Loop, i: nat)
    requires i <= |sts| < |ss|
  {
    exists k: nat :: k < i && SpawnedSince(ss, sts, l, k, i)
  }

  lemma LoopEffect(s: State, st: Step, l: Loop)
    requires Enabled(s, st)
    ensures l in Apply(s, st).running <==> SpawnsAt(s, st, l) || (l in s.running && !EndsAt(s, st, l))
  {
  }

  lemma SpawnedNext(ss: seq<State>, sts: seq<Step>, l: Loop, i: nat)
    requires i < |sts| < |ss|
    ensures LeftRunning(ss, sts, l, i + 1) <==>
            SpawnsAt(ss[i], sts[i], l) || (LeftRunning(ss, sts, l, i) && !EndsAt(ss[i], sts[i], l))
  {
    if SpawnsAt(ss[i], sts[i], l) {
      assert SpawnedSince(ss, sts, l, i, i + 1);
    } else if LeftRunning(ss, sts, l, i + 1) {
      var k: nat :| k < i + 1 && SpawnedSince(ss, sts, l, k, i + 1);
      assert !EndsAt(ss[i], sts[i], l) && SpawnedSince(ss, sts, l, k, i);
    } else if LeftRunning(ss, sts, l, i) && !EndsAt(ss[i], sts[i], l) {
      var k: nat :| k < i && SpawnedSince(ss, sts, l, k, i);
      assert SpawnedSince(ss, sts, l, k, i + 1);
    }
  }

  /** In any run, a loop runs if and only if it was spawned and no later step ended it. */
  lemma {:induction false} LoopRunsIff(ss: seq<State>, sts: seq<Step>, l: Loop, i: nat)
    requires Run(ss, sts) && i <= |sts|
    ensures l in ss[i].running <==> LeftRunning(ss, sts, l, i)
  {
    if i > 0 {
      LoopRunsIff(ss, sts, l, i - 1);
      assert StepAt(ss, sts, i - 1);
      LoopEffect(ss[i - 1], sts[i - 1], l);
      SpawnedNext(ss, sts, l, i - 1);
    }
  }

  /** In any interleaving, an unregister leaves the loop of the incarnation it took out running if and only if that loop
      was running until then and the handle the unregister found was not that incarnation's. */
  lemma UnregisterLeavesLoopIff(ss: seq<State>, sts: seq<Step>, n: string, op: nat, u: nat, t: nat, w: nat)
    requires Run(ss, sts) && u < t < w < |sts| && n in ss[u].registry
    requires sts[u] == UnregisterCommit(op, n) && sts[t] == TaskRemove(op) && sts[w] == AwaitLoop(op)
    ensures var l := Loop(n, ss[u].registry[n]);
            l in ss[w + 1].running <==> LeftRunning(ss, sts, l, w) && !InsertedLast(ss, sts, n, l.inc, t)
  {
    var l := Loop(n, ss[u].registry[n]);
    assert StepAt(ss, sts, u);
    OpForward(ss, sts, op, u + 1, t);
    AwaitedHandle(ss, sts, op, t, w);
    HandleIff(ss, sts, n, l.inc, t);
    LoopRunsIff(ss, sts, l, w);
    assert StepAt(ss, sts, w);
    LoopEffect(ss[w], sts[w], l);
  }

  // ---- exactly when a socket file is there, and whose ------------------------------------------------------------

  /** The registration reaches the bind, so that the file at the path is removed first. */
  predicate Rebinds(s: State, st: Step, n: string) {
    st.RegisterCommit? && st.name == n && st.loaded && n !in s.registry && !st.bind.RemoveFailed?
  }

  predicate BindsAt(s: State, st: Step, n: string, j: nat) {
    Rebinds(s, st, n) && !st.bind.BindFailed? && st.inc == j
  }

  predicate RemovesFile(s: State, st: Step, n: string) {
    st.RemoveSocket? && st.ok && st.op in s.ops && s.ops[st.op].name == n
  }

  /** The step replaces or removes the file at the path of `n`. */
  predicate TouchesFile(s: State, st: Step, n: string) { Rebinds(s, st, n) || RemovesFile(s, st, n) }

  ghost predicate BoundSince(ss: seq<State>, sts: seq<Step>, n: string, j: nat, k: nat, i: nat)
    requires k < i <= |sts| < |ss|
  {
    BindsAt(ss[k], sts[k], n, j) && forall m :: k < m < i ==> !TouchesFile(ss[m], sts[m], n)
  }

  /** The last step before `i` that touched the file of `n` bound it for `j`; or it is the admin socket, untouched. */
  ghost predicate BoundLast(ss: seq<State>, sts: seq<Step>, n: string, j: nat, i: nat)
    requires i <= |sts| < |ss|
  {
    || (exists k: nat :: k < i && BoundSince(ss, sts, n, j, k, i))
    || (n == "admin" && j == ADMIN_LISTENER && forall m :: 0 <= m < i ==> !TouchesFile(ss[m], sts[m], n))
  }

  lemma FileEffect(s: State, st: Step, n: string, j: nat)
    requires Enabled(s, st)
    ensures At(Apply(s, st).files, n) == Some(j) <==>
            BindsAt(s, st, n, j) || (At(s.files, n) == Some(j) && !TouchesFile(s, st, n))
  {
  }

  lemma BoundNext(ss: seq<State>, sts: seq<Step>, n: string, j: nat, i: nat)
    requires i < |sts| < |ss|
    ensures BoundLast(ss, sts, n, j, i + 1) <==>
            BindsAt(ss[i], sts[i], n, j) || (BoundLast(ss, sts, n, j, i) && !TouchesFile(ss[i], sts[i], n))
  {
    var i' := i + 1;
    if BindsAt(ss[i], sts[i], n, j) {
      assert BoundSince(ss, sts, n, j, i, i');
    } else if !TouchesFile(ss[i], sts[i], n) {
      assert forall k: nat :: k < i ==> (BoundSince(ss, sts, n, j, k, i') <==> BoundSince(ss, sts, n, j, k, i));
    }
  }

  /** In any run, the file at the path of `n` is there and is incarnation `j`'s if and only if the last step that
      touched it bound it for `j`. */
  lemma {:induction false} SocketFileIff(ss: seq<State>, sts: seq<Step>, n: string, j: nat, i: nat)
    requires Run(ss, sts) && i <= |sts|
    ensures At(ss[i].files, n) == Some(j) <==> BoundLast(ss, sts, n, j, i)
  {
    if i > 0 {
      SocketFileIff(ss, sts, n, j, i - 1);
      assert StepAt(ss, sts, i - 1);
      FileEffect(ss[i - 1], sts[i - 1], n, j);
      BoundNext(ss, sts, n, j, i - 1);
    }
  }

  /** A step changes the file of a registered name only by removing it; a registration that commits has bound it. */
  lemma RegisteredFileAt(ss: seq<State>, sts: seq<Step>, n: string, i: nat)
    requires Run(ss, sts) && i < |sts|
    ensures RegistersAt(ss[i], sts[i], n) ==> At(ss[i + 1].files, n) == Some(sts[i].inc)
    ensures n in ss[i].registry ==>
            At(ss[i + 1].files, n) == if RemovesFile(ss[i], sts[i], n) then None else At(ss[i].files, n)
  {
    assert StepAt(ss, sts, i);
  }

  /** In any run, a registered project has its socket if and only if no unregister has removed a file at its path since
      it was registered; and a file at its path is its own. */
  lemma {:induction false} RegisteredSocketIff(ss: seq<State>, sts: seq<Step>, n: string, c: nat, i: nat)
    requires Run(ss, sts) && c < i <= |sts| && RegisteredSince(ss, sts, n, c, i)
    ensures At(ss[i].files, n).Some? <==> forall k :: c < k < i ==> !RemovesFile(ss[k], sts[k], n)
    ensures At(ss[i].files, n).Some? ==> At(ss[i].files, n) == Some(sts[c].inc)
    decreases i
  {
    if i > c + 1 {
      assert RegisteredSince(ss, sts, n, c, i - 1);
      RegisteredInc(ss, sts, n, c, i - 1);
      RegisteredSocketIff(ss, sts, n, c, i - 1);
    }
    RegisteredFileAt(ss, sts, n, i - 1);
  }

  // ---- exactly when all four agree ---------------------------------------------------------------------------------

  /** The steps before `i` end in agreement on incarnation `j`: its registration stands, the handle stored last is its
      own, the file bound last is its own, and of the loops of the name its own alone is left running. */
  ghost predicate StepsAgreeOn(ss: seq<State>, sts: seq<Step>, n: string, j: nat, i: nat)
    requires i <= |sts| < |ss|
  {
    && (exists c: nat :: c < i && RegisteredSince(ss, sts, n, c, i) && sts[c].inc == j)
    && InsertedLast(ss, sts, n, j, i) && BoundLast(ss, sts, n, j, i)
    && forall k: nat :: LeftRunning(ss, sts, Loop(n, k), i) <==> k == j
  }

  /** No registration of the name stands, and none of its handles, files and loops is left. */
  ghost predicate StepsAgreeOnNone(ss: seq<State>, sts: seq<Step>, n: string, i: nat)
    requires i <= |sts| < |ss|
  {
    && !RegisteredFrom(ss, sts, n, 0, i)
    && forall k: nat ::
         !InsertedLast(ss, sts, n, k, i) && !BoundLast(ss, sts, n, k, i) && !LeftRunning(ss, sts, Loop(n, k), i)
  }

  lemma RegisteredIncIff(ss: seq<State>, sts: seq<Step>, n: string, j: nat, i: nat)
    requires Run(ss, sts) && i <= |sts|
    ensures At(ss[i].registry, n) == Some(j) <==>
            exists c: nat :: c < i && RegisteredSince(ss, sts, n, c, i) && sts[c].inc == j
  {
    InRegistryIff(ss, sts, n, 0, i);
    forall c: nat | c < i && RegisteredSince(ss, sts, n, c, i) ensures At(ss[i].registry, n) == Some(sts[c].inc) {
      RegisteredInc(ss, sts, n, c, i);
    }
  }

  lemma RunningForIff(ss: seq<State>, sts: seq<Step>, n: string, j: nat, i: nat)
    requires Run(ss, sts) && i <= |sts|
    ensures j in RunningFor(ss[i].running, n) <==> LeftRunning(ss, sts, Loop(n, j), i)
  {
    LoopRunsIff(ss, sts, Loop(n, j), i);
    assert Loop(n, j) in ss[i].running ==> Loop(n, j).inc in RunningFor(ss[i].running, n);
  }

  /** The four parts of the state of a name, each as what the steps so far left behind. */
  lemma ViewIff(ss: seq<State>, sts: seq<Step>, n: string, j: nat, i: nat)
    requires Run(ss, sts) && i <= |sts|
    ensures var v := ViewOf(ss[i], n);
            && (v.reg == Some(j) <==> exists c: nat :: c < i && RegisteredSince(ss, sts, n, c, i) && sts[c].inc == j)
            && (v.task == Some(j) <==> InsertedLast(ss, sts, n, j, i))
            && (v.file == Some(j) <==> BoundLast(ss, sts, n, j, i))
            && (j in v.running <==> LeftRunning(ss, sts, Loop(n, j), i))
  {
    RegisteredIncIff(ss, sts, n, j, i);
    HandleIff(ss, sts, n, j, i);
    SocketFileIff(ss, sts, n, j, i);
    RunningForIff(ss, sts, n, j, i);
  }

  /** The values of a view, one incarnation at a time. */
  lemma AgreeMeaning(v: View)
    ensures Agree(v) <==>
            || (exists j: nat :: AgreesOn(v, j))
            || (v.reg == v.task == v.file == None && forall k: nat :: k !in v.running)
  {
    if Agree(v) && v.reg.Some? {
      assert AgreesOn(v, v.reg.value);
    }
    if j: nat :| AgreesOn(v, j) {
      assert v.running == {j};
    }
  }

  ghost predicate AgreesOn(v: View, j: nat) {
    v.reg == v.task == v.file == Some(j) && forall k: nat :: k in v.running <==> k == j
  }

  lemma AgreesOnIff(ss: seq<State>, sts: seq<Step>, n: string, j: nat, i: nat)
    requires Run(ss, sts) && i <= |sts|
    ensures AgreesOn(ViewOf(ss[i], n), j) <==> StepsAgreeOn(ss, sts, n, j, i)
  {
    var v := ViewOf(ss[i], n);
    ViewIff(ss, sts, n, j, i);
    forall k: nat ensures k in v.running <==> LeftRunning(ss, sts, Loop(n, k), i) {
      RunningForIff(ss, sts, n, k, i);
    }
  }

  lemma AgreesOnNoneIff(ss: seq<State>, sts: seq<Step>, n: string, i: nat)
    requires Run(ss, sts) && i <= |sts|
    ensures var v := ViewOf(ss[i], n);
            v.reg == v.task == v.file == None && (forall k: nat :: k !in v.running) <==> StepsAgreeOnNone(ss, sts, n, i)
  {
    var v := ViewOf(ss[i], n);
    InRegistryIff(ss, sts, n, 0, i);
    forall k: nat
      ensures v.task == Some(k) <==> InsertedLast(ss, sts, n, k, i)
      ensures v.file == Some(k) <==> BoundLast(ss, sts, n, k, i)
      ensures k in v.running <==> LeftRunning(ss, sts, Loop(n, k), i)
    {
      ViewIff(ss, sts, n, k, i);
    }
    assert v.task.Some? ==> InsertedLast(ss, sts, n, v.task.value, i);
    assert v.file.Some? ==> BoundLast(ss, sts, n, v.file.value, i);
  }

  /** In every state of every run, for every name and however operations on it overlap: registry, handle, socket and
      loops agree if and only if the steps so far end in agreement, on one incarnation or on none. */
  lemma AgreementIff(ss: seq<State>, sts: seq<Step>, n: string, i: nat)
    requires Run(ss, sts) && i <= |sts|
    ensures Agree(ViewOf(ss[i], n)) <==>
            (exists j: nat :: StepsAgreeOn(ss, sts, n, j, i)) || StepsAgreeOnNone(ss, sts, n, i)
  {
    AgreeMeaning(ViewOf(ss[i], n));
    AgreesOnNoneIff(ss, sts, n, i);
    forall j: nat ensures AgreesOn(ViewOf(ss[i], n), j) <==> StepsAgreeOn(ss, sts, n, j, i) {
      AgreesOnIff(ss, sts, n, j, i);
    }
  }

  // ---- the name admin ------------------------------------------------------------------------------------------

  /** The registration gets as far as removing the file at the admin socket's path. */
  predicate Displaces(s: State, st: Step) { Rebinds(s, st, "admin") }

  ghost predicate AdminUntouched(s: State) {
    At(s.files, "admin") == Some(ADMIN_LISTENER) && "admin" !in s.registry && FlightOn(s.ops, "admin") == map[]
  }

  lemma NothingInFlight(ops: map<nat, Op>, n: string)
    requires FlightOn(ops, n) == map[]
    ensures forall op :: op in ops && ops[op].name == n ==> !InFlight(ops[op])
  {
    var flight := FlightOn(ops, n);
    assert forall op :: op in ops && ops[op].name == n && InFlight(ops[op]) ==> op in flight;
  }

  lemma StepKeepsAdmin(s: State, st: Step)
    requires Enabled(s, st) && AdminUntouched(s) && !Displaces(s, st)
    ensures AdminUntouched(Apply(s, st))
  {
    NothingInFlight(s.ops, "admin");
    if !st.LoopExit? {
      FlightUpdate(s.ops, st.op, Apply(s, st).ops[st.op], "admin");
    }
  }

  lemma StepLosesAdmin(s: State, st: Step)
    requires Enabled(s, st) && ADMIN_LISTENER in s.used
    requires Displaces(s, st) || At(s.files, "admin") != Some(ADMIN_LISTENER)
    ensures At(Apply(s, st).files, "admin") != Some(ADMIN_LISTENER)
  {
  }

  lemma {:induction false} ListenerUsed(ss: seq<State>, sts: seq<Step>, i: nat)
    requires Run(ss, sts) && i < |ss|
    ensures ADMIN_LISTENER in ss[i].used
  {
    if i > 0 {
      ListenerUsed(ss, sts, i - 1);
      assert StepAt(ss, sts, i - 1);
    }
  }

  /** The admin socket's file is in place if and only if no registration of a project called `admin` ever got as far as
      the bind, whether it then succeeded or not; nothing brings it back. */
  lemma {:induction false} AdminSocketSurvivesIff(ss: seq<State>, sts: seq<Step>, i: nat)
    requires Run(ss, sts) && i < |ss|
    ensures At(ss[i].files, "admin") == Some(ADMIN_LISTENER) <==> forall k :: 0 <= k < i ==> !Displaces(ss[k], sts[k])
    ensures At(ss[i].files, "admin") == Some(ADMIN_LISTENER) ==> AdminUntouched(ss[i])
  {
    if i == 0 {
      assert FlightOn(ss[0].ops, "admin") == map[];
    } else {
      AdminSocketSurvivesIff(ss, sts, i - 1);
      ListenerUsed(ss, sts, i - 1);
      var s, st := ss[i - 1], sts[i - 1];
      assert StepAt(ss, sts, i - 1);
      if Displaces(s, st) || At(s.files, "admin") != Some(ADMIN_LISTENER) {
        StepLosesAdmin(s, st);
      } else {
        StepKeepsAdmin(s, st);
      }
    }
  }
}
