/** Registration and unregistration as they interleave: registry map, task handles, socket files and accept loops
    (`src/server.rs` `dispatch_register`/`dispatch_unregister`, `src/registry.rs`). */
module Lifecycle {
  import opened Common
  import opened Manifests

  // ---- socket paths ------------------------------------------------------------------

  /** `Path::join` with a relative file name. */
  function Join(dir: string, leaf: string): string {
    if dir == "" || dir[|dir| - 1] == '/' then dir + leaf else dir + "/" + leaf
  }

  function SocketPathFor(dir: string, name: string): string { Join(dir, name + ".sock") }

  function AdminSocketPath(dir: string): string { Join(dir, "admin.sock") }

  lemma JoinInjective(dir: string, a: string, b: string)
    ensures Join(dir, a) == Join(dir, b) <==> a == b
  {
    var d := if dir == "" || dir[|dir| - 1] == '/' then dir else dir + "/";
    assert Join(dir, a)[|d|..] == a && Join(dir, b)[|d|..] == b;
  }

  /** Distinct projects have distinct sockets, directly in the socket directory. */
  lemma SocketPathsDistinct(dir: string, a: string, b: string)
    ensures SocketPathFor(dir, a) == SocketPathFor(dir, b) <==> a == b
    ensures dir != "" && dir[|dir| - 1] != '/' ==> SocketPathFor(dir, a) == dir + "/" + a + ".sock"
    ensures SocketPathFor(dir + "/", a) == dir + "/" + a + ".sock"
  {
    JoinInjective(dir, a + ".sock", b + ".sock");
    assert (a + ".sock")[..|a|] == a && (b + ".sock")[..|b|] == b;
  }

  /** One project name, and a valid one, has the admin socket's path: registering it replaces the admin socket file. */
  lemma OnlyAdminCollides(dir: string, name: string)
    ensures SocketPathFor(dir, name) == AdminSocketPath(dir) <==> name == "admin"
    ensures IsValidProjectName("admin")
  {
    assert "admin" + ".sock" == "admin.sock";
    SocketPathsDistinct(dir, name, "admin");
  }

  // ---- the machine ----------------------------------------------------------------------

  /** `bind_project_socket`: remove a stale file, bind, set the mode. */
  datatype BindOutcome = Bound | RemoveFailed | BindFailed | PermsFailed

  /** An admin request in flight or answered. */
  datatype Op =
    | Committed(name: string, inc: nat)
    | Spawned(name: string, inc: nat)
    | Registered(name: string)
    | Taken(name: string, inc: nat)
    | Draining(name: string, inc: nat, handle: Option<nat>)
    | Drained(name: string, inc: nat)
    | Unregistered(name: string)
    | Refused(name: string)

  /** The accept loop of one incarnation of a project. */
  datatype Loop = Loop(name: string, inc: nat)

  /** The admin listener, which owns the file at the path of the name `admin` when the daemon starts serving. */
  const ADMIN_LISTENER: nat := 0

  /** `tasks` and `files` say which incarnation the stored handle and the socket file at the name's path belong to;
      `running` are the accept loops that have been spawned and have not ended. */
  datatype State = State(
    registry: map<string, nat>,
    tasks: map<string, nat>,
    files: map<string, nat>,
    running: set<Loop>,
    used: set<nat>,
    ops: map<nat, Op>)

  datatype Step =
    | RegisterCommit(op: nat, name: string, inc: nat, loaded: bool, bind: BindOutcome)
    | Spawn(op: nat)
    | TaskInsert(op: nat)
    | UnregisterCommit(op: nat, name: string)
    | TaskRemove(op: nat)
    | AwaitLoop(op: nat)
    | RemoveSocket(op: nat, ok: bool)
    | LoopExit(loop: Loop)

  /** The admin socket is bound before the first request can arrive. */
  predicate Init(s: State) {
    s == State(map[], map[], map["admin" := ADMIN_LISTENER], {}, {ADMIN_LISTENER}, map[])
  }

  predicate IsRegistered(s: State, l: Loop) { l.name in s.registry && s.registry[l.name] == l.inc }

  predicate Enabled(s: State, st: Step) {
    match st
    case RegisterCommit(op, _, inc, _, _) => op !in s.ops && inc !in s.used
    case Spawn(op) => op in s.ops && s.ops[op].Committed?
    case TaskInsert(op) => op in s.ops && s.ops[op].Spawned?
    case UnregisterCommit(op, _) => op !in s.ops
    case TaskRemove(op) => op in s.ops && s.ops[op].Taken?
    case AwaitLoop(op) => op in s.ops && s.ops[op].Draining?
    case RemoveSocket(op, _) => op in s.ops && s.ops[op].Drained?
    // The stop signal reached the loop; it is sent when the incarnation leaves the registry, and may be missed.
    case LoopExit(l) => l in s.running && !IsRegistered(s, l)
  }

  predicate Commits(s: State, st: Step) {
    st.RegisterCommit? && st.loaded && st.name !in s.registry && st.bind.Bound?
  }

  function FilesAfterBind(s: State, st: Step): map<string, nat>
    requires st.RegisterCommit?
  {
    if !st.loaded || st.name in s.registry || st.bind.RemoveFailed? then s.files
    else if st.bind.BindFailed? then s.files - {st.name}
    else s.files[st.name := st.inc]
  }

  function SetOp(s: State, op: nat, o: Op): State { s.(ops := s.ops[op := o]) }

  function Apply(s: State, st: Step): State
    requires Enabled(s, st)
  {
    match st
    case RegisterCommit(op, name, inc, _, _) =>
      if Commits(s, st) then
        SetOp(s, op, Committed(name, inc)).(registry := s.registry[name := inc], files := FilesAfterBind(s, st),
                                            used := s.used + {inc})
      else SetOp(s, op, Refused(name)).(files := FilesAfterBind(s, st), used := s.used + {inc})
    case Spawn(op) =>
      var o := s.ops[op];
      SetOp(s, op, Spawned(o.name, o.inc)).(running := s.running + {Loop(o.name, o.inc)})
    case TaskInsert(op) =>
      var o := s.ops[op];
      SetOp(s, op, Registered(o.name)).(tasks := s.tasks[o.name := o.inc])
    case UnregisterCommit(op, name) =>
      if name in s.registry
      then SetOp(s, op, Taken(name, s.registry[name])).(registry := s.registry - {name})
      else SetOp(s, op, Refused(name))
    case TaskRemove(op) =>
      var o := s.ops[op];
      SetOp(s, op, Draining(o.name, o.inc, if o.name in s.tasks then Some(s.tasks[o.name]) else None)).(
        tasks := s.tasks - {o.name})
    case AwaitLoop(op) =>
      // The awaited loop finishes or is aborted at the deadline; either way it has ended.
      var o := s.ops[op];
      SetOp(s, op, Drained(o.name, o.inc)).(
        running := if o.handle.Some? then s.running - {Loop(o.name, o.handle.value)} else s.running)
    case RemoveSocket(op, ok) =>
      var o := s.ops[op];
      SetOp(s, op, Unregistered(o.name)).(files := if ok then s.files - {o.name} else s.files)
    case LoopExit(l) => s.(running := s.running - {l})
  }

  ghost predicate Run(ss: seq<State>, sts: seq<Step>) {
    |ss| == |sts| + 1 && Init(ss[0]) && forall i: nat :: i < |sts| ==> StepAt(ss, sts, i)
  }

  /** Step `i` is possible and leads to the next state. */
  ghost predicate StepAt(ss: seq<State>, sts: seq<Step>, i: nat)
    requires i < |sts| < |ss|
  {
    Enabled(ss[i], sts[i]) && ss[i + 1] == Apply(ss[i], sts[i])
  }

  // ---- one name at a time -----------------------------------------------------------------

  predicate InFlight(o: Op) { o.Committed? || o.Spawned? || o.Taken? || o.Draining? || o.Drained? }

  /** Everything the state says about one name; `flight` are its operations in flight. */
  datatype View = View(
    reg: Option<nat>,
    task: Option<nat>,
    file: Option<nat>,
    running: set<nat>,
    flight: map<nat, Op>)

  function At(m: map<string, nat>, n: string): Option<nat> { if n in m then Some(m[n]) else None }

  function RunningFor(running: set<Loop>, n: string): set<nat> {
    set l | l in running && l.name == n :: l.inc
  }

  function FlightOn(ops: map<nat, Op>, n: string): map<nat, Op> {
    map op | op in ops && ops[op].name == n && InFlight(ops[op]) :: ops[op]
  }

  function ViewOf(s: State, n: string): View {
    View(At(s.registry, n), At(s.tasks, n), At(s.files, n), RunningFor(s.running, n), FlightOn(s.ops, n))
  }

  /** The name a step is about. */
  function Concerns(s: State, st: Step): string
    requires Enabled(s, st)
  {
    if st.RegisterCommit? || st.UnregisterCommit? then st.name
    else if st.LoopExit? then st.loop.name
    else s.ops[st.op].name
  }

  lemma FlightUpdate(ops: map<nat, Op>, op: nat, o: Op, n: string)
    requires op in ops ==> ops[op].name == o.name
    ensures FlightOn(ops[op := o], n)
         == if o.name != n then FlightOn(ops, n)
            else if InFlight(o) then FlightOn(ops, n)[op := o]
            else FlightOn(ops, n) - {op}
  {
  }

  lemma RunningUpdate(running: set<Loop>, l: Loop, n: string)
    ensures RunningFor(running + {l}, n)
         == if l.name == n then RunningFor(running, n) + {l.inc} else RunningFor(running, n)
    ensures RunningFor(running - {l}, n)
         == if l.name == n then RunningFor(running, n) - {l.inc} else RunningFor(running, n)
  {
    var r := RunningFor(running, n);
    assert forall i :: i in r <==> Loop(n, i) in running;
    assert forall i :: i in RunningFor(running + {l}, n) <==> Loop(n, i) in running + {l};
    assert forall i :: i in RunningFor(running - {l}, n) <==> Loop(n, i) in running - {l};
  }

  /** Operations on different names do not disturb one another, however they interleave. */
  lemma OtherNames(s: State, st: Step, n: string)
    requires Enabled(s, st) && Concerns(s, st) != n
    ensures ViewOf(Apply(s, st), n) == ViewOf(s, n)
  {
    if st.LoopExit? {
      RunningUpdate(s.running, st.loop, n);
      return;
    }
    FlightUpdate(s.ops, st.op, Apply(s, st).ops[st.op], n);
    if st.Spawn? {
      RunningUpdate(s.running, Loop(s.ops[st.op].name, s.ops[st.op].inc), n);
    } else if st.AwaitLoop? && s.ops[st.op].handle.Some? {
      RunningUpdate(s.running, Loop(s.ops[st.op].name, s.ops[st.op].handle.value), n);
    }
  }

  /** File operations on `n` succeed. */
  predicate FileOk(st: Step) {
    (st.RegisterCommit? ==> st.bind.Bound?) && (st.RemoveSocket? ==> st.ok)
  }

  /** What a step about the viewed name does to the view. */
  function StepView(v: View, st: Step, o: Option<Op>): View {
    match st
    case RegisterCommit(op, name, inc, loaded, _) =>
      if loaded && v.reg.None?
      then v.(reg := Some(inc), file := Some(inc), flight := v.flight[op := Committed(name, inc)])
      else v
    case UnregisterCommit(op, name) =>
      if v.reg.Some? then v.(reg := None, flight := v.flight[op := Taken(name, v.reg.value)]) else v
    case LoopExit(l) => v.(running := v.running - {l.inc})
    case _ =>
      match o
      case Some(Committed(name, inc)) =>
        v.(running := v.running + {inc}, flight := v.flight[st.op := Spawned(name, inc)])
      case Some(Spawned(name, inc)) => v.(task := Some(inc), flight := v.flight - {st.op})
      case Some(Taken(name, inc)) => v.(task := None, flight := v.flight[st.op := Draining(name, inc, v.task)])
      case Some(Draining(name, inc, handle)) =>
        v.(running := if handle.Some? then v.running - {handle.value} else v.running,
           flight := v.flight[st.op := Drained(name, inc)])
      case Some(Drained(name, inc)) => v.(file := None, flight := v.flight - {st.op})
      case _ => v
  }

  function OpOf(s: State, st: Step): Option<Op> { if !st.LoopExit? && st.op in s.ops then Some(s.ops[st.op]) else None }

  lemma OwnStart(s: State, st: Step, n: string)
    requires Enabled(s, st) && Concerns(s, st) == n && FileOk(st) && (st.RegisterCommit? || st.UnregisterCommit?)
    ensures ViewOf(Apply(s, st), n) == StepView(ViewOf(s, n), st, OpOf(s, st))
  {
    FlightUpdate(s.ops, st.op, Apply(s, st).ops[st.op], n);
    FlightAbsent(s.ops, st.op, n);
  }

  lemma OwnProgress(s: State, st: Step, n: string)
    requires Enabled(s, st) && Concerns(s, st) == n && FileOk(st) && !st.RegisterCommit? && !st.UnregisterCommit?
    ensures ViewOf(Apply(s, st), n) == StepView(ViewOf(s, n), st, OpOf(s, st))
  {
    if st.LoopExit? {
      RunningUpdate(s.running, st.loop, n);
      return;
    }
    FlightUpdate(s.ops, st.op, Apply(s, st).ops[st.op], n);
    if st.Spawn? {
      RunningUpdate(s.running, Loop(n, s.ops[st.op].inc), n);
    } else if st.AwaitLoop? && s.ops[st.op].handle.Some? {
      RunningUpdate(s.running, Loop(n, s.ops[st.op].handle.value), n);
    }
  }

  lemma OwnName(s: State, st: Step, n: string)
    requires Enabled(s, st) && Concerns(s, st) == n && FileOk(st)
    ensures ViewOf(Apply(s, st), n) == StepView(ViewOf(s, n), st, OpOf(s, st))
  {
    if st.RegisterCommit? || st.UnregisterCommit? {
      OwnStart(s, st, n);
    } else {
      OwnProgress(s, st, n);
    }
  }

  lemma FlightAbsent(ops: map<nat, Op>, op: nat, n: string)
    requires op !in ops
    ensures FlightOn(ops, n) - {op} == FlightOn(ops, n)
  {
  }

  // ---- agreement when operations on a name do not overlap -------------------------------------

  /** In the registry iff it has a task handle iff its socket file exists, all three for the same incarnation, and
      the accept loops running for the name are exactly that incarnation's. */
  predicate Agree(v: View) {
    v.reg == v.task == v.file && v.running == (if v.reg.Some? then {v.reg.value} else {})
  }

  /** What the one operation in flight has done so far, and nothing else. */
  predicate Explained(v: View, o: Op) {
    match o
    case Committed(_, inc) => v.reg == Some(inc) == v.file && v.task == None && v.running == {}
    case Spawned(_, inc) => v.reg == Some(inc) == v.file && v.task == None && v.running == {inc}
    case Taken(_, inc) => v.reg == None && v.task == Some(inc) == v.file && v.running <= {inc}
    case Draining(_, inc, handle) =>
      v.reg == None == v.task && handle == Some(inc) == v.file && v.running <= {inc}
    case Drained(_, inc) => v.reg == None == v.task && v.file == Some(inc) && v.running == {}
    case _ => false
  }

  /** At most one operation on the name is in flight. */
  predicate Serial(v: View) { |v.flight| <= 1 }

  ghost predicate ViewInv(v: View) {
    if v.flight == map[] then Agree(v)
    else exists op :: v.flight.Keys == {op} && Explained(v, v.flight[op])
  }

  lemma Singleton(flight: map<nat, Op>, op: nat)
    requires |flight| <= 1 && op in flight
    ensures flight == map[op := flight[op]]
  {
    assert |flight.Keys| == |flight|;
    assert flight.Keys == {op} by {
      if k :| k in flight.Keys && k != op {
        SubsetSize({k, op}, flight.Keys);
      }
    }
  }

  lemma StartKeepsInv(v: View, st: Step, o: Option<Op>)
    requires ViewInv(v) && (st.RegisterCommit? || st.UnregisterCommit?) && st.op !in v.flight
    requires Serial(StepView(v, st, o))
    ensures ViewInv(StepView(v, st, o))
  {
    var v' := StepView(v, st, o);
    if v' != v {
      Singleton(v'.flight, st.op);
      assert forall k :: k in v.flight ==> k in v'.flight;
      assert v.flight == map[];
      assert v'.flight.Keys == {st.op};
    }
  }

  lemma ProgressKeepsInv(v: View, st: Step, o: Op)
    requires ViewInv(v) && !st.RegisterCommit? && !st.UnregisterCommit? && !st.LoopExit?
    requires st.op in v.flight && v.flight[st.op] == o && InFlight(o)
    ensures ViewInv(StepView(v, st, Some(o)))
  {
    var v' := StepView(v, st, Some(o));
    var op :| v.flight.Keys == {op} && Explained(v, v.flight[op]);
    assert op == st.op;
    if o.Spawned? || o.Drained? {
      assert v'.flight == map[];
    } else {
      assert v'.flight.Keys == {op};
    }
  }

  lemma ExitKeepsInv(v: View, st: Step)
    requires ViewInv(v) && st.LoopExit? && st.loop.inc in v.running && v.reg != Some(st.loop.inc)
    ensures ViewInv(StepView(v, st, None))
  {
    var op :| v.flight.Keys == {op} && Explained(v, v.flight[op]);
    assert Explained(StepView(v, st, None), v.flight[op]);
  }

  lemma NextViewInv(s: State, st: Step, n: string)
    requires Enabled(s, st) && ViewInv(ViewOf(s, n)) && Serial(ViewOf(Apply(s, st), n))
    requires Concerns(s, st) == n ==> FileOk(st)
    ensures ViewInv(ViewOf(Apply(s, st), n))
  {
    if Concerns(s, st) != n {
      OtherNames(s, st, n);
    } else {
      OwnName(s, st, n);
      if st.RegisterCommit? || st.UnregisterCommit? {
        StartKeepsInv(ViewOf(s, n), st, OpOf(s, st));
      } else if st.LoopExit? {
        ExitKeepsInv(ViewOf(s, n), st);
      } else {
        ProgressKeepsInv(ViewOf(s, n), st, s.ops[st.op]);
      }
    }
  }

  /** File operations on `n` succeed and no two operations on `n` overlap. Other names are unconstrained. */
  ghost predicate OrderlyFor(ss: seq<State>, sts: seq<Step>, n: string) {
    && (forall s :: s in ss ==> Serial(ViewOf(s, n)))
    && (forall i :: 0 <= i < |sts| < |ss| && Enabled(ss[i], sts[i]) && Concerns(ss[i], sts[i]) == n ==> FileOk(sts[i]))
  }

  /** Lifecycle agreement: whenever no operation on `n` is in flight, registry, task handle, socket file and
      accept loop agree, under any interleaving with operations on other names. The name `admin` is special because
      its file exists from the start; see `AdminSocketSurvivesIff`. */
  lemma {:induction false} LifecycleAgreement(ss: seq<State>, sts: seq<Step>, n: string, i: nat)
    requires Run(ss, sts) && n != "admin" && OrderlyFor(ss, sts, n) && i < |ss|
    ensures ViewInv(ViewOf(ss[i], n))
    ensures FlightOn(ss[i].ops, n) == map[] ==> Agree(ViewOf(ss[i], n))
  {
    if i == 0 {
      assert FlightOn(ss[0].ops, n) == map[] && RunningFor(ss[0].running, n) == {};
    } else {
      LifecycleAgreement(ss, sts, n, i - 1);
      assert ss[i] in ss;
      assert StepAt(ss, sts, i - 1);
      NextViewInv(ss[i - 1], sts[i - 1], n);
    }
  }

  /** A registration commits if and only if the manifest loaded, the name was free and the socket was bound with its
      mode set. The file at the path is left alone, removed, or the new one, according to how far the bind got. */
  lemma RegisterCommitIff(s: State, st: Step)
    requires Enabled(s, st) && st.RegisterCommit?
    ensures var s', free := Apply(s, st), st.loaded && st.name !in s.registry;
            && (s'.ops[st.op] == Committed(st.name, st.inc) <==> free && st.bind == Bound)
            && s'.registry == (if free && st.bind == Bound then s.registry[st.name := st.inc] else s.registry)
            && At(s'.files, st.name) == (if !free || st.bind == RemoveFailed then At(s.files, st.name)
                                         else if st.bind == BindFailed then None
                                         else Some(st.inc))
            && s'.tasks == s.tasks && s'.running == s.running
  {
  }

  // ---- what holds under any interleaving ---------------------------------------------------------

  /** A registration that loses against a registered project touches no socket and no loop. */
  lemma LoserTouchesNothing(s: State, st: Step)
    requires Enabled(s, st) && st.RegisterCommit? && st.name in s.registry
    ensures Apply(s, st).files == s.files && Apply(s, st).registry == s.registry
    ensures Apply(s, st).tasks == s.tasks && Apply(s, st).running == s.running
  {
  }

  /** The step ends a registration of `n` or deletes the file at its path. */
  predicate Unregisters(s: State, st: Step, n: string)
    requires Enabled(s, st)
  {
    (st.UnregisterCommit? && st.name == n) || (st.RemoveSocket? && s.ops[st.op].name == n)
  }

  /** However many registrations of the name race, the winner keeps its socket until an unregister of that name acts. */
  lemma {:induction false} WinnerKeepsSocket(ss: seq<State>, sts: seq<Step>, n: string, i: nat, j: nat)
    requires Run(ss, sts) && i <= j < |ss|
    requires n in ss[i].registry && At(ss[i].files, n) == Some(ss[i].registry[n])
    requires forall k :: i <= k < j ==> !(Enabled(ss[k], sts[k]) && Unregisters(ss[k], sts[k], n))
    ensures At(ss[j].registry, n) == At(ss[i].registry, n) && At(ss[j].files, n) == At(ss[i].files, n)
    decreases j
  {
    if i < j {
      WinnerKeepsSocket(ss, sts, n, i, j - 1);
      assert StepAt(ss, sts, j - 1);
    }
  }
}
