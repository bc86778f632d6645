/** Runs from a fresh daemon that end with nothing in flight and registry, handle, socket and loops in disagreement. */
module OverlapRuns {
  import opened Lifecycle

  // ---- building runs ---------------------------------------------------------------------

  lemma Extend(ss: seq<State>, sts: seq<Step>, st: Step) returns (ss': seq<State>, sts': seq<Step>)
    requires Run(ss, sts) && Enabled(ss[|sts|], st)
    ensures Run(ss', sts') && ss'[|sts'|] == Apply(ss[|sts|], st)
  {
    ss', sts' := ss + [Apply(ss[|sts|], st)], sts + [st];
    forall i: nat | i < |sts'| ensures StepAt(ss', sts', i) {
      if i < |sts| { assert StepAt(ss, sts, i); }
    }
  }

  /** The daemon before the first request. */
  lemma Start() returns (ss: seq<State>, sts: seq<Step>)
    ensures Run(ss, sts)
    ensures ss[|sts|] == State(map[], map[], map["admin" := ADMIN_LISTENER], {}, {ADMIN_LISTENER}, map[])
  {
    ss, sts := [State(map[], map[], map["admin" := ADMIN_LISTENER], {}, {ADMIN_LISTENER}, map[])], [];
  }

  /** A registration of `n` from commit to the stored handle. */
  lemma RegisterThrough(ss: seq<State>, sts: seq<Step>, n: string, op: nat, inc: nat)
    returns (ss': seq<State>, sts': seq<Step>)
    requires Run(ss, sts) && op !in ss[|sts|].ops && inc !in ss[|sts|].used && n !in ss[|sts|].registry
    ensures Run(ss', sts')
    ensures var s := ss[|sts|];
            ss'[|sts'|] == State(s.registry[n := inc], s.tasks[n := inc], s.files[n := inc],
                                 s.running + {Loop(n, inc)}, s.used + {inc}, s.ops[op := Registered(n)])
  {
    ss', sts' := Extend(ss, sts, RegisterCommit(op, n, inc, true, Bound));
    ss', sts' := Extend(ss', sts', Spawn(op));
    ss', sts' := Extend(ss', sts', TaskInsert(op));
  }

  /** An unregister of `n` up to the point where only the socket file is left to remove. */
  lemma UnregisterUpToSocket(ss: seq<State>, sts: seq<Step>, n: string, op: nat)
    returns (ss': seq<State>, sts': seq<Step>)
    requires Run(ss, sts) && op !in ss[|sts|].ops && n in ss[|sts|].registry && n in ss[|sts|].tasks
    ensures Run(ss', sts')
    ensures var s := ss[|sts|];
            ss'[|sts'|] == State(s.registry - {n}, s.tasks - {n}, s.files, s.running - {Loop(n, s.tasks[n])}, s.used,
                                 s.ops[op := Drained(n, s.registry[n])])
  {
    ss', sts' := Extend(ss, sts, UnregisterCommit(op, n));
    ss', sts' := Extend(ss', sts', TaskRemove(op));
    ss', sts' := Extend(ss', sts', AwaitLoop(op));
  }

  /** The handle and loop part of an unregister that has already taken the name out. */
  lemma DrainThrough(ss: seq<State>, sts: seq<Step>, n: string, op: nat)
    returns (ss': seq<State>, sts': seq<Step>)
    requires Run(ss, sts) && op in ss[|sts|].ops && ss[|sts|].ops[op].Taken? && ss[|sts|].ops[op].name == n
    ensures Run(ss', sts')
    ensures var s := ss[|sts|];
            ss'[|sts'|] == State(s.registry, s.tasks - {n}, s.files - {n},
                                 if n in s.tasks then s.running - {Loop(n, s.tasks[n])} else s.running, s.used,
                                 s.ops[op := Unregistered(n)])
  {
    ss', sts' := Extend(ss, sts, TaskRemove(op));
    ss', sts' := Extend(ss', sts', AwaitLoop(op));
    ss', sts' := Extend(ss', sts', RemoveSocket(op, true));
  }

  /** Nothing is in flight once every operation has been answered. */
  lemma NoFlight(ops: map<nat, Op>, n: string)
    requires forall op :: op in ops ==> !InFlight(ops[op])
    ensures FlightOn(ops, n) == map[]
  {
  }

  // ---- the runs -----------------------------------------------------------------------------

  /** Register, unregister, and register again before the unregister removes the socket file. At the end nothing is in
      flight and the registered project has no socket. */
  lemma OverlapLosesSocket() returns (ss: seq<State>, sts: seq<Step>)
    ensures Run(ss, sts)
    ensures FlightOn(ss[|sts|].ops, "a") == map[] && "a" in ss[|sts|].registry && "a" !in ss[|sts|].files
  {
    ss, sts := Start();
    ss, sts := RegisterThrough(ss, sts, "a", 0, 1);
    ss, sts := UnregisterUpToSocket(ss, sts, "a", 1);
    ss, sts := RegisterThrough(ss, sts, "a", 2, 2);
    ss, sts := Extend(ss, sts, RemoveSocket(1, true));
    NoFlight(ss[|sts|].ops, "a");
  }

  /** Register, take the name out, and register again before the unregister looks for the handle: it finds, awaits and
      aborts the new loop. At the end nothing is in flight and the registered project has no accept loop. */
  lemma OverlapEndsLoop() returns (ss: seq<State>, sts: seq<Step>)
    ensures Run(ss, sts)
    ensures FlightOn(ss[|sts|].ops, "a") == map[] && "a" in ss[|sts|].registry
    ensures Loop("a", ss[|sts|].registry["a"]) !in ss[|sts|].running && "a" !in ss[|sts|].tasks
  {
    ss, sts := Start();
    ss, sts := RegisterThrough(ss, sts, "a", 0, 1);
    ss, sts := Extend(ss, sts, UnregisterCommit(1, "a"));
    ss, sts := RegisterThrough(ss, sts, "a", 2, 2);
    ss, sts := DrainThrough(ss, sts, "a", 1);
    NoFlight(ss[|sts|].ops, "a");
  }

  /** A registration that has spawned its loop and not yet stored the handle, and a whole unregister of it. */
  lemma UnregisteredBeforeStored() returns (ss: seq<State>, sts: seq<Step>)
    ensures Run(ss, sts)
    ensures ss[|sts|] == State(map[], map[], map["admin" := ADMIN_LISTENER], {Loop("a", 1)}, {ADMIN_LISTENER, 1},
                               map[0 := Spawned("a", 1), 1 := Unregistered("a")])
  {
    ss, sts := Start();
    ss, sts := Extend(ss, sts, RegisterCommit(0, "a", 1, true, Bound));
    ss, sts := Extend(ss, sts, Spawn(0));
    ss, sts := Extend(ss, sts, UnregisterCommit(1, "a"));
    ss, sts := DrainThrough(ss, sts, "a", 1);
  }

  /** A registration that stores its handle only after the whole unregister has passed. At the end nothing is in flight
      and an unregistered name has a handle and a running loop. */
  lemma LateHandleIsOrphaned() returns (ss: seq<State>, sts: seq<Step>)
    ensures Run(ss, sts)
    ensures FlightOn(ss[|sts|].ops, "a") == map[] && "a" !in ss[|sts|].registry
    ensures "a" in ss[|sts|].tasks && Loop("a", ss[|sts|].tasks["a"]) in ss[|sts|].running
  {
    ss, sts := UnregisteredBeforeStored();
    ss, sts := Extend(ss, sts, TaskInsert(0));
    NoFlight(ss[|sts|].ops, "a");
  }

  /** A registration that stores its handle only after its incarnation was unregistered and the name registered again.
      */
  lemma LateHandleOverwrites() returns (ss: seq<State>, sts: seq<Step>)
    ensures Run(ss, sts)
    ensures ss[|sts|] == State(map["a" := 2], map["a" := 1], map["admin" := ADMIN_LISTENER, "a" := 2],
                               {Loop("a", 1), Loop("a", 2)}, {ADMIN_LISTENER, 1, 2},
                               map[0 := Registered("a"), 1 := Unregistered("a"), 2 := Registered("a")])
  {
    ss, sts := UnregisteredBeforeStored();
    ss, sts := RegisterThrough(ss, sts, "a", 2, 2);
    ss, sts := Extend(ss, sts, TaskInsert(0));
  }

  /** At the end nothing is in flight and a registered project, with its own socket and loop, has another incarnation's
      handle. */
  lemma ForeignHandle() returns (ss: seq<State>, sts: seq<Step>)
    ensures Run(ss, sts)
    ensures var s := ss[|sts|];
            && FlightOn(s.ops, "a") == map[] && "a" in s.registry && "a" in s.tasks && "a" in s.files
            && s.files["a"] == s.registry["a"] && Loop("a", s.registry["a"]) in s.running
            && s.tasks["a"] != s.registry["a"]
  {
    ss, sts := LateHandleOverwrites();
    NoFlight(ss[|sts|].ops, "a");
  }

  /** Unregistering that project awaits the wrong handle. At the end nothing is in flight, the name has no registry
      entry, no handle and no file, and a loop of it runs on. */
  lemma LoopLeftBehind() returns (ss: seq<State>, sts: seq<Step>)
    ensures Run(ss, sts)
    ensures var s := ss[|sts|];
            && FlightOn(s.ops, "a") == map[] && "a" !in s.registry && "a" !in s.tasks && "a" !in s.files
            && Loop("a", 2) in s.running
  {
    ss, sts := LateHandleOverwrites();
    ss, sts := Extend(ss, sts, UnregisterCommit(3, "a"));
    ss, sts := DrainThrough(ss, sts, "a", 3);
    NoFlight(ss[|sts|].ops, "a");
  }

  /** Registering and unregistering a project called `admin` leaves the running daemon without an admin socket file. */
  lemma AdminSocketLost() returns (ss: seq<State>, sts: seq<Step>)
    ensures Run(ss, sts) && FlightOn(ss[|sts|].ops, "admin") == map[] && ss[|sts|].files == map[]
  {
    ss, sts := Start();
    ss, sts := RegisterThrough(ss, sts, "admin", 0, 1);
    ss, sts := UnregisterUpToSocket(ss, sts, "admin", 1);
    ss, sts := Extend(ss, sts, RemoveSocket(1, true));
    NoFlight(ss[|sts|].ops, "admin");
  }
}
