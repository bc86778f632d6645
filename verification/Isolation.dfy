/** Projects do not influence one another: deleting all steps of the other projects from any
    interleaved run leaves a run in which this project is in the same state at every point. */
module Isolation {
  import opened AuditSpec
  import opened Broker

  // ---- what concerns one project -----------------------------------------------

  datatype Scope = Shared | Of(name: string) | AuditOnly

  function ScopeOf(s: State, st: Step): Scope
    requires Enabled(s, st)
  {
    match st
    case Tick(_) => Shared
    case Rotate(_, _) => Shared
    case Register(name, _, _, _) => Of(name)
    case Unregister(name) => Of(name)
    case ReloadLookup(_, name) => Of(name)
    case ReloadConfigure(op, _) => Of(s.reloads[op].name)
    case ReloadStore(op) => Of(s.reloads[op].name)
    case Begin(_, inc, _) => Of(s.projects[inc].name)
    case AuditTask(_) => AuditOnly
    case _ => Of(s.projects[s.gets[st.get].inc].name)
  }

  predicate Keeps(s: State, st: Step, p: string)
    requires Enabled(s, st)
  {
    ScopeOf(s, st).Shared? || ScopeOf(s, st) == Of(p)
  }

  function PickProjects(projects: map<nat, Project>, p: string): map<nat, Project> {
    map i | i in projects && projects[i].name == p :: projects[i]
  }

  function PickGets(gets: map<nat, GetCall>, projects: map<nat, Project>, p: string): map<nat, GetCall> {
    map g | g in gets && gets[g].inc in projects && projects[gets[g].inc].name == p :: gets[g]
  }

  function PickReloads(reloads: map<nat, Reload>, p: string): map<nat, Reload> {
    map op | op in reloads && reloads[op].name == p :: reloads[op]
  }

  function PickRegistry(registry: map<string, nat>, p: string): map<string, nat> {
    map n | n in registry && n == p :: registry[n]
  }

  function NoAudit(s: State): State { s.(audit := NewPipeline()) }

  /** Everything in the state that belongs to project `p`: the clock, the backend session, all its
      incarnations with their manifests and caches, its reloads and its gets with their responses. */
  function Restrict(s: State, p: string): State {
    State(s.now, s.backend, s.defaults, PickRegistry(s.registry, p), PickProjects(s.projects, p),
          PickReloads(s.reloads, p), PickGets(s.gets, s.projects, p), NewPipeline())
  }

  // ---- picking and updating -----------------------------------------------------

  ghost predicate GetsResolve(gets: map<nat, GetCall>, projects: map<nat, Project>) {
    forall g :: g in gets ==> gets[g].inc in projects
  }

  lemma PickUpdatedProject(gets: map<nat, GetCall>, projects: map<nat, Project>, inc: nat, q: Project, p: string)
    requires GetsResolve(gets, projects)
    requires inc in projects ==> projects[inc].name == q.name
    ensures PickProjects(projects[inc := q], p)
         == if q.name == p then PickProjects(projects, p)[inc := q] else PickProjects(projects, p)
    ensures PickGets(gets, projects[inc := q], p) == PickGets(gets, projects, p)
  {
  }

  lemma PickUpdatedGet(gets: map<nat, GetCall>, projects: map<nat, Project>, g: nat, call: GetCall, p: string)
    requires call.inc in projects && (g in gets ==> gets[g].inc == call.inc)
    ensures PickGets(gets[g := call], projects, p)
         == if projects[call.inc].name == p then PickGets(gets, projects, p)[g := call] else PickGets(gets, projects, p)
  {
  }

  lemma PickUpdatedReload(reloads: map<nat, Reload>, op: nat, r: Reload, p: string)
    requires op in reloads ==> reloads[op].name == r.name
    ensures PickReloads(reloads[op := r], p)
         == if r.name == p then PickReloads(reloads, p)[op := r] else PickReloads(reloads, p)
  {
  }

  // ---- the audit pipeline does not matter ----------------------------------------

  /** Recording never blocks and nothing reads the pipeline: with any other audit state the same
      serving steps are possible and lead to the same serving state. */
  lemma AuditBlind(s: State, st: Step, a: Pipeline<FetchEvent>)
    requires !st.AuditTask?
    ensures Enabled(s.(audit := a), st) <==> Enabled(s, st)
    ensures Enabled(s, st) ==> NoAudit(Apply(s.(audit := a), st)) == NoAudit(Apply(s, st))
  {
    if OnGet(st) && Enabled(s, st) {
      AuditBlindGet(s, st, a);
    }
  }

  lemma AuditBlindGet(s: State, st: Step, a: Pipeline<FetchEvent>)
    requires OnGet(st) && Enabled(s, st)
    ensures Enabled(s.(audit := a), st)
    ensures NoAudit(ApplyGet(s.(audit := a), st)) == NoAudit(ApplyGet(s, st))
  {
  }

  // ---- steps of the project ---------------------------------------------------------

  /** A step of `p` or of the shared environment acts on `p`'s part alone; any other step leaves it alone. */
  ghost predicate Respects(s: State, st: Step, p: string)
    requires Enabled(s, st)
  {
    if Keeps(s, st, p)
    then Enabled(Restrict(s, p), st) && NoAudit(Apply(Restrict(s, p), st)) == Restrict(Apply(s, st), p)
    else Restrict(Apply(s, st), p) == Restrict(s, p)
  }

  lemma OwnGetStep(s: State, st: Step, p: string)
    requires Inv(s) && OnGet(st) && Enabled(s, st) && Keeps(s, st, p)
    ensures Enabled(Restrict(s, p), st) && NoAudit(ApplyGet(Restrict(s, p), st)) == Restrict(ApplyGet(s, st), p)
  {
    var call, s', r := s.gets[st.get], ApplyGet(s, st), Restrict(s, p);
    assert r.gets[st.get] == call && r.projects[call.inc] == s.projects[call.inc];
    PickUpdatedProject(s.gets, s.projects, call.inc, s'.projects[call.inc], p);
    PickUpdatedGet(s.gets, s'.projects, st.get, s'.gets[st.get], p);
    var r' := ApplyGet(r, st);
    assert r'.gets == PickGets(s'.gets, s'.projects, p);
    assert r'.projects == PickProjects(s'.projects, p);
  }

  lemma OtherGetStep(s: State, st: Step, p: string)
    requires Inv(s) && OnGet(st) && Enabled(s, st) && !Keeps(s, st, p)
    ensures Restrict(ApplyGet(s, st), p) == Restrict(s, p)
  {
    var call, s' := s.gets[st.get], ApplyGet(s, st);
    PickUpdatedProject(s.gets, s.projects, call.inc, s'.projects[call.inc], p);
    PickUpdatedGet(s.gets, s'.projects, st.get, s'.gets[st.get], p);
  }

  lemma GetStepApplies(s: State, st: Step)
    requires OnGet(st) && Enabled(s, st)
    ensures Apply(s, st) == ApplyGet(s, st)
  {
  }

  lemma OwnGetRespects(s: State, st: Step, p: string)
    requires Inv(s) && OnGet(st) && Enabled(s, st) && Keeps(s, st, p)
    ensures Respects(s, st, p)
  {
    OwnGetStep(s, st, p);
    GetStepApplies(s, st);
    GetStepApplies(Restrict(s, p), st);
  }

  lemma GetStepRestricts(s: State, st: Step, p: string)
    requires Inv(s) && OnGet(st) && Enabled(s, st)
    ensures Respects(s, st, p)
  {
    if Keeps(s, st, p) {
      OwnGetRespects(s, st, p);
    } else {
      OtherGetStep(s, st, p);
      GetStepApplies(s, st);
    }
  }

  lemma BeginRestricts(s: State, st: Step, p: string)
    requires Inv(s) && st.Begin? && Enabled(s, st)
    ensures Respects(s, st, p)
  {
    PickUpdatedGet(s.gets, s.projects, st.get, Apply(s, st).gets[st.get], p);
  }

  lemma RegisterRestricts(s: State, st: Step, p: string)
    requires Inv(s) && st.Register? && Enabled(s, st)
    ensures Respects(s, st, p)
  {
    var s', r := Apply(s, st), Restrict(s, p);
    var outcome := RegisterOutcome(s, st.name, st.disk, st.bound);
    assert st.name == p ==> (p in r.registry <==> p in s.registry);
    if outcome.Ok? {
      var q := NewProject(st.name, outcome.value, s.defaults);
      RegisteredPick(s, st.name, st.inc, q, p);
      assert s' == s.(registry := s.registry[st.name := st.inc], projects := s.projects[st.inc := q]);
    }
  }

  lemma RegisteredPick(s: State, name: string, inc: nat, q: Project, p: string)
    requires GetsResolve(s.gets, s.projects) && inc !in s.projects && q.name == name
    ensures Restrict(s.(registry := s.registry[name := inc], projects := s.projects[inc := q]), p)
         == if name != p then Restrict(s, p)
            else Restrict(s, p).(registry := PickRegistry(s.registry, p)[name := inc],
                                 projects := PickProjects(s.projects, p)[inc := q])
  {
    PickUpdatedProject(s.gets, s.projects, inc, q, p);
    assert PickRegistry(s.registry[name := inc], p)
        == if name == p then PickRegistry(s.registry, p)[name := inc] else PickRegistry(s.registry, p);
  }

  lemma UnregisterRestricts(s: State, st: Step, p: string)
    requires st.Unregister?
    ensures Respects(s, st, p)
  {
  }

  lemma LookupRestricts(s: State, st: Step, p: string)
    requires st.ReloadLookup? && Enabled(s, st)
    ensures Respects(s, st, p)
  {
    PickUpdatedReload(s.reloads, st.op, Apply(s, st).reloads[st.op], p);
  }

  lemma ReloadStepRestricts(s: State, st: Step, p: string)
    requires Inv(s) && (st.ReloadConfigure? || st.ReloadStore?) && Enabled(s, st)
    ensures Respects(s, st, p)
  {
    var s', inc := Apply(s, st), s.reloads[st.op].inc;
    PickUpdatedReload(s.reloads, st.op, s'.reloads[st.op], p);
    PickUpdatedProject(s.gets, s.projects, inc, s'.projects[inc], p);
  }

  lemma StepRestricts(s: State, st: Step, p: string)
    requires Inv(s) && Enabled(s, st)
    ensures Respects(s, st, p)
  {
    if OnGet(st) {
      GetStepRestricts(s, st, p);
    } else if st.Begin? {
      BeginRestricts(s, st, p);
    } else if st.Register? {
      RegisterRestricts(s, st, p);
    } else if st.Unregister? {
      UnregisterRestricts(s, st, p);
    } else if st.ReloadLookup? {
      LookupRestricts(s, st, p);
    } else if st.ReloadConfigure? || st.ReloadStore? {
      ReloadStepRestricts(s, st, p);
    }
  }

  // ---- whole runs ------------------------------------------------------------------

  /** The first `i` steps of the run without those of other projects and of the audit task. */
  function Erased(ss: seq<State>, sts: seq<Step>, p: string, i: nat): seq<Step>
    requires Run(ss, sts) && i <= |sts|
  {
    if i == 0 then []
    else
      assert StepAt(ss, sts, i - 1);
      if Keeps(ss[i - 1], sts[i - 1], p) then Erased(ss, sts, p, i - 1) + [sts[i - 1]]
      else Erased(ss, sts, p, i - 1)
  }

  /** Isolation by erasure: the erased steps are a run of their own, and after them project `p` is
      exactly as it is after the first `i` steps of the full run. */
  lemma {:induction false} IsolationByErasure(ss: seq<State>, sts: seq<Step>, p: string, i: nat)
    returns (es: seq<State>)
    requires Run(ss, sts) && i <= |sts|
    ensures Run(es, Erased(ss, sts, p, i)) && es[0] == ss[0]
    ensures NoAudit(es[|es| - 1]) == Restrict(ss[i], p)
  {
    if i == 0 {
      es := [ss[0]];
    } else {
      es := IsolationByErasure(ss, sts, p, i - 1);
      RestrictsAt(ss, sts, i - 1, p);
      if Keeps(ss[i - 1], sts[i - 1], p) {
        es := ExtendErased(es, Erased(ss, sts, p, i - 1), Restrict(ss[i - 1], p), sts[i - 1]);
      }
    }
  }

  /** A step of a run, seen from `p`. */
  lemma RestrictsAt(ss: seq<State>, sts: seq<Step>, i: nat, p: string)
    requires Run(ss, sts) && i < |sts|
    ensures Enabled(ss[i], sts[i])
    ensures if Keeps(ss[i], sts[i], p)
            then && Enabled(Restrict(ss[i], p), sts[i])
                 && NoAudit(Apply(Restrict(ss[i], p), sts[i])) == Restrict(ss[i + 1], p)
            else Restrict(ss[i + 1], p) == Restrict(ss[i], p)
  {
    RunInv(ss, sts, i);
    assert StepAt(ss, sts, i);
    StepRestricts(ss[i], sts[i], p);
  }

  /** A run that has reached `r`, but for its audit state, can take the steps that `r` can. */
  lemma ExtendErased(es: seq<State>, ets: seq<Step>, r: State, st: Step) returns (es': seq<State>)
    requires Run(es, ets) && NoAudit(es[|es| - 1]) == r && Enabled(r, st) && !st.AuditTask?
    ensures Run(es', ets + [st]) && es'[0] == es[0] && NoAudit(es'[|es'| - 1]) == NoAudit(Apply(r, st))
  {
    var e := es[|es| - 1];
    AuditBlind(e, st, NewPipeline());
    ExtendRun(es, ets, st);
    es' := es + [Apply(e, st)];
  }

  lemma {:induction false} RunDetermined(ss: seq<State>, ts: seq<State>, sts: seq<Step>, i: nat)
    requires Run(ss, sts) && Run(ts, sts) && ss[0] == ts[0] && i <= |sts|
    ensures ss[i] == ts[i]
  {
    if i > 0 {
      RunDetermined(ss, ts, sts, i - 1);
      assert StepAt(ss, sts, i - 1) && StepAt(ts, sts, i - 1);
    }
  }

  /** Two runs in which project `p` itself, the clock and the backend rotations behave alike are
      indistinguishable to `p`, whatever the other projects and the audit log do in them. */
  lemma OthersDoNotInterfere(ss: seq<State>, sts: seq<Step>, ts: seq<State>, uts: seq<Step>, p: string)
    requires Run(ss, sts) && Run(ts, uts) && ss[0] == ts[0]
    requires Erased(ss, sts, p, |sts|) == Erased(ts, uts, p, |uts|)
    ensures Restrict(ss[|sts|], p) == Restrict(ts[|uts|], p)
  {
    var es := IsolationByErasure(ss, sts, p, |sts|);
    var fs := IsolationByErasure(ts, uts, p, |uts|);
    RunDetermined(es, fs, Erased(ss, sts, p, |sts|), |Erased(ss, sts, p, |sts|)|);
  }

  // ---- the audit log does not affect serving ------------------------------------------

  function Serving(sts: seq<Step>): seq<Step> {
    if sts == [] then []
    else if sts[|sts| - 1].AuditTask? then Serving(sts[..|sts| - 1])
    else Serving(sts[..|sts| - 1]) + [sts[|sts| - 1]]
  }

  lemma RunPrefix(ss: seq<State>, sts: seq<Step>)
    requires Run(ss, sts) && sts != []
    ensures Run(ss[..|sts|], sts[..|sts| - 1])
  {
    var rs, rts := ss[..|sts|], sts[..|sts| - 1];
    forall i: nat | i < |rts| ensures StepAt(rs, rts, i) {
      assert StepAt(ss, sts, i);
    }
  }

  /** The serving steps alone are a run with the same serving state. */
  lemma {:induction false} ServingIsRun(ss: seq<State>, sts: seq<Step>) returns (es: seq<State>)
    requires Run(ss, sts)
    ensures Run(es, Serving(sts)) && es[0] == ss[0]
    ensures NoAudit(es[|es| - 1]) == NoAudit(ss[|sts|])
    decreases |sts|
  {
    if sts == [] {
      es := ss;
    } else {
      RunPrefix(ss, sts);
      es := ServingIsRun(ss[..|sts|], sts[..|sts| - 1]);
      var s, st := ss[|sts| - 1], sts[|sts| - 1];
      assert StepAt(ss, sts, |sts| - 1);
      if !st.AuditTask? {
        var e := es[|es| - 1];
        AuditBlind(s, st, NewPipeline());
        AuditBlind(e, st, NewPipeline());
        ExtendRun(es, Serving(sts[..|sts| - 1]), st);
        es := es + [Apply(e, st)];
      }
    }
  }

  /** Two runs that differ only in when the writer runs, which writes fail and when the channel is
      full give every get the same response and leave every cache in the same state. */
  lemma AuditNeverAffectsServing(ss: seq<State>, sts: seq<Step>, ts: seq<State>, uts: seq<Step>)
    requires Run(ss, sts) && Run(ts, uts) && ss[0] == ts[0]
    requires Serving(sts) == Serving(uts)
    ensures NoAudit(ss[|sts|]) == NoAudit(ts[|uts|])
  {
    var es := ServingIsRun(ss, sts);
    var fs := ServingIsRun(ts, uts);
    RunDetermined(es, fs, Serving(sts), |Serving(sts)|);
  }
}
