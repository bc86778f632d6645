/** The broker as an interleaved step machine (`src/server.rs`, `src/registry.rs`, `src/backend.rs`).

    Every step is one atomic action of the daemon: a locked section, an `ArcSwap` load or store, a
    `try_send`, or the return of an awaited backend call. Any number of `get` calls, reloads and
    registrations interleave freely. A step's label carries what the environment chooses: fresh
    identities, the backend's reply, which of several equally old cache entries is evicted, whether a
    file could be read or a socket bound. */
module Broker {
  import opened Common
  import opened CacheSpec
  import opened Manifests
  import opened AuditSpec

  type Session = nat

  /** What an awaited `Fnox::get` returns. */
  datatype Reply = Found(value: string) | Absent | Failed

  datatype ErrorCode = Denied | SecretNotFound | BackendError

  datatype Response = Value(value: string, ttlSeconds: nat) | Error(code: ErrorCode)

  datatype Decision = Allow | Deny

  datatype Outcome = OutcomeOk | OutcomeNotFound | OutcomeBackendError

  datatype Source = FromCache | FromBackend

  /** A `fetch` audit record. `get` identifies the request it belongs to; it is not part of the log line. */
  datatype FetchEvent = FetchEvent(
    get: nat,
    project: string,
    secretName: string,
    decision: Decision,
    outcome: Outcome,
    backend: Option<Source>,
    reason: Option<string>)

  /** What a `get` has decided: the fields of its audit record and its response. */
  datatype Verdict = Verdict(
    decision: Decision,
    outcome: Outcome,
    backend: Option<Source>,
    reason: Option<string>,
    response: Response)

  /** Where `dispatch_get` stands. */
  datatype Pc =
    | Snapped
    | Allowed
    | Missed
    | Awaiting(session: Session)
    | Fetched(value: string)
    | Inserted(value: string)
    | Emitting(verdict: Verdict)
    | Responding(verdict: Verdict)
    | Done(verdict: Verdict)
    | Aborted

  /** A `get` in flight or finished, on the project incarnation whose handle its connection holds. */
  datatype GetCall = GetCall(inc: nat, name: string, snap: Manifest, pc: Pc)

  /** A registered project. Handlers keep using it after it leaves the registry. */
  datatype Project = Project(name: string, manifest: Manifest, cache: Cache)

  datatype Reload =
    | LookedUp(name: string, inc: nat)
    | Configured(name: string, inc: nat, manifest: Manifest)
    | Reloaded(name: string, inc: nat)
    | ReloadFailed(name: string, error: RegistryError)

  datatype State = State(
    now: nat,
    backend: Option<Session>,
    defaults: Defaults,
    registry: map<string, nat>,
    projects: map<nat, Project>,
    reloads: map<nat, Reload>,
    gets: map<nat, GetCall>,
    audit: Pipeline<FetchEvent>)

  datatype Step =
    | Tick(elapsed: nat)
    | Rotate(tokenOk: bool, session: Option<Session>)
    | Register(name: string, disk: Disk, bound: bool, inc: nat)
    | Unregister(name: string)
    | ReloadLookup(op: nat, name: string)
    | ReloadConfigure(op: nat, disk: Disk)
    | ReloadStore(op: nat)
    | Begin(get: nat, inc: nat, name: string)
    | Check(get: nat)
    | Probe(get: nat)
    | LoadSession(get: nat)
    | Answer(get: nat, reply: Reply)
    | Store(get: nat, victim: Option<string>)
    | ReadTtl(get: nat)
    | Emit(get: nat)
    | Respond(get: nat)
    | Abort(get: nat)
    | AuditTask(step: WriterStep)

  predicate OnGet(st: Step) {
    || st.Check? || st.Probe? || st.LoadSession? || st.Answer? || st.Store?
    || st.ReadTtl? || st.Emit? || st.Respond? || st.Abort?
  }

  // ---- verdicts of dispatch_get ---------------------------------------------

  const DENY: Verdict := Verdict(Deny, OutcomeOk, None, Some("allowlist"), Error(Denied))
  const DEGRADED: Verdict := Verdict(Allow, OutcomeBackendError, None, None, Error(BackendError))
  const NOT_FOUND: Verdict := Verdict(Allow, OutcomeNotFound, Some(FromBackend), None, Error(SecretNotFound))
  const BACKEND_FAILED: Verdict := Verdict(Allow, OutcomeBackendError, Some(FromBackend), None, Error(BackendError))

  function FromCacheHit(hit: Lookup): Verdict
    requires hit.Hit?
  {
    Verdict(Allow, OutcomeOk, Some(FromCache), None, Value(hit.value, hit.ttlSeconds))
  }

  function FromFetch(value: string, defaultTtl: nat): Verdict {
    Verdict(Allow, OutcomeOk, Some(FromBackend), None, Value(value, SecondsSaturated(defaultTtl)))
  }

  function EventOf(g: nat, project: string, secretName: string, v: Verdict): FetchEvent {
    FetchEvent(g, project, secretName, v.decision, v.outcome, v.backend, v.reason)
  }

  /** What the record of a get must say, given its project, the name asked for, the response, and whether the backend
      answered it. */
  predicate Describes(e: FetchEvent, g: nat, project: string, name: string, response: Response, answered: bool) {
    && e.get == g && e.project == project && e.secretName == name
    && match response
       case Value(_, _) =>
         && e.decision == Allow && e.outcome == OutcomeOk && e.reason == None
         && e.backend == Some(if answered then FromBackend else FromCache)
       case Error(Denied) =>
         && e.decision == Deny && e.outcome == OutcomeOk && e.reason == Some("allowlist")
         && e.backend == None && !answered
       case Error(SecretNotFound) =>
         && e.decision == Allow && e.outcome == OutcomeNotFound && e.reason == None
         && e.backend == Some(FromBackend) && answered
       case Error(BackendError) =>
         && e.decision == Allow && e.outcome == OutcomeBackendError && e.reason == None
         && e.backend == (if answered then Some(FromBackend) else None)
  }

  // ---- the next program counter of a get, as far as it alone decides -----------

  /** The part of the state a get step reads besides its own record. */
  function NextPc(call: GetCall, cache: Cache, backend: Option<Session>, now: nat, st: Step): Pc {
    match st
    case Check(_) => if call.name in call.snap.secrets then Allowed else Emitting(DENY)
    case Probe(_) =>
      var hit := Get(cache, call.name, now);
      if hit.Hit? then Emitting(FromCacheHit(hit)) else Missed
    case LoadSession(_) => if backend.Some? then Awaiting(backend.value) else Emitting(DEGRADED)
    case Answer(_, reply) =>
      (match reply
       case Found(v) => Fetched(v)
       case Absent => Emitting(NOT_FOUND)
       case Failed => Emitting(BACKEND_FAILED))
    case Store(_, _) => if call.pc.Fetched? then Inserted(call.pc.value) else call.pc
    case ReadTtl(_) => if call.pc.Inserted? then Emitting(FromFetch(call.pc.value, cache.defaultTtl)) else call.pc
    case Emit(_) => if call.pc.Emitting? then Responding(call.pc.verdict) else call.pc
    case Respond(_) => if call.pc.Responding? then Done(call.pc.verdict) else call.pc
    case Abort(_) => Aborted
    case _ => call.pc
  }

  /** Which program counter each get step starts from. `Abort` strikes at the only await. */
  predicate AtPc(pc: Pc, st: Step) {
    match st
    case Check(_) => pc.Snapped?
    case Probe(_) => pc.Allowed?
    case LoadSession(_) => pc.Missed?
    case Answer(_, _) => pc.Awaiting?
    case Store(_, _) => pc.Fetched?
    case ReadTtl(_) => pc.Inserted?
    case Emit(_) => pc.Emitting?
    case Respond(_) => pc.Responding?
    case Abort(_) => pc.Awaiting?
    case _ => false
  }

  function NextCache(call: GetCall, cache: Cache, now: nat, st: Step): Cache {
    match st
    case Probe(_) => AfterGet(cache, call.name, now)
    case Store(_, victim) =>
      if call.pc.Fetched? then Insert(cache, call.name, call.pc.value, None, now, victim) else cache
    case _ => cache
  }

  // ---- admin operations ----------------------------------------------------------

  /** `ProjectRegistry::register`: manifest first, then under the write lock the name check and the bind. */
  function RegisterDecision(taken: bool, name: string, disk: Disk, bound: bool): Result<Manifest, RegistryError> {
    match LoadFor(disk, name)
    case Err(e) => Err(e)
    case Ok(m) => if taken then Err(ProjectExists) else if !bound then Err(BindSocket) else Ok(m)
  }

  function RegisterOutcome(s: State, name: string, disk: Disk, bound: bool): Result<Manifest, RegistryError> {
    RegisterDecision(name in s.registry, name, disk, bound)
  }

  function NewProject(name: string, m: Manifest, d: Defaults): Project {
    var b := ResolveCacheBounds(m, d);
    Project(name, m, Empty(b.maxEntries, b.ttl))
  }

  function Reconfigured(p: Project, m: Manifest, d: Defaults): Project {
    var b := ResolveCacheBounds(m, d);
    p.(cache := SetConfig(p.cache, b.maxEntries, b.ttl))
  }

  // ---- the machine ---------------------------------------------------------------

  ghost predicate Init(s: State) {
    && DefaultsInRange(s.defaults)
    && s.registry == map[] && s.projects == map[] && s.reloads == map[] && s.gets == map[]
    && s.audit == NewPipeline()
  }

  predicate Enabled(s: State, st: Step) {
    match st
    case Tick(_) => true
    case Rotate(_, _) => true
    case Register(_, _, _, inc) => inc !in s.projects
    case Unregister(_) => true
    case ReloadLookup(op, _) => op !in s.reloads
    case ReloadConfigure(op, _) => op in s.reloads && s.reloads[op].LookedUp? && s.reloads[op].inc in s.projects
    case ReloadStore(op) => op in s.reloads && s.reloads[op].Configured? && s.reloads[op].inc in s.projects
    case Begin(g, inc, _) => g !in s.gets && inc in s.projects
    case AuditTask(w) => CanWrite(s.audit, w)
    case _ =>
      && st.get in s.gets && s.gets[st.get].inc in s.projects
      && AtPc(s.gets[st.get].pc, st)
      && (st.Store? ==> LegalVictim(s.projects[s.gets[st.get].inc].cache, s.gets[st.get].name, st.victim))
  }

  function ApplyGet(s: State, st: Step): State
    requires OnGet(st) && Enabled(s, st)
  {
    var call := s.gets[st.get];
    var p := s.projects[call.inc];
    s.(gets := s.gets[st.get := call.(pc := NextPc(call, p.cache, s.backend, s.now, st))],
       projects := s.projects[call.inc := p.(cache := NextCache(call, p.cache, s.now, st))],
       audit := if st.Emit? && call.pc.Emitting?
                then Record(s.audit, EventOf(st.get, p.name, call.name, call.pc.verdict))
                else s.audit)
  }

  function Apply(s: State, st: Step): State
    requires Enabled(s, st)
  {
    match st
    case Tick(elapsed) => s.(now := s.now + elapsed)
    case Rotate(tokenOk, session) =>
      if s.backend.Some? && tokenOk && session.Some? then s.(backend := session) else s
    case Register(name, disk, bound, inc) =>
      (match RegisterOutcome(s, name, disk, bound)
       case Err(_) => s
       case Ok(m) =>
         s.(registry := s.registry[name := inc], projects := s.projects[inc := NewProject(name, m, s.defaults)]))
    case Unregister(name) => s.(registry := s.registry - {name})
    case ReloadLookup(op, name) =>
      s.(reloads := s.reloads[op := if name in s.registry then LookedUp(name, s.registry[name])
                                    else ReloadFailed(name, ProjectUnknown)])
    case ReloadConfigure(op, disk) =>
      var r := s.reloads[op];
      (match LoadFor(disk, r.name)
       case Err(e) => s.(reloads := s.reloads[op := ReloadFailed(r.name, e)])
       case Ok(m) =>
         s.(reloads := s.reloads[op := Configured(r.name, r.inc, m)],
            projects := s.projects[r.inc := Reconfigured(s.projects[r.inc], m, s.defaults)]))
    case ReloadStore(op) =>
      var r := s.reloads[op];
      s.(reloads := s.reloads[op := Reloaded(r.name, r.inc)],
         projects := s.projects[r.inc := s.projects[r.inc].(manifest := r.manifest)])
    case Begin(g, inc, name) =>
      s.(gets := s.gets[g := GetCall(inc, name, s.projects[inc].manifest, Snapped)])
    case AuditTask(w) => s.(audit := RunWriter(s.audit, w))
    case _ => ApplyGet(s, st)
  }

  /** A run from a fresh daemon: `ss[i]` is the state before step `i`. */
  ghost predicate Run(ss: seq<State>, sts: seq<Step>) {
    && |ss| == |sts| + 1 && Init(ss[0])
    && forall i: nat :: i < |sts| ==> StepAt(ss, sts, i)
  }

  /** Step `i` is possible and leads to the next state. */
  ghost predicate StepAt(ss: seq<State>, sts: seq<Step>, i: nat)
    requires i < |sts| < |ss|
  {
    Enabled(ss[i], sts[i]) && ss[i + 1] == Apply(ss[i], sts[i])
  }

  lemma EnabledAt(ss: seq<State>, sts: seq<Step>, i: nat)
    requires Run(ss, sts) && i < |sts|
    ensures Enabled(ss[i], sts[i])
  {
    assert StepAt(ss, sts, i);
  }

  lemma ExtendRun(ss: seq<State>, sts: seq<Step>, st: Step)
    requires Run(ss, sts) && Enabled(ss[|sts|], st)
    ensures Run(ss + [Apply(ss[|sts|], st)], sts + [st])
  {
    var ss', sts' := ss + [Apply(ss[|sts|], st)], sts + [st];
    forall i: nat | i < |sts'| ensures StepAt(ss', sts', i) {
      if i < |sts| { assert StepAt(ss, sts, i); }
    }
  }

  /** Steps in a row, if they are all possible. */
  function Exec(s: State, sts: seq<Step>): (State, bool)
    decreases |sts|
  {
    if sts == [] then (s, true)
    else if Enabled(s, sts[0]) then Exec(Apply(s, sts[0]), sts[1..])
    else (s, false)
  }

  lemma {:induction false} ExtendByAll(ss: seq<State>, sts: seq<Step>, more: seq<Step>) returns (ss': seq<State>)
    requires Run(ss, sts) && Exec(ss[|sts|], more).1
    ensures Run(ss', sts + more) && ss'[0] == ss[0] && ss'[|sts + more|] == Exec(ss[|sts|], more).0
    decreases |more|
  {
    if more == [] {
      assert sts + more == sts;
      ss' := ss;
    } else {
      ExtendRun(ss, sts, more[0]);
      assert sts + more == (sts + [more[0]]) + more[1..];
      ss' := ExtendByAll(ss + [Apply(ss[|sts|], more[0])], sts + [more[0]], more[1..]);
    }
  }

  // ---- what every step keeps -------------------------------------------------------

  /** The structural invariant: identities resolve, names agree, manifests are validated, bounds are in range. */
  ghost predicate Inv(s: State) {
    && DefaultsInRange(s.defaults)
    && (forall n :: n in s.registry ==> s.registry[n] in s.projects && s.projects[s.registry[n]].name == n)
    && (forall g :: g in s.gets ==> s.gets[g].inc in s.projects)
    && (forall op :: op in s.reloads && !s.reloads[op].ReloadFailed? ==>
          s.reloads[op].inc in s.projects && s.projects[s.reloads[op].inc].name == s.reloads[op].name)
    && (forall op :: op in s.reloads && s.reloads[op].Configured? ==>
          WellFormed(s.reloads[op].manifest) && s.reloads[op].manifest.name == s.reloads[op].name)
    && (forall i :: i in s.projects ==> ProjectOk(s.projects[i]))
  }

  ghost predicate ProjectOk(p: Project) {
    && WellFormed(p.manifest) && p.manifest.name == p.name
    && BoundsInRange(Bounds(p.cache.maxEntries, p.cache.defaultTtl))
    && (forall n :: n in p.cache.entries ==> NANOS <= p.cache.entries[n].ttl <= CACHE_TTL_MAX * NANOS)
  }

  lemma WithProject(s: State, inc: nat, p: Project)
    requires Inv(s) && ProjectOk(p)
    requires inc in s.projects ==> s.projects[inc].name == p.name
    ensures Inv(s.(projects := s.projects[inc := p]))
  {
  }

  lemma WithGet(s: State, g: nat, call: GetCall, audit: Pipeline<FetchEvent>)
    requires Inv(s) && call.inc in s.projects
    ensures Inv(s.(gets := s.gets[g := call], audit := audit))
  {
  }

  lemma WithReload(s: State, op: nat, r: Reload)
    requires Inv(s)
    requires !r.ReloadFailed? ==> r.inc in s.projects && s.projects[r.inc].name == r.name
    requires r.Configured? ==> WellFormed(r.manifest) && r.manifest.name == r.name
    ensures Inv(s.(reloads := s.reloads[op := r]))
  {
  }

  lemma NextCacheOk(p: Project, call: GetCall, now: nat, st: Step)
    requires ProjectOk(p)
    ensures ProjectOk(p.(cache := NextCache(call, p.cache, now, st)))
  {
  }

  lemma GetKeepsInv(s: State, st: Step)
    requires Inv(s) && Enabled(s, st) && OnGet(st)
    ensures Inv(ApplyGet(s, st))
  {
    var call := s.gets[st.get];
    var p := s.projects[call.inc];
    var p' := p.(cache := NextCache(call, p.cache, s.now, st));
    NextCacheOk(p, call, s.now, st);
    WithProject(s, call.inc, p');
    var s1 := s.(projects := s.projects[call.inc := p']);
    var s2 := ApplyGet(s, st);
    WithGet(s1, st.get, s2.gets[st.get], s2.audit);
    assert s2 == s1.(gets := s1.gets[st.get := s2.gets[st.get]], audit := s2.audit);
  }

  lemma RegisterKeepsInv(s: State, st: Step)
    requires Inv(s) && st.Register? && Enabled(s, st)
    ensures Inv(Apply(s, st))
  {
    LoadForMeaning(st.disk, st.name);
    var r := RegisterOutcome(s, st.name, st.disk, st.bound);
    if r.Ok? {
      ResolvedBoundsInRange(r.value, s.defaults);
      var p := NewProject(st.name, r.value, s.defaults);
      assert ProjectOk(p);
      WithProject(s, st.inc, p);
    }
  }

  lemma ReloadKeepsInv(s: State, st: Step)
    requires Inv(s) && (st.ReloadConfigure? || st.ReloadStore?) && Enabled(s, st)
    ensures Inv(Apply(s, st))
  {
    var op := s.reloads[st.op];
    var p := s.projects[op.inc];
    var s' := Apply(s, st);
    if st.ReloadConfigure? {
      LoadForMeaning(st.disk, op.name);
      var r := LoadFor(st.disk, op.name);
      if r.Ok? {
        ResolvedBoundsInRange(r.value, s.defaults);
        assert ProjectOk(Reconfigured(p, r.value, s.defaults));
        WithProject(s, op.inc, Reconfigured(p, r.value, s.defaults));
      }
    } else {
      assert ProjectOk(p.(manifest := op.manifest));
      WithProject(s, op.inc, p.(manifest := op.manifest));
    }
    WithReload(s.(projects := s'.projects), st.op, s'.reloads[st.op]);
  }

  lemma StepKeepsInv(s: State, st: Step)
    requires Inv(s) && Enabled(s, st)
    ensures Inv(Apply(s, st))
  {
    if OnGet(st) {
      GetKeepsInv(s, st);
    } else if st.Register? {
      RegisterKeepsInv(s, st);
    } else if st.ReloadConfigure? || st.ReloadStore? {
      ReloadKeepsInv(s, st);
    }
  }

  /** Every reachable state satisfies the invariant. */
  lemma {:induction false} RunInv(ss: seq<State>, sts: seq<Step>, i: nat)
    requires Run(ss, sts) && i < |ss|
    ensures Inv(ss[i])
  {
    if i > 0 {
      RunInv(ss, sts, i - 1);
      assert StepAt(ss, sts, i - 1);
      StepKeepsInv(ss[i - 1], sts[i - 1]);
    }
  }
}
