/** The daemon's objects as they run when nothing interferes (`src/server.rs`, `src/registry.rs`, `src/backend.rs`),
    and the proof that an uninterrupted call is a run of the step machine. */
module Servers {
  import opened Common
  import opened CacheSpec
  import opened BoundedCaches
  import opened Manifests
  import opened AuditSpec
  import opened AuditTasks
  import opened Broker

  // ---- what an uninterrupted get does -----------------------------------------------

  /** The lookup misses, so the backend is asked if there is one. */
  predicate AsksBackend(p: Project, backend: Option<Session>, now: nat, n: string) {
    n in p.manifest.secrets && Get(p.cache, n, now).Miss? && backend.Some?
  }

  function Served(p: Project, backend: Option<Session>, now: nat, n: string, reply: Reply): Verdict {
    if n !in p.manifest.secrets then DENY
    else if Get(p.cache, n, now).Hit? then FromCacheHit(Get(p.cache, n, now))
    else if backend.None? then DEGRADED
    else match reply
         case Found(v) => FromFetch(v, p.cache.defaultTtl)
         case Absent => NOT_FOUND
         case Failed => BACKEND_FAILED
  }

  function CacheAfter(p: Project, backend: Option<Session>, now: nat, n: string, reply: Reply, later: nat,
                      victim: Option<string>): Cache {
    if n !in p.manifest.secrets then p.cache
    else if AsksBackend(p, backend, now, n) && reply.Found?
    then Insert(AfterGet(p.cache, n, now), n, reply.value, None, later, victim)
    else AfterGet(p.cache, n, now)
  }

  // ---- the running objects -------------------------------------------------------------

  /** The atomic cell holding the active session. */
  class BackendSession {
    var inner: Session

    constructor (session: Session)
      ensures inner == session
    {
      inner := session;
    }

    /** Takes over the session of `other`; a get that loaded the old one keeps it. */
    method Adopt(other: BackendSession)
      modifies this
      ensures inner == old(other.inner)
      ensures other != this ==> other.inner == old(other.inner)
    {
      inner := other.inner;
    }
  }

  datatype RotateError = NoBackend | TokenUnavailable | OpenFailed

  function SessionIn(cell: BackendSession?): Option<Session>
    reads cell
  {
    if cell == null then None else Some(cell.inner)
  }

  /** `dispatch_rotate_bootstrap`: check the token, build a new session, and only then swap it in. `token` says
      whether a token could be fetched and `built` is the session that could be built, if any. From any state `s` of
      the machine with this cell it is the machine's step; every failure leaves the session in use alone. */
  method RotateBootstrap(backend: BackendSession?, token: bool, built: Option<Session>, ghost s: Broker.State)
    returns (r: Result<Session, RotateError>)
    requires s.backend == SessionIn(backend)
    modifies backend
    ensures Enabled(s, Rotate(token, built)) && SessionIn(backend) == Apply(s, Rotate(token, built)).backend
    ensures r.Ok? ==> SessionIn(backend) == built == Some(r.value)
    ensures r.Err? ==> SessionIn(backend) == old(SessionIn(backend))
    ensures r.Ok? <==> old(SessionIn(backend)).Some? && token && built.Some?
    ensures r.Err? ==> r.error == if backend == null then NoBackend else if !token then TokenUnavailable else OpenFailed
  {
    if backend == null {
      return Err(NoBackend);
    }
    if !token {
      return Err(TokenUnavailable);
    }
    if built.None? {
      return Err(OpenFailed);
    }
    var next := new BackendSession(built.value);
    backend.Adopt(next);
    r := Ok(built.value);
  }

  class ProjectHandle {
    const name: string
    var manifest: Manifest
    const cache: BoundedCache

    ghost function Model(): Project
      reads this, cache
    {
      Project(name, manifest, cache.Model())
    }

    constructor (name: string, manifest: Manifest, defaults: Defaults)
      ensures fresh(cache) && Model() == NewProject(name, manifest, defaults)
    {
      this.name := name;
      this.manifest := manifest;
      var b := ResolveCacheBounds(manifest, defaults);
      this.cache := new BoundedCache(b.maxEntries, b.ttl);
    }
  }

  /** `dispatch_get`: snapshot, check, probe, fetch, insert, read the TTL, emit, respond. `fnox` is the backend and
      `later` the clock when its answer has arrived. */
  method DispatchGet(project: ProjectHandle, backend: BackendSession?, audit: AuditWriter<FetchEvent>, g: nat,
                     name: string, fnox: (Session, string) -> Reply, now: nat, later: nat,
                     ghost pipe: Pipeline<FetchEvent>)
    returns (response: Response, victim: Option<string>)
    requires audit.channel == pipe.channel && audit.open == pipe.open && audit.dropped == pipe.dropped
    modifies project.cache, audit`channel, audit`dropped
    ensures var p := old(project.Model());
            var session := if backend == null then None else Some(backend.inner);
            var reply := if backend == null then Failed else fnox(backend.inner, name);
            var v := Served(p, session, now, name, reply);
            var pipe' := AuditSpec.Record(pipe, EventOf(g, p.name, name, v));
            && response == v.response
            && (if AsksBackend(p, session, now, name) && reply.Found?
                then LegalVictim(AfterGet(p.cache, name, now), name, victim) else victim.None?)
            && project.Model() == p.(cache := CacheAfter(p, session, now, name, reply, later, victim))
            && audit.channel == pipe'.channel && audit.dropped == pipe'.dropped
            && Describes(EventOf(g, p.name, name, v), g, p.name, name, response, AsksBackend(p, session, now, name))
  {
    victim := None;
    var snapshot := project.manifest;
    if name !in snapshot.secrets {
      audit.Record(EventOf(g, project.name, name, DENY), pipe);
      return Error(Denied), None;
    }
    var hit := project.cache.Get(name, now);
    if hit.Hit? {
      audit.Record(EventOf(g, project.name, name, FromCacheHit(hit)), pipe);
      return Value(hit.value, hit.ttlSeconds), None;
    }
    if backend == null {
      audit.Record(EventOf(g, project.name, name, DEGRADED), pipe);
      return Error(BackendError), None;
    }
    var session := backend.inner;
    match fnox(session, name) {
      case Found(v) =>
        victim := project.cache.Insert(name, v, None, later);
        var ttl := project.cache.DefaultTtl();
        audit.Record(EventOf(g, project.name, name, FromFetch(v, ttl)), pipe);
        response := Value(v, SecondsSaturated(ttl));
      case Absent =>
        audit.Record(EventOf(g, project.name, name, NOT_FOUND), pipe);
        response := Error(SecretNotFound);
      case Failed =>
        audit.Record(EventOf(g, project.name, name, BACKEND_FAILED), pipe);
        response := Error(BackendError);
    }
  }

  /** The registry map with its three admin operations. */
  class ProjectRegistry {
    const defaults: Defaults
    var inner: map<string, ProjectHandle>

    ghost predicate Valid()
      reads this, inner.Values
    {
      && (forall n :: n in inner ==> inner[n].name == n)
      && (forall m, n :: m in inner && n in inner && m != n ==>
            inner[m] != inner[n] && inner[m].cache != inner[n].cache)
    }

    constructor (defaults: Defaults)
      ensures Valid() && inner == map[] && this.defaults == defaults
    {
      this.defaults := defaults;
      inner := map[];
    }

    /** Commits a new incarnation, with the manifest and limits on disk and an empty cache, exactly if that manifest is
        acceptable for the name, the name is free and the socket could be bound; otherwise changes nothing. */
    method Register(name: string, disk: Disk, bound: bool) returns (r: Result<ProjectHandle, RegistryError>)
      requires Valid()
      modifies this
      ensures Valid()
      ensures r.Ok? <==> Loads(disk, name) && name !in old(inner) && bound
      ensures r == Err(ProjectExists) <==> Loads(disk, name) && name in old(inner)
      ensures r == Err(BindSocket) <==> Loads(disk, name) && name !in old(inner) && !bound
      ensures !Loads(disk, name) ==> r.Err? && LoadError(disk, name, r.error)
      ensures r.Err? ==> inner == old(inner)
      ensures r.Ok? ==>
                && fresh(r.value) && fresh(r.value.cache) && inner == old(inner)[name := r.value]
                && r.value.name == name && Carries(r.value.manifest, disk.raw) && r.value.cache.entries == map[]
                && BoundsFrom(disk.raw, defaults, Bounds(r.value.cache.maxEntries, r.value.cache.defaultTtl))
      ensures var d := RegisterDecision(name in old(inner), name, disk, bound);
              if r.Ok? then d.Ok? && r.value.Model() == NewProject(name, d.value, defaults) else d == Err(r.error)
    {
      LoadForMeaning(disk, name);
      var loaded := LoadFor(disk, name);
      if loaded.Err? {
        return Err(loaded.error);
      }
      if name in inner {
        return Err(ProjectExists);
      }
      if !bound {
        return Err(BindSocket);
      }
      var project := new ProjectHandle(name, loaded.value, defaults);
      inner := inner[name := project];
      return Ok(project);
    }

    /** Takes the handle out of the map; whoever holds it keeps it. */
    method Unregister(name: string) returns (r: Result<ProjectHandle, RegistryError>)
      requires Valid()
      modifies this
      ensures Valid() && inner == old(inner) - {name}
      ensures r == if name in old(inner) then Ok(old(inner)[name]) else Err(ProjectUnknown)
    {
      if name !in inner {
        return Err(ProjectUnknown);
      }
      r := Ok(inner[name]);
      inner := inner - {name};
    }

    /** Pushes the new bounds into the cache, then swaps the manifest; on failure nothing changes. */
    method Reload(name: string, disk: Disk) returns (r: Result<Manifest, RegistryError>)
      requires Valid()
      modifies if name in inner then {inner[name], inner[name].cache} else {}
      ensures Valid() && inner == old(inner)
      ensures name !in inner ==> r == Err(ProjectUnknown)
      ensures name in inner ==>
                && r == LoadFor(disk, name)
                && inner[name].Model() ==
                   (if r.Ok? then Reconfigured(old(inner[name].Model()), r.value, defaults).(manifest := r.value)
                    else old(inner[name].Model()))
      ensures name in inner && r.Ok? ==>
                && Carries(inner[name].manifest, disk.raw)
                && inner[name].cache.entries == old(inner[name].cache.entries)
                && BoundsFrom(disk.raw, defaults, Bounds(inner[name].cache.maxEntries, inner[name].cache.defaultTtl))
      ensures name in inner ==> (r.Ok? <==> Loads(disk, name)) && (r.Err? ==> LoadError(disk, name, r.error))
      ensures forall m :: m in inner && m != name ==> inner[m].Model() == old(inner[m].Model())
    {
      LoadForMeaning(disk, name);
      if name !in inner {
        return Err(ProjectUnknown);
      }
      var project := inner[name];
      r := LoadFor(disk, name);
      if r.Ok? {
        var b := ResolveCacheBounds(r.value, defaults);
        project.cache.SetConfig(b.maxEntries, b.ttl);
        project.manifest := r.value;
      }
    }
  }

  // ---- an uninterrupted get is a run of the machine -----------------------------------------

  /** Steps of get `g` and of the clock. */
  predicate Alone(g: nat, st: Step) {
    st.Tick? || (st.Begin? && st.get == g) || (OnGet(st) && st.get == g)
  }

  ghost predicate ReachesBy(g: nat, s: State, t: State, sts: seq<Step>) {
    (forall st :: st in sts ==> Alone(g, st)) && Exec(s, sts) == (t, true)
  }

  /** `t` follows from `s` by steps of `g` and the clock alone. */
  ghost predicate Reaches(g: nat, s: State, t: State) {
    exists sts :: ReachesBy(g, s, t, sts)
  }

  lemma ReachesStart(g: nat, s: State)
    ensures Reaches(g, s, s)
  {
    assert ReachesBy(g, s, s, []);
  }

  lemma ReachesStep(g: nat, s: State, st: Step, t: State)
    requires Enabled(s, st) && Alone(g, st) && Reaches(g, Apply(s, st), t)
    ensures Reaches(g, s, t)
  {
    var sts :| ReachesBy(g, Apply(s, st), t, sts);
    assert ([st] + sts)[1..] == sts;
    assert ReachesBy(g, s, t, [st] + sts);
  }

  /** State `s` with get `g` at `pc` and its project's cache being `c`. */
  function At(s: State, g: nat, pc: Pc, c: Cache): State
    requires g in s.gets && s.gets[g].inc in s.projects
  {
    s.(gets := s.gets[g := s.gets[g].(pc := pc)],
       projects := s.projects[s.gets[g].inc := s.projects[s.gets[g].inc].(cache := c)])
  }

  lemma AtAt(s: State, g: nat, pc: Pc, c: Cache, pc': Pc, c': Cache)
    requires g in s.gets && s.gets[g].inc in s.projects
    ensures At(At(s, g, pc, c), g, pc', c') == At(s, g, pc', c')
  {
  }

  lemma GetStepAt(s: State, st: Step)
    requires OnGet(st) && !st.Emit? && Enabled(s, st)
    ensures var call := s.gets[st.get];
            var c := s.projects[call.inc].cache;
            Apply(s, st) == At(s, st.get, NextPc(call, c, s.backend, s.now, st), NextCache(call, c, s.now, st))
  {
  }

  /** `s` with get `g` finished on verdict `v` at time `later`, its project's cache being `c`. */
  function Finished(s: State, g: nat, c: Cache, v: Verdict, later: nat): State
    requires g in s.gets && s.gets[g].inc in s.projects
  {
    At(s, g, Done(v), c).(
      now := later,
      audit := Record(s.audit, EventOf(g, s.projects[s.gets[g].inc].name, s.gets[g].name, v)))
  }

  lemma FinishedAt(s: State, g: nat, pc: Pc, c: Cache, c': Cache, v: Verdict, later: nat)
    requires g in s.gets && s.gets[g].inc in s.projects
    ensures Finished(At(s, g, pc, c), g, c', v, later) == Finished(s, g, c', v, later)
  {
    AtAt(s, g, pc, c, Done(v), c');
  }

  lemma EmitAt(s: State, g: nat, v: Verdict)
    requires g in s.gets && s.gets[g].inc in s.projects && s.gets[g].pc == Emitting(v)
    ensures Apply(s, Emit(g)) == At(s, g, Responding(v), s.projects[s.gets[g].inc].cache).(
              audit := Record(s.audit, EventOf(g, s.projects[s.gets[g].inc].name, s.gets[g].name, v)))
  {
  }

  lemma EmitAndRespond(s: State, g: nat, v: Verdict)
    requires g in s.gets && s.gets[g].inc in s.projects && s.gets[g].pc == Emitting(v)
    ensures Reaches(g, s, Finished(s, g, s.projects[s.gets[g].inc].cache, v, s.now))
  {
    var c := s.projects[s.gets[g].inc].cache;
    EmitAt(s, g, v);
    var s1 := Apply(s, Emit(g));
    GetStepAt(s1, Respond(g));
    AtAt(s, g, Responding(v), c, Done(v), c);
    ReachesStart(g, Apply(s1, Respond(g)));
    ReachesStep(g, s1, Respond(g), Apply(s1, Respond(g)));
    ReachesStep(g, s, Emit(g), Apply(s1, Respond(g)));
  }

  /** From a reached program counter with a verdict to the finished get. */
  lemma DecideAndRespond(s: State, st: Step, v: Verdict)
    requires OnGet(st) && !st.Emit? && Enabled(s, st) && st.get in Apply(s, st).gets
    requires Apply(s, st).gets[st.get].pc == Emitting(v)
    ensures var call := s.gets[st.get];
            Reaches(st.get, s, Finished(s, st.get, NextCache(call, s.projects[call.inc].cache, s.now, st), v, s.now))
  {
    var call, g := s.gets[st.get], st.get;
    var c' := NextCache(call, s.projects[call.inc].cache, s.now, st);
    GetStepAt(s, st);
    EmitAndRespond(Apply(s, st), g, v);
    FinishedAt(s, g, Emitting(v), c', c', v, s.now);
    ReachesStep(g, s, st, Finished(s, g, c', v, s.now));
  }

  lemma StoreIsRun(s: State, g: nat, victim: Option<string>)
    requires g in s.gets && s.gets[g].inc in s.projects && s.gets[g].pc.Fetched?
    requires LegalVictim(s.projects[s.gets[g].inc].cache, s.gets[g].name, victim)
    ensures var call, c := s.gets[g], s.projects[s.gets[g].inc].cache;
            Reaches(g, s, Finished(s, g, Insert(c, call.name, call.pc.value, None, s.now, victim),
                                   FromFetch(call.pc.value, c.defaultTtl), s.now))
  {
    var call, c := s.gets[g], s.projects[s.gets[g].inc].cache;
    var c' := Insert(c, call.name, call.pc.value, None, s.now, victim);
    var st := Store(g, victim);
    GetStepAt(s, st);
    var s1, v := Apply(s, st), FromFetch(call.pc.value, c.defaultTtl);
    GetStepAt(s1, ReadTtl(g));
    DecideAndRespond(s1, ReadTtl(g), v);
    FinishedAt(s, g, Inserted(call.pc.value), c', c', v, s.now);
    ReachesStep(g, s, st, Finished(s, g, c', v, s.now));
  }

  /** `s` with get `g` finished on the backend's reply at time `later`. */
  function Settled(s: State, g: nat, reply: Reply, later: nat, victim: Option<string>): State
    requires g in s.gets && s.gets[g].inc in s.projects
  {
    var n, c := s.gets[g].name, s.projects[s.gets[g].inc].cache;
    match reply
    case Found(x) => Finished(s, g, Insert(c, n, x, None, later, victim), FromFetch(x, c.defaultTtl), later)
    case Absent => Finished(s, g, c, NOT_FOUND, later)
    case Failed => Finished(s, g, c, BACKEND_FAILED, later)
  }

  lemma SettledAt(s: State, g: nat, pc: Pc, reply: Reply, later: nat, victim: Option<string>)
    requires g in s.gets && s.gets[g].inc in s.projects
    ensures var c := s.projects[s.gets[g].inc].cache;
            Settled(At(s, g, pc, c), g, reply, later, victim) == Settled(s, g, reply, later, victim)
  {
    var n, c := s.gets[g].name, s.projects[s.gets[g].inc].cache;
    match reply
    case Found(x) => FinishedAt(s, g, pc, c, Insert(c, n, x, None, later, victim), FromFetch(x, c.defaultTtl), later);
    case Absent => FinishedAt(s, g, pc, c, c, NOT_FOUND, later);
    case Failed => FinishedAt(s, g, pc, c, c, BACKEND_FAILED, later);
  }

  lemma AnswerIsRun(s: State, g: nat, reply: Reply, victim: Option<string>)
    requires g in s.gets && s.gets[g].inc in s.projects && s.gets[g].pc.Awaiting?
    requires reply.Found? ==> LegalVictim(s.projects[s.gets[g].inc].cache, s.gets[g].name, victim)
    ensures Reaches(g, s, Settled(s, g, reply, s.now, victim))
  {
    var c, st := s.projects[s.gets[g].inc].cache, Answer(g, reply);
    GetStepAt(s, st);
    match reply
    case Found(x) =>
      StoreIsRun(Apply(s, st), g, victim);
      SettledAt(s, g, Fetched(x), reply, s.now, victim);
      ReachesStep(g, s, st, Settled(s, g, reply, s.now, victim));
    case Absent => DecideAndRespond(s, st, NOT_FOUND);
    case Failed => DecideAndRespond(s, st, BACKEND_FAILED);
  }

  /** Load the session, let the clock move while the backend is awaited, and finish on its reply. */
  lemma MissedIsRun(s: State, g: nat, reply: Reply, wait: nat, victim: Option<string>)
    requires g in s.gets && s.gets[g].inc in s.projects && s.gets[g].pc == Missed && s.backend.Some?
    requires reply.Found? ==> LegalVictim(s.projects[s.gets[g].inc].cache, s.gets[g].name, victim)
    ensures Reaches(g, s, Settled(s, g, reply, s.now + wait, victim))
  {
    var t := Settled(s, g, reply, s.now + wait, victim);
    GetStepAt(s, LoadSession(g));
    var s1 := Apply(s, LoadSession(g));
    SettledAt(s, g, Awaiting(s.backend.value), reply, s.now + wait, victim);
    AnswerIsRun(Apply(s1, Tick(wait)), g, reply, victim);
    ReachesStep(g, s1, Tick(wait), t);
    ReachesStep(g, s, LoadSession(g), t);
  }

  /** The state in which an uninterrupted get of the project in its present state ends. */
  function Outcome(s: State, g: nat, reply: Reply, wait: nat, victim: Option<string>): State
    requires g in s.gets && s.gets[g].inc in s.projects
  {
    var n, p := s.gets[g].name, s.projects[s.gets[g].inc];
    Finished(s, g, CacheAfter(p, s.backend, s.now, n, reply, s.now + wait, victim),
             Served(p, s.backend, s.now, n, reply),
             if AsksBackend(p, s.backend, s.now, n) then s.now + wait else s.now)
  }

  lemma DegradedIsRun(s: State, g: nat)
    requires g in s.gets && s.gets[g].inc in s.projects && s.gets[g].pc == Allowed && s.backend.None?
    requires Get(s.projects[s.gets[g].inc].cache, s.gets[g].name, s.now).Miss?
    ensures var c1 := AfterGet(s.projects[s.gets[g].inc].cache, s.gets[g].name, s.now);
            Reaches(g, s, Finished(s, g, c1, DEGRADED, s.now))
  {
    var c1 := AfterGet(s.projects[s.gets[g].inc].cache, s.gets[g].name, s.now);
    GetStepAt(s, Probe(g));
    var s1 := Apply(s, Probe(g));
    GetStepAt(s1, LoadSession(g));
    DecideAndRespond(s1, LoadSession(g), DEGRADED);
    FinishedAt(s, g, Missed, c1, c1, DEGRADED, s.now);
    ReachesStep(g, s, Probe(g), Finished(s, g, c1, DEGRADED, s.now));
  }

  lemma MissIsRun(s: State, g: nat, reply: Reply, wait: nat, victim: Option<string>)
    requires g in s.gets && s.gets[g].inc in s.projects && s.gets[g].pc == Allowed
    requires s.gets[g].name in s.projects[s.gets[g].inc].manifest.secrets
    requires AsksBackend(s.projects[s.gets[g].inc], s.backend, s.now, s.gets[g].name)
    requires reply.Found? ==>
             LegalVictim(AfterGet(s.projects[s.gets[g].inc].cache, s.gets[g].name, s.now), s.gets[g].name, victim)
    ensures Reaches(g, s, Outcome(s, g, reply, wait, victim))
  {
    var n, p := s.gets[g].name, s.projects[s.gets[g].inc];
    var c1 := AfterGet(p.cache, n, s.now);
    GetStepAt(s, Probe(g));
    MissedIsRun(Apply(s, Probe(g)), g, reply, wait, victim);
    FinishedAt(s, g, Missed, c1, CacheAfter(p, s.backend, s.now, n, reply, s.now + wait, victim),
               Served(p, s.backend, s.now, n, reply), s.now + wait);
    ReachesStep(g, s, Probe(g), Outcome(s, g, reply, wait, victim));
  }

  lemma AllowedIsRun(s: State, g: nat, reply: Reply, wait: nat, victim: Option<string>)
    requires g in s.gets && s.gets[g].inc in s.projects && s.gets[g].pc == Allowed
    requires s.gets[g].name in s.projects[s.gets[g].inc].manifest.secrets
    requires AsksBackend(s.projects[s.gets[g].inc], s.backend, s.now, s.gets[g].name) && reply.Found? ==>
             LegalVictim(AfterGet(s.projects[s.gets[g].inc].cache, s.gets[g].name, s.now), s.gets[g].name, victim)
    ensures Reaches(g, s, Outcome(s, g, reply, wait, victim))
  {
    var n, p, st := s.gets[g].name, s.projects[s.gets[g].inc], Probe(g);
    if Get(p.cache, n, s.now).Hit? {
      GetStepAt(s, st);
      DecideAndRespond(s, st, FromCacheHit(Get(p.cache, n, s.now)));
    } else if s.backend.None? {
      DegradedIsRun(s, g);
    } else {
      MissIsRun(s, g, reply, wait, victim);
    }
  }

  /** The response, the cache and the audit record of `DispatchGet` are those of a run of the step machine in which
      only the get itself and the clock take steps. */
  lemma UninterruptedGetIsRun(s: State, g: nat, inc: nat, n: string, reply: Reply, wait: nat, victim: Option<string>)
    requires g !in s.gets && inc in s.projects
    requires AsksBackend(s.projects[inc], s.backend, s.now, n) && reply.Found? ==>
             LegalVictim(AfterGet(s.projects[inc].cache, n, s.now), n, victim)
    ensures Reaches(g, s, Outcome(Apply(s, Begin(g, inc, n)), g, reply, wait, victim))
  {
    var s1 := Apply(s, Begin(g, inc, n));
    var c := s.projects[inc].cache;
    GetStepAt(s1, Check(g));
    if n in s.projects[inc].manifest.secrets {
      var s2 := Apply(s1, Check(g));
      AllowedIsRun(s2, g, reply, wait, victim);
      OutcomeAt(s1, g, reply, wait, victim);
      ReachesStep(g, s1, Check(g), Outcome(s1, g, reply, wait, victim));
    } else {
      DecideAndRespond(s1, Check(g), DENY);
    }
    ReachesStep(g, s, Begin(g, inc, n), Outcome(s1, g, reply, wait, victim));
  }

  lemma OutcomeAt(s: State, g: nat, reply: Reply, wait: nat, victim: Option<string>)
    requires g in s.gets && s.gets[g].inc in s.projects
    ensures Outcome(At(s, g, Allowed, s.projects[s.gets[g].inc].cache), g, reply, wait, victim)
         == Outcome(s, g, reply, wait, victim)
  {
    var n, p := s.gets[g].name, s.projects[s.gets[g].inc];
    assert p.(cache := p.cache) == p;
    FinishedAt(s, g, Allowed, p.cache, CacheAfter(p, s.backend, s.now, n, reply, s.now + wait, victim),
               Served(p, s.backend, s.now, n, reply),
               if AsksBackend(p, s.backend, s.now, n) then s.now + wait else s.now);
  }
}
