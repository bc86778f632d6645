/** Registrations, unregistrations and reloads over whole runs: who is registered, which file every manifest and every
    cache limit comes from. */
module Registration {
  import opened Common
  import opened CacheSpec
  import opened Manifests
  import opened Broker
  import opened Effects

  // ---- who is registered ------------------------------------------------------------

  /** A registration succeeds exactly if the manifest on disk is acceptable for the name, the name is free and the
      socket could be bound; the checks are made in this order. */
  lemma RegisterOutcomeIff(s: State, name: string, disk: Disk, bound: bool)
    ensures var r := RegisterOutcome(s, name, disk, bound);
            && (r.Ok? <==> Loads(disk, name) && name !in s.registry && bound)
            && (r.Ok? ==> Carries(r.value, disk.raw))
            && (r == Err(ProjectExists) <==> Loads(disk, name) && name in s.registry)
            && (r == Err(BindSocket) <==> Loads(disk, name) && name !in s.registry && !bound)
            && (!Loads(disk, name) ==> r.Err? && LoadError(disk, name, r.error))
  {
    LoadForMeaning(disk, name);
  }

  /** The step registers `n`. */
  ghost predicate Registers(s: State, st: Step, n: string) {
    st.Register? && st.name == n && Loads(st.disk, n) && n !in s.registry && st.bound
  }

  function Registered(s: State, n: string): Option<nat> { if n in s.registry then Some(s.registry[n]) else None }

  lemma RegistryEffect(s: State, st: Step, n: string)
    requires Enabled(s, st)
    ensures Registered(Apply(s, st), n) == if Registers(s, st, n) then Some(st.inc)
                                           else if st == Unregister(n) then None
                                           else Registered(s, n)
  {
    if st.Register? {
      RegisterOutcomeIff(s, st.name, st.disk, st.bound);
    }
  }

  /** Step `k` registered `n` as incarnation `inc` and no step before `i` unregistered it. */
  ghost predicate RegisteredSince(ss: seq<State>, sts: seq<Step>, n: string, inc: nat, k: nat, i: nat)
    requires k < i <= |sts| < |ss|
  {
    Registers(ss[k], sts[k], n) && sts[k].inc == inc && forall m :: k < m < i ==> sts[m] != Unregister(n)
  }

  ghost predicate Stands(ss: seq<State>, sts: seq<Step>, n: string, inc: nat, i: nat)
    requires i <= |sts| < |ss|
  {
    exists k: nat :: k < i && RegisteredSince(ss, sts, n, inc, k, i)
  }

  lemma StandsNext(ss: seq<State>, sts: seq<Step>, n: string, inc: nat, i: nat)
    requires i < |sts| < |ss|
    ensures Stands(ss, sts, n, inc, i + 1) <==>
            || (Registers(ss[i], sts[i], n) && sts[i].inc == inc)
            || (Stands(ss, sts, n, inc, i) && sts[i] != Unregister(n))
  {
    var i' := i + 1;
    if Registers(ss[i], sts[i], n) && sts[i].inc == inc {
      assert RegisteredSince(ss, sts, n, inc, i, i');
    }
    if sts[i] != Unregister(n) {
      assert forall k: nat :: k < i ==>
               (RegisteredSince(ss, sts, n, inc, k, i') <==> RegisteredSince(ss, sts, n, inc, k, i));
    }
  }

  /** In every run: `n` is registered as incarnation `inc` if and only if a registration with an acceptable manifest, a
      free name and a bound socket made it so, and `n` was not unregistered since. */
  lemma {:induction false} RegisteredIff(ss: seq<State>, sts: seq<Step>, n: string, inc: nat, i: nat)
    requires Run(ss, sts) && i <= |sts|
    ensures Registered(ss[i], n) == Some(inc) <==> Stands(ss, sts, n, inc, i)
  {
    if i > 0 {
      RegisteredIff(ss, sts, n, inc, i - 1);
      assert StepAt(ss, sts, i - 1);
      RegistryEffect(ss[i - 1], sts[i - 1], n);
      StandsNext(ss, sts, n, inc, i - 1);
    }
  }

  /** A registered name keeps its incarnation until it is unregistered, whoever else tries to register it. */
  lemma {:induction false} KeepsIncarnation(ss: seq<State>, sts: seq<Step>, n: string, i: nat, j: nat)
    requires Run(ss, sts) && i <= j < |ss| && n in ss[i].registry
    requires forall k :: i <= k < j ==> sts[k] != Unregister(n)
    ensures Registered(ss[j], n) == Registered(ss[i], n)
    decreases j
  {
    if i < j {
      KeepsIncarnation(ss, sts, n, i, j - 1);
      assert StepAt(ss, sts, j - 1);
      RegistryEffect(ss[j - 1], sts[j - 1], n);
    }
  }

  /** An unregister takes the name out and touches nothing else: the project itself, its gets and its reloads go on. */
  lemma UnregisterAt(ss: seq<State>, sts: seq<Step>, i: nat, n: string)
    requires Run(ss, sts) && i < |sts| && sts[i] == Unregister(n)
    ensures n !in ss[i + 1].registry && ss[i + 1].(registry := ss[i].registry) == ss[i]
    ensures forall m :: m != n ==> Registered(ss[i + 1], m) == Registered(ss[i], m)
  {
    assert StepAt(ss, sts, i);
  }

  /** No request ever has to wait: in any state the daemon takes any admin request and, on any incarnation it ever
      had, any get. Handlers keep serving a project that has left the registry. */
  lemma RequestsAreTaken(s: State, id: nat, name: string, disk: Disk, bound: bool, token: bool,
                         session: Option<Session>)
    ensures Enabled(s, Unregister(name)) && Enabled(s, Rotate(token, session))
    ensures id !in s.projects ==> Enabled(s, Register(name, disk, bound, id))
    ensures id !in s.reloads ==> Enabled(s, ReloadLookup(id, name))
    ensures id !in s.gets ==> forall inc :: inc in s.projects ==> Enabled(s, Begin(id, inc, name))
  {
  }

  // ---- which incarnation a reload is about -----------------------------------------------

  lemma ReloadEffect(s: State, st: Step, op: nat)
    requires Enabled(s, st) && op in Apply(s, st).reloads
    ensures var r' := Apply(s, st).reloads[op];
            if op !in s.reloads then
              && st == ReloadLookup(op, r'.name)
              && r' == match Registered(s, r'.name)
                       case Some(inc) => LookedUp(r'.name, inc)
                       case None => ReloadFailed(r'.name, ProjectUnknown)
            else if st.ReloadConfigure? && st.op == op then
              && s.reloads[op].LookedUp?
              && r' == match LoadFor(st.disk, s.reloads[op].name)
                       case Ok(m) => Configured(s.reloads[op].name, s.reloads[op].inc, m)
                       case Err(e) => ReloadFailed(s.reloads[op].name, e)
            else if st == ReloadStore(op) then
              s.reloads[op].Configured? && r' == Reloaded(s.reloads[op].name, s.reloads[op].inc)
            else r' == s.reloads[op]
  {
  }

  lemma ReloadAt(ss: seq<State>, sts: seq<Step>, i: nat, op: nat)
    requires Run(ss, sts) && i < |sts| && op in ss[i + 1].reloads
    ensures var s, st, r' := ss[i], sts[i], ss[i + 1].reloads[op];
            if op !in s.reloads then
              && st == ReloadLookup(op, r'.name)
              && r' == match Registered(s, r'.name)
                       case Some(inc) => LookedUp(r'.name, inc)
                       case None => ReloadFailed(r'.name, ProjectUnknown)
            else if st.ReloadConfigure? && st.op == op then
              && s.reloads[op].LookedUp?
              && r' == match LoadFor(st.disk, s.reloads[op].name)
                       case Ok(m) => Configured(s.reloads[op].name, s.reloads[op].inc, m)
                       case Err(e) => ReloadFailed(s.reloads[op].name, e)
            else if st == ReloadStore(op) then
              s.reloads[op].Configured? && r' == Reloaded(s.reloads[op].name, s.reloads[op].inc)
            else r' == s.reloads[op]
  {
    assert StepAt(ss, sts, i);
    ReloadEffect(ss[i], sts[i], op);
  }

  /** A reload is about the incarnation that was registered under its name when it looked the name up, and fails
      for want of a project exactly if none was; a later failure is that of the manifest it read. */
  lemma {:induction false} ReloadOrigin(ss: seq<State>, sts: seq<Step>, i: nat, op: nat) returns (l: nat)
    requires Run(ss, sts) && i <= |sts| && op in ss[i].reloads
    ensures var r := ss[i].reloads[op];
            && l < i && sts[l] == ReloadLookup(op, r.name)
            && (!r.ReloadFailed? ==> Registered(ss[l], r.name) == Some(r.inc))
            && (r == ReloadFailed(r.name, ProjectUnknown) <==> Registered(ss[l], r.name).None?)
            && (r.ReloadFailed? && r.error != ProjectUnknown ==>
                  exists k: nat, disk :: k < i && sts[k] == ReloadConfigure(op, disk)
                                         && !Loads(disk, r.name) && LoadError(disk, r.name, r.error))
  {
    assert i > 0;
    ReloadAt(ss, sts, i - 1, op);
    if op in ss[i - 1].reloads {
      l := ReloadOrigin(ss, sts, i - 1, op);
      if sts[i - 1].ReloadConfigure? && sts[i - 1].op == op {
        LoadForMeaning(sts[i - 1].disk, ss[i].reloads[op].name);
        assert sts[i - 1] == ReloadConfigure(op, sts[i - 1].disk);
      }
    } else {
      l := i - 1;
    }
  }

  /** A manifest that a reload is about to store is the one it read, field by field. */
  lemma {:induction false} ConfiguredOrigin(ss: seq<State>, sts: seq<Step>, i: nat, op: nat) returns (k: nat)
    requires Run(ss, sts) && i <= |sts| && op in ss[i].reloads && ss[i].reloads[op].Configured?
    ensures k < i && sts[k].ReloadConfigure? && sts[k].op == op
    ensures Loads(sts[k].disk, ss[i].reloads[op].name) && Carries(ss[i].reloads[op].manifest, sts[k].disk.raw)
  {
    assert i > 0;
    ReloadAt(ss, sts, i - 1, op);
    if op in ss[i - 1].reloads && ss[i - 1].reloads[op].Configured? {
      k := ConfiguredOrigin(ss, sts, i - 1, op);
    } else {
      k := i - 1;
      LoadForMeaning(sts[k].disk, ss[i].reloads[op].name);
    }
  }

  // ---- which file a project comes from -----------------------------------------------------

  lemma NewProjectEffect(s: State, st: Step, inc: nat)
    requires Enabled(s, st) && inc !in s.projects && inc in Apply(s, st).projects
    ensures st.Register? && st.inc == inc && Registers(s, st, st.name)
    ensures var p := Apply(s, st).projects[inc];
            && p.name == st.name && Carries(p.manifest, st.disk.raw) && p.cache.entries == map[]
            && BoundsFrom(st.disk.raw, s.defaults, Bounds(p.cache.maxEntries, p.cache.defaultTtl))
  {
    RegisterOutcomeIff(s, st.name, st.disk, st.bound);
  }

  lemma NewProjectAt(ss: seq<State>, sts: seq<Step>, i: nat, inc: nat)
    requires Run(ss, sts) && i < |sts| && inc !in ss[i].projects && inc in ss[i + 1].projects
    ensures sts[i].Register? && sts[i].inc == inc && Registers(ss[i], sts[i], sts[i].name)
    ensures var p := ss[i + 1].projects[inc];
            && p.name == sts[i].name && Carries(p.manifest, sts[i].disk.raw) && p.cache.entries == map[]
            && BoundsFrom(sts[i].disk.raw, ss[i].defaults, Bounds(p.cache.maxEntries, p.cache.defaultTtl))
  {
    assert StepAt(ss, sts, i);
    NewProjectEffect(ss[i], sts[i], inc);
  }

  /** Every incarnation comes from one registration, whose name it has. */
  lemma {:induction false} IncarnationOrigin(ss: seq<State>, sts: seq<Step>, i: nat, inc: nat) returns (r: nat)
    requires Run(ss, sts) && i <= |sts| && inc in ss[i].projects
    ensures r < i && Registers(ss[r], sts[r], ss[i].projects[inc].name) && sts[r].inc == inc && inc !in ss[r].projects
  {
    NoneAtStart(ss, sts, inc);
    if inc in ss[i - 1].projects {
      r := IncarnationOrigin(ss, sts, i - 1, inc);
      NameAt(ss, sts, i - 1, inc);
    } else {
      r := i - 1;
      NewProjectAt(ss, sts, r, inc);
    }
  }

  lemma NoneAtStart(ss: seq<State>, sts: seq<Step>, inc: nat)
    requires Run(ss, sts)
    ensures inc !in ss[0].projects
  {
  }

  lemma NameAt(ss: seq<State>, sts: seq<Step>, i: nat, inc: nat)
    requires Run(ss, sts) && i < |sts| && inc in ss[i].projects
    ensures inc in ss[i + 1].projects && ss[i + 1].projects[inc].name == ss[i].projects[inc].name
    ensures ss[i + 1].defaults == ss[i].defaults
  {
    assert StepAt(ss, sts, i);
    ManifestEffect(ss[i], sts[i], inc);
  }

  /** The step installs a manifest in `inc`. */
  ghost predicate Installs(s: State, st: Step, inc: nat) {
    || (st.Register? && st.inc == inc && Registers(s, st, st.name))
    || (st.ReloadStore? && st.op in s.reloads && s.reloads[st.op].Configured? && s.reloads[st.op].inc == inc)
  }

  /** In every run, the manifest of an incarnation is field by field the one that its registration, or a reload of it,
      read from disk at step `load` and installed at step `store`, with nothing installed since. */
  lemma {:induction false} ManifestFromDisk(ss: seq<State>, sts: seq<Step>, i: nat, inc: nat)
    returns (load: nat, store: nat)
    requires Run(ss, sts) && i <= |sts| && inc in ss[i].projects
    ensures load <= store < i && Installs(ss[store], sts[store], inc)
    ensures forall k :: store < k < i ==> !Installs(ss[k], sts[k], inc)
    ensures if sts[store].Register? then load == store
            else load < store && sts[load].ReloadConfigure? && sts[load].op == sts[store].op
    ensures Loads(sts[load].disk, ss[i].projects[inc].name)
    ensures Carries(ss[i].projects[inc].manifest, sts[load].disk.raw)
  {
    NoneAtStart(ss, sts, inc);
    var s, st := ss[i - 1], sts[i - 1];
    if inc !in s.projects {
      load, store := i - 1, i - 1;
      NewProjectAt(ss, sts, i - 1, inc);
      return;
    }
    NameAt(ss, sts, i - 1, inc);
    ManifestAt(ss, sts, i - 1, inc);
    EnabledAt(ss, sts, i - 1);
    if st.ReloadStore? && s.reloads[st.op].inc == inc {
      store := i - 1;
      load := ConfiguredOrigin(ss, sts, i - 1, st.op);
      RunInv(ss, sts, i - 1);
    } else {
      load, store := ManifestFromDisk(ss, sts, i - 1, inc);
    }
  }

  // ---- which file the cache limits come from -------------------------------------------------

  /** The step gives limits to the cache of `inc`. */
  ghost predicate Limits(s: State, st: Step, inc: nat) {
    || (st.Register? && st.inc == inc && Registers(s, st, st.name))
    || (st.ReloadConfigure? && st.op in s.reloads && s.reloads[st.op].LookedUp? && s.reloads[st.op].inc == inc
        && Loads(st.disk, s.reloads[st.op].name))
  }

  lemma LimitsAt(ss: seq<State>, sts: seq<Step>, i: nat, inc: nat)
    requires Run(ss, sts) && i < |sts| && inc in ss[i].projects
    ensures inc in ss[i + 1].projects
    ensures var c, c' := ss[i].projects[inc].cache, ss[i + 1].projects[inc].cache;
            if Limits(ss[i], sts[i], inc)
            then && BoundsFrom(sts[i].disk.raw, ss[i].defaults, Bounds(c'.maxEntries, c'.defaultTtl))
                 && c'.entries == c.entries
            else c'.maxEntries == c.maxEntries && c'.defaultTtl == c.defaultTtl
  {
    assert StepAt(ss, sts, i);
    ConfigEffect(ss[i], sts[i], inc);
    if sts[i].ReloadConfigure? {
      LoadForMeaning(sts[i].disk, ss[i].reloads[sts[i].op].name);
    }
  }

  /** In every run, the limits of a cache are those in the file that its registration, or a reload of it, read last:
      the file's own values where it has any, and the daemon's defaults where it has none. */
  lemma {:induction false} LimitsFromDisk(ss: seq<State>, sts: seq<Step>, i: nat, inc: nat) returns (k: nat)
    requires Run(ss, sts) && i <= |sts| && inc in ss[i].projects
    ensures k < i && Limits(ss[k], sts[k], inc) && forall m :: k < m < i ==> !Limits(ss[m], sts[m], inc)
    ensures var c := ss[i].projects[inc].cache;
            BoundsFrom(sts[k].disk.raw, ss[i].defaults, Bounds(c.maxEntries, c.defaultTtl))
  {
    NoneAtStart(ss, sts, inc);
    if inc !in ss[i - 1].projects {
      k := i - 1;
      NewProjectAt(ss, sts, k, inc);
      DefaultsAt(ss, sts, k);
      return;
    }
    LimitsAt(ss, sts, i - 1, inc);
    DefaultsAt(ss, sts, i - 1);
    if Limits(ss[i - 1], sts[i - 1], inc) {
      k := i - 1;
    } else {
      k := LimitsFromDisk(ss, sts, i - 1, inc);
    }
  }

  lemma DefaultsAt(ss: seq<State>, sts: seq<Step>, i: nat)
    requires Run(ss, sts) && i < |sts|
    ensures ss[i + 1].defaults == ss[i].defaults
  {
    assert StepAt(ss, sts, i);
  }
}
