/** Reloads: what is installed is validated, a failed reload changes nothing, and when the
    cache bounds agree with the manifest. */
module Reloading {
  import opened Common
  import opened Manifests
  import opened Broker
  import opened Effects
  import opened Registration

  function ConfigOf(p: Project): Bounds { Bounds(p.cache.maxEntries, p.cache.defaultTtl) }

  /** Every project, registered or outlived by its handlers, always carries a validated manifest with its own name
      and cache bounds of 1..=1024 entries and 1..=86400 seconds. */
  lemma InstalledManifestsAreValid(ss: seq<State>, sts: seq<Step>, i: nat, inc: nat)
    requires Run(ss, sts) && i < |ss| && inc in ss[i].projects
    ensures var p := ss[i].projects[inc];
            WellFormed(p.manifest) && p.manifest.name == p.name && BoundsInRange(ConfigOf(p))
  {
    RunInv(ss, sts, i);
    assert ProjectOk(ss[i].projects[inc]);
  }

  /** A registration or reload that fails leaves registry, projects, gets and backend as they were. */
  lemma FailureChangesNothing(s: State, st: Step)
    requires Enabled(s, st)
    requires (st.Register? && RegisterOutcome(s, st.name, st.disk, st.bound).Err?)
          || (st.ReloadLookup? && st.name !in s.registry)
          || (st.ReloadConfigure? && LoadFor(st.disk, s.reloads[st.op].name).Err?)
    ensures Apply(s, st).(reloads := s.reloads) == s
    ensures st.Register? ==> Apply(s, st) == s
  {
  }

  // ---- what the cache bounds follow --------------------------------------------------

  /** The manifest whose bounds were last given to the cache of `inc`. */
  function LastConfigured(ss: seq<State>, sts: seq<Step>, i: nat, inc: nat): Option<Manifest>
    requires Run(ss, sts) && i <= |sts|
  {
    if i == 0 then None
    else
      var s, st := ss[i - 1], sts[i - 1];
      assert StepAt(ss, sts, i - 1);
      if st.Register? && st.inc == inc && RegisterOutcome(s, st.name, st.disk, st.bound).Ok? then
        Some(RegisterOutcome(s, st.name, st.disk, st.bound).value)
      else if st.ReloadConfigure? && s.reloads[st.op].inc == inc && LoadFor(st.disk, s.reloads[st.op].name).Ok? then
        Some(LoadFor(st.disk, s.reloads[st.op].name).value)
      else LastConfigured(ss, sts, i - 1, inc)
  }

  lemma NewProjectConfig(s: State, st: Step, inc: nat)
    requires Enabled(s, st) && inc !in s.projects && inc in Apply(s, st).projects
    ensures st.Register? && st.inc == inc && RegisterOutcome(s, st.name, st.disk, st.bound).Ok?
    ensures Apply(s, st).projects[inc]
         == NewProject(st.name, RegisterOutcome(s, st.name, st.disk, st.bound).value, s.defaults)
    ensures Apply(s, st).reloads == s.reloads
  {
  }

  /** In every run the cache bounds are those of the manifest last configured, which need not be the one
      installed (see `BoundsAgreeIff`). */
  lemma {:induction false} BoundsFollowLastConfigured(ss: seq<State>, sts: seq<Step>, i: nat, inc: nat)
    requires Run(ss, sts) && i <= |sts| && inc in ss[i].projects
    ensures LastConfigured(ss, sts, i, inc).Some?
    ensures ConfigOf(ss[i].projects[inc]) == ResolveCacheBounds(LastConfigured(ss, sts, i, inc).value, ss[i].defaults)
  {
    assert i > 0;
    var s, st := ss[i - 1], sts[i - 1];
    assert StepAt(ss, sts, i - 1);
    DefaultsFixed(s, st);
    if inc in s.projects {
      BoundsFollowLastConfigured(ss, sts, i - 1, inc);
      ConfigEffect(s, st, inc);
    } else {
      NewProjectConfig(s, st, inc);
    }
  }

  /** The manifest last installed in `inc`: by its registration, or by the store of a reload. */
  function LastStored(ss: seq<State>, sts: seq<Step>, i: nat, inc: nat): Option<Manifest>
    requires Run(ss, sts) && i <= |sts|
  {
    if i == 0 then None
    else
      var s, st := ss[i - 1], sts[i - 1];
      assert StepAt(ss, sts, i - 1);
      if st.Register? && st.inc == inc && RegisterOutcome(s, st.name, st.disk, st.bound).Ok? then
        Some(RegisterOutcome(s, st.name, st.disk, st.bound).value)
      else if st.ReloadStore? && s.reloads[st.op].inc == inc then Some(s.reloads[st.op].manifest)
      else LastStored(ss, sts, i - 1, inc)
  }

  lemma {:induction false} ManifestFollowsLastStored(ss: seq<State>, sts: seq<Step>, i: nat, inc: nat)
    requires Run(ss, sts) && i <= |sts| && inc in ss[i].projects
    ensures LastStored(ss, sts, i, inc) == Some(ss[i].projects[inc].manifest)
  {
    NoneAtStart(ss, sts, inc);
    var s, st := ss[i - 1], sts[i - 1];
    assert StepAt(ss, sts, i - 1);
    if inc in s.projects {
      ManifestFollowsLastStored(ss, sts, i - 1, inc);
      ManifestEffect(s, st, inc);
    } else {
      NewProjectConfig(s, st, inc);
    }
  }

  /** In every run, with any number of reloads interleaved with anything else: the cache bounds are those of the
      installed manifest if and only if the manifest configured last and the manifest stored last, which may
      come from different reloads, resolve to the same bounds. */
  lemma BoundsAgreeIff(ss: seq<State>, sts: seq<Step>, i: nat, inc: nat)
    requires Run(ss, sts) && i <= |sts| && inc in ss[i].projects
    ensures LastConfigured(ss, sts, i, inc).Some? && LastStored(ss, sts, i, inc).Some?
    ensures ConfigOf(ss[i].projects[inc]) == ResolveCacheBounds(ss[i].projects[inc].manifest, ss[i].defaults)
       <==> ResolveCacheBounds(LastConfigured(ss, sts, i, inc).value, ss[i].defaults)
            == ResolveCacheBounds(LastStored(ss, sts, i, inc).value, ss[i].defaults)
  {
    BoundsFollowLastConfigured(ss, sts, i, inc);
    ManifestFollowsLastStored(ss, sts, i, inc);
  }

  lemma DefaultsFixed(s: State, st: Step)
    requires Enabled(s, st)
    ensures Apply(s, st).defaults == s.defaults
  {
  }

  // ---- one reload at a time ---------------------------------------------------------------

  predicate ConfiguredOn(r: Reload, inc: nat) { r.Configured? && r.inc == inc }

  /** No two reloads of `inc` are between setting the cache bounds and storing the manifest. */
  ghost predicate OneReload(s: State, inc: nat) {
    var r := s.reloads;
    forall a, b :: a in r && b in r && ConfiguredOn(r[a], inc) && ConfiguredOn(r[b], inc) ==> a == b
  }

  ghost predicate Settled(s: State, inc: nat) {
    forall a :: a in s.reloads ==> !ConfiguredOn(s.reloads[a], inc)
  }

  ghost predicate Consistent(s: State, inc: nat)
    requires inc in s.projects
  {
    var c := ConfigOf(s.projects[inc]);
    && (Settled(s, inc) ==> c == ResolveCacheBounds(s.projects[inc].manifest, s.defaults))
    && (forall a :: a in s.reloads && ConfiguredOn(s.reloads[a], inc) ==>
          c == ResolveCacheBounds(s.reloads[a].manifest, s.defaults))
  }

  lemma ReloadsEffect(s: State, st: Step)
    requires Enabled(s, st)
    ensures st.ReloadLookup? ==> Apply(s, st).reloads - {st.op} == s.reloads - {st.op}
                                 && !Apply(s, st).reloads[st.op].Configured? && st.op !in s.reloads
    ensures !st.ReloadLookup? && !st.ReloadConfigure? && !st.ReloadStore? ==> Apply(s, st).reloads == s.reloads
  {
    if st.ReloadLookup? {
      var s' := Apply(s, st);
      assert s'.reloads - {st.op} == s.reloads - {st.op};
    }
  }

  lemma ConfigureKeepsConsistent(s: State, st: Step, inc: nat)
    requires Enabled(s, st) && st.ReloadConfigure? && inc in s.projects
    requires Consistent(s, inc) && OneReload(Apply(s, st), inc)
    ensures Consistent(Apply(s, st), inc)
  {
    var s', op := Apply(s, st), st.op;
    if ConfiguredOn(s'.reloads[op], inc) {
      assert forall a :: a in s'.reloads && ConfiguredOn(s'.reloads[a], inc) ==> a == op;
    } else {
      assert ConfigOf(s'.projects[inc]) == ConfigOf(s.projects[inc]);
      if Settled(s', inc) {
        forall a | a in s.reloads ensures !ConfiguredOn(s.reloads[a], inc) {
          assert a in s'.reloads;
        }
      }
    }
  }

  lemma StoreKeepsConsistent(s: State, st: Step, inc: nat)
    requires Enabled(s, st) && st.ReloadStore? && inc in s.projects
    requires Consistent(s, inc) && OneReload(s, inc)
    ensures Consistent(Apply(s, st), inc)
  {
    var s', op := Apply(s, st), st.op;
    assert s'.projects[inc].cache == s.projects[inc].cache;
    if s.reloads[op].inc != inc && Settled(s', inc) {
      forall a | a in s.reloads ensures !ConfiguredOn(s.reloads[a], inc) {
        assert a in s'.reloads;
      }
    }
  }

  lemma LookupKeepsConsistent(s: State, st: Step, inc: nat)
    requires Enabled(s, st) && st.ReloadLookup? && inc in s.projects && Consistent(s, inc)
    ensures Consistent(Apply(s, st), inc)
  {
    var s' := Apply(s, st);
    forall a | a in s.reloads ensures a in s'.reloads && s'.reloads[a] == s.reloads[a] {
    }
  }

  lemma OtherKeepsConsistent(s: State, st: Step, inc: nat)
    requires Enabled(s, st) && !st.ReloadLookup? && !st.ReloadConfigure? && !st.ReloadStore?
    requires inc in s.projects && Consistent(s, inc)
    ensures inc in Apply(s, st).projects && Consistent(Apply(s, st), inc)
  {
    ReloadsEffect(s, st);
    ManifestEffect(s, st, inc);
    ConfigEffect(s, st, inc);
    DefaultsFixed(s, st);
  }

  lemma NewIsConsistent(s: State, st: Step, inc: nat)
    requires Inv(s) && Enabled(s, st) && inc !in s.projects && inc in Apply(s, st).projects
    ensures Consistent(Apply(s, st), inc)
  {
    NewProjectConfig(s, st, inc);
    DefaultsFixed(s, st);
  }

  lemma StepKeepsConsistent(s: State, st: Step, inc: nat)
    requires Enabled(s, st) && inc in s.projects && Consistent(s, inc)
    requires OneReload(s, inc) && OneReload(Apply(s, st), inc)
    ensures inc in Apply(s, st).projects && Consistent(Apply(s, st), inc)
  {
    if st.ReloadConfigure? {
      ConfigureKeepsConsistent(s, st, inc);
    } else if st.ReloadStore? {
      StoreKeepsConsistent(s, st, inc);
    } else if st.ReloadLookup? {
      LookupKeepsConsistent(s, st, inc);
    } else {
      OtherKeepsConsistent(s, st, inc);
    }
  }

  lemma NextConsistent(ss: seq<State>, sts: seq<Step>, i: nat, inc: nat)
    requires Run(ss, sts) && i < |sts| && inc in ss[i + 1].projects
    requires inc in ss[i].projects ==> Consistent(ss[i], inc)
    requires OneReload(ss[i], inc) && OneReload(ss[i + 1], inc)
    ensures Consistent(ss[i + 1], inc)
  {
    assert StepAt(ss, sts, i);
    if inc in ss[i].projects {
      StepKeepsConsistent(ss[i], sts[i], inc);
    } else {
      RunInv(ss, sts, i);
      NewIsConsistent(ss[i], sts[i], inc);
    }
  }

  ghost predicate AlwaysOneReload(ss: seq<State>, inc: nat) {
    forall k :: 0 <= k < |ss| ==> OneReload(ss[k], inc)
  }

  /** Reload consistency: if no two reloads of an incarnation overlap between their two steps, then whenever none
      is between them the cache's cap and TTL are those that the installed manifest resolves to. */
  lemma {:induction false} ReloadConsistency(ss: seq<State>, sts: seq<Step>, i: nat, inc: nat)
    requires Run(ss, sts) && AlwaysOneReload(ss, inc) && i < |ss| && inc in ss[i].projects
    ensures Consistent(ss[i], inc)
  {
    NoneAtStart(ss, sts, inc);
    assert OneReload(ss[i - 1], inc) && OneReload(ss[i], inc);
    if inc in ss[i - 1].projects {
      ReloadConsistency(ss, sts, i - 1, inc);
    }
    NextConsistent(ss, sts, i - 1, inc);
  }

  // ---- two reloads at once, for a run in which they disagree --------------------------------

  /** Two reloads of one incarnation, both looked up. */
  ghost predicate BothLookedUp(s: State, a: nat, b: nat, name: string, inc: nat) {
    && a != b && a in s.reloads && b in s.reloads && inc in s.projects
    && s.reloads[a] == LookedUp(name, inc) && s.reloads[b] == LookedUp(name, inc)
  }

  /** Both reloads configure before either stores; `x` stores first, `y` last. */
  function Overlap(a: nat, b: nat, da: Disk, db: Disk, x: nat, y: nat): seq<Step> {
    [ReloadConfigure(a, da), ReloadConfigure(b, db), ReloadStore(x), ReloadStore(y)]
  }

  lemma ConfigureStep(s: State, op: nat, disk: Disk, inc: nat)
    requires op in s.reloads && s.reloads[op].LookedUp? && s.reloads[op].inc == inc && inc in s.projects
    requires LoadFor(disk, s.reloads[op].name).Ok?
    ensures var m, s' := LoadFor(disk, s.reloads[op].name).value, Apply(s, ReloadConfigure(op, disk));
            && s'.reloads == s.reloads[op := Configured(s.reloads[op].name, inc, m)] && s'.defaults == s.defaults
            && inc in s'.projects && ConfigOf(s'.projects[inc]) == ResolveCacheBounds(m, s.defaults)
  {
  }

  lemma StoreStep(s: State, op: nat, inc: nat)
    requires op in s.reloads && s.reloads[op].Configured? && s.reloads[op].inc == inc && inc in s.projects
    ensures var s' := Apply(s, ReloadStore(op));
            && s'.reloads == s.reloads[op := Reloaded(s.reloads[op].name, inc)] && s'.defaults == s.defaults
            && inc in s'.projects && ConfigOf(s'.projects[inc]) == ConfigOf(s.projects[inc])
            && s'.projects[inc].manifest == s.reloads[op].manifest
  {
  }

  /** Both configured: the bounds are those of the second. */
  lemma BothConfigured(s: State, a: nat, b: nat, name: string, inc: nat, da: Disk, db: Disk) returns (s': State)
    requires BothLookedUp(s, a, b, name, inc) && LoadFor(da, name).Ok? && LoadFor(db, name).Ok?
    ensures Exec(s, [ReloadConfigure(a, da), ReloadConfigure(b, db)]) == (s', true)
    ensures s'.reloads == s.reloads[a := Configured(name, inc, LoadFor(da, name).value)]
                                   [b := Configured(name, inc, LoadFor(db, name).value)]
    ensures inc in s'.projects && s'.defaults == s.defaults
    ensures ConfigOf(s'.projects[inc]) == ResolveCacheBounds(LoadFor(db, name).value, s.defaults)
  {
    var first, second := ReloadConfigure(a, da), ReloadConfigure(b, db);
    ConfigureStep(s, a, da, inc);
    var s1 := Apply(s, first);
    ConfigureStep(s1, b, db, inc);
    s' := Apply(s1, second);
    ExecTwo(s, first, second);
  }

  /** Both stored: the manifest is that of the later, the bounds are untouched. */
  lemma BothStored(s: State, x: nat, y: nat, name: string, inc: nat) returns (s': State)
    requires x != y && x in s.reloads && y in s.reloads && inc in s.projects
    requires s.reloads[x].Configured? && s.reloads[x].inc == inc && s.reloads[x].name == name
    requires s.reloads[y].Configured? && s.reloads[y].inc == inc && s.reloads[y].name == name
    ensures Exec(s, [ReloadStore(x), ReloadStore(y)]) == (s', true)
    ensures s'.reloads == s.reloads[x := Reloaded(name, inc)][y := Reloaded(name, inc)]
    ensures inc in s'.projects && s'.defaults == s.defaults
    ensures ConfigOf(s'.projects[inc]) == ConfigOf(s.projects[inc])
    ensures s'.projects[inc].manifest == s.reloads[y].manifest
  {
    StoreStep(s, x, inc);
    var s1 := Apply(s, ReloadStore(x));
    StoreStep(s1, y, inc);
    s' := Apply(s1, ReloadStore(y));
    ExecTwo(s, ReloadStore(x), ReloadStore(y));
  }

  lemma ExecTwo(s: State, a: Step, b: Step)
    requires Enabled(s, a) && Enabled(Apply(s, a), b)
    ensures Exec(s, [a, b]) == (Apply(Apply(s, a), b), true)
  {
    assert [a, b][1..] == [b] && [b][1..] == [];
    assert Exec(Apply(s, a), [b]) == (Apply(Apply(s, a), b), true);
  }

  lemma {:induction false} ExecConcat(s: State, a: seq<Step>, b: seq<Step>)
    requires Exec(s, a).1
    ensures Exec(s, a + b) == Exec(Exec(s, a).0, b)
    decreases |a|
  {
    if a == [] {
      assert a + b == b;
    } else {
      assert (a + b)[0] == a[0] && (a + b)[1..] == a[1..] + b;
      ExecConcat(Apply(s, a[0]), a[1..], b);
    }
  }

  lemma OverlapSettles(s: State, s1: State, s2: State, a: nat, b: nat, x: nat, y: nat, inc: nat)
    requires (x == a && y == b) || (x == b && y == a)
    requires s1.reloads - {a, b} == s.reloads - {a, b} && s2.reloads - {a, b} == s1.reloads - {a, b}
    requires forall k :: k in {a, b} && k in s2.reloads ==> s2.reloads[k].Reloaded?
    ensures Settled(s, inc) ==> Settled(s2, inc)
  {
    if Settled(s, inc) {
      forall k | k in s2.reloads && k != a && k != b ensures !ConfiguredOn(s2.reloads[k], inc) {
        assert k in s2.reloads - {a, b} && k in s.reloads - {a, b};
        assert (s2.reloads - {a, b})[k] == (s.reloads - {a, b})[k];
      }
    }
  }

  /** Where two reloads of one incarnation overlap, the bounds end up from the one that configured last and the
      allowlist from the one that stored last. So they agree afterwards if and only if the same reload did
      both, or the two manifests on disk resolve to the same bounds. */
  lemma OverlapAgreesIff(s: State, a: nat, b: nat, name: string, inc: nat, da: Disk, db: Disk, x: nat, y: nat)
    requires BothLookedUp(s, a, b, name, inc) && ((x == a && y == b) || (x == b && y == a))
    requires LoadFor(da, name).Ok? && LoadFor(db, name).Ok?
    ensures var ma, mb := LoadFor(da, name).value, LoadFor(db, name).value;
            var (s', ok) := Exec(s, Overlap(a, b, da, db, x, y));
            && ok && inc in s'.projects && (Settled(s, inc) ==> Settled(s', inc))
            && s'.projects[inc].manifest == (if y == b then mb else ma)
            && ConfigOf(s'.projects[inc]) == ResolveCacheBounds(mb, s.defaults)
            && (ConfigOf(s'.projects[inc]) == ResolveCacheBounds(s'.projects[inc].manifest, s'.defaults)
                <==> y == b || ResolveCacheBounds(ma, s.defaults) == ResolveCacheBounds(mb, s.defaults))
  {
    var s1 := BothConfigured(s, a, b, name, inc, da, db);
    var s2 := BothStored(s1, x, y, name, inc);
    OverlapSettles(s, s1, s2, a, b, x, y, inc);
    ExecConcat(s, [ReloadConfigure(a, da), ReloadConfigure(b, db)], [ReloadStore(x), ReloadStore(y)]);
    assert Overlap(a, b, da, db, x, y)
        == [ReloadConfigure(a, da), ReloadConfigure(b, db)] + [ReloadStore(x), ReloadStore(y)];
  }

  /** A project manifest on disk that asks for `max` cache entries. */
  function DiskWith(max: nat): Disk {
    Readable(RawManifest(1, "a", None, [], Some(RawCache(None, Some(max)))), Some("a"))
  }

  lemma DiskWithLoads(max: nat)
    requires 1 <= max <= CACHE_MAX_ENTRIES_MAX
    ensures LoadFor(DiskWith(max), "a") == Ok(Manifest(1, "a", None, [], None, Some(max)))
  {
    LoadForMeaning(DiskWith(max), "a");
  }

  lemma OneRegistered(s0: State) returns (s: State)
    requires Init(s0)
    ensures Exec(s0, [Register("a", DiskWith(1), true, 0)]) == (s, true)
    ensures s.registry == map["a" := 0] && 0 in s.projects && s.defaults == s0.defaults && s.reloads == map[]
  {
    DiskWithLoads(1);
    var r := Register("a", DiskWith(1), true, 0);
    s := Apply(s0, r);
    assert [r][1..] == [];
  }

  lemma TwoLookedUp(s: State, a: nat, b: nat, name: string) returns (s': State)
    requires name in s.registry && a != b && a !in s.reloads && b !in s.reloads
    ensures Exec(s, [ReloadLookup(a, name), ReloadLookup(b, name)]) == (s', true)
    ensures s' == s.(reloads := s.reloads[a := LookedUp(name, s.registry[name])][b := LookedUp(name, s.registry[name])])
  {
    s' := s.(reloads := s.reloads[a := LookedUp(name, s.registry[name])][b := LookedUp(name, s.registry[name])]);
    ExecTwo(s, ReloadLookup(a, name), ReloadLookup(b, name));
  }

  /** So without the one-at-a-time condition consistency fails: a run at whose end no reload is in flight
      and the cache bounds are not those of the installed manifest. */
  lemma OverlappingReloadsDisagree(s0: State) returns (ss: seq<State>, sts: seq<Step>)
    requires Init(s0)
    ensures Run(ss, sts) && ss[0] == s0
    ensures 0 in ss[|sts|].projects && Settled(ss[|sts|], 0) && !Consistent(ss[|sts|], 0)
  {
    DiskWithLoads(1);
    DiskWithLoads(2);
    var s1 := OneRegistered(s0);
    var s2 := TwoLookedUp(s1, 1, 2, "a");
    OverlapAgreesIff(s2, 1, 2, "a", 0, DiskWith(1), DiskWith(2), 2, 1);
    var r, l := [Register("a", DiskWith(1), true, 0)], [ReloadLookup(1, "a"), ReloadLookup(2, "a")];
    var o := Overlap(1, 2, DiskWith(1), DiskWith(2), 2, 1);
    assert Run([s0], []);
    ss := ExtendByAll([s0], [], r);
    ss := ExtendByAll(ss, [] + r, l);
    ss := ExtendByAll(ss, [] + r + l, o);
    sts := [] + r + l + o;
  }
}
