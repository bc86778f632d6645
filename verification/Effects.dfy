/** What one step of the broker can do to one get, one cache entry, one project. */
module Effects {
  import opened Common
  import opened CacheSpec
  import opened Manifests
  import opened Broker

  predicate StepsGet(st: Step, g: nat) { OnGet(st) && st.get == g }

  /** A get keeps its project, its name and its manifest snapshot; only its own steps move it on. */
  lemma GetEffect(s: State, st: Step, g: nat)
    requires Enabled(s, st) && g in Apply(s, st).gets
    ensures var c' := Apply(s, st).gets[g];
            if g !in s.gets then st == Begin(g, c'.inc, c'.name) && c'.inc in s.projects
                                 && c' == GetCall(c'.inc, c'.name, s.projects[c'.inc].manifest, Snapped)
            else if StepsGet(st, g) then
              && s.gets[g].inc in s.projects
              && AtPc(s.gets[g].pc, st)
              && c' == s.gets[g].(pc := NextPc(s.gets[g], s.projects[s.gets[g].inc].cache, s.backend, s.now, st))
            else c' == s.gets[g]
  {
  }

  lemma GetsPersist(s: State, st: Step)
    requires Enabled(s, st)
    ensures s.gets.Keys <= Apply(s, st).gets.Keys
    ensures s.projects.Keys <= Apply(s, st).projects.Keys
    ensures s.now <= Apply(s, st).now
  {
  }

  /** The entry that get `g` writes when it stores in state `s`. */
  ghost predicate Writes(s: State, st: Step, inc: nat, n: string, e: Entry) {
    && st.Store? && st.get in s.gets
    && s.gets[st.get].inc == inc && inc in s.projects && s.gets[st.get].name == n
    && s.gets[st.get].pc == Fetched(e.value)
    && e.fetchedAt == s.now && e.ttl == s.projects[inc].cache.defaultTtl
  }

  /** An entry in a cache was there before or has just been stored by a get of that incarnation. */
  lemma EntryEffect(s: State, st: Step, inc: nat, n: string)
    requires Enabled(s, st)
    requires inc in Apply(s, st).projects && n in Apply(s, st).projects[inc].cache.entries
    ensures inc in s.projects
    ensures var e := Apply(s, st).projects[inc].cache.entries[n];
            Writes(s, st, inc, n, e) || (n in s.projects[inc].cache.entries && s.projects[inc].cache.entries[n] == e)
  {
    if OnGet(st) {
      EntryOnGet(s, st, inc, n);
    }
  }

  lemma EntryOnGet(s: State, st: Step, inc: nat, n: string)
    requires Enabled(s, st) && OnGet(st)
    requires inc in ApplyGet(s, st).projects && n in ApplyGet(s, st).projects[inc].cache.entries
    ensures Apply(s, st) == ApplyGet(s, st) && inc in s.projects
    ensures var e := ApplyGet(s, st).projects[inc].cache.entries[n];
            Writes(s, st, inc, n, e) || (n in s.projects[inc].cache.entries && s.projects[inc].cache.entries[n] == e)
  {
  }

  /** A manifest changes only when a reload of that incarnation stores a new one. */
  lemma ManifestEffect(s: State, st: Step, inc: nat)
    requires Enabled(s, st) && inc in s.projects
    ensures inc in Apply(s, st).projects && Apply(s, st).projects[inc].name == s.projects[inc].name
    ensures Apply(s, st).projects[inc].manifest ==
            if st.ReloadStore? && s.reloads[st.op].inc == inc then s.reloads[st.op].manifest
            else s.projects[inc].manifest
  {
  }

  /** Cache bounds change only when a reload of that incarnation is configured. */
  lemma ConfigEffect(s: State, st: Step, inc: nat)
    requires Enabled(s, st) && inc in s.projects
    ensures inc in Apply(s, st).projects
    ensures var c, c' := s.projects[inc].cache, Apply(s, st).projects[inc].cache;
            if st.ReloadConfigure? && s.reloads[st.op].inc == inc && LoadFor(st.disk, s.reloads[st.op].name).Ok?
            then c' == Reconfigured(s.projects[inc], LoadFor(st.disk, s.reloads[st.op].name).value, s.defaults).cache
            else c'.maxEntries == c.maxEntries && c'.defaultTtl == c.defaultTtl
  {
  }

  // ---- no get is ever stuck ----------------------------------------------------

  /** Whatever the cache holds, there is an entry that an insert may evict if it must. */
  lemma SomeVictim(c: Cache, n: string) returns (victim: Option<string>)
    ensures LegalVictim(c, n, victim)
  {
    if MustEvict(c, n) {
      OldestExists(c.entries);
      var k :| IsOldest(c.entries, k);
      victim := Some(k);
    } else {
      victim := None;
    }
  }

  /** In every reachable state, a get that has neither finished nor been aborted can take its next step, for every
      backend reply where it awaits one. In particular an insert never lacks an entry to evict. */
  lemma GetNeverStuck(ss: seq<State>, sts: seq<Step>, i: nat, g: nat, reply: Reply) returns (st: Step)
    requires Run(ss, sts) && i < |ss| && g in ss[i].gets && !ss[i].gets[g].pc.Done? && !ss[i].gets[g].pc.Aborted?
    ensures StepsGet(st, g) && !st.Abort? && Enabled(ss[i], st) && (st.Answer? ==> st.reply == reply)
  {
    RunInv(ss, sts, i);
    var call := ss[i].gets[g];
    match call.pc
    case Snapped => st := Check(g);
    case Allowed => st := Probe(g);
    case Missed => st := LoadSession(g);
    case Awaiting(_) => st := Answer(g, reply);
    case Fetched(_) =>
      var victim := SomeVictim(ss[i].projects[call.inc].cache, call.name);
      st := Store(g, victim);
    case Inserted(_) => st := ReadTtl(g);
    case Emitting(_) => st := Emit(g);
    case Responding(_) => st := Respond(g);
  }

  // ---- the same for the steps of a run ------------------------------------------

  lemma GetAt(ss: seq<State>, sts: seq<Step>, i: nat, g: nat)
    requires Run(ss, sts) && i < |sts| && g in ss[i + 1].gets
    ensures var s, st, c' := ss[i], sts[i], ss[i + 1].gets[g];
            if g !in s.gets then st == Begin(g, c'.inc, c'.name) && c'.inc in s.projects
                                 && c' == GetCall(c'.inc, c'.name, s.projects[c'.inc].manifest, Snapped)
            else if StepsGet(st, g) then
              && s.gets[g].inc in s.projects
              && AtPc(s.gets[g].pc, st)
              && c' == s.gets[g].(pc := NextPc(s.gets[g], s.projects[s.gets[g].inc].cache, s.backend, s.now, st))
            else c' == s.gets[g]
  {
    assert StepAt(ss, sts, i);
    GetEffect(ss[i], sts[i], g);
  }

  lemma BeginAt(ss: seq<State>, sts: seq<Step>, i: nat)
    requires Run(ss, sts) && i < |sts| && sts[i].Begin?
    ensures sts[i].get !in ss[i].gets && sts[i].get in ss[i + 1].gets && sts[i].inc in ss[i].projects
    ensures var call := ss[i + 1].gets[sts[i].get]; call.inc == sts[i].inc && call.name == sts[i].name
  {
    assert StepAt(ss, sts, i);
  }

  lemma PersistAt(ss: seq<State>, sts: seq<Step>, i: nat)
    requires Run(ss, sts) && i < |sts|
    ensures ss[i].gets.Keys <= ss[i + 1].gets.Keys && ss[i].projects.Keys <= ss[i + 1].projects.Keys
    ensures ss[i].now <= ss[i + 1].now
  {
    assert StepAt(ss, sts, i);
    GetsPersist(ss[i], sts[i]);
  }

  lemma ManifestAt(ss: seq<State>, sts: seq<Step>, i: nat, inc: nat)
    requires Run(ss, sts) && i < |sts| && inc in ss[i].projects
    ensures inc in ss[i + 1].projects
    ensures sts[i].ReloadStore? ==> sts[i].op in ss[i].reloads && ss[i].reloads[sts[i].op].Configured?
    ensures ss[i + 1].projects[inc].manifest ==
            if sts[i].ReloadStore? && ss[i].reloads[sts[i].op].inc == inc then ss[i].reloads[sts[i].op].manifest
            else ss[i].projects[inc].manifest
  {
    assert StepAt(ss, sts, i);
    ManifestEffect(ss[i], sts[i], inc);
  }

  lemma EntryAt(ss: seq<State>, sts: seq<Step>, i: nat, inc: nat, n: string)
    requires Run(ss, sts) && i < |sts|
    requires inc in ss[i + 1].projects && n in ss[i + 1].projects[inc].cache.entries
    ensures inc in ss[i].projects
    ensures var e := ss[i + 1].projects[inc].cache.entries[n];
            || Writes(ss[i], sts[i], inc, n, e)
            || (n in ss[i].projects[inc].cache.entries && ss[i].projects[inc].cache.entries[n] == e)
  {
    assert StepAt(ss, sts, i);
    EntryEffect(ss[i], sts[i], inc, n);
  }

  // ---- along a run -------------------------------------------------------------

  lemma {:induction false} GetStable(ss: seq<State>, sts: seq<Step>, g: nat, i: nat, j: nat)
    requires Run(ss, sts) && i <= j < |ss| && g in ss[i].gets
    ensures g in ss[j].gets
    ensures ss[j].gets[g].inc == ss[i].gets[g].inc && ss[j].gets[g].name == ss[i].gets[g].name
    ensures ss[j].gets[g].snap == ss[i].gets[g].snap
    decreases j
  {
    if i < j {
      GetStable(ss, sts, g, i, j - 1);
      PersistAt(ss, sts, j - 1);
      GetAt(ss, sts, j - 1, g);
    }
  }

  lemma {:induction false} ClockMonotone(ss: seq<State>, sts: seq<Step>, i: nat, j: nat)
    requires Run(ss, sts) && i <= j < |ss|
    ensures ss[i].now <= ss[j].now
    decreases j
  {
    if i < j {
      ClockMonotone(ss, sts, i, j - 1);
      PersistAt(ss, sts, j - 1);
    }
  }
}
