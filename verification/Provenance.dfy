/** Where an answered value comes from, how old it can be, and which manifest allowed it. */
module Provenance {
  import opened Common
  import opened CacheSpec
  import opened Manifests
  import opened Broker
  import opened Effects

  function VerdictOf(pc: Pc): Option<Verdict> {
    if pc.Emitting? || pc.Responding? || pc.Done? then Some(pc.verdict) else None
  }

  // ---- tracing a program counter back to the step that produced it -----------------

  /** A get holding a session got it from the cell while that session was installed. */
  lemma {:induction false} SessionOrigin(ss: seq<State>, sts: seq<Step>, i: nat, g: nat) returns (j: nat)
    requires Run(ss, sts) && i < |ss| && g in ss[i].gets && ss[i].gets[g].pc.Awaiting?
    ensures j < i && sts[j] == LoadSession(g) && g in ss[j].gets
    ensures ss[j].backend == Some(ss[i].gets[g].pc.session)
  {
    assert i > 0;
    GetAt(ss, sts, i - 1, g);
    if g in ss[i - 1].gets && ss[i - 1].gets[g].pc == ss[i].gets[g].pc {
      j := SessionOrigin(ss, sts, i - 1, g);
    } else {
      j := i - 1;
    }
  }

  lemma {:induction false} FetchOrigin(ss: seq<State>, sts: seq<Step>, i: nat, g: nat) returns (j: nat)
    requires Run(ss, sts) && i < |ss| && g in ss[i].gets && ss[i].gets[g].pc.Fetched?
    ensures j < i && sts[j] == Answer(g, Found(ss[i].gets[g].pc.value))
    ensures g in ss[j].gets && ss[j].gets[g].pc.Awaiting?
  {
    assert i > 0;
    GetAt(ss, sts, i - 1, g);
    if g in ss[i - 1].gets && ss[i - 1].gets[g].pc == ss[i].gets[g].pc {
      j := FetchOrigin(ss, sts, i - 1, g);
    } else {
      j := i - 1;
    }
  }

  lemma {:induction false} InsertOrigin(ss: seq<State>, sts: seq<Step>, i: nat, g: nat) returns (j: nat)
    requires Run(ss, sts) && i < |ss| && g in ss[i].gets && ss[i].gets[g].pc.Inserted?
    ensures j < i && sts[j].Store? && sts[j].get == g
    ensures g in ss[j].gets && ss[j].gets[g].pc == Fetched(ss[i].gets[g].pc.value)
  {
    assert i > 0;
    GetAt(ss, sts, i - 1, g);
    if g in ss[i - 1].gets && ss[i - 1].gets[g].pc == ss[i].gets[g].pc {
      j := InsertOrigin(ss, sts, i - 1, g);
    } else {
      j := i - 1;
    }
  }

  /** The step at which a get reached its verdict. */
  lemma {:induction false} VerdictOrigin(ss: seq<State>, sts: seq<Step>, i: nat, g: nat) returns (j: nat)
    requires Run(ss, sts) && i < |ss| && g in ss[i].gets && VerdictOf(ss[i].gets[g].pc).Some?
    ensures j < i && StepsGet(sts[j], g) && g in ss[j].gets && g in ss[j + 1].gets
    ensures AtPc(ss[j].gets[g].pc, sts[j]) && VerdictOf(ss[j].gets[g].pc).None?
    ensures ss[j].gets[g].inc in ss[j].projects
    ensures ss[j + 1].gets[g].pc == Emitting(VerdictOf(ss[i].gets[g].pc).value)
    ensures ss[j + 1].gets[g].pc == NextPc(ss[j].gets[g], ss[j].projects[ss[j].gets[g].inc].cache,
                                           ss[j].backend, ss[j].now, sts[j])
  {
    assert i > 0;
    GetAt(ss, sts, i - 1, g);
    if g in ss[i - 1].gets && VerdictOf(ss[i - 1].gets[g].pc).Some? {
      j := VerdictOrigin(ss, sts, i - 1, g);
    } else {
      j := i - 1;
    }
  }

  lemma {:induction false} EntryOrigin(ss: seq<State>, sts: seq<Step>, i: nat, inc: nat, n: string) returns (j: nat)
    requires Run(ss, sts) && i < |ss| && inc in ss[i].projects && n in ss[i].projects[inc].cache.entries
    ensures j < i && Writes(ss[j], sts[j], inc, n, ss[i].projects[inc].cache.entries[n])
  {
    assert i > 0;
    EntryAt(ss, sts, i - 1, inc, n);
    if Writes(ss[i - 1], sts[i - 1], inc, n, ss[i].projects[inc].cache.entries[n]) {
      j := i - 1;
    } else {
      j := EntryOrigin(ss, sts, i - 1, inc, n);
    }
  }

  // ---- the chain from a fetch to an answer --------------------------------------------

  /** Before step `i`, get `h` of incarnation `inc` loaded a session that was installed at that moment
      and that session answered `v` for `n`. */
  ghost predicate FetchedBy(ss: seq<State>, sts: seq<Step>, i: nat, h: nat, inc: nat, n: string, v: string) {
    exists load: nat, answer: nat :: Fetches(ss, sts, load, answer, h, inc, n, v) && answer < i
  }

  ghost predicate Fetches(ss: seq<State>, sts: seq<Step>, load: nat, answer: nat,
                          h: nat, inc: nat, n: string, v: string)
  {
    && load < answer < |sts| < |ss|
    && sts[load] == LoadSession(h) && sts[answer] == Answer(h, Found(v))
    && h in ss[load].gets && ss[load].gets[h].inc == inc && ss[load].gets[h].name == n
    && h in ss[answer].gets && ss[load].backend.Some?
    && ss[answer].gets[h].pc == Awaiting(ss[load].backend.value)
  }

  lemma FetchedHasOrigin(ss: seq<State>, sts: seq<Step>, i: nat, g: nat)
    requires Run(ss, sts) && i < |ss| && g in ss[i].gets && ss[i].gets[g].pc.Fetched?
    ensures FetchedBy(ss, sts, i, g, ss[i].gets[g].inc, ss[i].gets[g].name, ss[i].gets[g].pc.value)
  {
    var answer := FetchOrigin(ss, sts, i, g);
    var load := SessionOrigin(ss, sts, answer, g);
    GetStable(ss, sts, g, load, i);
    assert Fetches(ss, sts, load, answer, g, ss[i].gets[g].inc, ss[i].gets[g].name, ss[i].gets[g].pc.value);
  }

  lemma FetchedEarlier(ss: seq<State>, sts: seq<Step>, i: nat, j: nat, h: nat, inc: nat, n: string, v: string)
    requires FetchedBy(ss, sts, i, h, inc, n, v) && i <= j
    ensures FetchedBy(ss, sts, j, h, inc, n, v)
  {
  }

  /** No value that was fetched for another incarnation, another project or another name is ever in a cache. */
  lemma CachedValueProvenance(ss: seq<State>, sts: seq<Step>, i: nat, inc: nat, n: string) returns (store: nat)
    requires Run(ss, sts) && i < |ss| && inc in ss[i].projects && n in ss[i].projects[inc].cache.entries
    ensures store < i && Writes(ss[store], sts[store], inc, n, ss[i].projects[inc].cache.entries[n])
    ensures FetchedBy(ss, sts, i, sts[store].get, inc, n, ss[i].projects[inc].cache.entries[n].value)
  {
    store := EntryOrigin(ss, sts, i, inc, n);
    FetchedHasOrigin(ss, sts, store, sts[store].get);
    FetchedEarlier(ss, sts, store, i, sts[store].get, inc, n, ss[i].projects[inc].cache.entries[n].value);
  }

  // ---- the two ways a value is answered --------------------------------------------------

  /** Get `g` answered `v` with `t` seconds left from the entry that step `store` wrote and step `probe` read. */
  ghost predicate ServedFromCache(ss: seq<State>, sts: seq<Step>, i: nat, g: nat, v: string, t: nat,
                                  store: nat, probe: nat)
  {
    && store < probe < i <= |sts| < |ss|
    && sts[probe] == Probe(g) && sts[store].Store?
    && g in ss[probe].gets && ss[probe].gets[g].inc in ss[store].projects
    && var inc, n := ss[probe].gets[g].inc, ss[probe].gets[g].name;
    && var ttl := ss[store].projects[inc].cache.defaultTtl;
    && Writes(ss[store], sts[store], inc, n, Entry(v, ss[store].now, ttl))
    && FetchedBy(ss, sts, i, sts[store].get, inc, n, v)
    && ss[store].now <= ss[probe].now < ss[store].now + ttl
    && ttl <= CACHE_TTL_MAX * NANOS
    && t == (ss[store].now + ttl - ss[probe].now) / NANOS
  }

  /** Get `g` answered `v` after fetching it itself; `t` is the default TTL it read afterwards. */
  ghost predicate ServedFromBackend(ss: seq<State>, sts: seq<Step>, i: nat, g: nat, v: string, t: nat,
                                    store: nat, read: nat)
  {
    && store < read < i <= |sts| < |ss|
    && sts[read] == ReadTtl(g) && sts[store].Store? && sts[store].get == g
    && g in ss[read].gets && ss[read].gets[g].inc in ss[read].projects
    && var inc, n := ss[read].gets[g].inc, ss[read].gets[g].name;
    && FetchedBy(ss, sts, i, g, inc, n, v)
    && t == ss[read].projects[inc].cache.defaultTtl / NANOS && 1 <= t <= CACHE_TTL_MAX
  }

  lemma HitTtl(e: Entry, now: nat)
    requires e.fetchedAt <= now < e.fetchedAt + e.ttl && e.ttl <= CACHE_TTL_MAX * NANOS
    ensures SecondsAsU32(e.RemainingTtl(now)) == (e.fetchedAt + e.ttl - now) / NANOS
  {
  }

  lemma EntryTtlBounded(ss: seq<State>, sts: seq<Step>, i: nat, inc: nat, n: string)
    requires Run(ss, sts) && i < |ss| && inc in ss[i].projects && n in ss[i].projects[inc].cache.entries
    ensures ss[i].projects[inc].cache.entries[n].ttl <= CACHE_TTL_MAX * NANOS
  {
    RunInv(ss, sts, i);
    assert ProjectOk(ss[i].projects[inc]);
  }

  lemma WrittenEntry(s: State, st: Step, inc: nat, n: string, e: Entry)
    requires Writes(s, st, inc, n, e)
    ensures e == Entry(e.value, s.now, s.projects[inc].cache.defaultTtl)
  {
  }

  lemma CacheAnswer(ss: seq<State>, sts: seq<Step>, i: nat, g: nat, v: string, t: nat, probe: nat) returns (store: nat)
    requires Run(ss, sts) && probe < i < |ss| && sts[probe] == Probe(g) && g in ss[probe].gets
    requires ss[probe].gets[g].inc in ss[probe].projects
    requires Get(ss[probe].projects[ss[probe].gets[g].inc].cache, ss[probe].gets[g].name, ss[probe].now) == Hit(v, t)
    ensures ServedFromCache(ss, sts, i, g, v, t, store, probe)
  {
    var inc, n := ss[probe].gets[g].inc, ss[probe].gets[g].name;
    var e := ss[probe].projects[inc].cache.entries[n];
    store := CachedValueProvenance(ss, sts, probe, inc, n);
    FetchedEarlier(ss, sts, probe, i, sts[store].get, inc, n, v);
    ClockMonotone(ss, sts, store, probe);
    EntryTtlBounded(ss, sts, probe, inc, n);
    WrittenEntry(ss[store], sts[store], inc, n, e);
    HitTtl(e, ss[probe].now);
  }

  lemma DefaultTtlSeconds(ttl: nat)
    requires NANOS <= ttl <= CACHE_TTL_MAX * NANOS
    ensures SecondsSaturated(ttl) == ttl / NANOS && 1 <= ttl / NANOS <= CACHE_TTL_MAX
  {
  }

  lemma BackendAnswer(ss: seq<State>, sts: seq<Step>, i: nat, g: nat, v: string, t: nat, read: nat) returns (store: nat)
    requires Run(ss, sts) && read < i < |ss| && sts[read] == ReadTtl(g) && g in ss[read].gets
    requires ss[read].gets[g].inc in ss[read].projects && ss[read].gets[g].pc == Inserted(v)
    requires t == SecondsSaturated(ss[read].projects[ss[read].gets[g].inc].cache.defaultTtl)
    ensures ServedFromBackend(ss, sts, i, g, v, t, store, read)
  {
    store := InsertOrigin(ss, sts, read, g);
    FetchedHasOrigin(ss, sts, store, g);
    GetStable(ss, sts, g, store, read);
    FetchedEarlier(ss, sts, store, i, g, ss[read].gets[g].inc, ss[read].gets[g].name, v);
    RunInv(ss, sts, read);
    assert ProjectOk(ss[read].projects[ss[read].gets[g].inc]);
    DefaultTtlSeconds(ss[read].projects[ss[read].gets[g].inc].cache.defaultTtl);
  }

  /** Provenance and bounded staleness. In every run, whenever a get holds a value response, either it was a cache
      hit strictly within the TTL (at most a day) of an entry stored by a get of the same incarnation, or the
      get fetched the value itself; in both cases the value came from a session that was installed when the
      fetching get of that same incarnation loaded it, and `ttl_seconds` is exact. */
  lemma ValueProvenance(ss: seq<State>, sts: seq<Step>, i: nat, g: nat, v: string, t: nat)
    returns (store: nat, decided: nat)
    requires Run(ss, sts) && i < |ss| && g in ss[i].gets
    requires VerdictOf(ss[i].gets[g].pc).Some? && VerdictOf(ss[i].gets[g].pc).value.response == Value(v, t)
    ensures || ServedFromCache(ss, sts, i, g, v, t, store, decided)
            || ServedFromBackend(ss, sts, i, g, v, t, store, decided)
    ensures VerdictOf(ss[i].gets[g].pc).value.backend ==
            Some(if sts[decided].Probe? then FromCache else FromBackend)
  {
    decided := VerdictOrigin(ss, sts, i, g);
    if sts[decided].Probe? {
      store := CacheAnswer(ss, sts, i, g, v, t, decided);
    } else {
      store := BackendAnswer(ss, sts, i, g, v, t, decided);
    }
  }
}
