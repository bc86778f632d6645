/** A project whose allowlist fits its cache never asks the backend again before the TTL is over. */
module Refetch {
  import opened Common
  import opened CacheSpec
  import opened Broker
  import opened Effects
  import opened Allowlist

  /** The step reloads incarnation `inc`. */
  ghost predicate Reloads(s: State, st: Step, inc: nat) {
    && (st.ReloadConfigure? || st.ReloadStore?)
    && st.op in s.reloads && !s.reloads[st.op].ReloadFailed? && s.reloads[st.op].inc == inc
  }

  ghost predicate NeverReloaded(ss: seq<State>, sts: seq<Step>, inc: nat) {
    |sts| < |ss| && forall k :: 0 <= k < |sts| ==> !Reloads(ss[k], sts[k], inc)
  }

  ghost predicate SameConfig(p: Project, q: Project) {
    && p.manifest == q.manifest && p.cache.maxEntries == q.cache.maxEntries && p.cache.defaultTtl == q.cache.defaultTtl
  }

  lemma StepUnchanged(s: State, st: Step, inc: nat)
    requires Enabled(s, st) && inc in s.projects && !Reloads(s, st, inc)
    ensures inc in Apply(s, st).projects && SameConfig(s.projects[inc], Apply(s, st).projects[inc])
  {
    ManifestEffect(s, st, inc);
    ConfigEffect(s, st, inc);
  }

  lemma {:induction false} Unchanged(ss: seq<State>, sts: seq<Step>, inc: nat, i: nat, j: nat)
    requires Run(ss, sts) && NeverReloaded(ss, sts, inc) && i <= j < |ss| && inc in ss[i].projects
    ensures inc in ss[j].projects && SameConfig(ss[i].projects[inc], ss[j].projects[inc])
    decreases j
  {
    if i < j {
      Unchanged(ss, sts, inc, i, j - 1);
      assert StepAt(ss, sts, j - 1);
      StepUnchanged(ss[j - 1], sts[j - 1], inc);
    }
  }

  /** Without reloads every cached or stored name is on the one allowlist. */
  lemma KeysListed(ss: seq<State>, sts: seq<Step>, inc: nat, i: nat)
    requires Run(ss, sts) && NeverReloaded(ss, sts, inc) && i < |ss| && inc in ss[i].projects
    ensures ss[i].projects[inc].cache.entries.Keys <= Elements(ss[i].projects[inc].manifest.secrets)
    ensures forall n :: i < |sts| && Stores(ss[i], sts[i], inc, n) ==> n in ss[i].projects[inc].manifest.secrets
  {
    forall n | n in ss[i].projects[inc].cache.entries ensures n in ss[i].projects[inc].manifest.secrets {
      var b := CacheWithinAllowlists(ss, sts, i, inc, n);
      Unchanged(ss, sts, inc, b, i);
    }
    if i < |sts| && sts[i].Store? && sts[i].get in ss[i].gets && ss[i].gets[sts[i].get].inc == inc {
      var b := EveryAccessWasAllowed(ss, sts, i);
      Unchanged(ss, sts, inc, b, i);
    }
  }

  /** A cache whose possible names all fit never evicts. */
  lemma NeverEvicts(c: Cache, secrets: seq<string>, n: string)
    requires c.entries.Keys <= Elements(secrets) && n in secrets && |secrets| <= c.maxEntries
    ensures !MustEvict(c, n)
  {
    if n !in c.entries {
      ElementsBound(secrets);
      SubsetSize(c.entries.Keys + {n}, Elements(secrets));
      assert |c.entries.Keys + {n}| == |c.entries.Keys| + 1;
      assert |c.entries| == |c.entries.Keys|;
    }
  }

  /** The step puts a value for `n` into the cache of `inc`. */
  ghost predicate Stores(s: State, st: Step, inc: nat, n: string) {
    && st.Store? && st.get in s.gets && s.gets[st.get].inc == inc && s.gets[st.get].name == n && inc in s.projects
  }

  /** The allowlist has at most `max_entries` names. */
  ghost predicate FitsCache(p: Project) { |p.manifest.secrets| <= p.cache.maxEntries }

  /** The cache holds an entry for `n` that was written at `since` or later and lives for `ttl`. */
  predicate Holds(c: Cache, n: string, since: nat, ttl: nat, now: nat) {
    n in c.entries && since <= c.entries[n].fetchedAt <= now && c.entries[n].ttl == ttl
  }

  /** The cache of `inc` holds such an entry, unless the time is over. */
  ghost predicate Lives(s: State, inc: nat, n: string, since: nat, ttl: nat) {
    inc in s.projects && (s.now < since + ttl ==> Holds(s.projects[inc].cache, n, since, ttl, s.now))
  }

  /** The step is one of a get of `inc`, which may change its cache. */
  predicate UsesCache(s: State, st: Step, inc: nat) { OnGet(st) && st.get in s.gets && s.gets[st.get].inc == inc }

  lemma CacheAt(ss: seq<State>, sts: seq<Step>, i: nat, inc: nat)
    requires Run(ss, sts) && i < |sts| && inc in ss[i].projects
    ensures inc in ss[i + 1].projects
    ensures var c, c' := ss[i].projects[inc].cache, ss[i + 1].projects[inc].cache;
            if UsesCache(ss[i], sts[i], inc) then
              && c' == NextCache(ss[i].gets[sts[i].get], c, ss[i].now, sts[i])
              && (sts[i].Store? ==> LegalVictim(c, ss[i].gets[sts[i].get].name, sts[i].victim))
            else c'.entries == c.entries
    ensures UsesCache(ss[i], sts[i], inc) ==> ss[i + 1].now == ss[i].now
  {
    assert StepAt(ss, sts, i);
    ManifestEffect(ss[i], sts[i], inc);
  }

  /** A fresh entry survives lookups, and inserts that do not evict. */
  lemma NextCacheLives(call: GetCall, c: Cache, now: nat, st: Step, n: string, since: nat, ttl: nat)
    requires Holds(c, n, since, ttl, now) && now < since + ttl && c.defaultTtl == ttl
    requires st.Store? ==> LegalVictim(c, call.name, st.victim) && !MustEvict(c, call.name)
    ensures Holds(NextCache(call, c, now, st), n, since, ttl, now)
  {
  }

  lemma NextLives(ss: seq<State>, sts: seq<Step>, i: nat, inc: nat, n: string, since: nat, ttl: nat)
    requires Run(ss, sts) && NeverReloaded(ss, sts, inc) && i < |sts|
    requires Lives(ss[i], inc, n, since, ttl) && since <= ss[i].now && ss[i].projects[inc].cache.defaultTtl == ttl
    requires |ss[i].projects[inc].manifest.secrets| <= ss[i].projects[inc].cache.maxEntries
    ensures Lives(ss[i + 1], inc, n, since, ttl)
  {
    var s, st := ss[i], sts[i];
    CacheAt(ss, sts, i, inc);
    PersistAt(ss, sts, i);
    if ss[i + 1].now < since + ttl && UsesCache(s, st, inc) {
      var call, c := s.gets[st.get], s.projects[inc].cache;
      if st.Store? {
        KeysListed(ss, sts, inc, i);
        assert Stores(s, st, inc, call.name);
        NeverEvicts(c, s.projects[inc].manifest.secrets, call.name);
      }
      NextCacheLives(call, c, s.now, st, n, since, ttl);
    }
  }

  lemma {:induction false} StaysCached(ss: seq<State>, sts: seq<Step>, k: nat, i: nat, inc: nat, n: string)
    requires Run(ss, sts) && NeverReloaded(ss, sts, inc) && k < i < |ss|
    requires Stores(ss[k], sts[k], inc, n) && FitsCache(ss[k].projects[inc])
    ensures Lives(ss[i], inc, n, ss[k].now, ss[k].projects[inc].cache.defaultTtl)
    decreases i
  {
    if i == k + 1 {
      assert StepAt(ss, sts, k);
      StoreCaches(ss[k], sts[k]);
    } else {
      StaysCached(ss, sts, k, i - 1, inc, n);
      Unchanged(ss, sts, inc, k, i - 1);
      ClockMonotone(ss, sts, k, i - 1);
      NextLives(ss, sts, i - 1, inc, n, ss[k].now, ss[k].projects[inc].cache.defaultTtl);
    }
  }

  lemma StoreCaches(s: State, st: Step)
    requires Enabled(s, st) && st.Store?
    ensures var call := s.gets[st.get];
            Lives(Apply(s, st), call.inc, call.name, s.now, s.projects[call.inc].cache.defaultTtl)
  {
  }

  /** No premature refetch. Suppose the allowlist of a never reloaded incarnation has at most `max_entries`
      names, under any concurrency. After step `k` has cached a value for `n`, a get that probes the cache for `n` later
      (in particular every get that starts later) goes on to the backend only if a full TTL has passed since. */
  lemma NoPrematureRefetch(ss: seq<State>, sts: seq<Step>, k: nat, j: nat, inc: nat, n: string)
    requires Run(ss, sts) && NeverReloaded(ss, sts, inc) && k < j < |sts|
    requires Stores(ss[k], sts[k], inc, n) && FitsCache(ss[k].projects[inc])
    requires sts[j].Probe? && sts[j].get in ss[j].gets
    requires ss[j].gets[sts[j].get].inc == inc && ss[j].gets[sts[j].get].name == n
    ensures sts[j].get in ss[j + 1].gets
    ensures ss[j + 1].gets[sts[j].get].pc.Missed? ==>
            ss[j].now >= ss[k].now + ss[k].projects[inc].cache.defaultTtl
  {
    StaysCached(ss, sts, k, j, inc, n);
    assert StepAt(ss, sts, j);
    PersistAt(ss, sts, j);
    GetAt(ss, sts, j, sts[j].get);
  }

  /** The same between two backend calls of successive gets: the later call of a get that started after the
      earlier one cached its value comes at least one full TTL after that. */
  lemma NextBackendCallAfterTtl(ss: seq<State>, sts: seq<Step>, k: nat, b: nat, l: nat, inc: nat, n: string)
    requires Run(ss, sts) && NeverReloaded(ss, sts, inc) && k < b < l < |sts|
    requires Stores(ss[k], sts[k], inc, n) && FitsCache(ss[k].projects[inc])
    requires sts[b].Begin? && sts[b].inc == inc && sts[b].name == n && sts[l] == LoadSession(sts[b].get)
    ensures ss[l].now >= ss[k].now + ss[k].projects[inc].cache.defaultTtl
  {
    var g := sts[b].get;
    BeginAt(ss, sts, b);
    EnabledAt(ss, sts, l);
    GetStable(ss, sts, g, b + 1, l);
    var j := MissOrigin(ss, sts, l, g);
    if j <= b {
      GetStable(ss, sts, g, j, b);
    }
    GetStable(ss, sts, g, j, l);
    NoPrematureRefetch(ss, sts, k, j, inc, n);
    ClockMonotone(ss, sts, j, l);
  }

  lemma {:induction false} MissOrigin(ss: seq<State>, sts: seq<Step>, i: nat, g: nat) returns (j: nat)
    requires Run(ss, sts) && i < |ss| && g in ss[i].gets && ss[i].gets[g].pc.Missed?
    ensures j < i && sts[j] == Probe(g) && g in ss[j].gets && g in ss[j + 1].gets && ss[j + 1].gets[g].pc.Missed?
  {
    assert i > 0;
    GetAt(ss, sts, i - 1, g);
    if g in ss[i - 1].gets && ss[i - 1].gets[g].pc.Missed? {
      j := MissOrigin(ss, sts, i - 1, g);
    } else {
      j := i - 1;
    }
  }
}
