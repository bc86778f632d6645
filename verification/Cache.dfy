/** `src/cache.rs` as a value: what one locked call does to the cache. */
module CacheSpec {
  import opened Common

  datatype Entry = Entry(value: string, fetchedAt: nat, ttl: nat) {
    /** `Instant::duration_since` saturates at zero. */
    function Age(now: nat): nat { if now >= fetchedAt then now - fetchedAt else 0 }

    predicate IsExpired(now: nat) { Age(now) >= ttl }

    function RemainingTtl(now: nat): nat { if Age(now) <= ttl then ttl - Age(now) else 0 }
  }

  datatype Cache = Cache(entries: map<string, Entry>, maxEntries: nat, defaultTtl: nat)

  datatype Lookup = Miss | Hit(value: string, ttlSeconds: nat)

  function Empty(maxEntries: nat, defaultTtl: nat): Cache {
    Cache(map[], maxEntries, defaultTtl)
  }

  /** `as_secs() as u32`: the cast keeps the low 32 bits. */
  function SecondsAsU32(d: nat): nat { (d / NANOS) % (U32_MAX + 1) }

  /** `u32::try_from(secs).unwrap_or(u32::MAX)` */
  function SecondsSaturated(d: nat): nat { Min(d / NANOS, U32_MAX) }

  function Get(c: Cache, name: string, now: nat): Lookup {
    if name in c.entries && !c.entries[name].IsExpired(now)
    then Hit(c.entries[name].value, SecondsAsU32(c.entries[name].RemainingTtl(now)))
    else Miss
  }

  /** A lookup drops the entry it finds expired, and nothing else. */
  function AfterGet(c: Cache, name: string, now: nat): Cache {
    if name in c.entries && c.entries[name].IsExpired(now)
    then c.(entries := c.entries - {name})
    else c
  }

  predicate IsOldest(entries: map<string, Entry>, k: string) {
    k in entries && forall j :: j in entries ==> entries[k].fetchedAt <= entries[j].fetchedAt
  }

  predicate MustEvict(c: Cache, name: string) {
    name !in c.entries && |c.entries| >= c.maxEntries && |c.entries| > 0
  }

  /** `min_by_key` over a hash map: some oldest entry, ties broken by the map's iteration order. */
  predicate LegalVictim(c: Cache, name: string, victim: Option<string>) {
    if MustEvict(c, name) then victim.Some? && IsOldest(c.entries, victim.value) else victim.None?
  }

  function Without(entries: map<string, Entry>, victim: Option<string>): map<string, Entry> {
    if victim.Some? then entries - {victim.value} else entries
  }

  function EffectiveTtl(c: Cache, ttl: Option<nat>): nat {
    if ttl.Some? then ttl.value else c.defaultTtl
  }

  function Insert(c: Cache, name: string, value: string, ttl: Option<nat>, now: nat, victim: Option<string>): Cache {
    c.(entries := Without(c.entries - {name}, victim)[name := Entry(value, now, EffectiveTtl(c, ttl))])
  }

  function SetConfig(c: Cache, maxEntries: nat, defaultTtl: nat): Cache {
    c.(maxEntries := maxEntries, defaultTtl := defaultTtl)
  }

  function Clear(c: Cache): Cache { c.(entries := map[]) }

  /** Some entry is oldest, so a full cache always finds a victim. */
  lemma {:induction false} OldestExists(entries: map<string, Entry>)
    requires |entries| > 0
    ensures exists k :: IsOldest(entries, k)
    decreases |entries|
  {
    var k :| k in entries;
    var rest := entries - {k};
    if |rest| == 0 {
      assert entries.Keys == {k};
      assert IsOldest(entries, k);
    } else {
      OldestExists(rest);
      var o :| IsOldest(rest, o);
      assert forall j :: j in entries ==> j == k || j in rest;
      assert IsOldest(entries, if entries[k].fetchedAt < entries[o].fetchedAt then k else o);
    }
  }

  lemma RemoveSize(entries: map<string, Entry>, k: string)
    ensures |entries - {k}| == if k in entries then |entries| - 1 else |entries|
  {
    assert (entries - {k}).Keys == entries.Keys - {k};
  }

  lemma UpdateSize(entries: map<string, Entry>, k: string, e: Entry)
    ensures |entries[k := e]| == if k in entries then |entries| else |entries| + 1
  {
    assert entries[k := e].Keys == entries.Keys + {k};
  }

  /** Size after an insert: one more below the cap or on an empty cache, otherwise unchanged. */
  lemma InsertSize(c: Cache, name: string, value: string, ttl: Option<nat>, now: nat, victim: Option<string>)
    requires LegalVictim(c, name, victim)
    ensures |Insert(c, name, value, ttl, now, victim).entries|
         == if name in c.entries || MustEvict(c, name) then |c.entries| else |c.entries| + 1
  {
    var rest := c.entries - {name};
    RemoveSize(c.entries, name);
    if victim.Some? {
      RemoveSize(rest, victim.value);
    }
    UpdateSize(Without(rest, victim), name, Entry(value, now, EffectiveTtl(c, ttl)));
  }
}

/** `src/cache.rs`: the mutex-guarded cache object. One method call is one locked section. */
module BoundedCaches {
  import opened Common
  import opened CacheSpec

  class BoundedCache {
    var entries: map<string, Entry>
    var maxEntries: nat
    var defaultTtl: nat

    ghost function Model(): Cache
      reads this
    {
      Cache(entries, maxEntries, defaultTtl)
    }

    constructor (maxEntries: nat, defaultTtl: nat)
      ensures Model() == Empty(maxEntries, defaultTtl)
    {
      this.entries := map[];
      this.maxEntries := maxEntries;
      this.defaultTtl := defaultTtl;
    }

    method Get(name: string, now: nat) returns (hit: Lookup)
      modifies this`entries
      ensures hit == CacheSpec.Get(old(Model()), name, now)
      ensures Model() == AfterGet(old(Model()), name, now)
    {
      if name !in entries {
        return Miss;
      }
      var entry := entries[name];
      if entry.IsExpired(now) {
        entries := entries - {name};
        return Miss;
      }
      return Hit(entry.value, SecondsAsU32(entry.RemainingTtl(now)));
    }

    /** Returns the evicted name, which the source drops silently. */
    method Insert(name: string, value: string, ttl: Option<nat>, now: nat) returns (victim: Option<string>)
      modifies this`entries
      ensures LegalVictim(old(Model()), name, victim)
      ensures Model() == CacheSpec.Insert(old(Model()), name, value, ttl, now, victim)
    {
      var t := if ttl.Some? then ttl.value else defaultTtl;
      victim := None;
      var replaced := name in entries;
      entries := entries - {name};
      if !replaced && |entries| >= maxEntries {
        assert entries == old(entries);
        victim := OldestKey(entries);
        if victim.Some? {
          entries := entries - {victim.value};
        }
      } else if !replaced {
        assert entries == old(entries);
      }
      entries := entries[name := Entry(value, now, t)];
    }

    method Clear()
      modifies this`entries
      ensures Model() == CacheSpec.Clear(old(Model()))
    {
      entries := map[];
    }

    method DefaultTtl() returns (ttl: nat)
      ensures ttl == Model().defaultTtl
    {
      ttl := defaultTtl;
    }

    method SetConfig(maxEntries: nat, defaultTtl: nat)
      modifies this`maxEntries, this`defaultTtl
      ensures Model() == CacheSpec.SetConfig(old(Model()), maxEntries, defaultTtl)
    {
      this.maxEntries := maxEntries;
      this.defaultTtl := defaultTtl;
    }
  }

  /** The linear scan of `evict_oldest`, over the keys in any order. */
  method OldestKey(entries: map<string, Entry>) returns (k: Option<string>)
    ensures k.None? <==> |entries| == 0
    ensures k.Some? ==> IsOldest(entries, k.value)
  {
    k := None;
    var todo := entries.Keys;
    while todo != {}
      invariant todo <= entries.Keys
      invariant k.None? <==> todo == entries.Keys
      invariant k.Some? ==> k.value in entries
      invariant k.Some? ==> forall j :: j in entries.Keys - todo ==> entries[k.value].fetchedAt <= entries[j].fetchedAt
      decreases todo
    {
      var j :| j in todo;
      if k.None? || entries[j].fetchedAt < entries[k.value].fetchedAt {
        k := Some(j);
      }
      todo := todo - {j};
    }
    assert |entries| == |entries.Keys|;
  }
}
