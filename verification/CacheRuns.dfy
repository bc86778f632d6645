/** Whole histories of cache calls: what the bounded cache is, compared with
    a recency list and with an unbounded timed map. */
module CacheRuns {
  import opened Common
  import opened CacheSpec

  datatype Op =
    | InsertOp(name: string, value: string, ttl: Option<nat>, victim: Option<string>)
    | GetOp(name: string)
    | ClearOp
    | ConfigOp(maxEntries: nat, defaultTtl: nat)

  /** A locked call and the instant at which it reads the clock. */
  datatype Call = Call(at: nat, op: Op)

  function Apply(c: Cache, call: Call): Cache {
    match call.op
    case InsertOp(name, value, ttl, victim) => Insert(c, name, value, ttl, call.at, victim)
    case GetOp(name) => AfterGet(c, name, call.at)
    case ClearOp => Clear(c)
    case ConfigOp(maxEntries, defaultTtl) => SetConfig(c, maxEntries, defaultTtl)
  }

  predicate Legal(c: Cache, call: Call) {
    call.op.InsertOp? ==> LegalVictim(c, call.op.name, call.op.victim)
  }

  function Exec(c: Cache, h: seq<Call>): Cache {
    if h == [] then c else Apply(Exec(c, h[..|h| - 1]), h[|h| - 1])
  }

  /** Every eviction in the history picked an oldest entry. */
  ghost predicate LegalHistory(c: Cache, h: seq<Call>) {
    forall i :: 0 <= i < |h| ==> Legal(Exec(c, h[..i]), h[i])
  }

  ghost predicate Monotone(h: seq<Call>) {
    forall i, j :: 0 <= i < j < |h| ==> h[i].at <= h[j].at
  }

  ghost predicate StrictClock(h: seq<Call>) {
    forall i, j :: 0 <= i < j < |h| ==> h[i].at < h[j].at
  }

  lemma LegalPrefix(c: Cache, h: seq<Call>)
    requires h != [] && LegalHistory(c, h)
    ensures LegalHistory(c, h[..|h| - 1])
    ensures Legal(Exec(c, h[..|h| - 1]), h[|h| - 1])
  {
    var h0 := h[..|h| - 1];
    forall i | 0 <= i < |h0| ensures Legal(Exec(c, h0[..i]), h0[i]) {
      assert h0[..i] == h[..i];
    }
  }

  // ---- recency list --------------------------------------------------------

  datatype Record = Record(name: string, entry: Entry)

  function Drop(l: seq<Record>, name: string): (r: seq<Record>)
    ensures |r| <= |l|
  {
    if l == [] then [] else if l[0].name == name then Drop(l[1..], name) else [l[0]] + Drop(l[1..], name)
  }

  function Truncate<T>(l: seq<T>, m: nat): seq<T> { l[..Min(|l|, m)] }

  function Find(l: seq<Record>, name: string): Option<Entry> {
    if l == [] then None else if l[0].name == name then Some(l[0].entry) else Find(l[1..], name)
  }

  /** The reference: newest write first, cut off after `m` names; a lookup removes what it finds expired. */
  function Recent(h: seq<Call>, m: nat, defaultTtl: nat): seq<Record> {
    if h == [] then []
    else
      var l := Recent(h[..|h| - 1], m, defaultTtl);
      var call := h[|h| - 1];
      match call.op
      case InsertOp(name, value, ttl, _) =>
        var t := if ttl.Some? then ttl.value else defaultTtl;
        Truncate([Record(name, Entry(value, call.at, t))] + Drop(l, name), m)
      case GetOp(name) =>
        var e := Find(l, name);
        if e.Some? && e.value.IsExpired(call.at) then Drop(l, name) else l
      case ClearOp => []
      case ConfigOp(_, _) => l
  }

  /** The list names exactly the entries of the map, each once, newest first. */
  ghost predicate Lists(l: seq<Record>, entries: map<string, Entry>) {
    if l == [] then entries == map[]
    else
      && l[0].name in entries && entries[l[0].name] == l[0].entry
      && (forall n :: n in entries && n != l[0].name ==> entries[n].fetchedAt < l[0].entry.fetchedAt)
      && Lists(l[1..], entries - {l[0].name})
  }

  lemma ConsLists(r: Record, l: seq<Record>, entries: map<string, Entry>)
    requires r.name in entries && entries[r.name] == r.entry
    requires Lists(l, entries - {r.name})
    requires forall n :: n in entries && n != r.name ==> entries[n].fetchedAt < r.entry.fetchedAt
    ensures Lists([r] + l, entries)
  {
    assert ([r] + l)[1..] == l;
  }

  lemma {:induction false} DropSpec(l: seq<Record>, entries: map<string, Entry>, name: string)
    requires Lists(l, entries)
    ensures Lists(Drop(l, name), entries - {name})
    ensures |Drop(l, name)| == if name in entries then |l| - 1 else |l|
    ensures name !in entries ==> Drop(l, name) == l
  {
    if l == [] {
      assert entries - {name} == entries;
    } else {
      var rest := entries - {l[0].name};
      DropSpec(l[1..], rest, name);
      if l[0].name == name {
        assert rest - {name} == rest;
      } else {
        assert rest - {name} == (entries - {name}) - {l[0].name};
        ConsLists(l[0], Drop(l[1..], name), entries - {name});
      }
    }
  }

  lemma {:induction false} FindSpec(l: seq<Record>, entries: map<string, Entry>, name: string)
    requires Lists(l, entries)
    ensures Find(l, name) == if name in entries then Some(entries[name]) else None
  {
    if l != [] {
      FindSpec(l[1..], entries - {l[0].name}, name);
    }
  }

  lemma {:induction false} ListsSize(l: seq<Record>, entries: map<string, Entry>)
    requires Lists(l, entries)
    ensures |l| == |entries|
  {
    if l != [] {
      ListsSize(l[1..], entries - {l[0].name});
      RemoveSize(entries, l[0].name);
    }
  }

  /** The last record is the only oldest one, so evicting is cutting it off. */
  lemma {:induction false} LastIsVictim(l: seq<Record>, entries: map<string, Entry>, victim: string)
    requires Lists(l, entries) && IsOldest(entries, victim)
    ensures l != [] && Lists(l[..|l| - 1], entries - {victim})
  {
    var rest := entries - {l[0].name};
    assert victim == l[0].name || victim in rest;
    if |l| == 1 {
      assert rest == map[];
    } else {
      assert l[1].name in rest;
      LastIsVictim(l[1..], rest, victim);
      assert l[..|l| - 1] == [l[0]] + l[1..][..|l| - 2];
      assert rest - {victim} == (entries - {victim}) - {l[0].name};
      ConsLists(l[0], l[1..][..|l| - 2], entries - {victim});
    }
  }

  lemma InsertListed(l: seq<Record>, c: Cache, r: Record, victim: Option<string>)
    requires LegalVictim(c, r.name, victim)
    requires Lists(l, c.entries) && |l| <= c.maxEntries && c.maxEntries >= 1
    requires forall n :: n in c.entries ==> c.entries[n].fetchedAt < r.entry.fetchedAt
    ensures Lists(Truncate([r] + Drop(l, r.name), c.maxEntries),
                  Without(c.entries - {r.name}, victim)[r.name := r.entry])
  {
    ListsSize(l, c.entries);
    if victim.Some? {
      InsertEvicting(l, c, r, victim.value);
    } else {
      InsertKeeping(l, c, r);
    }
  }

  lemma InsertKeeping(l: seq<Record>, c: Cache, r: Record)
    requires !MustEvict(c, r.name) && Lists(l, c.entries) && |l| == |c.entries| <= c.maxEntries && c.maxEntries >= 1
    requires forall n :: n in c.entries ==> c.entries[n].fetchedAt < r.entry.fetchedAt
    ensures Lists(Truncate([r] + Drop(l, r.name), c.maxEntries), (c.entries - {r.name})[r.name := r.entry])
  {
    var base := c.entries - {r.name};
    assert base[r.name := r.entry] - {r.name} == base;
    DropSpec(l, c.entries, r.name);
    assert Truncate([r] + Drop(l, r.name), c.maxEntries) == [r] + Drop(l, r.name);
    ConsLists(r, Drop(l, r.name), base[r.name := r.entry]);
  }

  lemma InsertEvicting(l: seq<Record>, c: Cache, r: Record, victim: string)
    requires MustEvict(c, r.name) && IsOldest(c.entries, victim)
    requires Lists(l, c.entries) && |l| == |c.entries| == c.maxEntries
    requires forall n :: n in c.entries ==> c.entries[n].fetchedAt < r.entry.fetchedAt
    ensures Lists(Truncate([r] + Drop(l, r.name), c.maxEntries),
                  Without(c.entries - {r.name}, Some(victim))[r.name := r.entry])
  {
    assert c.entries - {r.name} == c.entries;
    DropSpec(l, c.entries, r.name);
    LastIsVictim(l, c.entries, victim);
    var kept := c.entries - {victim};
    assert kept[r.name := r.entry] - {r.name} == kept;
    var cut := l[..|l| - 1];
    ConsLists(r, cut, kept[r.name := r.entry]);
    assert Truncate([r] + l, c.maxEntries) == [r] + cut;
  }

  ghost predicate FixedCap(h: seq<Call>) {
    forall i :: 0 <= i < |h| ==> !h[i].op.ConfigOp?
  }

  /** The list is the cache. */
  ghost predicate Refines(l: seq<Record>, c: Cache, m: nat, defaultTtl: nat) {
    c.maxEntries == m && c.defaultTtl == defaultTtl && Lists(l, c.entries) && |l| <= m
  }

  lemma RefinesInsert(l: seq<Record>, c: Cache, call: Call, m: nat, defaultTtl: nat)
    requires m >= 1 && Refines(l, c, m, defaultTtl) && call.op.InsertOp? && Legal(c, call)
    requires forall n :: n in c.entries ==> c.entries[n].fetchedAt < call.at
    ensures var t := if call.op.ttl.Some? then call.op.ttl.value else defaultTtl;
            var r := Record(call.op.name, Entry(call.op.value, call.at, t));
            Refines(Truncate([r] + Drop(l, r.name), m), Apply(c, call), m, defaultTtl)
  {
    var e := Entry(call.op.value, call.at, EffectiveTtl(c, call.op.ttl));
    InsertListed(l, c, Record(call.op.name, e), call.op.victim);
  }

  lemma RefinesGet(l: seq<Record>, c: Cache, call: Call, m: nat, defaultTtl: nat)
    requires Refines(l, c, m, defaultTtl) && call.op.GetOp?
    ensures var e := Find(l, call.op.name);
            var l' := if e.Some? && e.value.IsExpired(call.at) then Drop(l, call.op.name) else l;
            Refines(l', Apply(c, call), m, defaultTtl)
  {
    FindSpec(l, c.entries, call.op.name);
    DropSpec(l, c.entries, call.op.name);
  }

  /** A clear leaves no entry, so every lookup misses, and the limits as they were. */
  lemma ClearEmpties(c: Cache, name: string, now: nat)
    ensures Clear(c).entries == map[] && Get(Clear(c), name, now).Miss?
    ensures Clear(c).maxEntries == c.maxEntries && Clear(c).defaultTtl == c.defaultTtl
  {
  }

  lemma {:induction false} WrittenBefore(c: Cache, h: seq<Call>)
    requires Monotone(h) && c.entries == map[]
    ensures forall n :: n in Exec(c, h).entries ==> h != [] && Exec(c, h).entries[n].fetchedAt <= h[|h| - 1].at
  {
    if h != [] {
      var h0 := h[..|h| - 1];
      WrittenBefore(c, h0);
      forall n | n in Exec(c, h).entries ensures Exec(c, h).entries[n].fetchedAt <= h[|h| - 1].at {
        if h0 != [] { assert h0[|h0| - 1].at <= h[|h| - 1].at; }
      }
    }
  }

  /** With a strictly increasing clock and a fixed cap of at least one, any history of inserts,
      lookups and clears leaves exactly the recency list, whatever the hash map's tie-breaking. */
  lemma {:induction false} RecencyRefinement(h: seq<Call>, m: nat, defaultTtl: nat)
    requires m >= 1 && FixedCap(h) && StrictClock(h)
    requires LegalHistory(Empty(m, defaultTtl), h)
    ensures var c := Exec(Empty(m, defaultTtl), h);
            && Refines(Recent(h, m, defaultTtl), c, m, defaultTtl)
            && (forall n :: n in c.entries ==> h != [] && c.entries[n].fetchedAt <= h[|h| - 1].at)
  {
    WrittenBefore(Empty(m, defaultTtl), h);
    if h != [] {
      var h0, call := h[..|h| - 1], h[|h| - 1];
      LegalPrefix(Empty(m, defaultTtl), h);
      RecencyRefinement(h0, m, defaultTtl);
      var c := Exec(Empty(m, defaultTtl), h0);
      var l := Recent(h0, m, defaultTtl);
      match call.op
      case InsertOp(_, _, _, _) =>
        assert h0 != [] ==> h0[|h0| - 1].at < call.at;
        RefinesInsert(l, c, call, m, defaultTtl);
      case GetOp(_) => RefinesGet(l, c, call, m, defaultTtl);
      case ClearOp => ClearEmpties(c, "", 0);
      case ConfigOp(_, _) =>
    }
  }

  // ---- insert-only histories: the list read straight off the history -------

  function DropName(l: seq<string>, name: string): seq<string> {
    if l == [] then [] else if l[0] == name then DropName(l[1..], name) else [l[0]] + DropName(l[1..], name)
  }

  /** Distinct names of a history, the one written last first. */
  function LatestFirst(h: seq<Call>): seq<string>
    requires forall i :: 0 <= i < |h| ==> h[i].op.InsertOp?
  {
    if h == [] then []
    else [h[|h| - 1].op.name] + DropName(LatestFirst(h[..|h| - 1]), h[|h| - 1].op.name)
  }

  function Names(l: seq<Record>): (r: seq<string>)
    ensures |r| == |l|
    ensures forall i :: 0 <= i < |l| ==> r[i] == l[i].name
  {
    if l == [] then [] else [l[0].name] + Names(l[1..])
  }

  lemma {:induction false} NamesDrop(l: seq<Record>, name: string)
    ensures Names(Drop(l, name)) == DropName(Names(l), name)
  {
    if l != [] {
      NamesDrop(l[1..], name);
      assert Names(l)[1..] == Names(l[1..]);
    }
  }

  lemma NamesTruncate(l: seq<Record>, m: nat)
    ensures Names(Truncate(l, m)) == Truncate(Names(l), m)
  {
  }

  lemma ConsTruncate(n: string, l: seq<string>, m: nat)
    requires m >= 1
    ensures Truncate([n] + l, m) == [n] + Truncate(l, m - 1)
  {
  }

  lemma {:induction false} DropNameTruncate(l: seq<string>, name: string, m: nat)
    requires Distinct(l) && m >= 1
    ensures Truncate(DropName(Truncate(l, m), name), m - 1) == Truncate(DropName(l, name), m - 1)
  {
    if |l| <= m {
      assert Truncate(l, m) == l;
    } else if l[0] == name {
      DropNameAbsent(l[1..], name);
      DropNameAbsent(Truncate(l, m)[1..], name);
    } else {
      var t := Truncate(l, m);
      assert t[1..] == Truncate(l[1..], m - 1);
      if m >= 2 {
        DropNameTruncate(l[1..], name, m - 1);
        ConsTruncate(l[0], DropName(t[1..], name), m - 1);
        ConsTruncate(l[0], DropName(l[1..], name), m - 1);
      }
    }
  }

  lemma {:induction false} DropNameAbsent(l: seq<string>, name: string)
    requires name !in l
    ensures DropName(l, name) == l
  {
    if l != [] {
      DropNameAbsent(l[1..], name);
    }
  }

  lemma {:induction false} DropNameDistinct(l: seq<string>, name: string)
    requires Distinct(l)
    ensures Distinct(DropName(l, name))
    ensures forall n :: n in DropName(l, name) <==> n in l && n != name
  {
    if l != [] {
      DropNameDistinct(l[1..], name);
      assert l == [l[0]] + l[1..];
      if l[0] != name {
        ConsDistinct(l[0], DropName(l[1..], name));
      }
    }
  }

  lemma {:induction false} LatestFirstDistinct(h: seq<Call>)
    requires forall i :: 0 <= i < |h| ==> h[i].op.InsertOp?
    ensures Distinct(LatestFirst(h))
  {
    if h != [] {
      LatestFirstDistinct(h[..|h| - 1]);
      var name := h[|h| - 1].op.name;
      DropNameDistinct(LatestFirst(h[..|h| - 1]), name);
      ConsDistinct(name, DropName(LatestFirst(h[..|h| - 1]), name));
    }
  }

  /** Prepending to a truncated list and truncating again is prepending to the whole list. */
  lemma PrependTruncated(lf: seq<string>, name: string, m: nat)
    requires m >= 1 && Distinct(lf)
    ensures Truncate([name] + DropName(Truncate(lf, m), name), m) == Truncate([name] + DropName(lf, name), m)
  {
    DropNameTruncate(lf, name, m);
    ConsTruncate(name, DropName(Truncate(lf, m), name), m);
    ConsTruncate(name, DropName(lf, name), m);
  }

  lemma NamesPrepend(r: Record, l: seq<Record>, m: nat)
    ensures Names(Truncate([r] + Drop(l, r.name), m)) == Truncate([r.name] + DropName(Names(l), r.name), m)
  {
    NamesDrop(l, r.name);
    NamesTruncate([r] + Drop(l, r.name), m);
    assert Names([r] + Drop(l, r.name)) == [r.name] + Names(Drop(l, r.name));
  }

  lemma {:induction false} ListedNames(l: seq<Record>, entries: map<string, Entry>)
    requires Lists(l, entries)
    ensures entries.Keys == Elements(Names(l))
  {
    if l != [] {
      ListedNames(l[1..], entries - {l[0].name});
      assert Names(l) == [l[0].name] + Names(l[1..]);
      assert entries.Keys == {l[0].name} + (entries - {l[0].name}).Keys;
    }
  }

  /** After inserts only, with a strictly increasing clock, the cached names are exactly the `m` most recently written
      distinct ones. */
  lemma InsertsKeepLatest(h: seq<Call>, m: nat, defaultTtl: nat)
    requires m >= 1 && StrictClock(h) && forall i :: 0 <= i < |h| ==> h[i].op.InsertOp?
    requires LegalHistory(Empty(m, defaultTtl), h)
    ensures Exec(Empty(m, defaultTtl), h).entries.Keys == Elements(Truncate(LatestFirst(h), m))
  {
    RecencyRefinement(h, m, defaultTtl);
    ListedNames(Recent(h, m, defaultTtl), Exec(Empty(m, defaultTtl), h).entries);
    RecentOfInserts(h, m, defaultTtl);
  }

  lemma {:induction false} RecentOfInserts(h: seq<Call>, m: nat, defaultTtl: nat)
    requires m >= 1 && forall i :: 0 <= i < |h| ==> h[i].op.InsertOp?
    ensures Names(Recent(h, m, defaultTtl)) == Truncate(LatestFirst(h), m)
  {
    if h != [] {
      var h0, call := h[..|h| - 1], h[|h| - 1];
      RecentOfInserts(h0, m, defaultTtl);
      LatestFirstDistinct(h0);
      var t := if call.op.ttl.Some? then call.op.ttl.value else defaultTtl;
      NamesPrepend(Record(call.op.name, Entry(call.op.value, call.at, t)), Recent(h0, m, defaultTtl), m);
      PrependTruncated(LatestFirst(h0), call.op.name, m);
    }
  }

  // ---- the unbounded timed map ---------------------------------------------

  /** The same calls on a map that never evicts. */
  function Unbounded(h: seq<Call>, c: Cache): Cache {
    if h == [] then c
    else
      var u := Unbounded(h[..|h| - 1], c);
      var call := h[|h| - 1];
      match call.op
      case InsertOp(name, value, ttl, _) => Insert(u, name, value, ttl, call.at, None)
      case _ => Apply(u, call)
  }

  ghost predicate Within(c: Cache, u: Cache) {
    && c.maxEntries == u.maxEntries && c.defaultTtl == u.defaultTtl
    && forall n :: n in c.entries ==> n in u.entries && u.entries[n] == c.entries[n]
  }

  /** Under any history, any clock and any reconfiguration the cache holds a part of the unbounded
      map, so every hit is the hit the unbounded map gives: eviction can only lose answers. */
  lemma {:induction false} HitsAgreeWithUnbounded(c: Cache, h: seq<Call>, name: string, now: nat)
    ensures Within(Exec(c, h), Unbounded(h, c))
    ensures Get(Exec(c, h), name, now).Hit? ==> Get(Unbounded(h, c), name, now) == Get(Exec(c, h), name, now)
  {
    if h != [] {
      HitsAgreeWithUnbounded(c, h[..|h| - 1], name, now);
      var call := h[|h| - 1];
      var b, u := Exec(c, h[..|h| - 1]), Unbounded(h[..|h| - 1], c);
      match call.op
      case InsertOp(n, v, ttl, victim) =>
        forall k | k in Apply(b, call).entries
          ensures k in Unbounded(h, c).entries && Unbounded(h, c).entries[k] == Apply(b, call).entries[k]
        {
          assert k == n || k in b.entries;
        }
      case GetOp(_) =>
      case ClearOp =>
      case ConfigOp(_, _) =>
    }
  }

  // ---- size across reconfiguration -------------------------------------------

  /** Between two reconfigurations the count never exceeds the larger of the cap
      and the count at the last reconfiguration. */
  lemma {:induction false} SizeBound(c: Cache, h: seq<Call>)
    requires c.maxEntries >= 1 && LegalHistory(c, h) && FixedCap(h)
    ensures |Exec(c, h).entries| <= Max(c.maxEntries, |c.entries|)
    ensures Exec(c, h).maxEntries == c.maxEntries
  {
    if h != [] {
      LegalPrefix(c, h);
      var h0, call := h[..|h| - 1], h[|h| - 1];
      assert FixedCap(h0);
      SizeBound(c, h0);
      var b := Exec(c, h0);
      match call.op
      case InsertOp(n, v, ttl, victim) => InsertSize(b, n, v, ttl, call.at, victim);
      case GetOp(n) => RemoveSize(b.entries, n);
      case ClearOp =>
      case ConfigOp(_, _) =>
    }
  }

  lemma {:induction false} ExecConcat(c: Cache, a: seq<Call>, b: seq<Call>)
    ensures Exec(c, a + b) == Exec(Exec(c, a), b)
  {
    if b == [] {
      assert a + b == a;
    } else {
      ExecConcat(c, a, b[..|b| - 1]);
      assert (a + b)[..|a + b| - 1] == a + b[..|b| - 1];
    }
  }

  lemma LegalSuffix(c: Cache, a: seq<Call>, b: seq<Call>)
    requires LegalHistory(c, a + b)
    ensures LegalHistory(Exec(c, a), b)
  {
    forall i | 0 <= i < |b| ensures Legal(Exec(Exec(c, a), b[..i]), b[i]) {
      ExecConcat(c, a, b[..i]);
      assert a + b[..i] == (a + b)[..|a| + i];
      assert (a + b)[|a| + i] == b[i];
    }
  }

  /** The same over a whole history, cut at its last reconfiguration `k`. */
  lemma SizeBoundAcrossReconfiguration(c: Cache, h: seq<Call>, k: nat)
    requires LegalHistory(c, h)
    requires k < |h| && h[k].op.ConfigOp? && h[k].op.maxEntries >= 1
    requires FixedCap(h[k + 1..])
    ensures |Exec(c, h).entries| <= Max(h[k].op.maxEntries, |Exec(c, h[..k]).entries|)
  {
    var pre, post := h[..k + 1], h[k + 1..];
    assert h == pre + post && pre[..|pre| - 1] == h[..k];
    ExecConcat(c, pre, post);
    LegalSuffix(c, pre, post);
    SizeBound(Exec(c, pre), post);
  }

  /** Re-inserting a present key removes no other, even above the cap. */
  lemma ReinsertKeepsOthers(c: Cache, call: Call)
    requires call.op.InsertOp? && Legal(c, call) && call.op.name in c.entries
    ensures Apply(c, call).entries.Keys == c.entries.Keys
    ensures forall n :: n in c.entries && n != call.op.name ==> Apply(c, call).entries[n] == c.entries[n]
  {
  }

  // ---- time to live over a history --------------------------------------------

  /** `h[i]` is the last insert of `name` before position `j`. */
  ghost predicate LastInsert(h: seq<Call>, name: string, i: nat, j: nat) {
    && i < j <= |h|
    && h[i].op.InsertOp? && h[i].op.name == name
    && forall k :: i < k < j ==> !(h[k].op.InsertOp? && h[k].op.name == name)
  }

  /** While no newer insert of `name` happens, the cache holds for it either exactly what
      the last insert wrote or nothing, whatever else is inserted, looked up or reconfigured. */
  lemma {:induction false} EntryFromLastInsert(c: Cache, h: seq<Call>, name: string, i: nat, j: nat)
    requires LastInsert(h, name, i, j)
    ensures var e := Exec(c, h[..j]).entries;
            name in e ==> e[name] == Entry(h[i].op.value, h[i].at, EffectiveTtl(Exec(c, h[..i]), h[i].op.ttl))
    decreases j
  {
    assert h[..j][..j - 1] == h[..j - 1];
    if j > i + 1 {
      EntryFromLastInsert(c, h, name, i, j - 1);
    }
  }

  /** A hit reports the value of the last insert and the whole seconds truly left of its TTL,
      with no 32-bit truncation; after that TTL the name misses. Reconfigurations play no part. */
  lemma HitIsLastInsert(c: Cache, h: seq<Call>, name: string, i: nat, j: nat, now: nat)
    requires LastInsert(h, name, i, j) && h[i].at <= now
    requires EffectiveTtl(Exec(c, h[..i]), h[i].op.ttl) <= 86_400 * NANOS
    ensures var t := EffectiveTtl(Exec(c, h[..i]), h[i].op.ttl);
            var look := Get(Exec(c, h[..j]), name, now);
            && (now >= h[i].at + t ==> look.Miss?)
            && (look.Hit? ==> look == Hit(h[i].op.value, (h[i].at + t - now) / NANOS))
  {
    EntryFromLastInsert(c, h, name, i, j);
    var t := EffectiveTtl(Exec(c, h[..i]), h[i].op.ttl);
    if now < h[i].at + t {
      WholeSecondsFit(h[i].at + t - now);
    }
  }

  lemma WholeSecondsFit(d: nat)
    requires d <= 86_400 * NANOS
    ensures SecondsAsU32(d) == d / NANOS && d / NANOS <= 86_400
  {
  }

  lemma {:induction false} PresentBefore(c: Cache, h: seq<Call>, name: string, i: nat, j: nat, k: nat)
    requires LastInsert(h, name, i, k) && i < j <= k && name in Exec(c, h[..k]).entries
    ensures name in Exec(c, h[..j]).entries
    decreases k
  {
    if j < k {
      assert h[..k][..k - 1] == h[..k - 1];
      PresentBefore(c, h, name, i, j, k - 1);
    }
  }

  /** With no insert of the name in between, a later hit means an earlier lookup hits too, with the same value and
      no smaller TTL. */
  lemma HitsBetweenInserts(c: Cache, h: seq<Call>, name: string, i: nat, j: nat, k: nat)
    requires LastInsert(h, name, i, j) && LastInsert(h, name, i, k) && j <= k < |h|
    requires Monotone(h)
    requires EffectiveTtl(Exec(c, h[..i]), h[i].op.ttl) <= 86_400 * NANOS
    ensures var a, b := Get(Exec(c, h[..j]), name, h[j].at), Get(Exec(c, h[..k]), name, h[k].at);
            b.Hit? ==> a.Hit? && a.value == b.value && b.ttlSeconds <= a.ttlSeconds
  {
    HitIsLastInsert(c, h, name, i, j, h[j].at);
    HitIsLastInsert(c, h, name, i, k, h[k].at);
    var t := EffectiveTtl(Exec(c, h[..i]), h[i].op.ttl);
    if Get(Exec(c, h[..k]), name, h[k].at).Hit? {
      PresentBefore(c, h, name, i, j, k);
      EntryFromLastInsert(c, h, name, i, j);
      DivMonotone(h[i].at + t - h[k].at, h[i].at + t - h[j].at);
    }
  }

  lemma DivMonotone(a: nat, b: nat)
    requires a <= b
    ensures a / NANOS <= b / NANOS
  {
  }

  /** Once a lookup misses a name it keeps missing until the name is inserted again. */
  lemma {:induction false} MissUntilReinsert(c: Cache, h: seq<Call>, name: string, j: nat, k: nat)
    requires j <= k < |h| && Monotone(h)
    requires h[j].op == GetOp(name)
    requires forall i :: j < i < k ==> !(h[i].op.InsertOp? && h[i].op.name == name)
    requires Get(Exec(c, h[..j]), name, h[j].at).Miss?
    ensures Get(Exec(c, h[..k]), name, h[k].at).Miss?
    ensures k > j ==> name !in Exec(c, h[..k]).entries
    decreases k
  {
    if k > j {
      MissUntilReinsert(c, h, name, j, k - 1);
      assert h[..k][..k - 1] == h[..k - 1];
    }
  }
}
