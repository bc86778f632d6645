# remo-broker: a verified model

remo-broker is a daemon that hands out secrets over Unix sockets. Each registered project has a manifest with an
allowlist, its own socket and its own bounded in-memory cache; every `get` is checked against the allowlist, served from
the cache or from a backend session, and recorded in an audit log. Projects are registered, unregistered and reloaded,
and the backend session is rotated, while gets are running.

`Broker.dfy` models the daemon as an interleaved step machine. One step is one atomic action: a locked section, an
`ArcSwap` load or store, a `try_send`, or the return of the awaited backend call. A step's label carries what the
environment chooses (fresh identities, the backend's reply, which of several equally old cache entries goes, whether a
file could be read or a socket bound), so `Apply` is a function and a run is a sequence of labels. A project is an
*incarnation* with an identity, because handlers keep using it after it has left the registry. The main results are
statements about every run, with any number of projects, gets in flight, reloads and registrations.

The parts of the daemon that change things in place are also written as they run: the cache, the backend cell, the
project registry, the audit file and its producer handle are classes; `dispatch_get`, `writer_loop`, the capped line
reader, the connection loop, the shutdown drain and manifest validation are methods. Each is proved against a
specification function, and `Servers.UninterruptedGetIsRun` and `AuditTasks.LoopIsRun` tie the methods to the step machines.

| file | contents |
|---|---|
| `Common.dfy` | options, results, distinctness, finite sets |
| `Manifest.dfy` | manifest validation, loading for a name, cache bounds |
| `Cache.dfy`, `CacheRuns.dfy` | the bounded cache, its class, and whole call histories against a recency list and an unbounded timed map |
| `Audit.dfy`, `AuditWriter.dfy` | the audit channel and writer as a machine of single write attempts; the writer loop as it runs |
| `Broker.dfy`, `Effects.dfy` | the step machine, its invariant, what one step can do to one get, entry or project |
| `Registration.dfy` | who is registered, which incarnation a reload is about, which file every manifest and cache limit comes from |
| `Isolation.dfy` | projects do not influence one another; the audit log does not influence serving |
| `Provenance.dfy`, `Allowlist.dfy`, `Accounting.dfy`, `EmissionOrder.dfy`, `Transparency.dfy`, `Refetch.dfy`, `Reloading.dfy` | theorems over whole runs |
| `Server.dfy` | the running objects and `dispatch_get`; an uninterrupted call is a run of the machine |
| `Lifecycle.dfy` | register and unregister at the granularity of registry map, task handle, socket file and accept loop; agreement without overlap |
| `Overlap.dfy`, `OverlapRuns.dfy` | what each of the four is after any run, when they agree under any overlap; runs in which they do not |
| `Framing.dfy`, `Drain.dfy`, `Http.dfy` | line framing, shutdown in virtual time, the metadata response parser |

Time is counted in nanoseconds, so TTL comparisons and whole-second reports are exact; the `as u32` cast of the remaining
seconds is written as truncation modulo 2^32 and shown never to truncate.

## Where code and documentation disagree

The model follows the code.

- A manifest's `[cache]` values replace the daemon defaults upwards as well as downwards (`src/registry.rs:202-210`), although
  `docs/manifest-schema.md:71` says they can only lower them. `Manifests.ManifestCapsDefaultsOnlyWhenLower` gives the exact condition.
- A line over the size cap closes the connection without any response (`src/server.rs:350`), although the comment at
  `src/proto/mod.rs:17-19` speaks of a `protocol_error`; nor does the reader drain the long line, as its own comment says
  (`src/server.rs:368-370`).
- `reload` sets the cache bounds before it stores the manifest (`src/registry.rs:186-188`), so two overlapping reloads can
  leave the bounds of one manifest with the allowlist of the other. `Reloading.BoundsAgreeIff` says exactly when they
  agree, in every run.
- `unregister` takes the task handle and removes the socket file after the name has left the registry
  (`src/server.rs:501-523`), and `register` stores the handle after the name has entered it (`src/server.rs:487-491`).
  Overlapping operations on a name can therefore break the agreement of registry, handle, socket and accept loop in
  each of these ways, and `Overlap.AgreementIff` says exactly when all four agree:
  - a registered project without socket: `Overlap.RegisteredSocketIff`, `Overlap.UnregisterDeletesLiveSocketIff`;
  - a registered project whose accept loop was aborted: `Overlap.UnregisterEndsLiveLoopIff`;
  - a registered project without handle, or with that of another incarnation: `Overlap.RegisteredWithoutOwnHandleIff`;
  - a handle stored for an unregistered name: `Overlap.OrphanedHandleIff`, `Overlap.UnregisterLeavesHandleIff`;
  - a loop running on for an unregistered incarnation: `Overlap.LoopRunsIff`, `Overlap.UnregisterLeavesLoopIff`.
  `OverlapRuns.dfy` has a run for each.
- The two shutdown tallies of the audit writer omit events evicted from the retry buffer (`src/audit.rs:260-276`).
  `AuditSpec.TalliesMissEvictions` says exactly when they add up.
- The log is not always in receive order, because after a failed retry the fresh event is still tried
  (`src/audit.rs:240-250`). `AuditSpec.LogFileInOrderIff` says exactly when the log file is, and `AuditSpec.LogInOrderIff` when the
  log followed by the retry buffer is; `EmissionOrder.LogInEmissionOrderIff` says it of emission order in the running broker.
- `admin` is a valid project name whose socket path is the admin socket's (`Lifecycle.OnlyAdminCollides`). Registering it
  displaces the admin socket; `Overlap.AdminSocketSurvivesIff` says exactly when the admin socket's file is in place.

## Model

| member | source | states |
|---|---|---|
| `Isolation.StepRestricts` | src/server.rs:646-822 | every step either concerns project p (or is shared) and acts on p's part of the state alone, or leaves p's part untouched |
| `Isolation.IsolationByErasure` | src/server.rs:646-822 | from any interleaved run, erasing all steps of other projects and of the audit task leaves a run after which p's incarnations, caches, reloads, gets and responses are the same at every point |
| `Isolation.OthersDoNotInterfere` | src/registry.rs:92-190 | two runs in which p's own steps, the clock and the rotations agree cannot be told apart by p, whatever other projects do |
| `Isolation.AuditBlind` | src/audit.rs:214-224 | with any other audit state the same serving steps are enabled and lead to the same serving state |
| `Isolation.ServingIsRun` | src/audit.rs:214-224 | erasing all writer steps from a run leaves a run with the same serving state |
| `Isolation.AuditNeverAffectsServing` | src/server.rs:852-877 | runs differing only in writer scheduling, write failures and channel fullness give the same responses and caches |
| `Broker.StepKeepsInv` | src/registry.rs:114-190 | every step keeps: names agree along registry, incarnation and manifest, all manifests validated, all bounds and entry TTLs in range |
| `Broker.RunInv` | src/registry.rs:114-190 | that invariant holds in every reachable state |
| `Effects.GetEffect` | src/server.rs:676-822 | a get keeps its incarnation, name and manifest snapshot for ever; only its own steps move it, each from its own program point |
| `Effects.EntryEffect` | src/cache.rs:93-128 | an entry present after a step was there unchanged before, or was stored by that step by a get of that incarnation |
| `Effects.ManifestEffect` | src/registry.rs:186-188 | a manifest changes only when a reload of that very incarnation stores |
| `Effects.ConfigEffect` | src/registry.rs:186-188 | cache bounds change only when a reload of that very incarnation loaded successfully |
| `Effects.GetNeverStuck` | src/cache.rs:172-182 | in every reachable state an unfinished get can take its next step, whatever the backend replies; an insert never lacks an entry to evict |
| `Provenance.SessionOrigin` | src/backend.rs:97-102 | a session awaited by a get was the installed one when that get loaded it |
| `Provenance.VerdictOrigin` | src/server.rs:684-821 | a verdict held by a get was reached at one earlier step of that get from a program point without verdict |
| `Provenance.EntryOrigin` | src/server.rs:751-761 | a cached entry was written by a get of the same incarnation and name that had just fetched exactly that value |
| `Provenance.CachedValueProvenance` | src/server.rs:711-761 | nothing fetched for another incarnation, project or name is ever in a cache; the value came from the session installed when the storing get loaded it |
| `Provenance.ValueProvenance` | src/server.rs:711-761 | any value answered is either a hit strictly within the TTL (at most 86400 s) of an entry of the same incarnation, or was fetched by the get itself; in both cases from a session installed when it was loaded; `ttl_seconds` is the exact floor of the time left |
| `Allowlist.SnapshotDecides` | src/server.rs:684-709 | a get passes the check only if its one snapshot lists the name, and is denied only if it does not |
| `Allowlist.EveryAccessWasAllowed` | src/server.rs:684-761 | every cache probe, session load, backend answer, insertion and value response belongs to a get that began when its incarnation's manifest listed the name |
| `Allowlist.CacheWithinAllowlists` | src/registry.rs:168-190 | cache keys stay within the union of allowlists the incarnation has had |
| `Allowlist.DeniedIffNotListed` | src/server.rs:684-709 | a finished get answers `denied` if and only if the manifest at its start did not list the name |
| `Allowlist.RemovedNameIsDenied` | src/registry.rs:168-190 | once a name is off the allowlist, gets that start before a reload restores it are denied and touch neither cache nor backend, even while the cache still holds the name |
| `Accounting.PastAnswerIff` | src/server.rs:751-822 | in every run a get that was not aborted is past the backend's answer if and only if the backend answered it |
| `Accounting.VerdictMatches` | src/server.rs:687-822 | decision, outcome, backend and reason of a verdict are literally those its response calls for, and it names the backend if and only if the backend answered this get, be it with a failure |
| `Accounting.AbortedIsFinal` | src/server.rs:508-514 | an abort strikes only while the backend is awaited; the get then takes no further step and is never recorded, answered or cached |
| `Accounting.OneRecordPerResponse` | src/server.rs:852-877 | a get that has responded emitted exactly one record in the whole run; the record itself names the get's project as it was registered, the secret asked for, and literally the decision, outcome, backend and reason its response calls for |
| `Accounting.EndToEndAccounting` | src/audit.rs:214-276 | in every reachable state emitted records = log + in hand + retry buffer + evicted + queued + dropped + discarded, as multisets; the dropped counter is right and the channel within its cap |
| `Accounting.NoDuplicates` | src/audit.rs:214-276 | no record is in two of these places, or twice in one |
| `EmissionOrder.FifoDelivery` | src/audit.rs:214-235 | as sequences, the records received by the writer followed by those in the channel are the accepted emissions in emission order, while the writer lives; always a prefix of them has been received |
| `EmissionOrder.LogInEmissionOrder` | src/audit.rs:232-276 | of two log lines both written directly, or both out of the retry buffer, the earlier one was emitted by an earlier step of the run |
| `EmissionOrder.LogInEmissionOrderIff` | src/audit.rs:214-276 | in every run of the broker and at every point, the whole log lists its records in emission order if and only if no record that a fresh write overtook has been flushed out of the retry buffer later |
| `Transparency.BackendConfigured` | src/server.rs:408-453 | rotation swaps sessions but never makes a backend appear or disappear |
| `Transparency.CacheTransparency` | src/server.rs:684-821 | with a deterministic backend, every interleaving of gets, expiries, evictions, reloads and re-registrations answers what a broker without a cache would answer for the snapshotted manifest |
| `Refetch.NeverEvicts` | src/cache.rs:111-128 | a cache whose possible names number at most its cap never has to evict |
| `Refetch.StaysCached` | src/cache.rs:111-128 | under that condition a stored name stays cached, with its TTL, until the TTL is over, under any concurrency |
| `Refetch.NoPrematureRefetch` | src/server.rs:711-761 | a get that probes after a value was cached goes to the backend only if a full TTL has passed |
| `Refetch.NextBackendCallAfterTtl` | src/server.rs:711-761 | the next backend call for the name by a get begun later comes at least one full TTL after the value was cached |
| `Registration.RegisterOutcomeIff` | src/registry.rs:114-149 | a registration succeeds if and only if an acceptable manifest of that name is on disk, the name is free and the bind succeeded; `project_exists` if and only if the manifest is acceptable and the name taken |
| `Registration.RegisteredIff` | src/registry.rs:114-160 | in every run a name is registered as an incarnation if and only if such a registration made it so and it was not unregistered since |
| `Registration.KeepsIncarnation` | src/registry.rs:133-135 | a registered name keeps its incarnation until it is unregistered, whoever else tries to register it |
| `Registration.UnregisterAt` | src/registry.rs:154-160 | an unregister takes the name out and touches nothing else: project, cache, gets and reloads go on |
| `Registration.RequestsAreTaken` | src/server.rs:646-674 | in any state any admin request is taken, and any get on any incarnation, also one that has left the registry |
| `Registration.ReloadOrigin` | src/registry.rs:168-185 | a reload is about the incarnation registered at its lookup, fails as unknown if and only if there was none, and otherwise fails with what is wrong with the manifest it read |
| `Registration.IncarnationOrigin` | src/registry.rs:138-147 | every incarnation comes from one successful registration and has its name |
| `Registration.ManifestFromDisk` | src/registry.rs:168-190 | in every run the manifest of an incarnation is field by field the file that its registration or a reload of it read, with nothing installed since |
| `Registration.LimitsFromDisk` | src/registry.rs:202-210 | in every run the cap and TTL of a cache are those in the file read last by its registration or a reload of it, and the daemon's defaults where that file gives none |
| `Reloading.InstalledManifestsAreValid` | src/registry.rs:168-210 | every incarnation in every reachable state has a validated manifest with its own name, a cap in 1..=1024 and a TTL in 1..=86400 s |
| `Reloading.FailureChangesNothing` | src/registry.rs:168-190 | a failed registration or reload leaves everything but its own reply unchanged |
| `Reloading.BoundsFollowLastConfigured` | src/registry.rs:186-188 | the cache bounds are those of the manifest last configured for the incarnation, in every run |
| `Reloading.ReloadConsistency` | src/registry.rs:168-210 | if no two reloads of an incarnation overlap between their two steps, the bounds equal those of the installed manifest whenever none is between them |
| `Reloading.BoundsAgreeIff` | src/registry.rs:168-190 | in every run, however reloads interleave, the bounds are those of the installed manifest if and only if the manifest configured last and the manifest stored last resolve to the same bounds |
| `Reloading.OverlappingReloadsDisagree` | src/registry.rs:186-188 | a run from a fresh daemon at whose end no reload is in flight and bounds and manifest disagree |
| `Servers.DispatchGet` | src/server.rs:676-822 | response, cache, evicted entry, channel and counter of an undisturbed get, for every state of manifest, cache, backend and channel; the record queued literally describes project, secret, response and whether the backend answered |
| `Servers.UninterruptedGetIsRun` | src/server.rs:676-822 | exactly that outcome is reached in the step machine by steps of this get and the clock alone |
| `Servers.ProjectRegistry.Register` | src/registry.rs:114-149 | commits a fresh project with the manifest and limits on disk and an empty cache if and only if that manifest is acceptable for the name, the name is free and the socket was bound; reports the first failing of these and changes nothing otherwise |
| `Servers.ProjectRegistry.Unregister` | src/registry.rs:154-160 | takes exactly that name out and hands its object to the caller, or reports it unknown |
| `Servers.ProjectRegistry.Reload` | src/registry.rs:168-190 | limits and manifest of this project alone become those on disk, cached entries stay, if and only if the manifest is acceptable for the name; otherwise nothing changes and the error says what is wrong |
| `Servers.RotateBootstrap` | src/server.rs:408-453 | a rotation is the machine's rotation step on the cell; it succeeds if and only if there is a cell, a token and a new session, reports the first of these that fails, and a failure leaves the session in use alone |
| `BoundedCaches.BoundedCache.Get` | src/cache.rs:93-106 | a hit only strictly before expiry, with the remaining whole seconds; an expired entry is removed, anything else untouched |
| `BoundedCaches.BoundedCache.Insert` | src/cache.rs:111-128 | replaces in place without evicting; a new name at or over the cap evicts one oldest-written entry first |
| `BoundedCaches.BoundedCache.Clear` | src/cache.rs:132-134 | empties the cache and keeps its bounds |
| `BoundedCaches.BoundedCache.SetConfig` | src/cache.rs:156-160 | changes the bounds and no entry |
| `BoundedCaches.OldestKey` | src/cache.rs:172-182 | the scan yields a key with the least write time, and none exactly on an empty map |
| `CacheSpec.InsertSize` | src/cache.rs:111-128 | an insert grows the cache by one exactly for a new name with nothing to evict, and otherwise keeps its size |
| `CacheRuns.RecencyRefinement` | src/cache.rs:93-134 | with a strictly increasing clock and a fixed cap, the cache after any history is the recency list truncated to the cap, whatever the hash map's order |
| `CacheRuns.InsertsKeepLatest` | src/cache.rs:172-182 | after inserts only, under a strictly increasing clock, the names in the cache are exactly the most recently written distinct ones, up to the cap |
| `CacheRuns.HitsAgreeWithUnbounded` | src/cache.rs:93-134 | every hit of the bounded cache is the same hit on a map that never evicts |
| `CacheRuns.SizeBoundAcrossReconfiguration` | src/cache.rs:111-160 | after the last reconfiguration the size never exceeds the larger of the cap and the size at that moment |
| `CacheRuns.ReinsertKeepsOthers` | src/cache.rs:111-128 | re-inserting a present name removes no other entry and changes none |
| `CacheRuns.EntryFromLastInsert` | src/cache.rs:111-160 | between two inserts of a name its entry is either exactly what the first wrote or absent, reconfigurations included |
| `CacheRuns.HitIsLastInsert` | src/cache.rs:61-106 | a hit reports the last inserted value and the exact floor of the time left, with no 32-bit truncation; after the TTL it misses |
| `CacheRuns.HitsBetweenInserts` | src/cache.rs:61-106 | without an insert in between, a later hit implies the earlier lookup hit, with the same value and no smaller TTL |
| `CacheRuns.MissUntilReinsert` | src/cache.rs:93-106 | after a miss a name misses until it is inserted again |
| `CacheRuns.ClearEmpties` | src/cache.rs:132-134 | after a clear every lookup misses and the limits are as before |
| `AuditTasks.AuditFile.WriteEvent` | src/audit.rs:165-174 | appends exactly the event or nothing |
| `AuditTasks.AuditWriter.Record` | src/audit.rs:214-224 | queues the event if the channel is open and holds fewer than 1000, counts a drop if it is open and full, and does nothing if it is closed |
| `AuditTasks.WriterLoop` | src/audit.rs:232-276 | log file, leftover buffer and tally are those of the writer machine for every sequence of write failures |
| `AuditTasks.LoopIsRun` | src/audit.rs:232-276 | the loop's result is the end of a run of the writer machine that received exactly these events |
| `AuditTasks.LoopGuarantees` | src/audit.rs:232-276 | whatever the disk does: conservation, order, and no loss at all up to 1000 events |
| `AuditTasks.DeadDisk` | src/audit.rs:252-267 | if no write succeeds, the buffer is exactly the last min(k, 1000) of the k events in order |
| `AuditTasks.DeadDiskTallies` | src/audit.rs:270-276 | on a dead disk the two tallies add up to min(k, 1000), so they are right if and only if at most 1000 events arrived |
| `AuditTasks.TalliesMissOne` | src/audit.rs:260-276 | a run that received 1001 events and tallies 1000 |
| `AuditTasks.RecoveredDisk` | src/audit.rs:237-250 | once writes succeed again, the next event flushes the whole buffer in order and then itself |
| `AuditSpec.WriterOrder` | src/audit.rs:232-276 | at every point the buffer is in receive order and within 1000, the log is an interleaving of two receive-ordered streams, and an event is given up only after at least 1000 later ones arrived |
| `AuditSpec.WriterConservation` | src/audit.rs:232-276 | received events = log + buffer + evicted + in hand, as multisets, at every point |
| `AuditSpec.TalliesMissEvictions` | src/audit.rs:260-276 | in every run the two shutdown tallies add up to the received events if and only if no fresh write ever failed while the buffer held 1000 events |
| `AuditSpec.LogInOrderIff` | src/audit.rs:237-250 | log and buffer are in receive order throughout a run if and only if no fresh write ever succeeds while the buffer could not be emptied |
| `AuditSpec.LogFileInOrderIff` | src/audit.rs:237-250 | the log file alone is in receive order throughout a run if and only if no event that a fresh write overtook is ever flushed out of the buffer later |
| `AuditSpec.LogOutOfOrder` | src/audit.rs:237-250 | a run whose log file is out of order |
| `AuditSpec.RecordAccounts` | src/audit.rs:214-224 | recording adds exactly that event to the books |
| `AuditSpec.RunWriterAccounts` | src/audit.rs:232-276 | no writer step adds or loses an event from the books, the writer's end included |
| `Lifecycle.SocketPathsDistinct` | src/registry.rs:107-109 | two projects share a socket path if and only if they have the same name; the path is the name with `.sock` directly in the socket directory |
| `Lifecycle.OnlyAdminCollides` | src/server.rs:55 | a project's path is the admin socket's if and only if the project is called `admin`, which validation admits |
| `Lifecycle.RegisterCommitIff` | src/registry.rs:132-149 | a registration commits if and only if the manifest loaded, the name was free and the socket was bound with its mode set; the file at the path is left, removed or replaced according to how far the bind got |
| `Lifecycle.OtherNames` | src/server.rs:478-530 | operations on one name leave registry entry, task, file, loops and operations of every other name alone |
| `Lifecycle.LifecycleAgreement` | src/server.rs:478-530 | for every name but `admin`, with no overlap on the name and successful file operations, whenever nothing is in flight: registered iff task handle iff socket file, all for one incarnation whose loop is the only one running |
| `Lifecycle.LoserTouchesNothing` | src/registry.rs:114-149 | a registration that loses touches no file, registry entry, task or loop |
| `Lifecycle.WinnerKeepsSocket` | src/registry.rs:114-149 | however registrations of a name race, the winner keeps its socket until an unregister of that name acts |
| `Overlap.UnregisterDeletesLiveSocketIff` | src/server.rs:500-530 | an unregister ends by leaving a registered project without socket if and only if the name was registered again after it had left the registry |
| `OverlapRuns.OverlapLosesSocket` | src/server.rs:500-530 | a run from a fresh daemon that ends with nothing in flight and a registered project without socket |
| `Overlap.RunHandles` | src/server.rs:478-530 | in every reachable state a join handle is in one place at most, and a registered project whose handle exists and whose loop was spawned has its loop running |
| `Overlap.UnregisterEndsLiveLoopIff` | src/server.rs:500-516 | in any interleaving an unregister ends the accept loop of a registered project if and only if the name was registered again after it left the registry, is still registered, and the handle stored last before the unregister took one was the new incarnation's |
| `OverlapRuns.OverlapEndsLoop` | src/server.rs:500-516 | a run that ends with nothing in flight and a registered project without accept loop |
| `Overlap.UnregisterLeavesHandleIff` | src/server.rs:487-504 | in any interleaving an unregister leaves its incarnation's handle behind if and only if that handle was stored after the unregister had looked for it and nothing touched it since |
| `Overlap.OrphanedHandleIff` | src/server.rs:487-504 | in any run a handle is stored for an unregistered name if and only if the last step that touched the handle stored it and every registration of the name was taken out again |
| `Overlap.RegisteredWithoutOwnHandleIff` | src/server.rs:487-504 | in any run a registered name has no handle, or another incarnation's, if and only if the handle stored last is not that of the registration that stands |
| `OverlapRuns.ForeignHandle` | src/server.rs:487-491 | a run that ends with nothing in flight and a registered project with its own socket and loop and another incarnation's handle |
| `Overlap.LoopRunsIff` | src/server.rs:569-602 | in any run an accept loop runs if and only if it was spawned and neither ended by itself nor was ended by an unregister that held its handle |
| `Overlap.UnregisterLeavesLoopIff` | src/server.rs:504-514 | in any interleaving an unregister leaves the loop of the incarnation it took out running if and only if that loop ran until then and the handle it found was not that incarnation's |
| `OverlapRuns.LoopLeftBehind` | src/server.rs:504-514 | a run that ends with nothing in flight and a running loop of a name without registry entry, handle or socket |
| `Overlap.SocketFileIff` | src/registry.rs:219-240 | in any run the file at a name's path is there and is a given incarnation's if and only if the last step that touched it bound it for that incarnation |
| `Overlap.RegisteredSocketIff` | src/server.rs:500-530 | in any run a registered project has its socket if and only if no unregister has removed a file at its path since it was registered; a file there is its own |
| `Overlap.AgreementIff` | src/server.rs:478-530 | in every state of every run, for every name and every overlap, registry, handle, socket and loops agree if and only if the last steps that touched each left them on one incarnation, or on none |
| `OverlapRuns.LateHandleIsOrphaned` | src/server.rs:487-504 | a run that ends with nothing in flight and an unregistered name with a stored handle and a running loop |
| `Overlap.AdminSocketSurvivesIff` | src/registry.rs:219-240 | in every reachable state the admin socket's file is in place if and only if no registration of `admin` ever got as far as the bind, successful or not |
| `OverlapRuns.AdminSocketLost` | src/server.rs:500-530 | registering and unregistering `admin` leaves the running daemon without any socket file |
| `Framing.ReadLineCapped` | src/server.rs:371-387 | for every chunking it takes exactly the next line off the stream and fails if and only if the cap is reached before a newline |
| `Framing.ServeConnection` | src/server.rs:604-644 | serves the frames of the stream with one response each, in order, and ends as they end, or at the first response that cannot be written, with everything before it answered |
| `Framing.FramesOfEncoded` | src/server.rs:343-366 | any newline-free messages of length + 1 <= 65536 come back as exactly those messages in order |
| `Framing.FramesArePrefix` | src/server.rs:604-644 | on any stream the frames concatenate to a prefix, to all of it at end of stream, each within the cap and only the last one without newline |
| `Framing.CutIffLongLine` | src/server.rs:371-387 | a connection is cut for size if and only if some line has 65536 bytes without newline, and then exactly at the start of the first such line |
| `Framing.LongFirstLineIsCut` | src/server.rs:380-385 | an input of 65536 or more bytes whose first 65536 hold no newline is cut with nothing served and nothing answered |
| `Drain.DrainJoinSet` | src/server.rs:309-325 | completed are exactly the tasks that finish in time, aborted all others; ends when the last timely task has finished, or at the limit if some task is late |
| `Drain.DrainProjectLoops` | src/server.rs:828-845 | the same under one shared deadline, for any order of the handles |
| `Drain.Shutdown` | src/server.rs:178-204 | loops and connections together end within one 5 s deadline, when the last timely task has finished or at the deadline if some task is late; a task is aborted if and only if it would not have finished by then |
| `Manifests.ScanSecretName` | src/manifest.rs:315-321 | accepts exactly 1 to 128 ASCII letters, digits and underscores |
| `Manifests.ScanProjectName` | src/manifest.rs:302-313 | accepts exactly 1 to 64 lower-case letters, digits, underscores and hyphens starting with a letter or digit |
| `Manifests.Validate` | src/manifest.rs:223-292 | succeeds if and only if all documented rules hold, returning the file's fields unchanged, and otherwise reports the first broken rule with what breaks it |
| `Manifests.VerdictMeaning` | src/manifest.rs:223-292 | acceptance is equivalent to the rules stated in literals, and every error is about the first broken one |
| `Manifests.LoadForMeaning` | src/registry.rs:212-217 | exactly an acceptable manifest with the requested name gets through, field by field; otherwise the error tells missing, unreadable, unparsable, the first broken rule or the wrong name |
| `Manifests.ResolvedBoundsInRange` | src/registry.rs:202-210 | resolved limits are the file's where it gives any and the daemon's defaults where not, and lie in 1..=1024 entries and 1..=86400 s |
| `Manifests.ManifestCapsDefaultsOnlyWhenLower` | src/registry.rs:202-210 | bounds stay within the daemon defaults if and only if the manifest asks for no more than these |
| `Manifests.ManifestCanRaiseDefaults` | docs/manifest-schema.md:68-71 | a well-formed manifest that raises both limits |
| `Utf8.RoundTrip` | src/bootstrap.rs:311-314 | every string survives UTF-8 encoding and strict decoding |
| `Utf8.DecodeIff` | src/bootstrap.rs:311-314 | strict decoding yields a string if and only if the bytes are its encoding: no overlong form, no surrogate, nothing cut short |
| `Http.SeparatorFoundIff` | src/bootstrap.rs:302-307 | the blank line found is the end of the header block if and only if that block neither contains a blank line nor ends in CRLF, whatever the body |
| `Http.ResponseIs` | src/bootstrap.rs:301-339 | with a status, the body is everything after the first blank line, returned for 200..299 and carried by the error otherwise |
| `Http.ParsesIff` | src/bootstrap.rs:301-339 | a response is malformed if and only if it has no UTF-8 header block before a blank line whose first line has a 16-bit number as its second word |
| `Http.SecondWordIs` | src/bootstrap.rs:324-326 | the second word of a line is found whatever whitespace is around the words |
| `Http.ParseU16Iff` | src/bootstrap.rs:327 | a numeral parses if and only if it is at most 65535 |
| `Http.HttpRoundTrip` | src/bootstrap.rs:301-339 | a rendered response parses to exactly its body for status 200..299 and otherwise to an error with that status and body |
| `Http.BaseUrlRoundTrip` | src/bootstrap.rs:343-362 | any host without slash, any port and any path parse back to that host and port |
| `Http.BaseUrlDefaultPortIff` | src/bootstrap.rs:343-362 | without a port the host comes back with port 80 if and only if it holds no colon |
| `Http.BaseUrlRefusedIff` | src/bootstrap.rs:343-362 | a URL is refused if and only if it is not `http`, has no host, or what follows the last colon is not a 16-bit number |

## Left out

- The backend library's internals: a backend call is an arbitrary reply chosen by the environment.
- Real sockets, file modes, peer credentials, `sd_notify`, signals: only the presence of a socket file and the end of a task are modelled.
- TOML, JSON and timestamp encoding, and the fields of audit events that only report (peer ids, latency, timestamp): requests, responses and records are datatypes.
- Zeroization and redaction of secrets in memory: not visible in a functional model.
- Torn or partial log writes: one event write succeeds or fails as a whole.
- Metadata-service networking, token readers, role-line selection, command line and configuration precedence: I/O or simple overlays; the configured defaults are taken to be in the range the loader checks (`src/config.rs:190-206`).
- `ping`, `info` and `status` requests: they change no state and are not audited.
- The one `shutdown` audit event at the end of the daemon: all other events are fetch records.
- Delivery of stop notifications: a loop ends by itself or is aborted at its deadline, as the code falls back to.
- Stale socket files from an earlier daemon: the lifecycle machine starts with the admin socket as the only file.
- Wrap-around of 64-bit event counters.
- A backend that becomes configured later: the daemon starts with or without one, and rotation only swaps it.
- Servers.DispatchGet: takes the clock of the lookup and the clock of the insertion as parameters and has no other task interfere; interference is the subject of the step machine.
- Http.HttpRoundTrip: bodies that are not UTF-8 are kept as bytes; the replacement characters the code puts in are not modelled.
- Drain.Shutdown: an abort takes effect at once, and no project is registered after the drain has begun.
- Lifecycle.LifecycleAgreement: assumes that the name is not `admin`, that file operations on it succeed and that operations on it do not overlap. `Overlap.AgreementIff` needs none of this.
- Overlap.LoopRunsIff: a loop whose project has left the registry may end by itself at any time, also when it missed the stop signal; this does not concern loops of registered projects.
- `BackendSession::replace`: nothing in the daemon calls it.
- CacheRuns.RecencyRefinement: needs a strictly increasing clock, since the code breaks ties between equal write times by hash order.
