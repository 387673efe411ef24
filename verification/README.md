# Verified model of pact's state-keeping cores

pact manages the configuration of HPC nodes: a journal (a replicated log) holds the
configuration, and an agent on every node boots from it, follows it, supervises local
changes and gives POSIX identities to federated users. This project models the parts of pact
that keep state over time, and the codecs between journal and agent, and proves what they
guarantee over every run. `dafny verify dfyconfig.toml` checks all of it.

Clock readings are explicit `now` arguments that never run backwards. An object that the code
updates in place is a class whose methods are proved against transitions on a value (`Value()`
or `State()`); the theorems are about the runs of those transitions. Hash maps are maps that
are visited in arbitrary order. `f64` quantities are reals.

| area | modules |
|---|---|
| two-tier token-bucket limiter | `RateLimiter`, `RateLimiterRuns` |
| journal log, config subscription, boot stream | `Journal`, `ConfigUpdates`, `Subscription`, `SubscriptionGaps`, `BootStream` |
| UID table, passwd file, NSS lookup | `UidMap`, `UidRuns`, `UidCircle`, `Nss` |
| drift, commit window, emergency, auto-rollback | `Drift`, `CommitWindow`, `AutoRollback` |
| mount reference counts, restart | `Mounts`, `MountRuns`, `MountRestart` |
| partition conflicts | `Conflicts` |
| codecs | `EntryCodec`, `MountValue`, `CpuList`, with `Text` and `ConfigTypes` |

## Where the code and its promises differ

The model follows the code. Each of these has a lemma that exhibits the difference and one
that says for all inputs exactly when the promise holds.

- The subscription says it joins the channel "to avoid race", but it drops the log's lock first.
  A session is gap-free if and only if it heard nothing before its predecessor and did not start on
  an empty journal (`SubscriptionGaps.ContiguousIff`), which in orderly runs means that it joined in
  time (`ContiguousIffTimely`); an entry can be lost on an empty journal, between the snapshot and the join, by broadcasts out of
  order and by replication (the four `Gap…` lemmas), and is then lost for good (`MissedForever`).
- A departing organisation's users stay in every group, because they are dropped from the table
  before the groups are pruned against it (`UidRuns.GroupsNeverPruned`).
- 32-bit wrap-around can give two subjects one UID: two organisations can come to share one if and
  only if their blocks are less than a stride apart on the circle of 2^32 (`UidCircle.CanShareIff`,
  `UidRuns.WrapAroundCollides`).
- The NSS module documents that it re-reads a changed file; it loads the file once per process
  (`Nss.StaleCacheExactly`, `Nss.StaleCacheAgreesIff`, `Nss.StaleCacheAfterDeparture`). A lookup by user name depends on the
  order of the file when two users share the name (`Nss.NameLookupDeterminedIff`).
- A forced unmount forgets who uses the image; a late release then hits the next mount. It is safe if
  and only if nobody uses the image and no earlier one did harm (`MountRuns.ForceIsSafeIff`). Images of one name in two directories share a mount point but not a
  count (`MountRuns.SharedPlaceIff`, `SameNameSamePlace`).
- After a restart the hold timers start anew, so a release that the uninterrupted manager would have
  ignored can make the rebuilt one panic (`MountRestart.RestartPanics`); `RestartIsSafe` says exactly
  when it does, and `RestartWithoutForce` that it never does as long as no mount is forced off.
- A `/*` blacklist pattern panics on the directory itself, and `/*` and `/**` both take siblings such
  as `/tmpfoo` for something below `/tmp` (`Drift.SingleStarExactly`, `DoubleStarExactly`).
- A negative drift sensitivity lengthens the commit window (`Drift.NeverLengthensIff`).
- Auto-rollback is to be suspended during an emergency, but the timer looks at the emergency manager
  and then waits for another lock. It rolls back during an emergency if and only if that emergency
  started in between (`AutoRollback.ClosesInEmergencyIff`, `RolledBackInEmergency`).
- The window's emergency flag protects an open window but not one that has already expired
  (`AutoRollback.FlagKeepsOpenWindow`, `FlaggedExpiredIsOlder`, `FlagDoesNotProtectExpired`).
- A boot stream that ends early is accepted: the agent boots, and has everything if and only if all
  pieces and the node delta arrived (`BootStream.CutStreamBoots`, `BootFromCutStream`). An overlay
  sent uncompressed may be taken for compressed data (`BootStream.BootRoundTrip`).
- An entry of one of the eight types after the thirteenth cannot be submitted again, and policy
  references and deltas can change on the way (`EntryCodec.EntrySurvivesIff`, `DeltaSurvivesIff`).

## Model

| member | source | states |
|---|---|---|
| RateLimiter.TwoTierLimiter.constructor | crates/pact-journal/src/rate_limiter.rs:52-59 | both tiers start full; the per-address tier is a tenth of the global one, at least 5 |
| RateLimiter.TwoTierLimiter.TryAcquire | crates/pact-journal/src/rate_limiter.rs:63-65 | takes one token of the refilled global bucket if there is one, keeps every bucket within its capacity and leaves the addresses alone |
| RateLimiter.TwoTierLimiter.TryAcquireForIp | crates/pact-journal/src/rate_limiter.rs:68-77 | debits the global bucket first and the address only if that succeeded; a refusal by the address does not give the global token back |
| RateLimiter.TwoTierLimiter.CleanupStale | crates/pact-journal/src/rate_limiter.rs:80-87 | drops exactly the buckets idle for 300 seconds or more and changes no other |
| RateLimiter.TryAcquireKeepsValid | crates/pact-journal/src/rate_limiter.rs:32-44 | a debit keeps a bucket between empty and capacity and lowers its level by exactly the token granted |
| RateLimiter.FullAfterAMinute | crates/pact-journal/src/rate_limiter.rs:32-38 | a bucket left alone for a minute is full, whatever it held |
| RateLimiterRuns.EvictionInvisible | crates/pact-journal/src/rate_limiter.rs:68-87 | clean-ups inserted anywhere in any concurrent run change no answer to any caller |
| RateLimiterRuns.EvictionObservableIff | crates/pact-journal/src/rate_limiter.rs:80-87 | dropping a bucket can be noticed by some request pattern if and only if it is not full at that moment |
| RateLimiterRuns.RateBound | crates/pact-journal/src/rate_limiter.rs:32-77 | on every interval of every run an address is admitted at most max·(1 + length/60) times, and the global tier grants at most its own such allowance |
| RateLimiterRuns.RefusedIffSomeIntervalIsFull | crates/pact-journal/src/rate_limiter.rs:32-44 | a bucket that starts full refuses a request if and only if granting it would break the rate bound on some interval ending there |
| RateLimiterRuns.BucketIsTightest | crates/pact-journal/src/rate_limiter.rs:23-44 | a sequence of answers refuses exactly the requests the rate bound excludes if and only if it is the one a full bucket gives |
| RateLimiterRuns.AddressRefusedIffOverItsRate | crates/pact-journal/src/rate_limiter.rs:52-77 | whatever other addresses and the eviction do, an address' answers are those of a bucket of its own with a tenth of the global rate, at least 5 a minute, and it is refused if and only if it is over that rate |
| RateLimiterRuns.GlobalRefusedIffOverItsRate | crates/pact-journal/src/rate_limiter.rs:63-77 | the global tier refuses a request if and only if it would exceed the global rate on some interval |
| RateLimiterRuns.GlobalTokensConserved | crates/pact-journal/src/rate_limiter.rs:63-77 | global tokens taken equal plain grants, plus admissions, plus per-address refusals, plus the change in requests under way |
| Journal.JournalState.AppendEntry | crates/pact-journal/src/raft/state.rs:168-211 | an entry is stored, unchanged but for its number, under the next sequence if and only if it has an author and a role, its parent precedes it and its TTL is 0 or from 900 to 864000; otherwise the log is unchanged and the first failed condition is named |
| Journal.AncestorsDescend | crates/pact-journal/src/raft/state.rs:181-188 | in a log of admitted entries every parent chain strictly descends, so there are no cycles |
| ConfigUpdates.LiveLoop | crates/pact-journal/src/boot_service.rs:247-269 | until the receiver lags or closes, the loop sends and remembers what the specification of the forwarded items says |
| ConfigUpdates.ForwardedIncreases | crates/pact-journal/src/boot_service.rs:251-256 | whatever is broadcast, what is forwarded is strictly increasing |
| ConfigUpdates.ForwardedIff | crates/pact-journal/src/boot_service.rs:251-256 | an update is forwarded if and only if it tops the starting point and everything heard before it |
| ConfigUpdates.ForwardedSlice | crates/pact-journal/src/boot_service.rs:229-256 | of a stretch of the log heard in order, exactly the part above the starting point is forwarded |
| ConfigUpdates.CountsIffInOrder | crates/pact-journal/src/boot_service.rs:251-256 | for every starting point and everything heard, what is forwarded counts up without a hole if and only if nothing was heard before its predecessor |
| Subscription.InvRun | crates/pact-journal/src/boot_service.rs:201-273 | the protocol invariant holds after every interleaving of appenders, broadcasts, subscription and agent |
| Subscription.DeliverySafe | crates/pact-journal/src/boot_service.rs:208-269 | in every run a session delivers committed entries only, strictly increasing and none below the requested sequence; the agent processes only committed entries across all sessions |
| Subscription.DeliveredIff | crates/pact-journal/src/boot_service.rs:208-269 | exactly which entries a session has delivered: those of its snapshot and the running maxima of what was broadcast since it joined |
| Subscription.ReceiveIs | crates/pact-journal/src/boot_service.rs:248-268 | a receiver more than the channel's capacity behind is cut off and gets nothing; any other gets the next notification if it is new |
| Subscription.EndedStreamStays | crates/pact-journal/src/boot_service.rs:260-268 | over every run, nothing more is put on the stream of a receiver that was cut off |
| Subscription.FirstItemRepeats | crates/pact-agent/src/subscription/mod.rs:198-220 | in every run, the first item of a session is the one the agent processed last, once more |
| SubscriptionGaps.ContiguousIff | crates/pact-journal/src/boot_service.rs:208-269 | in every run, with replication and broadcasts in any order, a session has no gap if and only if it heard nothing before its predecessor, and nothing but entry 0 if it started on an empty journal |
| SubscriptionGaps.ContiguousIffTimely | crates/pact-journal/src/boot_service.rs:229-236 | in an orderly run a session that has delivered a live item has no gap if and only if it joined before anything past its snapshot was broadcast and did not start on an empty journal |
| SubscriptionGaps.AtLeastOnce | crates/pact-agent/src/subscription/mod.rs:198-265 | over any number of reconnects with timely joins, what the agent processed is, up to immediate repetition, the log from entry 0 to its position |
| SubscriptionGaps.MissedForever | crates/pact-agent/src/subscription/mod.rs:136-140 | an entry the agent's position has passed unprocessed, in a session or between two, is never delivered by any continuation |
| SubscriptionGaps.GapOnEmptyJournal | crates/pact-journal/src/boot_service.rs:230-231 | a run in which an agent that subscribed to an empty journal misses entry 0 |
| SubscriptionGaps.GapBetweenSnapshotAndJoin | crates/pact-journal/src/boot_service.rs:233-236 | a run that loses an entry appended between reading the log and joining the channel |
| SubscriptionGaps.GapFromBroadcastOrder | crates/pact-journal/src/service.rs:62-83 | a run in which two appenders broadcast in the wrong order and a timely session loses an entry |
| SubscriptionGaps.GapFromReplication | crates/pact-journal/src/service.rs:62-83 | a run in which an entry replicated to this journal node never reaches its subscribers |
| BootStream.ChunkOverlay | crates/pact-journal/src/boot_service.rs:112-150 | the payload is cut into max(1, ⌈len/65536⌉) pieces of at most 65536 bytes that join to it in order, numbered from 0, each with the total, version, cluster and checksum |
| BootStream.StreamBootConfig | crates/pact-journal/src/boot_service.rs:77-192 | not found exactly for an unknown cluster; only a completion for an up-to-date agent; else the pieces, the node's entries in log order if there are any, and the completion |
| BootStream.ReceiveBootConfig | crates/pact-agent/src/boot/mod.rs:388-429 | the receive loop collects up to the completion or the end, fails on a stream error, and decompresses what it has |
| BootStream.CollectIs | crates/pact-agent/src/boot/mod.rs:388-420 | of any chunks before the completion the agent joins the pieces and keeps the last delta and the last version |
| BootStream.CollectEnds | crates/pact-agent/src/boot/mod.rs:393-420 | the completion ends the loop and an error before it fails the boot, whatever follows |
| BootStream.BootRoundTrip | crates/pact-journal/src/boot_service.rs:112-180 | for every overlay and node delta the agent gets the version and the delta, and the overlay's bytes if and only if it was compressed or does not itself look compressed |
| BootStream.BootFromJournal | crates/pact-agent/src/boot/mod.rs:372-430 | journal and agent loops together: the boot succeeds if and only if the cluster exists, with the round trip above, and with a delta that reads as exactly the log's entries of that node's scope, at increasing positions, or is empty if there are none |
| BootStream.CutStreamBoots | crates/pact-agent/src/boot/mod.rs:388-420 | a stream cut anywhere boots; what was collected is the payload, delta and version of the whole stream if and only if every piece and the node delta arrived, or there was nothing to send |
| BootStream.BootFromCutStream | crates/pact-agent/src/boot/mod.rs:372-430 | journal and agent loops together when only the first chunks arrive: what the agent boots with, and, for a codec that rejects a payload cut short, that it is the whole configuration if and only if all that carries something arrived, or the delta is empty and the bytes that arrived are already those of the overlay |
| BootStream.NodeEntriesExactly | crates/pact-journal/src/boot_service.rs:277-291 | the node delta holds each log entry of that node's scope, as often as the log does, and no other |
| BootStream.NodeDeltaIs | crates/pact-journal/src/boot_service.rs:277-291 | the node delta is the serialization of the node's entries at increasing positions of the log, or empty if there are none |
| BootStream.NodeDeltaReads | crates/pact-journal/src/boot_service.rs:277-291 | with a serializer that inverts, a node delta reads back as exactly those entries |
| UidMap.IdentityTable.constructor | crates/pact-common/src/types.rs:1015-1017 | an empty table with bases and stride 10000 |
| UidMap.IdentityTable.AssignUid | crates/pact-common/src/types.rs:1040-1085 | returns the existing entry, an error, or the organisation's next slot in wrapping 32-bit arithmetic, and changes nothing but users and counters |
| UidMap.IdentityTable.GcOrg | crates/pact-common/src/types.rs:1088-1096 | the whole table after a departure, groups pruned against the users that remain |
| UidRuns.FederationInvariant | crates/pact-common/src/types.rs:1019-1096 | over every history of joins, assignments and departures an organisation's n users hold exactly the first n slots of its block, n is at most the stride, no two subjects share a UID or GID, and neither UIDs nor GIDs reach 2^32 |
| UidRuns.AssignedUidIsNew | crates/pact-common/src/types.rs:1040-1085 | a newly assigned UID is held by nobody else |
| UidRuns.AssignNew | crates/pact-common/src/types.rs:1070-1085 | a new subject of an organisation with n users gets the number base + index·stride + n, for UID and GID, and the fields as given |
| UidRuns.AssignAgain | crates/pact-common/src/types.rs:1048-1052 | a subject that has an entry gets it again and the table stays as it is |
| UidRuns.AssignFailsIff | crates/pact-common/src/types.rs:1054-1068 | assignment fails if and only if the organisation is unknown, or has as many users as its stride; the error names both and the table stays as it is |
| UidRuns.AssignmentStable | crates/pact-common/src/types.rs:1048-1052 | an entry stays the same until its own organisation departs |
| UidRuns.DepartureIsComplete | crates/pact-common/src/types.rs:1088-1096 | a departure removes the organisation, its counter and all its users, and nothing of anybody else |
| UidRuns.GroupsNeverPruned | crates/pact-common/src/types.rs:1089-1093 | a departure changes no group; that is what was meant if and only if no group names a user of the organisation |
| UidRuns.PrecursorExact | crates/pact-common/src/types.rs:1021-1029 | while the block fits below 2^32 the wrapping arithmetic is exact |
| UidRuns.WrappedBlocksCollideIff | crates/pact-common/src/types.rs:1021-1029 | without that, two blocks share a UID if and only if their starts are less than a stride apart on the circle of 2^32 |
| UidRuns.WrapAroundCollides | crates/pact-common/src/types.rs:1021-1023 | a stride and two indices whose blocks coincide |
| UidCircle.NobodyShares | crates/pact-common/src/types.rs:1021-1096 | with wrap-around: over every history whose joins use new names and blocks apart on the circle of 2^32, no two subjects share a UID or GID, wherever the blocks lie |
| UidCircle.CanShareIff | crates/pact-common/src/types.rs:1021-1085 | two organisations that join can be assigned users with one UID or GID if and only if their blocks are less than a stride apart |
| Nss.IdentityManager.Flatten | crates/pact-agent/src/identity.rs:82-85 | the file lists every user once, in some order |
| Nss.IdentityManager.UpdateMap | crates/pact-agent/src/identity.rs:48-55 | the map is replaced, and the file with it if active and writable, else the old file stays |
| Nss.IdentityManager.GetByUid | crates/pact-common/src/types.rs:1100-1102 | some user with that UID, or nothing if there is none, whatever the iteration order |
| Nss.PasswdCache.GetPasswdEntries | crates/pact-nss/src/lib.rs:84-90 | the file as of the first call, empty if unreadable; later files are ignored |
| Nss.PasswdCache.GetEntryByUid | crates/pact-nss/src/lib.rs:131-136 | the first match in the cached file |
| Nss.NssAgreesWithTable | crates/pact-nss/src/lib.rs:131-136 | for every federation history and every file order, the first match is the one answer the table's own lookup can give |
| Nss.AssignedLookup | crates/pact-nss/src/lib.rs:101-112 | a newly assigned user's UID, looked up in a file written afterwards in any order, yields that user's name, UID, GID, subject, home and shell |
| Nss.NameLookupDeterminedIff | crates/pact-nss/src/lib.rs:138-143 | a lookup by name is independent of the file order if and only if at most one user has the name |
| Nss.StaleCacheAgreesIff | crates/pact-nss/src/lib.rs:84-90 | after any history in which the holder's organisation does not depart, a cached lookup is right if and only if the UID was held at load time or is still free |
| Nss.StaleCacheExactly | crates/pact-nss/src/lib.rs:84-90 | after every history, departures included: a cached person is right if and only if the organisation never departed, or gave out the very same entry anew and has stayed since; a cached absence is right if and only if no entry with that UID was given out that has stayed since |
| Nss.StaleCacheAfterDeparture | crates/pact-nss/src/lib.rs:84-90 | for every table: once another organisation takes over an index, its first user gets the UID of the departed first user, and the cache still names the latter |
| Drift.DriftEvaluator.Blacklisted | crates/pact-agent/src/drift/mod.rs:62-69 | the first pattern that matches or panics decides |
| Drift.DriftEvaluator.ProcessEvent | crates/pact-agent/src/drift/mod.rs:26-44 | adds one to the dimension of a known category unless blacklisted; does not return exactly when a pattern panics |
| Drift.DriftEvaluator.Reset | crates/pact-agent/src/drift/mod.rs:57-59 | no drift is left |
| Drift.SingleStarExactly | crates/pact-agent/src/drift/mod.rs:78-91 | a single-star pattern panics if and only if the path is the prefix or goes on with a character beyond 127, and its answer is "direct child" unless it goes on with something other than a slash |
| Drift.SingleStarSurprises | crates/pact-agent/src/drift/mod.rs:86-88 | the directory itself panics, and a sibling is taken for a child |
| Drift.DoubleStarExactly | crates/pact-agent/src/drift/mod.rs:79-81 | a double-star pattern never panics, and matches the prefix and all below it if and only if the path does not go on with something other than a slash |
| Drift.DoubleStarSurprise | crates/pact-agent/src/drift/mod.rs:79-81 | a sibling is taken for a descendant |
| Drift.PlainPattern | crates/pact-agent/src/drift/mod.rs:90 | a pattern that does not end in a star stands for itself |
| Drift.BlacklistedIs | crates/pact-agent/src/drift/mod.rs:62-69 | the first pattern whose match is not a plain no decides, and the path is free if there is none |
| Drift.CategoryCounts | crates/pact-agent/src/drift/mod.rs:32-41 | which of the seven fields an event adds one to, told by its category, and that no other field changes |
| Drift.DriftIsACount | crates/pact-agent/src/drift/mod.rs:26-44 | each dimension is the number of its events that are not blacklisted |
| Drift.DriftDependsOnMultiset | crates/pact-agent/src/drift/mod.rs:26-44 | the drift depends only on the multiset of counted events |
| Drift.MagnitudeSquaredIs | crates/pact-common/src/types.rs:143-152 | the sum of the squared drifts, each with the weight of its own category |
| Drift.MagnitudeMonotone | crates/pact-common/src/types.rs:143-152 | with non-negative weights more drift in every dimension is a larger magnitude |
| Drift.WindowBounds | crates/pact-agent/src/commit/mod.rs:52-57 | the window w lies between 60 seconds and the larger of 60 and the base, and above 60 it is the base divided by one plus the weighted drift: w·(1 + m·s) ≤ base < (w + 1)·(1 + m·s) |
| Drift.WindowExactly | crates/pact-agent/src/commit/mod.rs:52-57 | the window for all inputs, characterised by inequalities, with the clamp at 60, the saturation at 2^32 - 1 and the zero and negative denominators |
| Drift.NeverLengthensIff | crates/pact-agent/src/commit/mod.rs:52-57 | more drift never lengthens the window if and only if the sensitivity is not negative or the base is 0 or 2^32 - 1 |
| Drift.MoreDriftNoMoreTime | crates/pact-agent/src/commit/mod.rs:52-57 | from events to window: more events never buy more time |
| CommitWindow.CommitWindowManager.UpdateConfig | crates/pact-agent/src/commit/mod.rs:38-47 | new parameters, and the open window is untouched |
| CommitWindow.CommitWindowManager.OpenFor | crates/pact-agent/src/commit/mod.rs:61-78 | opens, or moves the deadline of the open window and keeps its opening time |
| CommitWindow.CommitWindowManager.CheckExpired | crates/pact-agent/src/commit/mod.rs:81-95 | expires an open window at its deadline unless flagged; reports an expired one again |
| CommitWindow.CommitWindowManager.RollbackWithCheck | crates/pact-agent/src/commit/mod.rs:111-117 | closes the window if and only if there are no active consumers |
| CommitWindow.CommitWindowManager.Extend | crates/pact-agent/src/commit/mod.rs:120-127 | moves the deadline of an open window only |
| CommitWindow.CommitWindowManager.EnterEmergency | crates/pact-agent/src/commit/mod.rs:130-140 | sets the flag, and restarts an open window with the emergency duration |
| CommitWindow.EmergencyManager.Start | crates/pact-agent/src/emergency/mod.rs:40-53 | succeeds if and only if no emergency is active |
| CommitWindow.EmergencyManager.End | crates/pact-agent/src/emergency/mod.rs:56-70 | succeeds if and only if one is active and the caller started it or forces |
| CommitWindow.EmergencyManager.IsStale | crates/pact-agent/src/emergency/mod.rs:77-83 | an emergency is stale if and only if it is active and past its expiry |
| AutoRollback.TimerLook | crates/pact-agent/src/boot/mod.rs:305-312 | the first half of a pass: it goes on if and only if it sees neither observe mode nor an emergency |
| AutoRollback.TimerAct | crates/pact-agent/src/boot/mod.rs:313-320 | the second half, under the window's lock: expires and closes a due window, changes nothing but the window's state, and does not look at the emergency again |
| AutoRollback.WindowOkRun | crates/pact-agent/src/commit/mod.rs:61-140 | in every reachable state the window opened in the past and not after its deadline |
| AutoRollback.DeadlineHasSetter | crates/pact-agent/src/commit/mod.rs:61-140 | every deadline in force was granted by an open, extend or emergency since which nothing moved it or closed the window |
| AutoRollback.OpenTakesEffect | crates/pact-agent/src/commit/mod.rs:61-78 | over every run an open puts a deadline in force that the window formula grants, and keeps the opening time of an open window |
| AutoRollback.ExtendTakesEffect | crates/pact-agent/src/commit/mod.rs:120-127 | over every run an extension by n moves the deadline of an open window from d to d + n and changes nothing else |
| AutoRollback.EmergencyFlagTakesEffect | crates/pact-agent/src/commit/mod.rs:130-145 | entering sets the flag and starts an open window afresh with the emergency duration; leaving clears the flag |
| AutoRollback.ClosingTakesEffect | crates/pact-agent/src/commit/mod.rs:81-117 | a check expires an unflagged open window at its deadline; a commit or rollback closes the window and keeps flag and configuration; a rollback with consumers does nothing |
| AutoRollback.EmergencyTakesEffect | crates/pact-agent/src/emergency/mod.rs:40-53 | an emergency starts with its expiry fixed then, and is stale if and only if that time has come |
| AutoRollback.EndTakesEffect | crates/pact-agent/src/emergency/mod.rs:56-70 | an emergency in force is ended by its initiator or by force, and by nobody else |
| AutoRollback.LookTakesEffect | crates/pact-agent/src/boot/mod.rs:305-312 | a look lets the pass go on if and only if there is neither observe mode nor an emergency |
| AutoRollback.ActClosesIff | crates/pact-agent/src/boot/mod.rs:313-320 | exactly when the second half of a pass closes a window, whatever the emergency is by then; otherwise the window is untouched |
| AutoRollback.ClosesInEmergencyIff | crates/pact-agent/src/boot/mod.rs:310-320 | over every run a pass closes a window during an emergency if and only if the window is due and that emergency started between the look and the act of this pass |
| AutoRollback.EmergencyInTheGap | crates/pact-agent/src/boot/mod.rs:310-313 | from every state in which a pass can begin and the window is due, a look, the start of an emergency and an act end with the window closed and the emergency active |
| AutoRollback.RolledBackInEmergency | crates/pact-agent/src/boot/mod.rs:310-313 | such a run from the start, for every configuration |
| AutoRollback.AutoRollbackSafe | crates/pact-agent/src/boot/mod.rs:297-322 | over every run the timer closes a window only at or after a deadline so granted, never in observe mode, never an open window under its own flag, only in a pass that saw no emergency, and during an emergency if and only if it started since that look |
| AutoRollback.ActProgress | crates/pact-agent/src/boot/mod.rs:313-320 | after a pass has acted nothing is expired, and an unflagged open window has its deadline ahead |
| AutoRollback.UntouchedWindowCloses | crates/pact-agent/src/boot/mod.rs:302-321 | over runs: a window nobody touches is closed no later than by the first pass that acts at or after its deadline |
| AutoRollback.FlagKeepsOpenWindow | crates/pact-agent/src/commit/mod.rs:84-88 | over every run, as long as the flag is set a window that has not expired does not expire |
| AutoRollback.FlaggedExpiredIsOlder | crates/pact-agent/src/commit/mod.rs:130-140 | over every run, a flagged window that is expired was so, unchanged, before the emergency entry that set the flag |
| AutoRollback.FlagDoesNotProtectExpired | crates/pact-agent/src/commit/mod.rs:130-140 | a run in which the timer rolls back a flagged window that had expired before |
| AutoRollback.EmergencyEndsOnlyBy | crates/pact-agent/src/emergency/mod.rs:56-70 | over runs an emergency ends only by its initiator or by force |
| Mounts.MountRefManager.Acquire | crates/pact-agent/src/handoff/mounts.rs:55-93 | mounts or adds a reference, stops the hold timer, and returns the mount point |
| Mounts.MountRefManager.Release | crates/pact-agent/src/handoff/mounts.rs:98-117 | drops a reference and starts the hold timer at zero; unknown images are ignored |
| Mounts.MountRefManager.ForceUnmount | crates/pact-agent/src/handoff/mounts.rs:120-129 | forgets the image and no other |
| Mounts.MountRefManager.CheckExpiredHolds | crates/pact-agent/src/handoff/mounts.rs:134-159 | removes exactly the mounts whose hold has run out and reports each once |
| Mounts.MountRefManager.Reconstruct | crates/pact-agent/src/handoff/mounts.rs:165-184 | rebuilds the listed images in order, over what is there |
| Mounts.MountPointOfImage | crates/pact-agent/src/handoff/mounts.rs:66-76 | an image in any directory or none is mounted under its file name without the extension, if and only if the rest of the name does not contain the extension too |
| Mounts.StripSqfsSplits | crates/pact-agent/src/handoff/mounts.rs:70 | an extension anywhere in the name is removed, and what precedes and follows it is treated apart |
| MountRuns.RefcountExactly | crates/pact-agent/src/handoff/mounts.rs:55-159 | over every run a count is its current users less the releases absorbed from users of an earlier mount, and the hold timer runs exactly at zero |
| MountRuns.CountsAccurate | crates/pact-agent/src/handoff/mounts.rs:55-159 | without forced unmounts counts are the users, and no release of a user panics |
| MountRuns.ForceIsSafeIff | crates/pact-agent/src/handoff/mounts.rs:120-129 | in every state, after a forced unmount all counts stay right in every continuation if and only if nobody uses the image, no earlier forced unmount left a claim behind, and no other mount absorbed a release |
| MountRuns.StaysRightIff | crates/pact-agent/src/handoff/mounts.rs:55-159 | in every state, all counts stay right in every continuation without force if and only if no claim is stale and no release was absorbed |
| MountRuns.ForceIsSafeWhenClean | crates/pact-agent/src/handoff/mounts.rs:120-129 | where no earlier force did harm, a forced unmount is safe if and only if the image is not mounted or its count is zero |
| MountRuns.UnmountOnlyAfterHold | crates/pact-agent/src/handoff/mounts.rs:134-159 | a check unmounts only after the image stood unused for the hold time, counted from its last release |
| MountRuns.CheckRemovesIff | crates/pact-agent/src/handoff/mounts.rs:134-159 | over every run a check takes away exactly the mounts at count zero whose timer has run for the hold time, and changes no other |
| MountRuns.SharedPlaceIff | crates/pact-agent/src/handoff/mounts.rs:66-76 | over every run two standing mounts have one mount point if and only if their file names agree once every ".sqfs" in them is removed |
| MountRuns.SharedPlacePlain | crates/pact-agent/src/handoff/mounts.rs:66-76 | for names that contain the extension only at their end: one mount point if and only if the names agree |
| MountRuns.SameNameSamePlace | crates/pact-agent/src/handoff/mounts.rs:66-76 | a run in which images of one name in two directories stand at one place, each counted once |
| MountRestart.ReconstructIs | crates/pact-agent/src/handoff/mounts.rs:165-184 | from a snapshot in any order: the same images and counts, with a timer exactly on those at zero |
| MountRestart.RestartIsSafe | crates/pact-agent/src/handoff/mounts.rs:98-184 | on every future the running manager survives, the rebuilt one survives too if and only if each release is of an image the first still has mounted or the second no longer has; then it has the same count for all that is still mounted and keeps longer only what is unused |
| MountRestart.RestartPanics | crates/pact-agent/src/handoff/mounts.rs:98-117 | for every manager: an unused image rebuilt during its hold, a check that ends the first hold and a further release, on which only the rebuilt manager panics |
| MountRestart.RestartAfterAnyRun | crates/pact-agent/src/handoff/mounts.rs:55-184 | the same for every manager reachable by any run, forced unmounts included |
| MountRestart.RestartWithoutForce | crates/pact-agent/src/handoff/mounts.rs:55-184 | without forced unmounts, whatever the allocations do after the restart, the rebuilt manager never panics and counts exactly the users of every image in use |
| Conflicts.ConflictManager.RegisterConflicts | crates/pact-agent/src/conflict/mod.rs:72-81 | every entry becomes the pending conflict of its key, and its key is paused once |
| Conflicts.ConflictManager.Resolve | crates/pact-agent/src/conflict/mod.rs:100-116 | the state and answer of a decision, or of one of the two errors |
| Conflicts.ConflictManager.CheckGracePeriods | crates/pact-agent/src/conflict/mod.rs:121-139 | settles and un-pauses exactly the pending keys whose detection time plus the grace period has come, and reports each once |
| Conflicts.ConflictManager.ClearResolved | crates/pact-agent/src/conflict/mod.rs:157-159 | drops what is settled, and the pause list stays |
| Conflicts.PausedArePending | crates/pact-agent/src/conflict/mod.rs:72-159 | in every reachable state the pause list is duplicate-free and lists exactly the pending keys |
| Conflicts.OneOutcome | crates/pact-agent/src/conflict/mod.rs:100-139 | between two registrations of a key its outcome, once settled, is never changed |
| Conflicts.OutcomeLoggedUnless | crates/pact-agent/src/conflict/mod.rs:157-170 | an outcome leaves the log by a clearing or a new registration of its key and by nothing else |
| Conflicts.ResolveSettlesIff | crates/pact-agent/src/conflict/mod.rs:100-116 | a decision takes effect if and only if the key is paused, is then logged and un-paused, and touches no other key |
| Conflicts.RegisterKeepsLast | crates/pact-agent/src/conflict/mod.rs:72-81 | of several entries for a key the last one is kept, pending, and keys paused before keep their places |
| Conflicts.ClearDropsSettled | crates/pact-agent/src/conflict/mod.rs:157-159 | a clearing drops exactly what is not pending and leaves the pause list alone |
| Conflicts.AllResolvedIff | crates/pact-agent/src/conflict/mod.rs:142-144 | in every reachable state all conflicts are resolved if and only if nothing is paused |
| Conflicts.CheckSettlesOverdue | crates/pact-agent/src/conflict/mod.rs:121-139 | a check settles a key in the journal's favour and un-pauses it if and only if it is pending and now is at least its detection time plus the grace period; it touches nothing else |
| Conflicts.SettledByFirstCheckAfterGrace | crates/pact-agent/src/conflict/mod.rs:121-139 | over every run a conflict nobody decides is settled by a check only at or after its detection time plus the grace period, and by the first check from then on |
| Conflicts.GraceRunsOut | crates/pact-agent/src/conflict/mod.rs:121-144 | once a check comes at or after the detection time plus the grace period of every pending key, nothing is pending or paused until the next registration |
| EntryCodec.DeltaRoundTrip | crates/pact-journal/src/service.rs:244-490 | to protobuf and back keeps number, order and action of the items in all seven categories, files, services and kernel settings whole, and normalises the rest |
| EntryCodec.ActionCodes | crates/pact-journal/src/service.rs:249-256 | the codes of the actions, and that any other code reads as a modification |
| EntryCodec.DeltaOnTheWire | crates/pact-journal/src/service.rs:404-490 | which field of an item is written where, category by category |
| EntryCodec.DeltaOffTheWire | crates/pact-journal/src/service.rs:244-330 | which field of an item is read from where, mount specs as text |
| EntryCodec.NormaliseIdempotent | crates/pact-journal/src/service.rs:244-330 | a second trip changes nothing more |
| EntryCodec.DeltaSurvivesIff | crates/pact-journal/src/service.rs:404-490 | a delta comes back unchanged if and only if it uses none of the dropped fields and its GPU keys are canonical 32-bit numbers |
| EntryCodec.EntrySurvivesIff | crates/pact-journal/src/service.rs:189-241 | a re-submitted entry is accepted if and only if its type is one of thirteen, and unchanged if and only if moreover its delta is portable and its policy reference not empty |
| EntryCodec.TypeCodes | crates/pact-journal/src/service.rs:336-358 | the codes of the 21 entry types |
| EntryCodec.ReadableCodes | crates/pact-journal/src/service.rs:202-217 | codes 1 to 13 are read, each as the type it is written for |
| EntryCodec.PrincipalNames | crates/pact-journal/src/service.rs:221-225 | the names of the principal types, and that all others read as a person |
| EntryCodec.SubmissionIs | crates/pact-journal/src/service.rs:189-241 | when a submission is refused, for which of two reasons, and every field of an accepted one, the TTL modulo 2^32 |
| EntryCodec.EntryOnTheWire | crates/pact-journal/src/service.rs:333-401 | every field of an entry on the wire |
| EntryCodec.DeclaredMountReachesAgent | crates/pact-journal/src/service.rs:258-270 | a declared mount is read back by the agent if and only if its spec is faithful |
| MountValue.RoundTripIff | crates/pact-agent/src/boot/mod.rs:592-609 | the agent's parser inverts the journal's format if and only if the parts are trimmed, the type has no colon, type and source have no opening parenthesis, and the options do not end in a closing one |
| MountValue.ParseShape | crates/pact-agent/src/boot/mod.rs:592-609 | whatever is parsed, the parts are trimmed and free of their separators |
| MountValue.WithoutOptions | crates/pact-agent/src/boot/mod.rs:592-609 | a value without a parenthesis is split at its first colon, and is all type without one |
| MountValue.WithOptions | crates/pact-agent/src/boot/mod.rs:592-609 | what follows the first opening parenthesis, less closing ones at its end, are the options |
| CpuList.ParseCpuList | crates/pact-agent/src/capability/memory.rs:223-244 | the CPUs of the comma-separated parts in order, malformed parts counting for nothing, and the outer trimming making no difference |
| CpuList.CommaConcatenates | crates/pact-agent/src/capability/memory.rs:223-244 | for all strings, joining with a comma concatenates the results |
| CpuList.PrintThenParse | crates/pact-agent/src/capability/memory.rs:223-244 | any list of 32-bit singletons and ranges, printed and parsed, yields its expansion in order |
| CpuList.SpanIs | crates/pact-agent/src/capability/memory.rs:231-236 | a range stands for exactly the numbers between its ends, in order, and a reversed one for none |
| CpuList.PartWithoutDash | crates/pact-agent/src/capability/memory.rs:231-241 | a part without a dash stands for its number, or for nothing if it is none |
| CpuList.PartWithDash | crates/pact-agent/src/capability/memory.rs:235-238 | a part with a dash stands for the range between its trimmed ends, or for nothing if one of them is no number |
| CpuList.NewlineIgnored | crates/pact-agent/src/capability/memory.rs:224 | a newline at the end makes no difference |
| Text.ParseU32Exactly | crates/pact-agent/src/capability/memory.rs:236-239 | what parses as a 32-bit number: its decimal form, perhaps after a plus sign and zeros |
| Text.PrintNatIs | crates/pact-journal/src/service.rs:324 | the decimal form of a number: one digit below ten, and otherwise the tens followed by the ones |
| Text.SpacesAre | crates/pact-agent/src/capability/memory.rs:224-231 | the characters that trimming removes |

## Left out

- Raft consensus, leader forwarding and the other journal commands: the log is one node's append-only sequence, and replication is a step that appends without a broadcast.
- TLS, certificates, enrollment, tokens and the policy engines: opaque libraries and network clients.
- The command line, the MCP server, telemetry and configuration files: dispatch and formatting.
- Isolation, network set-up, process supervision, observers, shells and hardware detection: calls into the operating system.
- `handle_config_action`: what the agent does with a delivered update; its mount parsing is modelled.
- zstd and the JSON serializer: parameters of the boot stream, with decode after encode and a minimum length as stated assumptions; the checksum of the node delta is not modelled; an update carries its entry in place of the serialized bytes, and decoding failures in the agent are not modelled.
- `f64` rounding, infinities other than in the window formula, and the existence of square roots: levels and windows are reals, and a magnitude is any non-negative number with the right square.
- Overflow of 64-bit sequence numbers, 32-bit chunk counters, 32-bit reference counts and of dates: these are unbounded.
- Reconnect back-off, the reconnect hook for local changes and the attempt limit of the subscription: an agent may reconnect at any time.
- Subscription: a transition system on values; the locks, tasks and channels of the code are its atomic steps, so memory-level interleaving inside a step is not captured.
- Buckets, mounts, conflicts and UID entries inside their maps are values that are replaced, so aliasing of a map's elements is not captured.
- Mount and unmount system calls and their failures, log messages and group.db lookups.
- UidRuns.FederationInvariant: joins are assumed to use a name and index not in use and a block below 2^32, because the table itself does not check them; `UidCircle` drops the bound and says exactly when blocks that wrap around collide.
- EntryCodec: sub-second parts of timestamps, and the timestamp of a submitted entry, which the journal replaces by its own clock.
