# RouteGuard: a verified model

RouteGuard is a tunnel service. It routes application, address and domain traffic through, around or away from a
WireGuard tunnel. This project models the parts of it that compute: the domain-routing cache and everything fed from
it, the text and octet algorithms at its edges, and its streaming structures. The Dafny verifier checks the whole with
`dafny verify dfyconfig.toml`.

## What is modelled

* **Domain routing.** `DomainStoreSpec.dfy` says on values what the TTL cache promises: two indexes that are inverses,
  two caps, evictions, diffs, restarts. `DomainStore.dfy` is the class with its loops, proved against it.
  `DomainCache.dfy` is the engine's own cache and its copy of the store, `Routes.dfy` the route table and the routes of
  a session, `DomainRouting.dfy` the manager that keeps the four together, `DomainNames.dfy` the name patterns.
* **Rules and policy.** `Priority.dfy` (sorted rule lists), `Networks.dfy` (prefixes), `AppRules.dfy` (the greedy wildcard
  matcher and application rules) and `Policy.dfy` (IP rules, the routing decision, and the policy compiled from the same configuration).
* **Octets and text.** `Dns.dfy` (answer parser), `Base64.dfy` (key decoder), `InterfaceBuffer.dfy` (the native
  WireGuard configuration buffer and its statistics walk), `Lwo.dfy` (header obfuscation), `ConfLines.dfy` and
  `Conf.dfy` (rewriting `.conf` texts and reading them back). `Octets.dfy` and `Common.dfy` hold what they share.
* **Streams.** `Events.dfy` (event ring and paging), `Metrics.dfy` (minute rollup), `Recovery.dfy` (the transport
  recovery loop).

Objects that the program updates in place are classes here, and their methods are proved against functions or
relations on values; the properties are then lemmas about those. Time is a `now` parameter in seconds, the same clock
for every component. Where a hash map leaves an order open, the model does too: a set is walked by choosing any
element, or the order is a parameter and the theorem holds for all orders. A call into the operating system has an
arbitrary outcome; a ghost counter of refused calls lets contracts say what happens when none is refused. Printing and
parsing of addresses and networks are parameters, assumed to be inverse where a theorem says so.

## Where the code and its documentation differ

The model follows the code.

* `docs/LWO_TRANSPORT.md:98` announces a non-recoverable failure after three failures. The code already marks the
  third failed attempt as non-recoverable, and publishes a second failure, the give-up, at the next unhealthy tick.
* `docs/DOMAIN_ROUTING.md:64` calls the eviction LRU. The code evicts what expires first.
* A comment at `crates/routeguard-routing/src/domain_store.rs:202` describes a refresh batch, but the branch is reached
  only by an empty answer, the one input that breaks the store's invariant.
* The Windows epoch difference at `crates/routeguard-platform/src/wgnt/bindings.rs:210` is in nanoseconds but is
  subtracted from a count of 100-nanosecond units. `InterfaceBuffer.HandshakeTime` computes what the code computes, on
  64 bits with wrap-around, and `InterfaceBuffer.HandshakeTimeIff` says when that is the intended time.

Some promises hold only under a condition, which is proved to be exact: rewriting a `.conf` twice
(`Conf.RewritingTwiceIffStable`, and `Conf.UnstableGrows` for the rest), later agreement of cache and store
(`DomainCache.SyncAgreesIff`), fair paging under interleaved pushes (`Events.PagingIsFairIff`), coverage of Block
decisions and of split-include default decisions by the compiled policy (`Policy.BlockDecisionCoveredIff`,
`Policy.DefaultBypassCoveredIff`), the streaming rollup (`Metrics.RollupMatchesIff`), the reported handshake time
(`InterfaceBuffer.HandshakeTimeIff`), and the store's invariant after an answer (`DomainStoreSpec.ResolveKeepsInvIff`).
An answer without an interface keeps store and routes in agreement if it does not clash with the routes, and within the
caps, with no other domain listed empty, only then; once something is evicted only the first half is claimed
(`DomainRouting.DomainRoutingManager.OnDnsResponse`).

## Model

| member | source | states |
|---|---|---|
| `DomainStoreSpec.RunKeepsInv` | crates/routeguard-routing/src/domain_store.rs:91-351 | In every state of every run of rule changes, answers with at least one address, purges, prunes, clears and loads, the address index and the domain index are exact inverses without an empty domain, and both caps hold. |
| `DomainStoreSpec.StepKeepsInv` | crates/routeguard-routing/src/domain_store.rs:91-351 | Each single operation keeps that invariant. |
| `DomainStoreSpec.ResolveKeepsInvIff` | crates/routeguard-routing/src/domain_store.rs:201-204 | An answer breaks the invariant exactly when it is empty and its domain is not held: only then a domain is listed without an address. |
| `DomainStoreSpec.AgreeMeansIndex` | crates/routeguard-routing/src/domain_store.rs:53-60 | Two indexes that list the same entries, with no empty domain, are the address index and its one inverse. |
| `DomainStoreSpec.UncappedAnswerIsExact` | crates/routeguard-routing/src/domain_store.rs:168-199 | When no prefix of an answer exceeds a cap, the entries after every address of it are the old ones without the withdrawn addresses, overlaid by the answer so far, whatever the eviction loops could choose. |
| `DomainStoreSpec.LatestAnswerReplaces` | crates/routeguard-routing/src/domain_store.rs:145-199 | The newest answer replaces the old one: the domain holds exactly the answered addresses, each with its last occurrence; other domains lose only addresses shared with it; everything else is untouched. |
| `DomainStoreSpec.RoomMeansNeverOverCaps` | crates/routeguard-routing/src/domain_store.rs:282-323 | Room for the held and answered addresses together, and for one more domain, rules out any eviction during an answer. |
| `DomainStoreSpec.RefreshOfOverlay` | crates/routeguard-routing/src/domain_store.rs:174-187 | Whether an answered address counts as refreshed depends only on the state before the answer and on duplicates within it. |
| `DomainStoreSpec.WantedMeans` | crates/routeguard-routing/src/domain_store.rs:156-160 | Each answered address is asked for in order, under the normalised domain and the rule's pattern and target, to expire its TTL after now; that TTL is the answered one brought into the configured bounds, stated by inequalities. |
| `DomainStoreSpec.AnsweredUntil` | crates/routeguard-routing/src/domain_store.rs:156-199 | After an answer that meets no cap, each answered address is held for the rule's target until now plus the bounded TTL of its last occurrence. |
| `DomainStoreSpec.ReportedIff` | crates/routeguard-routing/src/domain_store.rs:174-199 | When no cap is met the added list has, in the order of the answer, exactly the first occurrences of addresses not held for the same domain, pattern and target; the refreshed list has all the others. |
| `DomainStoreSpec.TrackedNext` | crates/routeguard-routing/src/domain_store.rs:174-199 | One more answered address: what is held is either from the answer or unchanged, and an answered address not reported as added was already held for the same target. |
| `DomainStoreSpec.EvictionMeetsCaps` | crates/routeguard-routing/src/domain_store.rs:282-323 | Eviction ends within both caps and only removes entries. |
| `DomainStoreSpec.NothingEvictedWithinCaps` | crates/routeguard-routing/src/domain_store.rs:282-323 | Within both caps nothing is evicted. |
| `DomainStoreSpec.RestartKeepsUnexpired` | crates/routeguard-routing/src/domain_store.rs:325-356 | Persisting a store within its caps and loading it with the same configuration gives exactly the unexpired entries, their domain index and the generation, for any order of the persisted entries. |
| `DomainStoreSpec.InsertingPartOf` | crates/routeguard-routing/src/domain_store.rs:345-349 | Inserting entries of a store that respects its caps, in any order, evicts nothing. |
| `DomainStore.DomainRouteStore.constructor` | crates/routeguard-routing/src/domain_store.rs:70-75 | A new store is empty and satisfies the invariant. |
| `DomainStore.DomainRouteStore.BumpGeneration` | crates/routeguard-routing/src/domain_store.rs:87-89 | The generation advances by one and saturates at its 64-bit maximum. |
| `DomainStore.DomainRouteStore.SetRules` | crates/routeguard-routing/src/domain_store.rs:91-102 | Rules are stored stably sorted by priority and the generation advances; entries stay. |
| `DomainStore.DomainRouteStore.MatchDomain` | crates/routeguard-routing/src/domain_store.rs:108-114 | The rule found is the covering one of least priority, earliest in the configuration it was set from; none only if none covers. |
| `DomainStore.DomainRouteStore.LookupIp` | crates/routeguard-routing/src/domain_store.rs:116-122 | An address has the target of its unexpired entry and otherwise none. |
| `DomainStore.DomainRouteStore.EntryForIp` | crates/routeguard-routing/src/domain_store.rs:124-130 | The unexpired entry of an address, if any. |
| `DomainStore.DomainRouteStore.RemoveIp` | crates/routeguard-routing/src/domain_store.rs:224-233 | One address leaves both indexes, its domain too if it was the last one; the entry is returned. |
| `DomainStore.DomainRouteStore.PurgeExpired` | crates/routeguard-routing/src/domain_store.rs:235-247 | Exactly the entries that expire at or before now go, each reported once. |
| `DomainStore.DomainRouteStore.PruneUnmatchedRules` | crates/routeguard-routing/src/domain_store.rs:256-272 | Exactly the entries whose pattern and target belong to no rule go, each reported once. |
| `DomainStore.DomainRouteStore.Clear` | crates/routeguard-routing/src/domain_store.rs:249-253 | Both indexes become empty and the generation advances. |
| `DomainStore.DomainRouteStore.EnforceIpCap` | crates/routeguard-routing/src/domain_store.rs:283-294 | The loop ends with just enough entries gone, each expiring no later than every survivor. |
| `DomainStore.DomainRouteStore.EnforceDomainCap` | crates/routeguard-routing/src/domain_store.rs:296-322 | The loop ends with whole domains gone, just enough of them, each owning an entry that expires no later than every survivor; it gives up only when nothing is left to evict. |
| `DomainStore.DomainRouteStore.EnforceCaps` | crates/routeguard-routing/src/domain_store.rs:282-323 | Both evictions in turn. |
| `DomainStore.DomainRouteStore.InsertEntry` | crates/routeguard-routing/src/domain_store.rs:209-222 | The entry takes its address over from whichever domain had it, both indexes follow, then the caps are enforced. |
| `DomainStore.DomainRouteStore.ApplyOne` | crates/routeguard-routing/src/domain_store.rs:174-199 | One answered address: refreshed in place if domain, pattern and target are the same, else inserted. |
| `DomainStore.DomainRouteStore.ApplyEach` | crates/routeguard-routing/src/domain_store.rs:174-199 | The loop over an answer, with everything promised of state and diff after each address. |
| `DomainStore.DomainRouteStore.ApplyResolved` | crates/routeguard-routing/src/domain_store.rs:145-207 | The whole answer as a step of the store, and its diff: removed are exactly the withdrawn entries, added and refreshed together are the answer with duplicates, and when no cap is met state and both lists are exact. Whatever is evicted, an answered address still held has the rule's target and one of its answered TTLs, bounded; when no cap is met, looking an answered address up gives the rule's target exactly until now plus the bounded TTL of its last occurrence. |
| `DomainStore.DomainRouteStore.Entries` | crates/routeguard-routing/src/domain_store.rs:140-142 | Every entry once, in an order left open. |
| `DomainStore.DomainRouteStore.ToPersisted` | crates/routeguard-routing/src/domain_store.rs:325-331 | Version 1, the generation, and every entry once in an order left open. |
| `DomainStore.DomainRouteStore.LoadPersisted` | crates/routeguard-routing/src/domain_store.rs:333-351 | Any other version is refused; otherwise the unexpired entries are inserted one by one under the given configuration. |
| `DomainNames.MatchesByLabels` | crates/routeguard-routing/src/domain.rs:8-22 | Without the dots they end in and in either case of their letters: a pattern covers exactly the names that end with its labels, for `*.x` only with a non-empty name in front; the same characters without a label boundary do not match. |
| `DomainNames.NormalizeIff` | crates/routeguard-routing/src/domain.rs:20-22 | Two names are normalised to the same exactly if they are the same but for trailing dots and the case of letters; no capital is left. |
| `DomainCache.DomainCache.constructor` | crates/routeguard-routing/src/domain.rs:46-61 | The rules are stably sorted by priority; nothing is cached. |
| `DomainCache.DomainCache.MatchDomain` | crates/routeguard-routing/src/domain.rs:63-68 | The covering rule of least priority, earliest in the configuration the rules came from. |
| `DomainCache.DomainCache.OnResolved` | crates/routeguard-routing/src/domain.rs:70-86 | An answer covered by a rule replaces the host's cached one with a lifetime of at least 30 seconds; without a rule nothing changes. |
| `DomainCache.ResolvedLookup` | crates/routeguard-routing/src/domain.rs:70-137 | What every lookup gives after an answer: the rule's target for answered addresses while the answer or another name listing them lives; other addresses as far as other names list them. |
| `DomainCache.DomainCache.ClearResolved` | crates/routeguard-routing/src/domain.rs:88-91 | The cache forgets all addresses. |
| `DomainCache.DomainCache.InsertResolved` | crates/routeguard-routing/src/domain.rs:93-124 | An expired entry is ignored; another one joins its name, whose expiry and target it overwrites. |
| `DomainCache.DomainCache.LookupIp` | crates/routeguard-routing/src/domain.rs:126-137 | The indexed target, if some unexpired name lists the address. |
| `DomainCache.DomainCache.PurgeExpired` | crates/routeguard-routing/src/domain.rs:139-148 | Exactly the names that expire at or before now go, the others stay as they are, and the address index is rebuilt from them in iteration order. |
| `DomainCache.PurgeKeepsLookupsIff` | crates/routeguard-routing/src/domain.rs:139-148 | Purging changes no present or future lookup, whatever the iteration order, if and only if the address index holds every live name's target for its addresses. |
| `DomainCache.SyncedIsConsistent` | crates/routeguard-routing/src/domain.rs:88-148 | A cache copied from a store whose entries of one name share a target meets that condition. |
| `DomainCache.SyncDomainCache` | crates/routeguard-routing/src/domain_store.rs:359-367 | The cache becomes the copy of the live entries in the given order. |
| `DomainCache.SyncedIps` | crates/routeguard-routing/src/domain_store.rs:359-367 | For every order, the copy indexes exactly the live addresses with their targets, each listed under its own name. |
| `DomainCache.SyncedExpiry` | crates/routeguard-routing/src/domain_store.rs:359-367 | A copied name expires with the last of its entries in iteration order. |
| `DomainCache.CopyLookup` | crates/routeguard-routing/src/domain.rs:126-137 | The copy answers for an address until that last entry expires. |
| `DomainCache.SyncAgreesAtOnce` | crates/routeguard-routing/src/domain_store.rs:359-367 | At the instant of the copy the cache and the store give the same answer for every address, whatever the order. |
| `DomainCache.SyncAgreesIff` | crates/routeguard-routing/src/domain_store.rs:359-367 | Later, with the store unchanged, they agree for every order if and only if the entries filed under the address's name are on the same side of their expiry as the address's own. |
| `DomainCache.SyncAgreesOutsideExpiries` | crates/routeguard-routing/src/domain_store.rs:359-367 | They agree before the earliest and from the latest of those expiries on. |
| `Priority.SortedSearchIsLeast` | crates/routeguard-routing/src/ip.rs:20-39 | The first match in a list stably sorted by priority is the match of least priority, earliest in configuration order; searching it by minimum gives the same. |
| `Priority.SortedSearchIsMinByKey` | crates/routeguard-routing/src/domain.rs:59-68 | Sorting first and then taking the first match equals taking the first minimum of the unsorted list. |
| `Priority.MinByKeyIsLeast` | crates/routeguard-routing/src/domain.rs:63-68 | The minimum by priority is the least matching element, earliest among equals. |
| `Priority.SortIsSorted` | crates/routeguard-routing/src/ip.rs:33 | The stable sort is ordered by priority and has the same elements. |
| `AppRules.MatchesByParts` | crates/routeguard-routing/src/app.rs:76-102 | A text matches a wildcard pattern, by backtracking, exactly when the pattern's parts occur in it in order, the first at the start and the last at the end. |
| `AppRules.LeftmostSuffices` | crates/routeguard-routing/src/app.rs:95-96 | The exchange argument: if any occurrence of a part leads to a match, the leftmost one does, and conversely. |
| `AppRules.NormalizePathIff` | crates/routeguard-routing/src/app.rs:64-66 | Two paths are normalised to the same exactly if they are the same but for case and the kind of slash; wildcards stay. |
| `AppRules.AppliesIff` | crates/routeguard-routing/src/app.rs:64-74 | A rule applies to a path, case and the kind of slash aside, as a wildcard pattern if it has a `*`, and otherwise exactly if the path ends with it. |
| `AppRules.GlobMatch` | crates/routeguard-routing/src/app.rs:76-102 | With at least one `*` the leftmost-greedy matcher decides exactly the backtracking meaning, for every pattern and text, its cursor never passing the end; without one it would test for a prefix. |
| `AppRules.PathMatches` | crates/routeguard-routing/src/app.rs:68-74 | A rule with a `*` matches as the parts of a pattern do, any other exactly if the candidate ends with it. |
| `AppRules.FromRules` | crates/routeguard-routing/src/app.rs:20-36 | The rules of each mode, normalised and stably sorted. |
| `AppRules.FirstApplicable` | crates/routeguard-routing/src/app.rs:46-58 | The loop over a list returns its first matching entry. |
| `AppRules.MatchPath` | crates/routeguard-routing/src/app.rs:38-61 | Over the configuration: exclusions are considered in full-tunnel mode and inclusions in split-include mode, and the rule reported, with its mode and priority, is the applicable one of least priority, earliest in the configuration. |
| `Routes.RouteTable.AddRoute` | crates/routeguard-platform/src/routes.rs:260-273 | A fresh handle holds the network on success; it fails only when the operating system refuses, and then the table is unchanged. |
| `Routes.RouteTable.RemoveRoute` | crates/routeguard-platform/src/routes.rs:291-301 | The handle leaves the table even when the operating system refuses the deletion. |
| `Routes.SessionRoutes.PushWg` | crates/routeguard-platform/src/routes.rs:46-78 | A WireGuard route is owned exactly when the operating system did not refuse it, with the given network, interface and metric; other holders' routes never change. |
| `Routes.SessionRoutes.AddDefaultRoute` | crates/routeguard-platform/src/routes.rs:46-55 | The same with metric 100. |
| `Routes.SessionRoutes.AddBypass` | crates/routeguard-platform/src/routes.rs:57-66 | The same with metric 5. |
| `Routes.SessionRoutes.AddEndpointBypass` | crates/routeguard-platform/src/routes.rs:68-78 | The same for the endpoint's host network with metric 0. |
| `Routes.SessionRoutes.PushSplit` | crates/routeguard-platform/src/routes.rs:98-123 | One planned row is added and owned, unless its network does not parse or the call is refused. |
| `Routes.SessionRoutes.PushRows` | crates/routeguard-platform/src/routes.rs:98-123 | Rows are added in order up to the first failure. |
| `Routes.SessionRoutes.InstallSplitRoutes` | crates/routeguard-platform/src/routes.rs:80-126 | Whatever fails on the way, the owned split routes are a prefix of the plan (networks, interfaces, metrics), complete on success; it fails exactly when a call is refused or a planned network does not parse; nothing else in the table changes, and handles are lost only if deleting an old split route was refused: exactly those after it. |
| `Routes.PlanDivides` | crates/routeguard-platform/src/routes.rs:80-126 | What the planned routes do, by longest prefix and then smallest metric: every address has a route to follow, on the tunnel exactly if some tunnel host contains it more closely than the default routes and every bypass network do, and otherwise on the physical interface. |
| `Routes.SessionRoutes.RemoveDomainRoute` | crates/routeguard-platform/src/routes.rs:169-174 | The address's route is forgotten and its handle gone from the table. |
| `Routes.SessionRoutes.InstallDomainRoute` | crates/routeguard-platform/src/routes.rs:129-167 | It fails exactly when a call is refused. On success the address is routed exactly if the target is not Block, for that target and at least that long; a new route is the host route until the given time, on the physical interface with metric 1 for Bypass and on the tunnel with metric 100 for Tunnel; live routes of other addresses stay on theirs; on failure the address has no route. |
| `Routes.SessionRoutes.RemoveDomainRoutes` | crates/routeguard-platform/src/routes.rs:190-201 | Removal in any order up to the first refused deletion. |
| `Routes.SessionRoutes.PurgeExpiredDomainRoutes` | crates/routeguard-platform/src/routes.rs:176-194 | Only expired routes go, all of them unless a deletion is refused. |
| `Routes.SessionRoutes.ClearDomainRoutes` | crates/routeguard-platform/src/routes.rs:196-202 | All domain routes go unless a deletion is refused; the others stay as they were. |
| `Routes.SessionRoutes.ClearSplit` | crates/routeguard-platform/src/routes.rs:208-213 | The list is emptied whatever happens; after a refused deletion exactly the later handles stay live without an owner. |
| `Routes.SessionRoutes.DeleteAll` | crates/routeguard-platform/src/routes.rs:208-223 | Deletion in order up to and including the first refused one. |
| `Routes.SessionRoutes.Clear` | crates/routeguard-platform/src/routes.rs:215-223 | If no deletion is refused, exactly the session's own handles leave the table. A refused domain deletion leaves everything else owned; a refused split or WireGuard deletion leaves exactly the later handles of that list unowned; routes only go. |
| `Routes.SessionRoutes.ClearWg` | crates/routeguard-platform/src/routes.rs:218-220 | The last loop of the session's end: the list is emptied, and after a refused deletion exactly the later handles stay live without an owner. |
| `Routes.LoseSplit` | crates/routeguard-platform/src/routes.rs:208-213 | Deleting the first k split handles and dropping the list leaves exactly the later ones unowned. |
| `Routes.OthersKeepHolds` | crates/routeguard-platform/src/routes.rs:46-223 | What one session does to the table, handles it loses included, leaves every other session with exactly the routes it had: distinct, live, host networks, and shared with nobody. |
| `Routes.StepKeepsPartition` | crates/routeguard-platform/src/routes.rs:46-223 | One session's change keeps the live handles partitioned among the sessions and the handles lost so far. |
| `Routes.Act` | crates/routeguard-platform/src/routes.rs:46-223 | Any one action of a session: a refused split or WireGuard deletion leaves exactly the later handles of its list unowned, and no other outcome loses a handle. |
| `Routes.TakeTurn` | crates/routeguard-platform/src/routes.rs:46-223 | One such action among several sessions on one table keeps all of them valid and the live handles partitioned. |
| `Routes.RunSessions` | crates/routeguard-platform/src/routes.rs:46-223 | Several sessions on one table, acting in any order, with additions refused and networks that do not parse: every session stays valid and every live handle has exactly one owner or is lost; nothing is lost as long as no split or WireGuard deletion is refused. |
| `DomainRouting.Run` | crates/routeguard-service/src/domain_routing.rs:96-303 | In every run of answers, purges, clears, rebuilds and reinstalls no Block route exists and nobody else's routes change, under eviction, failed calls and a busy engine; every route is one from the start or is on the interface and has the metric that the policy of some event gives its target; and an address both held and routed has one target unless an answer without an interface clashed with the routes since the last clear or reinstall. With an interface no answer clashes. |
| `DomainRouting.Handle` | crates/routeguard-service/src/domain_routing.rs:96-303 | One such event: whether it was a clashing answer, which only an answer without an interface can be; agreement is kept unless it was, and a clear, or a reinstall with an interface, brings it about whatever was before; every route is one from before or is placed as the event's policy says. |
| `DomainRouting.DomainRoutingManager.constructor` | crates/routeguard-service/src/domain_routing.rs:40-57 | The manager starts from a loadable persisted cache, and tells the engine, or from an empty store. |
| `DomainRouting.DomainRoutingManager.SyncEngine` | crates/routeguard-service/src/domain_routing.rs:107-109 | If the engine is free, its lookups equal the store's for every address. |
| `DomainRouting.DomainRoutingManager.RebuildRules` | crates/routeguard-service/src/domain_routing.rs:96-105 | The rules are replaced, the entries they no longer explain pruned, the engine told. |
| `DomainRouting.DomainRoutingManager.InstallAll` | crates/routeguard-service/src/domain_routing.rs:139-152 | Afterwards an address of the list has no route or one for its entry's target; every route that is new or changed has the target and expiry of an entry for its address, on the physical interface with metric 1 for Bypass and on the tunnel with metric 100 for Tunnel; other routes keep handle, interface and metric; when no call was refused every address of the list is routed unless its last entry blocks. |
| `DomainRouting.DomainRoutingManager.RemoveAll` | crates/routeguard-service/src/domain_routing.rs:153-156 | The listed addresses have no route any more; other routes are unchanged. |
| `DomainRouting.DomainRoutingManager.OnDnsResponse` | crates/routeguard-service/src/domain_routing.rs:111-176 | An answer matching a rule is applied under the least rule covering the domain; every route that is new or changed is for an answered address, the rule's target and one of its answered TTLs, bounded, on the policy's interface and with the metric for that target; store and routes stay in agreement unless the answer comes without an interface and an answered address is routed to another target, and within the caps, with no other domain listed empty, such an answer always breaks the agreement; with an interface withdrawn addresses lose their routes, and, when no call was refused, answered addresses not held before for the target are routed unless it blocks; without an interface the routes stay. |
| `DomainRouting.DomainRoutingManager.PurgeExpired` | crates/routeguard-service/src/domain_routing.rs:178-198 | The expired entries go from the store and their routes with them; no route is added; if nothing expired, expired routes go, all of them when no call was refused; the engine is told if anything expired. |
| `DomainRouting.DomainRoutingManager.Clear` | crates/routeguard-service/src/domain_routing.rs:200-208 | The store is empty, the engine finds nothing, no route is added, and none is left when no call was refused. |
| `DomainRouting.DomainRoutingManager.ReinstallRoutesFromCache` | crates/routeguard-service/src/domain_routing.rs:278-303 | With an interface, each held address ends with no route or one for its entry's target; every route that is new or changed has the target and expiry of the entry held for its address, on the policy's interface and with the metric for that target; other routes, and all without an interface, stay; store and routes agree afterwards whether or not they did before; when no call was refused every held address is routed unless it blocks. |
| `DomainRouting.AnswerKeepsAgreement` | crates/routeguard-service/src/domain_routing.rs:134-157 | An answer applied to the store, and its added entries to the routes, keep both in agreement even when entries were evicted on the way. |
| `DomainRouting.WithoutInterfaceAgreesIff` | crates/routeguard-service/src/domain_routing.rs:136-139 | The newest answer replacing the old one agrees with unchanged routes exactly when every answered address that is routed already has the rule's target. |
| `DomainRouting.UntouchedKeepsAgreement` | crates/routeguard-service/src/domain_routing.rs:134-139 | Routes that stay as they are remain in agreement after an answer that does not clash with them, evictions or not. |
| `DomainRouting.ClashBreaksAgreement` | crates/routeguard-service/src/domain_routing.rs:134-139 | Within the caps, with no other domain listed empty, they remain in agreement only then. |
| `DomainRouting.AnsweredAreRouted` | crates/routeguard-service/src/domain_routing.rs:134-157 | When no call was refused, the added entries route every answered address that was not held before for the rule's target, unless it blocks, and removing the withdrawn ones takes none of them back. |
| `DomainRouting.WithdrawnAreRemoved` | crates/routeguard-routing/src/domain_store.rs:168-172 | Every address of the domain that the answer leaves out is among the removed entries. |
| `DomainRouting.InstalledServesAnswer` | crates/routeguard-service/src/domain_routing.rs:143-156 | Installing the added entries and removing the withdrawn ones leaves every route as it was or serving the answer: target, bounded TTL, interface and metric. |
| `DomainRouting.HasInterfaceIff` | crates/routeguard-service/src/domain_routing.rs:136-139 | A policy has an interface exactly if one of its two indexes is given and not zero. |
| `Dns.ResponseIsRead` | crates/routeguard-platform/src/dns.rs:218-300 | For every query and every response that repeats its question (sections 4.1.1 to 4.1.4 of RFC 1035, section 2.2 of RFC 3596; plain or compressed names, trailing octets), the records returned are, in order of position, exactly those of the answers of type 1 with four octets and of type 28 with sixteen, each with its IPv4 or IPv6 address and its TTL brought into the bounds, under the queried name; none if there are none or the name is the root. |
| `Dns.ParseDnsResponse` | crates/routeguard-platform/src/dns.rs:218-300 | On arbitrary octets the parser terminates with every read in bounds and returns what the functional parse gives: nothing for a message without a whole header or a query without a question, and never an empty list. |
| `Dns.ParseAnswers` | crates/routeguard-platform/src/dns.rs:246-293 | The loop over the answers, stopping at a truncated one. |
| `Dns.ReadRecord` | crates/routeguard-platform/src/dns.rs:264-290 | One answer contributes one record exactly if it is of type 1 with four octets or of type 28 with sixteen: that address, with the TTL brought into the bounds; anything else, a CNAME included, contributes nothing. |
| `Dns.ParseCnameChain` | crates/routeguard-platform/src/dns.rs:302-311 | The CNAME chase yields no records. |
| `Dns.ParseQname` | crates/routeguard-platform/src/dns.rs:313-335 | The labels up to the root or a pointer, joined by dots; none for the root or a label running past the end. |
| `Dns.SkipQname` | crates/routeguard-platform/src/dns.rs:337-353 | Where a name ends and whether it ends in a pointer, for arbitrary octets. |
| `Dns.SkipsName` | crates/routeguard-platform/src/dns.rs:337-353 | Every encoded name is skipped exactly, with or without a pointer. |
| `Dns.ReadsLabels` | crates/routeguard-platform/src/dns.rs:313-335 | Every uncompressed encoded name is read back label by label. |
| `Dns.ReadsRrs` | crates/routeguard-platform/src/dns.rs:246-293 | Every encoded list of resource records is read back in order, and then whatever follows it. |
| `Dns.RecordsAre` | crates/routeguard-platform/src/dns.rs:264-290 | What a list of resource records reports: increasing positions, exactly those of A records of four octets and AAAA records of sixteen, each with its address and bounded TTL. |
| `Dns.CutIsRead` | crates/routeguard-platform/src/dns.rs:246-263 | A message that ends inside a record gives exactly the records before it, however many it announces. |
| `Dns.NamelessIsRead` | crates/routeguard-platform/src/dns.rs:247-259 | Where a record's name runs past the end of the message, the record is read from where the name would start. |
| `Dns.NetworkOrder` | crates/routeguard-platform/src/dns.rs:244-258 | Numbers of two and four octets are read with the high octet first. |
| `Dns.JoinIs` | crates/routeguard-platform/src/dns.rs:330-335 | A name is its labels with full stops between them. |
| `Dns.QueryIsRead` | crates/routeguard-platform/src/dns.rs:222-238 | Every encoded question gives its name and its end. |
| `Base64.DecodeB64` | crates/routeguard-platform/src/wgnt/config.rs:283-307 | The decoder fails exactly on a symbol outside the table before the first padding; otherwise n symbols give floor(6n/8) octets whose bits are the symbols' bits in order. |
| `Base64.TakeSymbol` | crates/routeguard-platform/src/wgnt/config.rs:298-304 | One symbol: the shift stays within 32 bits and the cast octet within 8, so no bit is lost. |
| `Base64.EncodeThenDecode` | crates/routeguard-platform/src/wgnt/config.rs:283-307 | For octet strings of every length, the standard encoding (section 4 of RFC 4648) decodes to the string and to nothing else. |
| `Base64.EncodeDecode` | crates/routeguard-platform/src/wgnt/config.rs:283-307 | Decoding an encoding returns the string. |
| `Base64.DecodeKey` | crates/routeguard-platform/src/wgnt/config.rs:273-281 | A key is accepted exactly when its symbols are valid and give 32 octets. |
| `Base64.Alphabet` | crates/routeguard-platform/src/wgnt/config.rs:284 | The table is the standard alphabet: capitals, small letters and digits, each in order, then `+` and `/`. |
| `Base64.SpaceIsDropped` | crates/routeguard-platform/src/wgnt/config.rs:285 | White space anywhere changes nothing, and nothing else is dropped. |
| `Base64.EncodesExamples` | crates/routeguard-platform/src/wgnt/config.rs:283-307 | The encoding whose inverse the decoder is gives the RFC's examples for one, two and three octets. |
| `InterfaceBuffer.SerializeInterface` | crates/routeguard-platform/src/wgnt/config.rs:117-178 | Refused exactly without peers; otherwise every block is written once, in bounds, in order, ending at the computed size. |
| `InterfaceBuffer.WriteBlocks` | crates/routeguard-platform/src/wgnt/config.rs:158-174 | The writing loop: the buffer so far is the layout of the blocks so far. |
| `InterfaceBuffer.WriteBlock` | crates/routeguard-platform/src/wgnt/config.rs:160-173 | One peer block followed by its allowed addresses. |
| `InterfaceBuffer.SizeOf` | crates/routeguard-platform/src/wgnt/config.rs:128-131 | The computed size is the size of the layout. |
| `InterfaceBuffer.PeerToNative` | crates/routeguard-platform/src/wgnt/config.rs:180-222 | Each flag tells whether its field is meant, and a field that is meant holds the peer's value, the endpoint in its socket form; the counters are zero; there is one block per allowed address, in order, and their number, cut to 32 bits, stands in the peer block. |
| `InterfaceBuffer.PeerToNativeSame` | crates/routeguard-platform/src/wgnt/config.rs:180-222 | A peer can be told from its native blocks: two valid peers with the same blocks are the same. |
| `InterfaceBuffer.BufferLosesNothing` | crates/routeguard-platform/src/wgnt/config.rs:117-248 | Serialising loses nothing that is meant for the driver: two valid configurations whose counts fit in 32 bits and whose buffers are equal have the same private key, port and peers. |
| `InterfaceBuffer.InterfaceAt` | crates/routeguard-platform/src/wgnt/config.rs:133-150 | The interface block field by field at its offsets: flags, port, key, number of peers. |
| `InterfaceBuffer.PeerAt` | crates/routeguard-platform/src/wgnt/bindings.rs:121-133 | A peer block field by field at its offsets, little-endian. |
| `InterfaceBuffer.EndpointAt` | crates/routeguard-platform/src/wgnt/bindings.rs:172-204 | A socket address: family 2 or 23, the port in network order, the address and scope where the family has them. |
| `InterfaceBuffer.AllowedAt` | crates/routeguard-platform/src/wgnt/config.rs:224-248 | An allowed address: its octets in sixteen octets of room, family 2 or 23, prefix length. |
| `InterfaceBuffer.FlattenAt` | crates/routeguard-platform/src/wgnt/config.rs:166-172 | The allowed addresses of a peer stand in order, 24 octets each. |
| `InterfaceBuffer.BlockAt` | crates/routeguard-platform/src/wgnt/config.rs:158-174 | Each peer block starts after the ones before it, of 136 octets and 24 for every allowed address. |
| `InterfaceBuffer.ParseConfigBuffer` | crates/routeguard-platform/src/wgnt/statistics.rs:59-89 | On arbitrary octets the walk reads in bounds and returns the statistics at the offsets it visits. |
| `InterfaceBuffer.WalkSeesEveryPeer` | crates/routeguard-platform/src/wgnt/statistics.rs:59-89 | Over any buffer laid out like a serialised configuration, whatever counters it holds, the walk visits every peer at its own offset and returns its counters in order; the early exit is not taken. |
| `InterfaceBuffer.SerializedIsWalked` | crates/routeguard-platform/src/wgnt/statistics.rs:59-89 | So for every configuration whose counts fit in 32 bits, right after serialising. |
| `InterfaceBuffer.HandshakeTimeIff` | crates/routeguard-platform/src/wgnt/bindings.rs:206-213 | What the wrong unit of the epoch constant costs: every nonzero stamp up to the constant is reported as 1970, and a later one as its distance from the constant times 100, modulo 64 bits. If the intended time is counted from 1970 on, only the stamp of 1970 itself is reported as intended; if it is also cut off at 1970, exactly the stamps up to 1970 are. |
| `InterfaceBuffer.WalksLayout` | crates/routeguard-platform/src/wgnt/statistics.rs:70-79 | The visited offsets are the starts of the blocks. |
| `InterfaceBuffer.ReadsPeer` | crates/routeguard-platform/src/wgnt/statistics.rs:74-84 | Reading at a peer block gives its count and counters. |
| `Lwo.Obfuscate` | crates/routeguard-lwo/src/wire.rs:19-28 | The packet in place becomes its obfuscated form under the key and the drawn octet, which is below 255. |
| `Lwo.Deobfuscate` | crates/routeguard-lwo/src/wire.rs:30-37 | The packet in place becomes its deobfuscated form. |
| `Lwo.XorBytes` | crates/routeguard-lwo/src/wire.rs:50-54 | Exactly the header octets are xored with the repeated key. |
| `Lwo.RecognisedIff` | crates/routeguard-lwo/src/wire.rs:6-48 | A packet is recognised exactly if its type octet is 1, 2, 3 or 4 and it has at least 148, 92, 64 or 32 octets. |
| `Lwo.ObfuscationMarksHeader` | crates/routeguard-lwo/src/wire.rs:19-28 | In between, the second octet is the drawn one with the obfuscation bit set, the rest of the header is xored with the key repeated every 32 octets, nothing past the header has changed, and the receiver recognises the same header. |
| `Lwo.DeobfuscateRestores` | crates/routeguard-lwo/src/wire.rs:19-48 | For every key, drawn octet and recognised full-length packet, the round trip restores the packet with its second octet cleared. |
| `Lwo.RoundTripIff` | crates/routeguard-lwo/src/wire.rs:19-48 | The round trip is exact if and only if the second octet was zero, or, for a packet not recognised, the receiver does not take it for a masked one. |
| `Conf.RewriteConfEndpoint` | crates/routeguard-core/src/transport/conf.rs:170-252 | The line scanner with its four flags computes the specified rewrite: surviving lines, written lines, the closing endpoint and the inserted MTU line; and its result reads back as `Conf.ReadBack` says. |
| `Conf.ReadBack` | crates/routeguard-core/src/transport/conf.rs:21-69 | Over the text itself: if some line, trimmed and in lower case, is `[peer]`, the endpoint found in the rewritten text is the new one, and otherwise none is found; every line under such a header that gives an endpoint is the written one; no `[routeguard]` header and no RouteGuard setting is left; with an MTU to write, every MTU line is the written one and there is one. |
| `Conf.LineBecomes` | crates/routeguard-core/src/transport/conf.rs:181-232 | What becomes of each line, by its own text and the nearest header before it: kept, dropped, replaced by the endpoint or MTU line, or preceded by the endpoint its section still owed. |
| `Conf.SectionIs` | crates/routeguard-core/src/transport/conf.rs:183-199 | The section in force at a line is the nearest header before it, trimmed and in lower case. |
| `Conf.ServedIff` | crates/routeguard-core/src/transport/conf.rs:183-209 | The endpoint counts as written exactly after a peer section has ended or given an endpoint. |
| `Conf.MtuSetIff` | crates/routeguard-core/src/transport/conf.rs:190-231 | The MTU counts as written exactly after an MTU line outside the RouteGuard sections with no `[interface]` header since. |
| `Conf.InsertAtIs` | crates/routeguard-core/src/transport/conf.rs:237-244 | A missing MTU line goes right after the first `[interface]` header, or at the end if there is none. |
| `Conf.OrderKept` | crates/routeguard-core/src/transport/conf.rs:181-237 | The output is exactly the surviving lines, in their order, among lines that the rewrite wrote; whether a line survives is decided by its kind and section. |
| `Conf.RewritingTwiceIffStable` | crates/routeguard-core/src/transport/conf.rs:170-252 | Rewriting twice equals rewriting once if and only if the MTU is not rewritten, or an MTU line follows the last interface header, or there is at most one such header; and no surviving line ends in a carriage return of its own. |
| `Conf.TwoInterfacesKeepGrowing` | crates/routeguard-core/src/transport/conf.rs:190-192 | A concrete conf with two interface headers and no MTU line: after n passes it is n lines longer. |
| `Conf.UnstableGrows` | crates/routeguard-core/src/transport/conf.rs:170-252 | A text with several interface headers, an MTU to write and no MTU line after the last of them grows for ever: each pass succeeds and adds one line to the one before. |
| `Conf.RefusedIff` | crates/routeguard-core/src/transport/conf.rs:247-249 | A conf is refused exactly when no line survives and there is no MTU line to write. |
| `Conf.OutputSettles` | crates/routeguard-core/src/transport/conf.rs:170-252 | The rewritten text has no RouteGuard section, owes no endpoint, has only written peer endpoints, and keeps every peer header. |
| `Conf.InsertedMtu` | crates/routeguard-core/src/transport/conf.rs:235-245 | An inserted MTU line changes no section and is the last word unless an interface header follows. |
| `Conf.SettledIsKept` | crates/routeguard-core/src/transport/conf.rs:170-252 | A text with those properties is left alone, but for an MTU line it still lacks. |
| `Conf.ParsePeerEndpoint` | crates/routeguard-core/src/transport/conf.rs:21-37 | What is parsed is the trimmed text after the first equals sign of the first line under a `[peer]` header that starts with `endpoint` and has one. |
| `Conf.ParseRouteGuardSection` | crates/routeguard-core/src/transport/conf.rs:39-69 | Each field is what the last line under a `[routeguard]` header that sets its key sets it to, and the default if none does. |
| `Conf.TransportNames` | crates/routeguard-core/src/transport/conf.rs:71-78 | Which names, case aside, select which transport. |
| `Conf.U8OfDecimal` | crates/routeguard-core/src/transport/conf.rs:64 | A printed number below 256 is read back, with or without a plus sign; a larger one is refused. |
| `ConfLines.LinesOfJoined` | crates/routeguard-core/src/transport/conf.rs:251 | Splitting joined lines gives them back, each without a final carriage return. |
| `ConfLines.LinesOfUnterminated` | crates/routeguard-core/src/transport/conf.rs:175 | The last line of a text without a final line feed is kept as it is. |
| `ConfLines.TrimIs` | crates/routeguard-core/src/transport/conf.rs:182 | Trimming drops exactly the white space at both ends. |
| `ConfLines.KindIs` | crates/routeguard-core/src/transport/conf.rs:183-226 | What each kind of line starts with; the RouteGuard settings by name. |
| `ConfLines.EndpointLineValue` | crates/routeguard-core/src/transport/conf.rs:30-32 | The value read from a written endpoint line is the endpoint. |
| `Events.EventStore.constructor` | crates/routeguard-core/src/events.rs:174-180 | Ids start at one; the ring is empty, and so is the history of pushes that the store's validity refers to. |
| `Events.EventStore.Allocate` | crates/routeguard-core/src/events.rs:183-185 | A fresh id is taken and pending, and the store is what its history of halves leaves. |
| `Events.EventStore.Insert` | crates/routeguard-core/src/events.rs:192-196 | The record of a pending id goes in at the end and the ring keeps its newest elements; the store is still what its history leaves. |
| `Events.EventStore.Push` | crates/routeguard-core/src/events.rs:182-198 | Both halves, with nothing in between; a store that has only seen such pushes stays the contiguous end of its history. |
| `Events.EventStore.LatestId` | crates/routeguard-core/src/events.rs:209-213 | No retained record and no id handed out is beyond it. |
| `Events.EventStore.Poll` | crates/routeguard-core/src/events.rs:200-207 | The first records after an id, up to the limit. |
| `Events.PushFollows` | crates/routeguard-core/src/events.rs:182-198 | Under serial pushes the ring is always the end of the history. |
| `Events.RingIsContiguous` | crates/routeguard-core/src/events.rs:182-213 | It holds contiguous ids up to the latest one. |
| `Events.PollIsLogSlice` | crates/routeguard-core/src/events.rs:200-207 | A poll returns exactly the next stretch of the history, from the cursor or from the oldest retained record. |
| `Events.RunIsFair` | crates/routeguard-core/src/events.rs:182-213 | A client that keeps polling from its last id is given every retained record once and in order; every id up to its cursor was either given or missed. |
| `Events.MissedWereEvicted` | crates/routeguard-core/src/events.rs:182-207 | What it misses had been evicted when it polled. |
| `Events.InterleavedRun` | crates/routeguard-core/src/events.rs:182-198 | However the halves of pushes interleave, retained ids are unique, no longer pending and below the next one, and the ring is within its bound. |
| `Events.PagingIsFairIff` | crates/routeguard-core/src/events.rs:182-207 | Exactly when paging is fair while pushes interleave: every client under every schedule of polls is given inserted records once and in order, with every retained record given or still ahead of its cursor, if and only if records are inserted in the order of their ids. |
| `Events.OrderedIsFair` | crates/routeguard-core/src/events.rs:200-207 | Records inserted in id order: every schedule of polls is fair, with gaps in the ids and evictions. |
| `Events.OrderedCatchesUp` | crates/routeguard-core/src/events.rs:200-207 | And then a poll with room for the ring leaves no retained record to give. |
| `Events.BreakIsUnfair` | crates/routeguard-core/src/events.rs:182-207 | Where the order first breaks, one poll just before hides the record that breaks it. |
| `Events.InterleavingHidesARecord` | crates/routeguard-core/src/events.rs:182-207 | The shortest such interleaving, with two pushes and one poll, is possible and unfair. |
| `Metrics.MetricsStore.Record` | crates/routeguard-service/src/observability/store.rs:33-73 | After every sample the raw ring is the last 3600 samples of its metric, and as long as no minute recurs the minute queue is the last 1440 means of the batch computation and the bucket its open minute; other metrics are untouched. |
| `Metrics.MetricsStore.Trim` | crates/routeguard-service/src/observability/store.rs:43-45 | Dropping from the front keeps the newest elements. |
| `Metrics.SampleKeepsMatch` | crates/routeguard-service/src/observability/store.rs:33-73 | As long as no minute recurs, one sample recorded streaming is one more sample in the batch computation over the whole history. |
| `Metrics.RollupMatchesIff` | crates/routeguard-service/src/observability/store.rs:33-73 | Streaming agrees with the batch computation after every sample of a history if and only if no minute recurs after another one. |
| `Metrics.RollupMeans` | crates/routeguard-service/src/observability/store.rs:53-66 | The batch computation: each entry starts at a whole minute that has samples, and its value is the sum of the samples of those 60 seconds over their number; no minute occurs twice, and while none recurs every sample outside the open minute is in one. |
| `Metrics.OpenMeans` | crates/routeguard-service/src/observability/store.rs:48-72 | The open bucket is the minute of the latest sample with the sum and number of the samples in it. |
| `Metrics.NonDecreasingIsContiguous` | crates/routeguard-service/src/observability/store.rs:33-73 | A non-decreasing clock is enough for that. |
| `Metrics.RollupIncreases` | crates/routeguard-service/src/observability/store.rs:33-73 | The rollup's timestamps strictly increase and end before the open minute. |
| `Metrics.MinutesIncrease` | crates/routeguard-service/src/observability/store.rs:33-73 | Under a non-decreasing clock minutes come in strictly increasing order, the open one last. |
| `Metrics.SameMinute` | crates/routeguard-service/src/observability/store.rs:67-70 | A sample in the open minute changes no finished mean. |
| `Metrics.NextMinute` | crates/routeguard-service/src/observability/store.rs:53-66 | A sample in a later minute finishes the open one with the mean of all its samples. |
| `Recovery.Monitor` | crates/routeguard-service/src/transport_health.rs:16-133 | The loop, tick by tick, publishes what the functional run says. |
| `Recovery.LogStep` | crates/routeguard-service/src/transport_health.rs:30-41 | An inactive, direct or healthy transport publishes nothing and resets the counter. |
| `Recovery.TriedStep` | crates/routeguard-service/src/transport_health.rs:57-130 | What any other tick publishes below the limit, in order: the attempt out of 3, the backoff of 5, 10 or 15 seconds, and then nothing if the session ended, success and connection, or failure, recoverable only before the third attempt. |
| `Recovery.CounterExplained` | crates/routeguard-service/src/transport_health.rs:16-133 | At every tick the counter is the number of failed restarts since it was last zero, and the log ends with exactly those attempts numbered from one. |
| `Recovery.BackoffInRange` | crates/routeguard-service/src/transport_health.rs:61-72 | At every tick the counter is between 0 and 3, and the backoff index is in range, so the fallback is never used. |
| `Recovery.GivesUpIff` | crates/routeguard-service/src/transport_health.rs:43-55 | The loop gives up exactly when the transport is unhealthy after three failed restarts counted from zero; in between it published attempts 1, 2 and 3 with backoffs 5, 10 and 15, each failed; then it counts from zero. |
| `Policy.TableFromRules` | crates/routeguard-routing/src/ip.rs:20-35 | The table exists exactly when every network parses, and is then stably sorted. |
| `Policy.RuleUsedIsLeast` | crates/routeguard-routing/src/ip.rs:37-39 | The rule used for an address is the containing one of least priority, earliest in the configuration. |
| `Networks.ContainsIff` | crates/routeguard-routing/src/ip.rs:37-39 | A network contains an address of its family exactly if the whole octets of the prefix agree and so do the leading bits that remain. |
| `Networks.HostNetIsOne` | crates/routeguard-routing/src/domain_store.rs:380-385 | A host network contains its own address only. |
| `Policy.RoutingEngine.constructor` | crates/routeguard-routing/src/engine.rs:42-60 | The engine holds the sorted rules of the configuration and an empty cache. |
| `Policy.RoutingEngine.SyncDomainStore` | crates/routeguard-routing/src/engine.rs:173-175 | The engine's cache becomes the copy of the store. |
| `Policy.RoutingEngine.Decide` | crates/routeguard-routing/src/engine.rs:76-167 | The decision and its reason, in the code's order of precedence, on the engine's current state; and for rules taken from a configuration, the decision that `Policy.DecisionIs` states. |
| `Policy.DecisionIs` | crates/routeguard-routing/src/engine.rs:76-167 | For every flow, over the configured rules that apply to it, each of least priority and earliest among equals: a blocking IP rule, address or domain rule blocks, in that order; otherwise an excluded application is bypassed in full-tunnel mode and an included one tunnelled in split-include mode; otherwise the IP rule, the domain rule and the address decide, in that order; otherwise the tunnel in full-tunnel mode and the bypass in split-include mode. The reason names the rule. |
| `Policy.RulesApplyMeans` | crates/routeguard-routing/src/engine.rs:76-167 | What applying means, rule by rule: the IP rule's network contains the address, the application rule is of the mode's kind and applies to the path, the domain rule covers the domain, and no rule that does has a smaller priority; none is chosen only if none does. |
| `Policy.SomeRulesApply` | crates/routeguard-routing/src/engine.rs:76-167 | Such rules, or their absence, exist for every flow and configuration. |
| `Policy.BlockedIff` | crates/routeguard-routing/src/engine.rs:76-120 | A flow is blocked exactly when an IP rule, a resolved address or a domain rule blocks it; no application rule overrides that. |
| `Policy.CompileWithDomainStore` | crates/routeguard-routing/src/split_policy.rs:29-87 | What the compiled policy contains: each list with its sources and nothing else. |
| `Policy.CompiledMeans` | crates/routeguard-routing/src/split_policy.rs:55-87 | List by list: a bypass filter and a permit for each exclusion in full-tunnel mode, a tunnel filter for each inclusion in split-include mode, with normalised paths, filters sorted by priority; host networks of exactly the live addresses of each target. |
| `Policy.CompileApps` | crates/routeguard-routing/src/split_policy.rs:55-71 | The filters of the mode's rules, sorted, and the permits of excluded applications. |
| `Policy.RawCidrs` | crates/routeguard-core/src/policy.rs:62-68 | The configured network texts by target, in order. |
| `Policy.AppendNew` | crates/routeguard-routing/src/split_policy.rs:42-53 | Every item ends up in the list, earlier ones stay in place and nothing else is added. |
| `Policy.HostCidrsForTarget` | crates/routeguard-routing/src/domain_store.rs:370-385 | The host networks of exactly the live addresses of a target, each once. |
| `Policy.BypassIsCovered` | crates/routeguard-routing/src/split_policy.rs:29-87 | With the cache copied from the store at compilation, every later Bypass decision for a flow without application or domain is covered by a compiled bypass network, except the default of the split-include mode (for which see `Policy.DefaultBypassCoveredIff`). |
| `Policy.BypassCoverageIff` | crates/routeguard-routing/src/split_policy.rs:29-82 | A compiled policy sends around the tunnel exactly the addresses that some configured Bypass rule contains and those held live for Bypass when it was compiled. |
| `Policy.DefaultBypassCoveredIff` | crates/routeguard-routing/src/split_policy.rs:29-82 | Which split-include default decisions are covered: exactly those for an address held live for Bypass at compilation, hence none at that instant. |
| `Policy.IpBlockIsCovered` | crates/routeguard-routing/src/split_policy.rs:48-53 | Every Block decided by an IP rule is covered by a compiled block network. |
| `Policy.BlockCoverageIff` | crates/routeguard-routing/src/split_policy.rs:48-53 | A compiled policy blocks exactly the addresses that some configured Block rule contains. |
| `Policy.BlockDecisionCoveredIff` | crates/routeguard-routing/src/split_policy.rs:48-53 | Which Block decisions are covered: all of IP rules, and one of a resolved address or a domain rule exactly when a configured Block rule contains the address too. |
| `Policy.ResolvedBlockIsNotCompiled` | crates/routeguard-routing/src/split_policy.rs:48-53 | For every address there is a Block decision of a resolved address that no compiled policy covers: without IP rules, with one blocking entry in the store. |

## Left out

- Windows FFI, filter-platform calls, adapters, DLL loading, named pipes, service control and the kernel driver: foreign calls without visible semantics; adding and deleting a route are calls that may fail.
- Sockets, timers, tasks, files, JSON and TOML: a persisted cache is a value, so a JSON text that does not parse is not modelled, only an unsupported version.
- Events that the manager publishes beside its state changes, status reports, and the redirect flags.
- Real thread interleavings, except between the two halves of an event push: each manager callback is one step. In particular the recovery loop's session check and restart are one tick, so nothing is claimed about a disconnect in between.
- A poisoned or contended lock; a busy engine is a flag of the step.
- Integer widths other than those named: the expiry `now + ttl`, event ids and route handles do not wrap around.
- Different clocks: `Instant` and `SystemTime` are one clock.
- Floating-point rounding: metric values are reals, so the means are exact.
- Non-ASCII lower-casing, lossy UTF-8 in DNS labels and paths: letters fold as in ASCII, labels stay octets.
- DomainRouting.Run: claims agreement of targets, not of expiries, because a refreshed TTL is not forwarded to an installed route; addresses evicted or taken over keep a route until it is purged or replaced.
- Policy.BypassIsCovered: assumes that parsing a printed network gives it back.
- InterfaceBuffer.SerializeInterface: padding is zero octets, alignment and the driver's own changes of the layout are not modelled; parsing `.conf` text into a configuration is not either.
- InterfaceBuffer.BufferLosesNothing: the addresses, DNS servers and MTU of a configuration are not part of the buffer, and the source writes the IPv6 flow information of an endpoint as zero; none of them is modelled.
- X25519 and key derivation are not part of this model.
- Conf.ParsePeerEndpoint: the address type and its parser are parameters.
- Policy.CompileWithDomainStore: interface indexes, network lock and DNS servers are copied without computation and are left out.
- `MetricsStore::query` and its persistence, `EventBus`, `InterfaceStats::totals`: filters and folds that would only add easy members.
- Transport hints and preference merging, health scoring, AWG validation, app-rule editing, log ring, profiles, the IPC handler and the CLI: finite case splits or input and output.
