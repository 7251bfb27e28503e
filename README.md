# Network routes of the Docker Engine API, modelled in Dafny

This project models the network router of the Docker Engine API server
(`api/server/router/network/network_routes.go`). The router answers the `/networks`
endpoints. Every network lives either in the local libnetwork controller (the *local
backend*) or in the swarm cluster manager (the *cluster backend*), so each handler has to
combine the two:

- **Resolution.** `findUniqueNetwork` (used by removal) and `getNetwork` (inspect) turn a
  term into exactly one network. They scan the local networks, then the cluster networks.
  A full-ID match returns at once. Name matches and ID-prefix matches are collected in
  two maps keyed by network ID, and a cluster entry never replaces a local one. One name
  match wins; several are ambiguous; only then are prefix matches decided the same way;
  with no match the term is not found. `getNetwork` also filters by scope, asks the
  cluster for the term directly, and, unlike `findUniqueNetwork`, lets a local ingress
  network match by name. In both handlers the cluster's entry for the ingress network still
  matches by name. The cluster's direct answer is taken whenever its ID starts with the
  term, whatever scope was asked for (`Resolver.DirectHitIgnoresScope`).
- **Listing.** The cluster's networks come first. Each local network follows unless its ID
  is already listed. Clients older than API 1.28 get the detailed view.
- **Creation.** The cluster is asked about the name first; the local backend creates the
  network; the cluster creates it only when the local backend redirects to the swarm
  manager.
- **Removal.** The network is resolved, then removed by the cluster when its scope is
  `swarm`, else by the local backend.
- **Resource builders.** These turn a libnetwork network into the API's
  `NetworkResource`: the summary, the detailed view with containers and services, the
  IPAM section, the peers and the endpoint records.

Files:

- `wrappers.dfy`: `Option` and `Result`.
- `types.dfy`: the records the backends hand over, the API resource types and the error
  kinds.
- `views.dfy`: the resource builders. Each loop is a method proved equal to a
  specification function, with lemmas about that function.
- `resolver.dfy`: the two resolution handlers.
  - Methods with the source's loops are proved equal to folds (`LocalScan`,
    `ClusterScan`) and a decision (`Decide`).
  - Declarative lemmas say what the result is in terms of the sets of matching IDs.
- `routes.dfy`: listing, creation and removal.

The backends are inputs. Each call into a backend becomes a parameter carrying that
call's answer:

- the list of local networks;
- the cluster's network list, or its error;
- the cluster's direct answer to `GetNetwork(term)`;
- the outcome of each creation and removal call.

A query parameter becomes an argument (`scope`, `verbose`, the pre-1.28 flag `legacy`).

Without `CheckDuplicate`, a local duplicate-name error is returned unchanged
(`network_routes.go:254-256`). The warning set at line 251 could reach a response only on
the redirect path. There the error is a `ManagerRedirectError`, not a duplicate-name
error, so the warning is always empty. The contract of `Routes.CreateNetwork` states
both facts.

## Model

| member | source | states |
|---|---|---|
| Resolver.MatchesScope | api/server/router/network/network_routes.go:124-129 | an empty requested scope matches every network; a non-empty one matches exactly the networks whose scope equals it |
| Resolver.FindUniqueNetwork | api/server/router/network/network_routes.go:531-597 | the handler's loops, early returns and final decision compute exactly `Resolution` for a lookup without scope that keeps local ingress networks out of the name matches (the cluster's entries still match by name); a failed cluster listing contributes nothing |
| Resolver.GetNetwork | api/server/router/network/network_routes.go:124-220 | the inspect handler computes exactly `Inspect`: local scan with scope, the cluster's direct answer, cluster scan with scope, decision |
| Resolver.ScanLocal | api/server/router/network/network_routes.go:142-157 | the local loop with its early return on a full-ID match equals the fold `LocalScan` |
| Resolver.ScanCluster | api/server/router/network/network_routes.go:177-198 | the cluster loop, inserting a match only when its ID is absent, equals the fold `ClusterScan` |
| Resolver.DecideMatch | api/server/router/network/network_routes.go:577-596 | the one/many/none decision on the two map sizes, the name map before the prefix map |
| Resolver.ResolutionByCounts | api/server/router/network/network_routes.go:577-596 | without a full-ID match: one matching name ID resolves to it; several are ambiguous with their count; otherwise the same for ID-prefix matches; none is not found |
| Resolver.MergedCandidates | api/server/router/network/network_routes.go:554-575 | after both scans each map's keys are exactly the matching IDs, each entry is stored under its own ID, and the local entry is kept whenever a local network matched |
| Resolver.LocalCandidates | api/server/router/network/network_routes.go:536-552 | an ID is in a local map exactly when a local network with that ID matches on that basis, and the stored view is that network's detailed view |
| Resolver.ClusterCandidates | api/server/router/network/network_routes.go:554-575 | the cluster scan never replaces an entry already present and adds exactly the matching cluster networks whose ID is absent |
| Resolver.LocalPending | api/server/router/network/network_routes.go:536-540 | the local scan ends early exactly when some local network has the term as its ID (within the scope) |
| Resolver.ClusterPending | api/server/router/network/network_routes.go:554-558 | the cluster scan ends early exactly when some cluster network has the term as its ID |
| Resolver.LocalFirstHit | api/server/router/network/network_routes.go:536-540 | the first local network with the term as ID is the one reported |
| Resolver.ClusterFirstHit | api/server/router/network/network_routes.go:554-558 | the first cluster network with the term as ID is the one reported |
| Resolver.ClusterFromHit | api/server/router/network/network_routes.go:538-539 | once the local scan has returned, the cluster scan does not alter the answer |
| Resolver.ExactLocalIdWins | api/server/router/network/network_routes.go:536-540 | a local network whose ID equals the term is returned by both handlers, whatever the cluster holds |
| Resolver.ExactClusterIdWins | api/server/router/network/network_routes.go:554-558 | without a local full-ID match, a cluster network whose ID equals the term is returned |
| Resolver.FullIdResolves | api/server/router/network/network_routes.go:531-597 | a term that is the full ID of some network always resolves, and to a network with that ID |
| Resolver.IngressNameNotFound | api/server/router/network/network_routes.go:541-545 | a local ingress network never matches by name in findUniqueNetwork: with no other name or prefix match the term is not found |
| Resolver.DirectHitPrefersLocal | api/server/router/network/network_routes.go:159-175 | when the cluster's direct answer is used, the result has its ID and is the local prefix-map view if present, else the local name-map view, else the cluster's answer |
| Resolver.InspectAgreesWithFindUnique | api/server/router/network/network_routes.go:124-220 | with no scope, no direct hit and no local ingress network named by the term, inspect resolves the term as findUniqueNetwork does |
| Resolver.ScopeRespected | api/server/router/network/network_routes.go:124-129 | apart from the cluster's direct answer, every network inspect reports was found in a scope matching the requested one |
| Resolver.SameNameAmbiguous | api/server/router/network/network_routes.go:582-584 | the scenario of a local network "abc123" and a cluster network "xyz789", both named "web": findUniqueNetwork reports "web" as ambiguous with 2 matches by name |
| Resolver.SameNameSwarmScope | api/server/router/network/network_routes.go:179-190 | in the same scenario, getNetwork with scope `swarm` and no direct answer filters out the local "web" and finds the cluster's |
| Resolver.InspectMatchesResolution | api/server/router/network/network_routes.go:142-220 | without a local full-ID match and without a usable direct answer, getNetwork reaches the same decision as the shared resolution under its scope, so the one/many/none decision applies with a scope too |
| Resolver.DirectHitIgnoresScope | api/server/router/network/network_routes.go:159-175 | a direct answer whose ID starts with the term is returned when no local network has its ID, even when its scope differs from the one requested |
| Resolver.IngressNameResolvesToCluster | api/server/router/network/network_routes.go:541-564 | the scenario of the ingress network "xid" known to both backends: the local one does not match by name, the cluster's does, so findUniqueNetwork resolves "ingress" to the cluster's entry |
| Views.BuildNetworkResource | api/server/router/network/network_routes.go:330-362 | the summary builder equals `SummaryView`: a nil network gives the empty resource, otherwise fields are copied, containers are empty and services absent |
| Views.SummaryView | api/server/router/network/network_routes.go:330-362 | a nil network maps to the empty resource; otherwise identity, timestamp, scope, driver, flags, options, labels and config reference are copied, the IPAM section is driver, options and the IPv4 then IPv6 entries, containers are empty, services absent, and the peers are each peer's name and IP in order |
| Views.BuildDetailedNetworkResources | api/server/router/network/network_routes.go:364-408 | the detailed builder equals `DetailedView`: the summary plus one container entry per endpoint with info, and services only when verbose |
| Views.DetailedView | api/server/router/network/network_routes.go:364-408 | a nil network maps to the empty resource; otherwise the Containers map is `ContainerMap` of the endpoints, services are present exactly when verbose (with the network's service names as keys), and every other field equals the summary view |
| Views.DetailedContainers | api/server/router/network/network_routes.go:371-383 | a container key is present exactly when some endpoint with info has it: the sandbox's container ID, or "ep-" and the endpoint ID without a sandbox |
| Views.ContainerMapKeys | api/server/router/network/network_routes.go:371-383 | endpoints without info contribute no key; every endpoint with info contributes its key |
| Views.ContainerMapEntry | api/server/router/network/network_routes.go:371-383 | the entry under a key is the endpoint record of the last endpoint with that key |
| Views.BuildEndpointResource | api/server/router/network/network_routes.go:481-504 | ID and name are copied; without info or interface the addresses stay empty; the MAC when present; each address when present with a non-empty IP |
| Views.BuildPeerInfoResources | api/server/router/network/network_routes.go:410-419 | the loop produces exactly `PeerInfos`: one record per peer, in order, with its name and IP |
| Views.PeerInfos | api/server/router/network/network_routes.go:410-419 | the peer list keeps length and order and copies name and IP of each peer |
| Views.BuildIpamResources | api/server/router/network/network_routes.go:421-479 | the IPAM section equals `IpamOf`: driver and options copied, the IPv4 entries then the IPv6 entries |
| Views.BuildV4Config | api/server/router/network/network_routes.go:430-452 | the IPv4 entries equal `V4Section`: configured pools with a preferred pool, else every runtime pool |
| Views.ConfiguredV4Wins | api/server/router/network/network_routes.go:431-441 | with a configured preferred IPv4 pool, the IPv4 entries are exactly those configured pools, each with a non-empty subnet |
| Views.RuntimeV4Fallback | api/server/router/network/network_routes.go:443-452 | with no configured preferred IPv4 pool, each runtime IPv4 pool yields one entry, in order; a missing pool reads "<nil>" |
| Views.RuntimeV6Fallback | api/server/router/network/network_routes.go:468-478 | when no configured IPv6 pool names a preferred pool, the IPv6 entries are the runtime pools that have a pool, and a runtime entry appears exactly when such a pool yields it |
| Views.ConfiguredV6Wins | api/server/router/network/network_routes.go:454-468 | when a configured IPv6 pool names a preferred pool, the IPv6 entries are exactly the configured preferred pools and no runtime pool is added |
| Views.AppendV6Config | api/server/router/network/network_routes.go:454-478 | the two IPv6 loops append exactly `V6Section`: the runtime loop runs only when no configured pool names a preferred pool |
| Views.AppendConfiguredV6 | api/server/router/network/network_routes.go:454-466 | the configured loop appends one entry per configured pool with a preferred pool, in order, and `hasIpv6Conf` is set exactly when there is one |
| Views.AppendRuntimeV6 | api/server/router/network/network_routes.go:468-478 | the runtime loop appends one entry per runtime pool that has a pool, in order, skipping the rest |
| Views.KeepMembers | api/server/router/network/network_routes.go:431-441 | an entry appears in a filtered section exactly when some kept input element yields it |
| Views.KeepEmpty | api/server/router/network/network_routes.go:443 | a filtered section is empty exactly when no input element is kept, which is the `len(...) == 0` and `hasIpv6Conf` test |
| Views.KeepEvery | api/server/router/network/network_routes.go:444-451 | when every element is kept, the section converts the whole input in order |
| Views.KeepStep | api/server/router/network/network_routes.go:431-441 | one more input element extends the filtered section by at most its own entry |
| Routes.GetNetworksList | api/server/router/network/network_routes.go:51-76 | the list handler, skipping a local network whose ID is already listed, equals `MergedList` of the cluster's networks (none on error) and the local networks |
| Routes.IsListed | api/server/router/network/network_routes.go:59-63 | the inner loop finds a listed entry exactly when some entry so far has the local network's ID |
| Routes.ClusterEntriesFirst | api/server/router/network/network_routes.go:51-53 | the cluster's networks lead the list, unchanged and in order |
| Routes.MergedIds | api/server/router/network/network_routes.go:56-76 | an ID is listed exactly when the cluster reported it or a local network carries it |
| Routes.AppendedAreLocal | api/server/router/network/network_routes.go:58-75 | every entry after the cluster's is the list view of a local network whose ID the cluster did not report |
| Routes.NoDuplicateAdded | api/server/router/network/network_routes.go:59-63 | no appended entry repeats the ID of an earlier entry |
| Routes.ListView | api/server/router/network/network_routes.go:65-74 | the entry for a local network carries its ID, name, scope, IPAM section and peers, with no services; every field other than the containers is the summary view's (driver, created, flags, options, labels, configOnly, configFrom); clients before 1.28 get its endpoints' container map, newer clients none |
| Routes.CreateNetwork | api/server/router/network/network_routes.go:238-267 | the calls are exactly, in order, the cluster lookup by name, then the local create unless the cluster had the name, then the cluster create only if the local backend redirected; any match in the cluster is a conflict; a local success is returned as the response, and a redirect whose cluster creation succeeds returns the cluster's ID with no warning; every success carries one of these two; a local duplicate-name error always fails (a conflict with `CheckDuplicate`, the backend's error without it) and never reaches the cluster; any other non-redirect local error and a cluster creation error are returned unchanged; no success carries a warning the handler prepared |
| Routes.DeleteRoute | api/server/router/network/network_routes.go:317-325 | the call targets the resolved ID, through the cluster exactly when the scope is `swarm` |
| Routes.DeleteNetwork | api/server/router/network/network_routes.go:308-328 | an unresolved term makes no call and reports the resolution error; otherwise one routed call is made and its error, if any, is the result |
| Routes.DeleteByFullId | api/server/router/network/network_routes.go:312-325 | removing by a full ID always targets that ID |
| Routes.DeleteLocalById | api/server/router/network/network_routes.go:312-325 | a local network named by its full ID is removed through the backend its own scope names |
| Routes.DeleteIngressByName | api/server/router/network/network_routes.go:312-325 | in the ingress scenario, removing "ingress" by name targets the cluster's entry and goes through the cluster |

## Left out

- HTTP plumbing is not modelled: form parsing, JSON decoding and encoding, status codes,
  and the parsing of `verbose` with its invalid-value error.
- `filterNetworks` and the validation of list filters are not modelled. They live outside
  this file (`filter.go` is not part of this model).
- The API version comparison (`versions.LessThan(..., "1.28")`) is the boolean `legacy`.
- `postNetworkConnect`, `postNetworkDisconnect` and `postNetworksPrune` pass their
  arguments straight to a backend and hold no logic of their own.
- The libnetwork object graph is flattened into plain records.
- Address and MAC formatting is given as text on the records (`ipText`, `cidrText`). The
  model assumes that a missing `*net.IPNet` prints as "<nil>". Whether `String` accepts a
  nil receiver depends on the Go standard library, which is not part of this model.
- Views.DetailedView: verbose services are copied as given, as a map of records. The
  per-task copy loop is not modelled, so its contract states only their presence and keys.
- Go's distinction between a nil and an empty map or slice (for example `Peers` or
  `Services`) is not modelled.
- Resolver.FindUniqueNetwork and Resolver.GetNetwork: the cluster's list error is
  ignored by the source and is modelled as an empty list.
- Error messages are not modelled, only their kind and the data they carry: the term, the
  match count and basis, the conflicting name, the backend error.
- The text of libnetwork's duplicate-name error is a stand-in. libnetwork is not part of
  this model.
- Go map iteration order is not modelled. The single-entry maps the decision reads have
  no order to observe.
- Concurrency between the backends' answers is not modelled. Each backend call is one
  answer given as input.
