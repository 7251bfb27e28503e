// The three network handlers that do more than pass a request through: the network list
// (cluster networks first, then the local networks the cluster did not report), network
// creation (the order in which the cluster and the local backend are asked) and network
// removal (routed to the backend that owns the resolved network).

module Routes {
  import opened Wrappers
  import opened NetworkTypes
  import opened Views
  import opened Resolver

  // ---------------------------------------------------------------------------
  // Listing networks
  // ---------------------------------------------------------------------------

  /** The list entry for a local network: clients older than API 1.28 (`legacy`) get the
      detailed view with its containers, newer ones the summary. */
  function ListView(nw: LocalNetwork, legacy: bool): (r: NetworkResource)
    ensures r.id == nw.id && r.name == nw.name && r.scope == nw.info.scope
    ensures r.ipam == IpamOf(nw.info) && r.peers == PeerInfos(nw.info.peers) && r.services.None?
    ensures !legacy ==> r.containers == map[]
    ensures legacy ==> r.containers == ContainerMap(nw.endpoints)
    // Every field but the containers is the summary view's, for old and new clients alike.
    ensures r.(containers := map[]) == SummaryView(Some(nw))
  {
    if legacy then DetailedView(Some(nw), false) else SummaryView(Some(nw))
  }

  predicate HasId(list: seq<NetworkResource>, id: string)
  {
    exists k :: 0 <= k < |list| && list[k].id == id
  }

  /** The list after the local networks have been appended to `start`: a local network is
      appended unless an entry with its ID is already in the list, so far. */
  function MergedList(start: seq<NetworkResource>, locals: seq<LocalNetwork>, legacy: bool): (r: seq<NetworkResource>)
    ensures |start| <= |r| <= |start| + |locals|
    decreases |locals|
  {
    if locals == [] then start
    else
      var acc := MergedList(start, locals[..|locals| - 1], legacy);
      var nw := locals[|locals| - 1];
      if HasId(acc, nw.id) then acc else acc + [ListView(nw, legacy)]
  }

  /** A local network whose ID is already listed leaves the list as it is. */
  lemma MergedSkip(start: seq<NetworkResource>, locals: seq<LocalNetwork>, legacy: bool, i: nat, list: seq<NetworkResource>)
    requires i < |locals| && list == MergedList(start, locals[..i], legacy)
    requires HasId(list, locals[i].id)
    ensures MergedList(start, locals[..i + 1], legacy) == list
  {
    assert locals[..i + 1][..i] == locals[..i];
  }

  /** A local network whose ID is not yet listed is appended. */
  lemma MergedAppend(start: seq<NetworkResource>, locals: seq<LocalNetwork>, legacy: bool, i: nat,
                      list: seq<NetworkResource>, nr: NetworkResource)
    requires i < |locals| && list == MergedList(start, locals[..i], legacy)
    requires !HasId(list, locals[i].id)
    requires nr == ListView(locals[i], legacy)
    ensures MergedList(start, locals[..i + 1], legacy) == list + [nr]
  {
    assert locals[..i + 1][..i] == locals[..i];
  }

  /** The entry built for one local network, by the builder the API version selects. */
  method BuildListEntry(nw: LocalNetwork, legacy: bool) returns (nr: NetworkResource)
    ensures nr == ListView(nw, legacy)
  {
    if legacy {
      nr := BuildDetailedNetworkResources(Some(nw), false);
    } else {
      nr := BuildNetworkResource(Some(nw));
    }
  }

  /** The inner loop of the network list: whether an entry already listed has the ID. */
  method IsListed(list: seq<NetworkResource>, id: string) returns (listed: bool)
    ensures listed <==> HasId(list, id)
  {
    for j := 0 to |list|
      invariant forall k :: 0 <= k < j ==> list[k].id != id
    {
      if list[j].id == id {
        return true;
      }
    }
    return false;
  }

  /** The network list: whatever the cluster reports (nothing when it fails), then the
      local networks not yet in the list. */
  method GetNetworksList(clusterNets: Result<seq<NetworkResource>, BackendError>, locals: seq<LocalNetwork>, legacy: bool)
    returns (list: seq<NetworkResource>)
    ensures list == MergedList(Listed(clusterNets), locals, legacy)
  {
    list := [];
    if clusterNets.Ok? {
      list := list + clusterNets.value;
    }
    ghost var start := Listed(clusterNets);
    assert list == start;
    assert locals[..0] == [];
    for i := 0 to |locals|
      invariant list == MergedList(start, locals[..i], legacy)
    {
      var listed := IsListed(list, locals[i].id);
      if listed {
        MergedSkip(start, locals, legacy, i, list);
        continue;
      }
      var nr := BuildListEntry(locals[i], legacy);
      MergedAppend(start, locals, legacy, i, list, nr);
      list := list + [nr];
    }
    assert locals[..|locals|] == locals;
  }

  /** The cluster's entries lead the list, unchanged and in their order. */
  lemma {:induction false} ClusterEntriesFirst(start: seq<NetworkResource>, locals: seq<LocalNetwork>, legacy: bool)
    ensures MergedList(start, locals, legacy)[..|start|] == start
    decreases |locals|
  {
    if locals != [] {
      ClusterEntriesFirst(start, locals[..|locals| - 1], legacy);
    }
  }

  /** An ID is in the merged list exactly when the cluster reported it or some local
      network carries it. */
  lemma {:induction false} MergedIds(start: seq<NetworkResource>, locals: seq<LocalNetwork>, legacy: bool, id: string)
    ensures HasId(MergedList(start, locals, legacy), id)
            <==> HasId(start, id) || exists i :: 0 <= i < |locals| && locals[i].id == id
    decreases |locals|
  {
    if locals != [] {
      var init := locals[..|locals| - 1];
      var acc := MergedList(start, init, legacy);
      var nw := locals[|locals| - 1];
      MergedIds(start, init, legacy, id);
      MergedIds(start, init, legacy, nw.id);
      LocalIdsStep(locals, init, id);
      if !HasId(acc, nw.id) {
        HasIdAppend(acc, ListView(nw, legacy), id);
      }
    }
  }

  /** Appending one entry adds exactly its ID. */
  lemma HasIdAppend(acc: seq<NetworkResource>, v: NetworkResource, id: string)
    ensures HasId(acc + [v], id) <==> HasId(acc, id) || v.id == id
  {
    var r := acc + [v];
    if HasId(r, id) {
      var k :| 0 <= k < |r| && r[k].id == id;
      if k < |acc| {
        assert acc[k] == r[k];
      }
    }
    if HasId(acc, id) {
      var k :| 0 <= k < |acc| && acc[k].id == id;
      assert r[k] == acc[k];
    }
    if v.id == id {
      assert r[|acc|].id == id;
    }
  }

  /** Some local network carries an ID exactly when one before the last does or the last
      one does. */
  lemma LocalIdsStep(locals: seq<LocalNetwork>, init: seq<LocalNetwork>, id: string)
    requires locals != [] && init == locals[..|locals| - 1]
    ensures (exists i :: 0 <= i < |locals| && locals[i].id == id)
            <==> (exists i :: 0 <= i < |init| && init[i].id == id) || locals[|locals| - 1].id == id
  {
  }

  /** Every entry after the cluster's is the list view of a local network whose ID the
      cluster did not report. */
  lemma {:induction false} AppendedAreLocal(start: seq<NetworkResource>, locals: seq<LocalNetwork>, legacy: bool, k: nat)
    requires |start| <= k < |MergedList(start, locals, legacy)|
    ensures exists i :: 0 <= i < |locals| && !HasId(start, locals[i].id)
                        && MergedList(start, locals, legacy)[k] == ListView(locals[i], legacy)
    decreases |locals|
  {
    var init := locals[..|locals| - 1];
    var acc := MergedList(start, init, legacy);
    if k < |acc| {
      AppendedAreLocal(start, init, legacy, k);
      var i :| 0 <= i < |init| && !HasId(start, init[i].id) && acc[k] == ListView(init[i], legacy);
      assert locals[i] == init[i];
    } else {
      var nw := locals[|locals| - 1];
      ClusterEntriesFirst(start, init, legacy);
      forall m | 0 <= m < |start| ensures start[m].id != nw.id {
        assert acc[m] == start[m];
      }
    }
  }

  /** No entry from position `n` on repeats the ID of an entry before it. */
  predicate FreshFrom(r: seq<NetworkResource>, n: nat)
  {
    forall a, b :: 0 <= a < b < |r| && n <= b ==> r[a].id != r[b].id
  }

  /** No appended entry repeats an ID that appears before it, so a list whose cluster part
      has distinct IDs stays free of duplicate IDs. */
  lemma {:induction false} NoDuplicateAdded(start: seq<NetworkResource>, locals: seq<LocalNetwork>, legacy: bool)
    ensures FreshFrom(MergedList(start, locals, legacy), |start|)
    decreases |locals|
  {
    if locals != [] {
      var init := locals[..|locals| - 1];
      var acc := MergedList(start, init, legacy);
      var nw := locals[|locals| - 1];
      NoDuplicateAdded(start, init, legacy);
      if !HasId(acc, nw.id) {
        var r := acc + [ListView(nw, legacy)];
        forall a, b | 0 <= a < b < |r| && |start| <= b ensures r[a].id != r[b].id {
          assert r[a] == acc[a];
          if b < |acc| {
            assert r[b] == acc[b];
          } else {
            assert r[b].id == nw.id;
          }
        }
        assert MergedList(start, locals, legacy) == r;
      }
    }
  }

  // ---------------------------------------------------------------------------
  // Creating a network
  // ---------------------------------------------------------------------------

  /** The parts of a creation request the handler inspects. */
  datatype CreateRequest = CreateRequest(name: string, checkDuplicate: bool)

  datatype CreateResponse = CreateResponse(id: string, warning: string)

  /** The backend calls the handler makes, in order. */
  datatype CreateCall = ClusterLookupByName(name: string) | LocalCreate(name: string) | ClusterCreate(name: string)

  datatype CreateOutcome = CreateOutcome(calls: seq<CreateCall>, result: Result<CreateResponse, Error>)

  /** The text of libnetwork's duplicate-name error, used as the would-be warning. */
  function NetworkNameMessage(name: string): string
  {
    "network with name " + name + " already exists"
  }

  /** Network creation, given what each backend call would answer: the cluster is asked
      for networks with the requested name first, and any such network is a conflict;
      then the local backend creates the network; only when it redirects to the swarm
      manager does the cluster create it. A local duplicate-name error is a conflict when
      the request asks for the duplicate check and is passed on otherwise. */
  function CreateNetwork(req: CreateRequest, byName: Result<seq<NetworkResource>, BackendError>,
                         local: Result<CreateResponse, BackendError>, clusterCreate: Result<string, BackendError>)
    : (o: CreateOutcome)
    ensures 1 <= |o.calls| <= 3 && o.calls[0] == ClusterLookupByName(req.name)
    // The calls, in order: the cluster lookup; the local create unless the cluster had the
    // name; the cluster create only after the local backend redirected.
    ensures o.calls == [ClusterLookupByName(req.name)]
                       + (if byName.Ok? && |byName.value| > 0 then []
                          else [LocalCreate(req.name)] + (if local == Err(ManagerRedirectError) then [ClusterCreate(req.name)] else []))
    ensures byName.Ok? && |byName.value| > 0 ==> o == CreateOutcome([ClusterLookupByName(req.name)], Err(Conflict(req.name)))
    ensures LocalCreate(req.name) in o.calls <==> !(byName.Ok? && |byName.value| > 0)
    ensures ClusterCreate(req.name) in o.calls <==> LocalCreate(req.name) in o.calls && local == Err(ManagerRedirectError)
    ensures o.result.Ok? ==> (local.Ok? && o.result.value == local.value && ClusterCreate(req.name) !in o.calls)
                             || (clusterCreate.Ok? && o.result.value.id == clusterCreate.value && ClusterCreate(req.name) in o.calls)
    ensures o.result.Err? && o.result.error.Conflict? ==>
              o.result.error.conflictName == req.name
              && ((byName.Ok? && |byName.value| > 0) || (local.Err? && local.error.NetworkNameError? && req.checkDuplicate))
    // A duplicate name reported by the local backend always fails the request: as a
    // conflict when the duplicate check was asked for, as the backend's own error
    // otherwise; the warning prepared for the second case never reaches a response.
    ensures local.Err? && local.error.NetworkNameError? ==> o.result.Err? && ClusterCreate(req.name) !in o.calls
    ensures !(byName.Ok? && |byName.value| > 0) && local.Err? && local.error.NetworkNameError? && !req.checkDuplicate ==>
              o.result == Err(Backend(local.error))
    ensures o.result.Ok? ==> o.result.value.warning == "" || (local.Ok? && o.result.value == local.value)
    // Any other local error, and an error of the cluster's creation, is passed on unchanged.
    ensures !(byName.Ok? && |byName.value| > 0) && local.Err? && !local.error.ManagerRedirectError?
            && !(local.error.NetworkNameError? && req.checkDuplicate) ==>
              o.result == Err(Backend(local.error))
    ensures !(byName.Ok? && |byName.value| > 0) && local == Err(ManagerRedirectError) && clusterCreate.Err? ==>
              o.result == Err(Backend(clusterCreate.error))
    // Without a conflict in the cluster: a local success is the response; a duplicate name
    // under the duplicate check is a conflict; a redirect whose cluster creation succeeds
    // answers with the cluster's ID and no warning.
    ensures !(byName.Ok? && |byName.value| > 0) && local.Ok? ==> o.result == Ok(local.value)
    ensures !(byName.Ok? && |byName.value| > 0) && local.Err? && local.error.NetworkNameError? && req.checkDuplicate ==>
              o.result == Err(Conflict(req.name))
    ensures !(byName.Ok? && |byName.value| > 0) && local == Err(ManagerRedirectError) && clusterCreate.Ok? ==>
              o.result == Ok(CreateResponse(clusterCreate.value, ""))
  {
    var lookup := ClusterLookupByName(req.name);
    if byName.Ok? && |byName.value| > 0 then CreateOutcome([lookup], Err(Conflict(req.name)))
    else
      match local
      case Ok(resp) => CreateOutcome([lookup, LocalCreate(req.name)], Ok(resp))
      case Err(e) =>
        var warning := if e.NetworkNameError? then NetworkNameMessage(req.name) else "";
        if e.NetworkNameError? && req.checkDuplicate then
          CreateOutcome([lookup, LocalCreate(req.name)], Err(Conflict(req.name)))
        else if !e.ManagerRedirectError? then
          CreateOutcome([lookup, LocalCreate(req.name)], Err(Backend(e)))
        else
          var calls := [lookup, LocalCreate(req.name), ClusterCreate(req.name)];
          match clusterCreate
          case Err(ce) => CreateOutcome(calls, Err(Backend(ce)))
          case Ok(id) => CreateOutcome(calls, Ok(CreateResponse(id, warning)))
  }

  // ---------------------------------------------------------------------------
  // Removing a network
  // ---------------------------------------------------------------------------

  /** The backend call that removes a network. */
  datatype DeleteCall = ClusterRemove(id: string) | LocalDelete(id: string)

  /** A network in swarm scope is removed through the cluster, any other locally. */
  function DeleteRoute(nw: NetworkResource): (c: DeleteCall)
    ensures c.id == nw.id
    ensures c.ClusterRemove? <==> nw.scope == SwarmScope
  {
    if nw.scope == SwarmScope then ClusterRemove(nw.id) else LocalDelete(nw.id)
  }

  /** The term resolved as findUniqueNetwork resolves it, then routed. */
  ghost function DeletePlan(term: string, locals: seq<LocalNetwork>, cluster: seq<NetworkResource>): Result<DeleteCall, Error>
  {
    match Resolution(UniqueLookup(term), locals, cluster)
    case Ok(nw) => Ok(DeleteRoute(nw))
    case Err(e) => Err(e)
  }

  /** Network removal: a term that does not resolve to exactly one network removes nothing
      and reports the resolution error; otherwise one backend call is made and its error,
      if any, is the result. */
  method DeleteNetwork(term: string, locals: seq<LocalNetwork>, clusterNets: Result<seq<NetworkResource>, BackendError>,
                       callErr: Option<BackendError>)
    returns (call: Option<DeleteCall>, err: Option<Error>)
    ensures DeletePlan(term, locals, Listed(clusterNets)).Err? ==>
              call.None? && err == Some(DeletePlan(term, locals, Listed(clusterNets)).error)
    ensures DeletePlan(term, locals, Listed(clusterNets)).Ok? ==>
              && call == Some(DeletePlan(term, locals, Listed(clusterNets)).value)
              && err == (if callErr.Some? then Some(Backend(callErr.value)) else None)
  {
    var nw := FindUniqueNetwork(term, locals, clusterNets);
    if nw.Err? {
      return None, Some(nw.error);
    }
    call := Some(DeleteRoute(nw.value));
    err := if callErr.Some? then Some(Backend(callErr.value)) else None;
  }

  /** Removing by a full ID always targets that ID. */
  lemma DeleteByFullId(term: string, locals: seq<LocalNetwork>, cluster: seq<NetworkResource>)
    requires (exists i :: 0 <= i < |locals| && locals[i].id == term)
          || (exists j :: 0 <= j < |cluster| && cluster[j].id == term)
    ensures DeletePlan(term, locals, cluster).Ok? && DeletePlan(term, locals, cluster).value.id == term
  {
    FullIdResolves(term, locals, cluster);
  }

  /** A local network named by its full ID is removed by the backend that its scope names,
      whatever the cluster holds. */
  lemma DeleteLocalById(term: string, locals: seq<LocalNetwork>, cluster: seq<NetworkResource>, i: nat)
    requires i < |locals| && locals[i].id == term
    requires forall j :: 0 <= j < i ==> locals[j].id != term
    ensures DeletePlan(term, locals, cluster)
            == Ok(if locals[i].info.scope == SwarmScope then ClusterRemove(term) else LocalDelete(term))
  {
    ExactLocalIdWins(UniqueLookup(term), locals, cluster, Err(OtherError("")), i);
  }

  /** Removing the ingress network by name: the local ingress network does not match by
      name, so the name resolves to the cluster's entry and removal goes through the
      cluster. */
  lemma DeleteIngressByName(info: NetworkInfo, remote: NetworkResource)
    requires info.ingress
    requires remote.id == "xid" && remote.name == "ingress" && remote.scope == SwarmScope
    ensures DeletePlan("ingress", [LocalNetwork("xid", "ingress", "overlay", info, [])], [remote])
            == Ok(ClusterRemove("xid"))
  {
    IngressNameResolvesToCluster(info, remote);
  }
}
