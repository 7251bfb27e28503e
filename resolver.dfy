/**
 * Finding one network across the local and the cluster backend from a term that may
 * be a full ID, a full name or an ID prefix: findUniqueNetwork and the lookup part of
 * the getNetwork handler. Local matches are collected first and cluster matches are
 * merged in only for IDs not yet present, so the local entry for an ID wins; an exact
 * ID match short-circuits; name matches are decided before prefix matches.
 */
module Resolver {
  import opened Wrappers
  import opened NetworkTypes
  import opened Views

  /** The scope of cluster-wide networks. */
  const SwarmScope: string := "swarm"

  /** isMatchingScope: an empty requested scope matches every network, any other must
      be equal to the network's scope. */
  function MatchesScope(networkScope: string, requested: string): (m: bool)
    ensures requested == "" ==> m
    ensures requested != "" ==> (m <==> networkScope == requested)
  {
    requested == "" || networkScope == requested
  }

  /** What is being looked up: the term, the requested scope, whether views of local
      networks are built verbosely, and whether a local ingress network may match by name. */
  datatype Lookup = Lookup(term: string, scope: string, verbose: bool, ingressNames: bool)

  /** findUniqueNetwork: no scope, plain views, and local ingress networks never match by
      name. */
  function UniqueLookup(term: string): Lookup
  {
    Lookup(term, "", false, false)
  }

  /** getNetwork: the caller's scope and verbose flag; ingress networks match by name. */
  function InspectLookup(term: string, scope: string, verbose: bool): Lookup
  {
    Lookup(term, scope, verbose, true)
  }

  predicate LocalExact(q: Lookup, nw: LocalNetwork)
  {
    nw.id == q.term && MatchesScope(nw.info.scope, q.scope)
  }

  predicate LocalMatches(q: Lookup, nw: LocalNetwork, b: Basis)
  {
    && MatchesScope(nw.info.scope, q.scope)
    && match b
       case ByName => nw.name == q.term && (q.ingressNames || !nw.info.ingress)
       case ByPrefix => HasPrefix(nw.id, q.term)
  }

  predicate ClusterExact(term: string, scope: string, nw: NetworkResource)
  {
    nw.id == term && MatchesScope(nw.scope, scope)
  }

  predicate ClusterMatches(term: string, scope: string, nw: NetworkResource, b: Basis)
  {
    && MatchesScope(nw.scope, scope)
    && match b
       case ByName => nw.name == term
       case ByPrefix => HasPrefix(nw.id, term)
  }

  /** The two candidate maps, both keyed by network ID. */
  datatype Candidates = Candidates(byName: map<string, NetworkResource>, byPrefix: map<string, NetworkResource>)
  {
    function Of(b: Basis): map<string, NetworkResource>
    {
      match b
      case ByName => byName
      case ByPrefix => byPrefix
    }
  }

  const NoCandidates: Candidates := Candidates(map[], map[])

  /** The state of a scan: an exact ID match ends it, otherwise candidates accumulate. */
  datatype Scan = Hit(view: NetworkResource) | Pending(found: Candidates)

  // ---------------------------------------------------------------------------
  // The scans, as folds over the backends' lists
  // ---------------------------------------------------------------------------

  /** One local network: an exact ID match ends the scan; name and prefix matches are
      stored under the network's ID, replacing whatever was there. */
  function LocalStep(q: Lookup, s: Scan, nw: LocalNetwork): Scan
  {
    match s
    case Hit(_) => s
    case Pending(c) =>
      if LocalExact(q, nw) then Hit(DetailedView(Some(nw), q.verbose))
      else
        var v := DetailedView(Some(nw), q.verbose);
        Pending(Candidates(
          if LocalMatches(q, nw, ByName) then c.byName[nw.id := v] else c.byName,
          if LocalMatches(q, nw, ByPrefix) then c.byPrefix[nw.id := v] else c.byPrefix))
  }

  function LocalScan(q: Lookup, nets: seq<LocalNetwork>): Scan
    decreases |nets|
  {
    if nets == [] then Pending(NoCandidates)
    else LocalStep(q, LocalScan(q, nets[..|nets| - 1]), nets[|nets| - 1])
  }

  /** One cluster network: an exact ID match ends the scan; name and prefix matches are
      stored only when their ID is not yet present. */
  function ClusterStep(term: string, scope: string, s: Scan, nw: NetworkResource): Scan
  {
    match s
    case Hit(_) => s
    case Pending(c) =>
      if ClusterExact(term, scope, nw) then Hit(nw)
      else
        Pending(Candidates(
          if ClusterMatches(term, scope, nw, ByName) && nw.id !in c.byName then c.byName[nw.id := nw] else c.byName,
          if ClusterMatches(term, scope, nw, ByPrefix) && nw.id !in c.byPrefix then c.byPrefix[nw.id := nw] else c.byPrefix))
  }

  function ClusterScan(term: string, scope: string, start: Scan, nets: seq<NetworkResource>): Scan
    decreases |nets|
  {
    if nets == [] then start
    else ClusterStep(term, scope, ClusterScan(term, scope, start, nets[..|nets| - 1]), nets[|nets| - 1])
  }

  /** The only value of a map with one entry. */
  ghost function Only(m: map<string, NetworkResource>): (v: NetworkResource)
    requires |m| == 1
    ensures exists k :: m.Keys == {k} && v == m[k]
  {
    var k :| k in m;
    SingletonKeys(m.Keys, k);
    m[k]
  }

  lemma SingletonKeys(s: set<string>, k: string)
    requires |s| == 1 && k in s
    ensures s == {k}
  {
    assert |s - {k}| == 0;
  }

  /** The decision on the collected candidates: one name match wins, several are
      ambiguous; only then the same for prefix matches; nothing is not found. */
  ghost function Decide(term: string, c: Candidates): Result<NetworkResource, Error>
  {
    if |c.byName| == 1 then Ok(Only(c.byName))
    else if |c.byName| > 1 then Err(Ambiguous(term, |c.byName|, ByName))
    else if |c.byPrefix| == 1 then Ok(Only(c.byPrefix))
    else if |c.byPrefix| > 1 then Err(Ambiguous(term, |c.byPrefix|, ByPrefix))
    else Err(NotFound(term))
  }

  ghost function Finish(term: string, s: Scan): Result<NetworkResource, Error>
  {
    match s
    case Hit(v) => Ok(v)
    case Pending(c) => Decide(term, c)
  }

  /** The local scan, then the cluster scan, then the decision. */
  function Scanned(q: Lookup, locals: seq<LocalNetwork>, cluster: seq<NetworkResource>): Scan
  {
    ClusterScan(q.term, q.scope, LocalScan(q, locals), cluster)
  }

  ghost function Resolution(q: Lookup, locals: seq<LocalNetwork>, cluster: seq<NetworkResource>): Result<NetworkResource, Error>
  {
    Finish(q.term, Scanned(q, locals, cluster))
  }

  /** The cluster networks a failed listing contributes: none. */
  function Listed(r: Result<seq<NetworkResource>, BackendError>): seq<NetworkResource>
  {
    if r.Ok? then r.value else []
  }

  /** getNetwork's use of the cluster's direct answer: it is taken when its ID starts with
      the term or the requested scope is "swarm". */
  predicate DirectHit(q: Lookup, nwk: NetworkResource)
  {
    HasPrefix(nwk.id, q.term) || q.scope == SwarmScope
  }

  /** The direct answer, replaced by the local entry for the same ID, the prefix map first. */
  function PreferLocal(c: Candidates, nwk: NetworkResource): NetworkResource
  {
    if nwk.id in c.byPrefix then c.byPrefix[nwk.id]
    else if nwk.id in c.byName then c.byName[nwk.id]
    else nwk
  }

  /** getNetwork: the local scan, the cluster's direct answer, the cluster scan, the decision. */
  ghost function Inspect(q: Lookup, locals: seq<LocalNetwork>, direct: Result<NetworkResource, BackendError>,
                         cluster: seq<NetworkResource>): Result<NetworkResource, Error>
  {
    match LocalScan(q, locals)
    case Hit(v) => Ok(v)
    case Pending(c) =>
      if direct.Ok? && DirectHit(q, direct.value) then Ok(PreferLocal(c, direct.value))
      else Finish(q.term, ClusterScan(q.term, q.scope, Pending(c), cluster))
  }

  // ---------------------------------------------------------------------------
  // The handlers' loops
  // ---------------------------------------------------------------------------

  /** One more local network scanned. */
  lemma LocalScanStep(q: Lookup, nets: seq<LocalNetwork>, i: nat)
    requires i < |nets|
    ensures LocalScan(q, nets[..i + 1]) == LocalStep(q, LocalScan(q, nets[..i]), nets[i])
  {
    assert nets[..i + 1][..i] == nets[..i];
  }

  /** The loop over the local backend's networks. */
  method ScanLocal(q: Lookup, nets: seq<LocalNetwork>) returns (s: Scan)
    ensures s == LocalScan(q, nets)
  {
    var byName: map<string, NetworkResource> := map[];
    var byPrefix: map<string, NetworkResource> := map[];
    for i := 0 to |nets|
      invariant LocalScan(q, nets[..i]) == Pending(Candidates(byName, byPrefix))
    {
      ghost var c := Candidates(byName, byPrefix);
      LocalScanStep(q, nets, i);
      var network := nets[i];
      if network.id == q.term && MatchesScope(network.info.scope, q.scope) {
        var v := BuildDetailedNetworkResources(Some(network), q.verbose);
        LocalHitStays(q, nets, i + 1);
        return Hit(v);
      }
      if network.name == q.term && (q.ingressNames || !network.info.ingress) && MatchesScope(network.info.scope, q.scope) {
        var v := BuildDetailedNetworkResources(Some(network), q.verbose);
        byName := byName[network.id := v];
      }
      if HasPrefix(network.id, q.term) && MatchesScope(network.info.scope, q.scope) {
        var v := BuildDetailedNetworkResources(Some(network), q.verbose);
        byPrefix := byPrefix[network.id := v];
      }
      assert Pending(Candidates(byName, byPrefix)) == LocalStep(q, Pending(c), network);
    }
    assert nets[..|nets|] == nets;
    s := Pending(Candidates(byName, byPrefix));
  }

  /** The loop over the cluster backend's networks, starting from the local candidates. */
  method ScanCluster(term: string, scope: string, c: Candidates, nets: seq<NetworkResource>) returns (s: Scan)
    ensures s == ClusterScan(term, scope, Pending(c), nets)
  {
    var byName := c.byName;
    var byPrefix := c.byPrefix;
    for i := 0 to |nets|
      invariant ClusterScan(term, scope, Pending(c), nets[..i]) == Pending(Candidates(byName, byPrefix))
    {
      assert nets[..i + 1][..i] == nets[..i];
      var network := nets[i];
      if network.id == term && MatchesScope(network.scope, scope) {
        ClusterHitStays(term, scope, Pending(c), nets, i + 1);
        return Hit(network);
      }
      if network.name == term && MatchesScope(network.scope, scope) {
        if network.id !in byName {
          byName := byName[network.id := network];
        }
      }
      if HasPrefix(network.id, term) && MatchesScope(network.scope, scope) {
        if network.id !in byPrefix {
          byPrefix := byPrefix[network.id := network];
        }
      }
    }
    assert nets[..|nets|] == nets;
    s := Pending(Candidates(byName, byPrefix));
  }

  /** The one/many/none decision on the two maps. */
  method DecideMatch(term: string, c: Candidates) returns (r: Result<NetworkResource, Error>)
    ensures r == Decide(term, c)
  {
    if |c.byName| == 1 {
      var k :| k in c.byName;
      SingletonKeys(c.byName.Keys, k);
      return Ok(c.byName[k]);
    }
    if |c.byName| > 1 {
      return Err(Ambiguous(term, |c.byName|, ByName));
    }
    if |c.byPrefix| == 1 {
      var k :| k in c.byPrefix;
      SingletonKeys(c.byPrefix.Keys, k);
      return Ok(c.byPrefix[k]);
    }
    if |c.byPrefix| > 1 {
      return Err(Ambiguous(term, |c.byPrefix|, ByPrefix));
    }
    return Err(NotFound(term));
  }

  /** findUniqueNetwork; a failed cluster listing contributes nothing. */
  method FindUniqueNetwork(term: string, locals: seq<LocalNetwork>,
                           clusterNets: Result<seq<NetworkResource>, BackendError>)
    returns (r: Result<NetworkResource, Error>)
    ensures r == Resolution(UniqueLookup(term), locals, Listed(clusterNets))
  {
    var q := UniqueLookup(term);
    var s := ScanLocal(q, locals);
    if s.Hit? {
      ClusterFromHit(term, "", s.view, Listed(clusterNets));
      return Ok(s.view);
    }
    s := ScanCluster(term, "", s.found, Listed(clusterNets));
    if s.Hit? {
      return Ok(s.view);
    }
    r := DecideMatch(term, s.found);
  }

  /** The lookup of getNetwork: `direct` is the cluster's answer to GetNetwork(term),
      `clusterNets` its answer to GetNetworks(). */
  method GetNetwork(term: string, scope: string, verbose: bool, locals: seq<LocalNetwork>,
                    direct: Result<NetworkResource, BackendError>,
                    clusterNets: Result<seq<NetworkResource>, BackendError>)
    returns (r: Result<NetworkResource, Error>)
    ensures r == Inspect(InspectLookup(term, scope, verbose), locals, direct, Listed(clusterNets))
  {
    var q := InspectLookup(term, scope, verbose);
    var s := ScanLocal(q, locals);
    if s.Hit? {
      return Ok(s.view);
    }
    if direct.Ok? {
      var nwk := direct.value;
      if HasPrefix(nwk.id, term) || SwarmScope == scope {
        if nwk.id in s.found.byPrefix {
          nwk := s.found.byPrefix[nwk.id];
        } else if nwk.id in s.found.byName {
          nwk := s.found.byName[nwk.id];
        }
        return Ok(nwk);
      }
    }
    s := ScanCluster(term, scope, s.found, Listed(clusterNets));
    if s.Hit? {
      return Ok(s.view);
    }
    r := DecideMatch(term, s.found);
  }

  // ---------------------------------------------------------------------------
  // Facts about the scans
  // ---------------------------------------------------------------------------

  /** Once a prefix of the local list has hit, the whole scan has. */
  lemma {:induction false} LocalHitStays(q: Lookup, nets: seq<LocalNetwork>, n: nat)
    requires n <= |nets| && LocalScan(q, nets[..n]).Hit?
    ensures LocalScan(q, nets) == LocalScan(q, nets[..n])
    decreases |nets| - n
  {
    if n < |nets| {
      var init := nets[..|nets| - 1];
      assert init[..n] == nets[..n];
      LocalHitStays(q, init, n);
    } else {
      assert nets[..n] == nets;
    }
  }

  lemma {:induction false} ClusterHitStays(term: string, scope: string, start: Scan, nets: seq<NetworkResource>, n: nat)
    requires n <= |nets| && ClusterScan(term, scope, start, nets[..n]).Hit?
    ensures ClusterScan(term, scope, start, nets) == ClusterScan(term, scope, start, nets[..n])
    decreases |nets| - n
  {
    if n < |nets| {
      var init := nets[..|nets| - 1];
      assert init[..n] == nets[..n];
      ClusterHitStays(term, scope, start, init, n);
    } else {
      assert nets[..n] == nets;
    }
  }

  /** A hit before the cluster scan is its result. */
  lemma {:induction false} ClusterFromHit(term: string, scope: string, v: NetworkResource, nets: seq<NetworkResource>)
    ensures ClusterScan(term, scope, Hit(v), nets) == Hit(v)
    decreases |nets|
  {
    if nets != [] {
      ClusterFromHit(term, scope, v, nets[..|nets| - 1]);
    }
  }

  /** The local scan collects candidates exactly when no local network matches the ID. */
  lemma {:induction false} LocalPending(q: Lookup, nets: seq<LocalNetwork>)
    ensures LocalScan(q, nets).Pending? <==> forall i :: 0 <= i < |nets| ==> !LocalExact(q, nets[i])
    decreases |nets|
  {
    if nets != [] {
      var init := nets[..|nets| - 1];
      LocalPending(q, init);
      assert forall i :: 0 <= i < |init| ==> init[i] == nets[i];
    }
  }

  /** The first local network whose ID is the term ends the local scan with its view. */
  lemma {:induction false} LocalFirstHit(q: Lookup, nets: seq<LocalNetwork>, i: nat)
    requires i < |nets| && LocalExact(q, nets[i])
    requires forall j :: 0 <= j < i ==> !LocalExact(q, nets[j])
    ensures LocalScan(q, nets) == Hit(DetailedView(Some(nets[i]), q.verbose))
  {
    var pre := nets[..i];
    assert forall j :: 0 <= j < i ==> pre[j] == nets[j];
    LocalPending(q, pre);
    assert nets[..i + 1][..i] == pre;
    LocalHitStays(q, nets, i + 1);
  }

  /** The cluster scan keeps collecting exactly when no cluster network matches the ID. */
  lemma {:induction false} ClusterPending(term: string, scope: string, c: Candidates, nets: seq<NetworkResource>)
    ensures ClusterScan(term, scope, Pending(c), nets).Pending? <==>
              forall j :: 0 <= j < |nets| ==> !ClusterExact(term, scope, nets[j])
    decreases |nets|
  {
    if nets != [] {
      var init := nets[..|nets| - 1];
      ClusterPending(term, scope, c, init);
      assert forall j :: 0 <= j < |init| ==> init[j] == nets[j];
    }
  }

  /** The first cluster network whose ID is the term ends the cluster scan with itself. */
  lemma {:induction false} ClusterFirstHit(term: string, scope: string, c: Candidates, nets: seq<NetworkResource>, j: nat)
    requires j < |nets| && ClusterExact(term, scope, nets[j])
    requires forall i :: 0 <= i < j ==> !ClusterExact(term, scope, nets[i])
    ensures ClusterScan(term, scope, Pending(c), nets) == Hit(nets[j])
  {
    var pre := nets[..j];
    assert forall i :: 0 <= i < j ==> pre[i] == nets[i];
    ClusterPending(term, scope, c, pre);
    assert nets[..j + 1][..j] == pre;
    ClusterHitStays(term, scope, Pending(c), nets, j + 1);
  }

  /** One local step on pending candidates: the network's ID is (re)bound exactly when it
      matches; every other key keeps its entry. */
  lemma LocalStepCandidates(q: Lookup, c: Candidates, nw: LocalNetwork, b: Basis, k: string)
    requires !LocalExact(q, nw)
    ensures LocalStep(q, Pending(c), nw).Pending?
    ensures var m := LocalStep(q, Pending(c), nw).found.Of(b);
      && (k in m <==> k in c.Of(b) || (LocalMatches(q, nw, b) && nw.id == k))
      && (LocalMatches(q, nw, b) && nw.id == k ==> m[k] == DetailedView(Some(nw), q.verbose))
      && (!(LocalMatches(q, nw, b) && nw.id == k) && k in m ==> m[k] == c.Of(b)[k])
  {
  }

  /** What the local scan collects: an ID is a key exactly when some local network with
      that ID matches, and its entry is the view of such a network. */
  lemma {:induction false} LocalCandidates(q: Lookup, nets: seq<LocalNetwork>, b: Basis, k: string)
    requires LocalScan(q, nets).Pending?
    ensures k in LocalScan(q, nets).found.Of(b) <==>
              exists i :: 0 <= i < |nets| && LocalMatches(q, nets[i], b) && nets[i].id == k
    ensures k in LocalScan(q, nets).found.Of(b) ==>
              exists i :: 0 <= i < |nets| && LocalMatches(q, nets[i], b) && nets[i].id == k
                          && LocalScan(q, nets).found.Of(b)[k] == DetailedView(Some(nets[i]), q.verbose)
  {
    LocalCandidateKeys(q, nets, b, k);
    if k in LocalScan(q, nets).found.Of(b) {
      LocalCandidateEntry(q, nets, b, k);
    }
  }

  /** The keys of a local map: the IDs of the matching local networks. */
  lemma {:induction false} LocalCandidateKeys(q: Lookup, nets: seq<LocalNetwork>, b: Basis, k: string)
    requires LocalScan(q, nets).Pending?
    ensures k in LocalScan(q, nets).found.Of(b) <==>
              exists i :: 0 <= i < |nets| && LocalMatches(q, nets[i], b) && nets[i].id == k
    decreases |nets|
  {
    if nets != [] {
      var init := nets[..|nets| - 1];
      var nw := nets[|nets| - 1];
      assert LocalScan(q, nets) == LocalStep(q, LocalScan(q, init), nw);
      assert LocalScan(q, init).Pending? && !LocalExact(q, nw);
      LocalStepCandidates(q, LocalScan(q, init).found, nw, b, k);
      LocalCandidateKeys(q, init, b, k);
      LocalMatchStep(q, nets, init, b, k);
    }
  }

  /** A local network with ID `k` matches exactly when one before the last does or the
      last one does. */
  lemma LocalMatchStep(q: Lookup, nets: seq<LocalNetwork>, init: seq<LocalNetwork>, b: Basis, k: string)
    requires nets != [] && init == nets[..|nets| - 1]
    ensures (exists i :: 0 <= i < |nets| && LocalMatches(q, nets[i], b) && nets[i].id == k)
            <==> (exists i :: 0 <= i < |init| && LocalMatches(q, init[i], b) && init[i].id == k)
                 || (LocalMatches(q, nets[|nets| - 1], b) && nets[|nets| - 1].id == k)
  {
  }

  /** The entry under a key of a local map: the view of a matching local network with
      that ID. */
  lemma {:induction false} LocalCandidateEntry(q: Lookup, nets: seq<LocalNetwork>, b: Basis, k: string)
    requires LocalScan(q, nets).Pending? && k in LocalScan(q, nets).found.Of(b)
    ensures exists i :: 0 <= i < |nets| && LocalMatches(q, nets[i], b) && nets[i].id == k
                        && LocalScan(q, nets).found.Of(b)[k] == DetailedView(Some(nets[i]), q.verbose)
    decreases |nets|
  {
    var init := nets[..|nets| - 1];
    var nw := nets[|nets| - 1];
    assert LocalScan(q, nets) == LocalStep(q, LocalScan(q, init), nw);
    assert LocalScan(q, init).Pending? && !LocalExact(q, nw);
    var c := LocalScan(q, init).found;
    LocalStepCandidates(q, c, nw, b, k);
    if LocalMatches(q, nw, b) && nw.id == k {
      assert LocalScan(q, nets).found.Of(b)[k] == DetailedView(Some(nets[|nets| - 1]), q.verbose);
    } else {
      LocalCandidateEntry(q, init, b, k);
      var i :| 0 <= i < |init| && LocalMatches(q, init[i], b) && init[i].id == k
               && c.Of(b)[k] == DetailedView(Some(init[i]), q.verbose);
      assert nets[i] == init[i];
    }
  }

  /** What the cluster scan adds: an ID becomes a key when some cluster network with that
      ID matches; keys already present keep their entry; a new entry is such a network. */
  lemma {:induction false} ClusterCandidates(term: string, scope: string, c0: Candidates, nets: seq<NetworkResource>,
                                             b: Basis, k: string)
    requires ClusterScan(term, scope, Pending(c0), nets).Pending?
    ensures var m := ClusterScan(term, scope, Pending(c0), nets).found.Of(b);
      && (k in m <==> k in c0.Of(b) || exists j :: 0 <= j < |nets| && ClusterMatches(term, scope, nets[j], b) && nets[j].id == k)
      && (k in c0.Of(b) ==> m[k] == c0.Of(b)[k])
      && (k in m && k !in c0.Of(b) ==>
            exists j :: 0 <= j < |nets| && ClusterMatches(term, scope, nets[j], b) && nets[j].id == k && m[k] == nets[j])
    decreases |nets|
  {
    if nets != [] {
      var init := nets[..|nets| - 1];
      var nw := nets[|nets| - 1];
      assert ClusterScan(term, scope, Pending(c0), init).Pending?;
      ClusterCandidates(term, scope, c0, init, b, k);
      assert forall j :: 0 <= j < |init| ==> init[j] == nets[j];
      var m0 := ClusterScan(term, scope, Pending(c0), init).found.Of(b);
      var m := ClusterScan(term, scope, Pending(c0), nets).found.Of(b);
      if k in m && k !in c0.Of(b) {
        if k in m0 {
          var j :| 0 <= j < |init| && ClusterMatches(term, scope, init[j], b) && init[j].id == k && m0[k] == init[j];
          assert nets[j] == init[j];
        } else {
          assert m[k] == nw;
        }
      }
      ClusterMatchStep(term, scope, nets, init, b, k);
    }
  }

  /** A cluster network with ID `k` matches exactly when one before the last does or the
      last one does. */
  lemma ClusterMatchStep(term: string, scope: string, nets: seq<NetworkResource>, init: seq<NetworkResource>,
                         b: Basis, k: string)
    requires nets != [] && init == nets[..|nets| - 1]
    ensures (exists j :: 0 <= j < |nets| && ClusterMatches(term, scope, nets[j], b) && nets[j].id == k)
            <==> (exists j :: 0 <= j < |init| && ClusterMatches(term, scope, init[j], b) && init[j].id == k)
                 || (ClusterMatches(term, scope, nets[|nets| - 1], b) && nets[|nets| - 1].id == k)
  {
  }

  // ---------------------------------------------------------------------------
  // The resolution, stated without the scans
  // ---------------------------------------------------------------------------

  /** The IDs of all networks, local or cluster, that match the lookup on basis `b`. */
  ghost function MatchIds(q: Lookup, locals: seq<LocalNetwork>, cluster: seq<NetworkResource>, b: Basis): set<string>
  {
    (set i | 0 <= i < |locals| && LocalMatches(q, locals[i], b) :: locals[i].id)
      + (set j | 0 <= j < |cluster| && ClusterMatches(q.term, q.scope, cluster[j], b) :: cluster[j].id)
  }

  /** `v` is the entry a resolution may report for its ID on basis `b`: the view of a
      matching local network with that ID if there is one, else a matching cluster network. */
  ghost predicate ChosenFrom(q: Lookup, locals: seq<LocalNetwork>, cluster: seq<NetworkResource>, b: Basis,
                             v: NetworkResource)
  {
    if exists i :: 0 <= i < |locals| && LocalMatches(q, locals[i], b) && locals[i].id == v.id
    then exists i :: 0 <= i < |locals| && LocalMatches(q, locals[i], b) && locals[i].id == v.id
                     && v == DetailedView(Some(locals[i]), q.verbose)
    else exists j :: 0 <= j < |cluster| && ClusterMatches(q.term, q.scope, cluster[j], b) && v == cluster[j]
  }

  /** After both scans each map holds exactly the matching IDs, each once, under its own
      ID, with the local entry wherever a local network matched. */
  lemma MergedCandidates(q: Lookup, locals: seq<LocalNetwork>, cluster: seq<NetworkResource>, b: Basis, k: string)
    requires Scanned(q, locals, cluster).Pending?
    ensures LocalScan(q, locals).Pending?
    ensures var m := Scanned(q, locals, cluster).found.Of(b);
      && (k in m <==> k in MatchIds(q, locals, cluster, b))
      && (k in m ==> m[k].id == k && ChosenFrom(q, locals, cluster, b, m[k]))
  {
    if LocalScan(q, locals).Hit? {
      ClusterFromHit(q.term, q.scope, LocalScan(q, locals).view, cluster);
    }
    var c0 := LocalScan(q, locals).found;
    LocalCandidates(q, locals, b, k);
    ClusterCandidates(q.term, q.scope, c0, cluster, b, k);
  }

  lemma MergedKeys(q: Lookup, locals: seq<LocalNetwork>, cluster: seq<NetworkResource>, b: Basis)
    requires Scanned(q, locals, cluster).Pending?
    ensures Scanned(q, locals, cluster).found.Of(b).Keys == MatchIds(q, locals, cluster, b)
  {
    forall k ensures k in Scanned(q, locals, cluster).found.Of(b) <==> k in MatchIds(q, locals, cluster, b) {
      MergedCandidates(q, locals, cluster, b, k);
    }
  }

  /** When no network's ID equals the term, the outcome is decided by the number of
      distinct IDs matching by name, and only when there is none by the number matching
      by ID prefix: one gives that network (the local one if it is known locally), several
      are ambiguous with their count, none is not found. */
  lemma ResolutionByCounts(q: Lookup, locals: seq<LocalNetwork>, cluster: seq<NetworkResource>)
    requires forall i :: 0 <= i < |locals| ==> !LocalExact(q, locals[i])
    requires forall j :: 0 <= j < |cluster| ==> !ClusterExact(q.term, q.scope, cluster[j])
    ensures var names := MatchIds(q, locals, cluster, ByName);
            var prefixes := MatchIds(q, locals, cluster, ByPrefix);
            var r := Resolution(q, locals, cluster);
      && (|names| == 1 ==> r.Ok? && names == {r.value.id} && ChosenFrom(q, locals, cluster, ByName, r.value))
      && (|names| > 1 ==> r == Err(Ambiguous(q.term, |names|, ByName)))
      && (|names| == 0 && |prefixes| == 1 ==>
            r.Ok? && prefixes == {r.value.id} && ChosenFrom(q, locals, cluster, ByPrefix, r.value))
      && (|names| == 0 && |prefixes| > 1 ==> r == Err(Ambiguous(q.term, |prefixes|, ByPrefix)))
      && (|names| == 0 && |prefixes| == 0 ==> r == Err(NotFound(q.term)))
  {
    LocalPending(q, locals);
    ClusterPending(q.term, q.scope, LocalScan(q, locals).found, cluster);
    var c := Scanned(q, locals, cluster).found;
    assert Resolution(q, locals, cluster) == Decide(q.term, c);
    MergedKeys(q, locals, cluster, ByName);
    MergedKeys(q, locals, cluster, ByPrefix);
    assert |c.byName| == |MatchIds(q, locals, cluster, ByName)|;
    assert |c.byPrefix| == |MatchIds(q, locals, cluster, ByPrefix)|;
    if |c.byName| == 1 {
      ChosenOnly(q, locals, cluster, ByName);
    } else if |c.byName| == 0 && |c.byPrefix| == 1 {
      ChosenOnly(q, locals, cluster, ByPrefix);
    }
  }

  /** A single candidate on basis `b` is the chosen entry for the only matching ID. */
  lemma ChosenOnly(q: Lookup, locals: seq<LocalNetwork>, cluster: seq<NetworkResource>, b: Basis)
    requires Scanned(q, locals, cluster).Pending?
    requires |Scanned(q, locals, cluster).found.Of(b)| == 1
    ensures var v := Only(Scanned(q, locals, cluster).found.Of(b));
      MatchIds(q, locals, cluster, b) == {v.id} && ChosenFrom(q, locals, cluster, b, v)
  {
    var m := Scanned(q, locals, cluster).found.Of(b);
    var v := Only(m);
    var k :| m.Keys == {k} && v == m[k];
    MergedCandidates(q, locals, cluster, b, k);
    MergedKeys(q, locals, cluster, b);
  }

  /** A local network whose ID is the term is the answer, whatever else matches by name
      or prefix in either backend; the first such network when several share the ID. */
  lemma ExactLocalIdWins(q: Lookup, locals: seq<LocalNetwork>, cluster: seq<NetworkResource>,
                         direct: Result<NetworkResource, BackendError>, i: nat)
    requires i < |locals| && LocalExact(q, locals[i])
    requires forall j :: 0 <= j < i ==> !LocalExact(q, locals[j])
    ensures Resolution(q, locals, cluster) == Ok(DetailedView(Some(locals[i]), q.verbose))
    ensures Inspect(q, locals, direct, cluster) == Ok(DetailedView(Some(locals[i]), q.verbose))
  {
    LocalFirstHit(q, locals, i);
    ClusterFromHit(q.term, q.scope, DetailedView(Some(locals[i]), q.verbose), cluster);
  }

  /** With no local ID match, a cluster network whose ID is the term is the answer of
      findUniqueNetwork, whatever else matches by name or prefix. */
  lemma ExactClusterIdWins(q: Lookup, locals: seq<LocalNetwork>, cluster: seq<NetworkResource>, j: nat)
    requires forall i :: 0 <= i < |locals| ==> !LocalExact(q, locals[i])
    requires j < |cluster| && ClusterExact(q.term, q.scope, cluster[j])
    requires forall i :: 0 <= i < j ==> !ClusterExact(q.term, q.scope, cluster[i])
    ensures Resolution(q, locals, cluster) == Ok(cluster[j])
  {
    LocalPending(q, locals);
    ClusterFirstHit(q.term, q.scope, LocalScan(q, locals).found, cluster, j);
  }

  /** Resolving a network by its full ID never reports ambiguity or absence: the answer is
      a network with that ID. */
  lemma FullIdResolves(term: string, locals: seq<LocalNetwork>, cluster: seq<NetworkResource>)
    requires (exists i :: 0 <= i < |locals| && locals[i].id == term)
          || (exists j :: 0 <= j < |cluster| && cluster[j].id == term)
    ensures Resolution(UniqueLookup(term), locals, cluster).Ok?
    ensures Resolution(UniqueLookup(term), locals, cluster).value.id == term
  {
    var q := UniqueLookup(term);
    if exists i :: 0 <= i < |locals| && LocalExact(q, locals[i]) {
      var i := FirstLocalExact(q, locals);
      ExactLocalIdWins(q, locals, cluster, Err(OtherError("")), i);
    } else {
      var j := FirstClusterExact(q.term, q.scope, cluster);
      ExactClusterIdWins(q, locals, cluster, j);
    }
  }

  lemma FirstLocalExact(q: Lookup, nets: seq<LocalNetwork>) returns (i: nat)
    requires exists i :: 0 <= i < |nets| && LocalExact(q, nets[i])
    ensures i < |nets| && LocalExact(q, nets[i]) && forall j :: 0 <= j < i ==> !LocalExact(q, nets[j])
  {
    i := 0;
    while !LocalExact(q, nets[i])
      invariant i < |nets| && forall j :: 0 <= j < i ==> !LocalExact(q, nets[j])
      decreases |nets| - i
    {
      i := i + 1;
    }
  }

  lemma FirstClusterExact(term: string, scope: string, nets: seq<NetworkResource>) returns (j: nat)
    requires exists j :: 0 <= j < |nets| && ClusterExact(term, scope, nets[j])
    ensures j < |nets| && ClusterExact(term, scope, nets[j])
    ensures forall i :: 0 <= i < j ==> !ClusterExact(term, scope, nets[i])
  {
    j := 0;
    while !ClusterExact(term, scope, nets[j])
      invariant j < |nets| && forall i :: 0 <= i < j ==> !ClusterExact(term, scope, nets[i])
      decreases |nets| - j
    {
      j := j + 1;
    }
  }

  /** In findUniqueNetwork a local ingress network never matches by name: if the only
      networks with that name are local ingress networks and no ID starts with the term,
      the term is not found. */
  lemma IngressNameNotFound(term: string, locals: seq<LocalNetwork>, cluster: seq<NetworkResource>)
    requires forall i :: 0 <= i < |locals| && locals[i].name == term ==> locals[i].info.ingress
    requires forall j :: 0 <= j < |cluster| ==> cluster[j].name != term
    requires forall i :: 0 <= i < |locals| ==> !HasPrefix(locals[i].id, term)
    requires forall j :: 0 <= j < |cluster| ==> !HasPrefix(cluster[j].id, term)
    ensures Resolution(UniqueLookup(term), locals, cluster) == Err(NotFound(term))
  {
    var q := UniqueLookup(term);
    assert HasPrefix(term, term) by {
      assert term[..|term|] == term;
    }
    assert MatchIds(q, locals, cluster, ByName) == {};
    assert MatchIds(q, locals, cluster, ByPrefix) == {};
    ResolutionByCounts(q, locals, cluster);
  }

  /** getNetwork: when the cluster's direct answer is taken, the result carries its ID and
      is the local view of that ID if one was collected, the prefix match first, otherwise
      the cluster's answer itself. */
  lemma DirectHitPrefersLocal(q: Lookup, locals: seq<LocalNetwork>, direct: Result<NetworkResource, BackendError>,
                              cluster: seq<NetworkResource>)
    requires forall i :: 0 <= i < |locals| ==> !LocalExact(q, locals[i])
    requires direct.Ok? && DirectHit(q, direct.value)
    ensures var r := Inspect(q, locals, direct, cluster);
            var id := direct.value.id;
      && r.Ok? && r.value.id == id
      && ((exists i :: 0 <= i < |locals| && LocalMatches(q, locals[i], ByPrefix) && locals[i].id == id) ==>
            exists i :: 0 <= i < |locals| && LocalMatches(q, locals[i], ByPrefix) && locals[i].id == id
                        && r.value == DetailedView(Some(locals[i]), q.verbose))
      && (!(exists i :: 0 <= i < |locals| && LocalMatches(q, locals[i], ByPrefix) && locals[i].id == id)
            && (exists i :: 0 <= i < |locals| && LocalMatches(q, locals[i], ByName) && locals[i].id == id) ==>
            exists i :: 0 <= i < |locals| && LocalMatches(q, locals[i], ByName) && locals[i].id == id
                        && r.value == DetailedView(Some(locals[i]), q.verbose))
      && (!(exists i :: 0 <= i < |locals| && LocalMatches(q, locals[i], ByPrefix) && locals[i].id == id)
            && !(exists i :: 0 <= i < |locals| && LocalMatches(q, locals[i], ByName) && locals[i].id == id) ==>
            r.value == direct.value)
  {
    LocalPending(q, locals);
    LocalCandidates(q, locals, ByPrefix, direct.value.id);
    LocalCandidates(q, locals, ByName, direct.value.id);
  }

  /** Two lookups that agree on every local network scan the local list alike. */
  lemma {:induction false} LocalScanAgree(q1: Lookup, q2: Lookup, nets: seq<LocalNetwork>)
    requires q1.term == q2.term && q1.scope == q2.scope && q1.verbose == q2.verbose
    requires forall i, b :: 0 <= i < |nets| ==> LocalMatches(q1, nets[i], b) == LocalMatches(q2, nets[i], b)
    ensures LocalScan(q1, nets) == LocalScan(q2, nets)
    decreases |nets|
  {
    if nets != [] {
      var init := nets[..|nets| - 1];
      forall i, b | 0 <= i < |init| ensures LocalMatches(q1, init[i], b) == LocalMatches(q2, init[i], b) {
        assert init[i] == nets[i];
      }
      LocalScanAgree(q1, q2, init);
      assert LocalMatches(q1, nets[|nets| - 1], ByName) == LocalMatches(q2, nets[|nets| - 1], ByName);
      assert LocalMatches(q1, nets[|nets| - 1], ByPrefix) == LocalMatches(q2, nets[|nets| - 1], ByPrefix);
    }
  }

  /** Without a scope and without a usable direct answer from the cluster, getNetwork
      finds what findUniqueNetwork finds, as long as no local ingress network carries the
      term as its name (the one difference between the two). */
  lemma InspectAgreesWithFindUnique(term: string, locals: seq<LocalNetwork>, direct: Result<NetworkResource, BackendError>,
                                    cluster: seq<NetworkResource>)
    requires forall i :: 0 <= i < |locals| ==> !(locals[i].info.ingress && locals[i].name == term)
    requires direct.Err? || !HasPrefix(direct.value.id, term)
    ensures Inspect(InspectLookup(term, "", false), locals, direct, cluster) == Resolution(UniqueLookup(term), locals, cluster)
  {
    var q1 := InspectLookup(term, "", false);
    var q2 := UniqueLookup(term);
    forall i, b | 0 <= i < |locals| ensures LocalMatches(q1, locals[i], b) == LocalMatches(q2, locals[i], b) {
    }
    LocalScanAgree(q1, q2, locals);
    if LocalScan(q2, locals).Hit? {
      ClusterFromHit(term, "", LocalScan(q2, locals).view, cluster);
    }
  }

  /** getNetwork honours the scope on every path except the cluster's direct answer: a
      network it reports was found in a scope matching the requested one. */
  lemma ScopeRespected(q: Lookup, locals: seq<LocalNetwork>, direct: Result<NetworkResource, BackendError>,
                       cluster: seq<NetworkResource>)
    requires direct.Err? || !DirectHit(q, direct.value)
    ensures Inspect(q, locals, direct, cluster).Ok? ==> MatchesScope(Inspect(q, locals, direct, cluster).value.scope, q.scope)
  {
    LocalPending(q, locals);
    if LocalScan(q, locals).Hit? {
      var i := FirstLocalExact(q, locals);
      LocalFirstHit(q, locals, i);
    } else {
      var c := LocalScan(q, locals).found;
      ClusterPending(q.term, q.scope, c, cluster);
      if Scanned(q, locals, cluster).Hit? {
        var j := FirstClusterExact(q.term, q.scope, cluster);
        ClusterFirstHit(q.term, q.scope, c, cluster, j);
      } else {
        var m := Scanned(q, locals, cluster).found;
        if |m.byName| == 1 {
          ChosenOnly(q, locals, cluster, ByName);
        } else if |m.byName| == 0 && |m.byPrefix| == 1 {
          ChosenOnly(q, locals, cluster, ByPrefix);
        }
      }
    }
  }

  /** Two networks named "web", one local and one in the cluster: by name alone the term
      is ambiguous between the two IDs. */
  lemma SameNameAmbiguous(info: NetworkInfo, remote: NetworkResource)
    requires info.scope == "local" && !info.ingress
    requires remote.id == "xyz789" && remote.name == "web" && remote.scope == SwarmScope
    ensures Resolution(UniqueLookup("web"), [LocalNetwork("abc123", "web", "bridge", info, [])], [remote])
            == Err(Ambiguous("web", 2, ByName))
  {
    var local := LocalNetwork("abc123", "web", "bridge", info, []);
    var q := UniqueLookup("web");
    var v := DetailedView(Some(local), false);
    assert !HasPrefix("abc123", "web") by { assert "abc123"[..3][0] != "web"[0]; }
    assert !HasPrefix("xyz789", "web") by { assert "xyz789"[..3][0] != "web"[0]; }
    assert [local][..0] == [] && [remote][..0] == [];
    assert LocalScan(q, [local]) == Pending(Candidates(map["abc123" := v], map[]));
    var names := map["abc123" := v, "xyz789" := remote];
    assert !ClusterExact(q.term, q.scope, remote) && ClusterMatches(q.term, q.scope, remote, ByName);
    assert !ClusterMatches(q.term, q.scope, remote, ByPrefix);
    var start := LocalScan(q, [local]);
    assert ClusterScan(q.term, q.scope, start, [remote])
        == ClusterStep(q.term, q.scope, ClusterScan(q.term, q.scope, start, [remote][..0]), [remote][0]);
    assert ClusterScan(q.term, q.scope, start, []) == start;
    assert Scanned(q, [local], [remote]) == Pending(Candidates(names, map[]));
    assert |names.Keys| == 2 by {
      assert names.Keys == {"abc123", "xyz789"};
    }
  }

  /** The same two networks, looked up by getNetwork with scope "swarm" and no direct
      answer: the local network is out of scope and only the cluster network is found. */
  lemma SameNameSwarmScope(info: NetworkInfo, remote: NetworkResource, direct: BackendError)
    requires info.scope == "local" && !info.ingress
    requires remote.id == "xyz789" && remote.name == "web" && remote.scope == SwarmScope
    ensures Inspect(InspectLookup("web", SwarmScope, false), [LocalNetwork("abc123", "web", "bridge", info, [])],
                    Err(direct), [remote]) == Ok(remote)
  {
    var local := LocalNetwork("abc123", "web", "bridge", info, []);
    var q := InspectLookup("web", SwarmScope, false);
    assert !HasPrefix("xyz789", "web") by { assert "xyz789"[..3][0] != "web"[0]; }
    assert [local][..0] == [] && [remote][..0] == [];
    assert LocalScan(q, [local]) == Pending(NoCandidates);
    var names := map["xyz789" := remote];
    assert !ClusterExact(q.term, q.scope, remote) && ClusterMatches(q.term, q.scope, remote, ByName);
    assert !ClusterMatches(q.term, q.scope, remote, ByPrefix);
    var start := LocalScan(q, [local]);
    assert ClusterScan(q.term, q.scope, start, [remote])
        == ClusterStep(q.term, q.scope, ClusterScan(q.term, q.scope, start, [remote][..0]), [remote][0]);
    assert ClusterScan(q.term, q.scope, start, []) == start;
    assert Scanned(q, [local], [remote]) == Pending(Candidates(names, map[]));
    assert names.Keys == {"xyz789"};
  }

  /** getNetwork without a full-ID match among the local networks and without a usable
      direct answer reaches the same decision as the shared resolution under its own scope,
      so `ResolutionByCounts` and `ExactClusterIdWins` describe it too. */
  lemma InspectMatchesResolution(q: Lookup, locals: seq<LocalNetwork>, direct: Result<NetworkResource, BackendError>,
                                 cluster: seq<NetworkResource>)
    requires forall i :: 0 <= i < |locals| ==> !LocalExact(q, locals[i])
    requires direct.Err? || !DirectHit(q, direct.value)
    ensures Inspect(q, locals, direct, cluster) == Resolution(q, locals, cluster)
  {
    LocalPending(q, locals);
  }

  /** The cluster's direct answer is taken on an ID-prefix match without consulting the
      requested scope: with no local network of that ID, getNetwork returns it even when
      its scope differs from the one asked for. */
  lemma DirectHitIgnoresScope(q: Lookup, locals: seq<LocalNetwork>, nwk: NetworkResource, cluster: seq<NetworkResource>)
    requires forall i :: 0 <= i < |locals| ==> !LocalExact(q, locals[i]) && locals[i].id != nwk.id
    requires HasPrefix(nwk.id, q.term)
    ensures Inspect(q, locals, Ok(nwk), cluster) == Ok(nwk)
    ensures !MatchesScope(nwk.scope, q.scope) ==>
              !MatchesScope(Inspect(q, locals, Ok(nwk), cluster).value.scope, q.scope)
  {
    LocalPending(q, locals);
    LocalCandidates(q, locals, ByName, nwk.id);
    LocalCandidates(q, locals, ByPrefix, nwk.id);
  }

  /** The ingress network seen from both backends: findUniqueNetwork keeps the local ingress
      network out of the name map, but the cluster's entry for the same network still
      matches by name, so the name resolves to the cluster's entry. */
  lemma IngressNameResolvesToCluster(info: NetworkInfo, remote: NetworkResource)
    requires info.ingress
    requires remote.id == "xid" && remote.name == "ingress"
    ensures Resolution(UniqueLookup("ingress"), [LocalNetwork("xid", "ingress", "overlay", info, [])], [remote])
            == Ok(remote)
  {
    var local := LocalNetwork("xid", "ingress", "overlay", info, []);
    var q := UniqueLookup("ingress");
    assert !HasPrefix("xid", "ingress");
    assert [local][..0] == [] && [remote][..0] == [];
    assert LocalScan(q, [local]) == Pending(NoCandidates);
    var start := LocalScan(q, [local]);
    assert ClusterScan(q.term, q.scope, start, [remote])
        == ClusterStep(q.term, q.scope, ClusterScan(q.term, q.scope, start, [remote][..0]), [remote][0]);
    assert ClusterScan(q.term, q.scope, start, []) == start;
    assert !ClusterExact(q.term, q.scope, remote) && ClusterMatches(q.term, q.scope, remote, ByName);
    assert !ClusterMatches(q.term, q.scope, remote, ByPrefix);
    var names := map["xid" := remote];
    assert Scanned(q, [local], [remote]) == Pending(Candidates(names, map[]));
    assert names.Keys == {"xid"};
  }
}
