/**
 * Building the public resource view of a local network: the summary view
 * (buildNetworkResource), the detailed view with the attached endpoints
 * (buildDetailedNetworkResources), the IPAM configuration list (buildIpamResources),
 * endpoint and peer entries.
 */
module Views {
  import opened Wrappers
  import opened NetworkTypes

  // ---------------------------------------------------------------------------
  // Order-preserving filter-and-convert, the shape of every IPAM loop
  // ---------------------------------------------------------------------------

  /** The images under `f` of the elements of `s` that satisfy `keep`, in order. */
  function Keep<A, B>(s: seq<A>, keep: A -> bool, f: A -> B): (r: seq<B>)
    ensures |r| <= |s|
    decreases |s|
  {
    if s == [] then []
    else
      var init := Keep(s[..|s| - 1], keep, f);
      if keep(s[|s| - 1]) then init + [f(s[|s| - 1])] else init
  }

  /** One more input element: Keep of a prefix extended by the next element. */
  lemma KeepStep<A, B>(s: seq<A>, i: nat, keep: A -> bool, f: A -> B)
    requires i < |s|
    ensures Keep(s[..i + 1], keep, f) ==
              if keep(s[i]) then Keep(s[..i], keep, f) + [f(s[i])] else Keep(s[..i], keep, f)
  {
    assert s[..i + 1][..i] == s[..i];
  }

  /** An element is in the output exactly when it is the image of a kept input element. */
  lemma {:induction false} KeepMembers<A, B>(s: seq<A>, keep: A -> bool, f: A -> B, x: B)
    ensures x in Keep(s, keep, f) <==> exists i :: 0 <= i < |s| && keep(s[i]) && x == f(s[i])
    decreases |s|
  {
    if s != [] {
      var init := s[..|s| - 1];
      KeepMembers(init, keep, f, x);
      if x in Keep(init, keep, f) {
        var i :| 0 <= i < |init| && keep(init[i]) && x == f(init[i]);
        assert s[i] == init[i];
      }
      if exists i :: 0 <= i < |s| && keep(s[i]) && x == f(s[i]) {
        var i :| 0 <= i < |s| && keep(s[i]) && x == f(s[i]);
        if i < |init| {
          assert init[i] == s[i];
        }
      }
    }
  }

  /** The output is empty exactly when no input element is kept. */
  lemma {:induction false} KeepEmpty<A, B>(s: seq<A>, keep: A -> bool, f: A -> B)
    ensures Keep(s, keep, f) == [] <==> forall i :: 0 <= i < |s| ==> !keep(s[i])
    decreases |s|
  {
    if s != [] {
      var init := s[..|s| - 1];
      KeepEmpty(init, keep, f);
      assert forall i :: 0 <= i < |init| ==> init[i] == s[i];
    }
  }

  /** When every element is kept, the output converts the whole input, in order. */
  lemma {:induction false} KeepEvery<A, B>(s: seq<A>, keep: A -> bool, f: A -> B)
    requires forall i :: 0 <= i < |s| ==> keep(s[i])
    ensures |Keep(s, keep, f)| == |s|
    ensures forall i :: 0 <= i < |s| ==> Keep(s, keep, f)[i] == f(s[i])
    decreases |s|
  {
    if s != [] {
      var init := s[..|s| - 1];
      assert forall i :: 0 <= i < |init| ==> init[i] == s[i];
      KeepEvery(init, keep, f);
    }
  }

  // ---------------------------------------------------------------------------
  // IPAM configuration (buildIpamResources)
  // ---------------------------------------------------------------------------

  /** A configured pool is listed only when it names a preferred pool. */
  predicate IsPreferred(c: IpamConf)
  {
    c.preferredPool != ""
  }

  /** Does any configured pool of this family name a preferred pool? */
  predicate HasPreferredPool(confs: seq<IpamConf>)
  {
    exists i :: 0 <= i < |confs| && IsPreferred(confs[i])
  }

  function ConfiguredEntry(c: IpamConf): IpamConfig
  {
    IpamConfig(c.preferredPool, c.subPool, c.gateway, c.auxAddresses)
  }

  /** Every runtime IPv4 pool is listed. */
  predicate AnyPool(p: IpamInfo)
  {
    true
  }

  function RuntimeV4Entry(p: IpamInfo): IpamConfig
  {
    IpamConfig(IpNetText(p.pool), "", if p.gateway.Some? then p.gateway.value.ipText else "", map[])
  }

  /** A runtime IPv6 pool is listed only when it has a pool. */
  predicate HasPool(p: IpamInfo)
  {
    p.pool.Some?
  }

  function RuntimeV6Entry(p: IpamInfo): IpamConfig
  {
    IpamConfig(IpNetText(p.pool), "", IpNetText(p.gateway), map[])
  }

  /** The IPv4 section: the configured pools with a preferred pool, or, when there is
      none, every runtime pool. */
  function V4Section(info: NetworkInfo): seq<IpamConfig>
  {
    if HasPreferredPool(info.ipv4Conf) then Keep(info.ipv4Conf, IsPreferred, ConfiguredEntry)
    else Keep(info.ipv4Info, AnyPool, RuntimeV4Entry)
  }

  /** The IPv6 section: the configured pools with a preferred pool, followed, only when
      there is none, by the runtime pools that have a pool. */
  function V6Section(info: NetworkInfo): seq<IpamConfig>
  {
    Keep(info.ipv6Conf, IsPreferred, ConfiguredEntry)
      + (if HasPreferredPool(info.ipv6Conf) then [] else Keep(info.ipv6Info, HasPool, RuntimeV6Entry))
  }

  function IpamOf(info: NetworkInfo): Ipam
  {
    Ipam(info.ipamDriver, info.ipamOptions, V4Section(info) + V6Section(info))
  }

  /** A configured IPv4 pool shadows every runtime IPv4 pool: the IPv4 entries are then
      exactly the configured pools that name a preferred pool, each with a non-empty subnet. */
  lemma {:induction false} ConfiguredV4Wins(info: NetworkInfo, x: IpamConfig)
    requires HasPreferredPool(info.ipv4Conf)
    ensures x in V4Section(info) <==>
              exists i :: 0 <= i < |info.ipv4Conf| && IsPreferred(info.ipv4Conf[i])
                          && x == ConfiguredEntry(info.ipv4Conf[i])
    ensures x in V4Section(info) ==> x.subnet != ""
  {
    KeepMembers(info.ipv4Conf, IsPreferred, ConfiguredEntry, x);
  }

  /** Without a configured IPv4 pool naming a preferred pool, every runtime IPv4 pool is
      listed, in order, including one without a pool, whose subnet reads "<nil>". */
  lemma RuntimeV4Fallback(info: NetworkInfo)
    requires forall i :: 0 <= i < |info.ipv4Conf| ==> !IsPreferred(info.ipv4Conf[i])
    ensures |V4Section(info)| == |info.ipv4Info|
    ensures forall i :: 0 <= i < |info.ipv4Info| ==>
              && V4Section(info)[i] == RuntimeV4Entry(info.ipv4Info[i])
              && V4Section(info)[i].subnet == IpNetText(info.ipv4Info[i].pool)
              && (info.ipv4Info[i].pool.None? ==> V4Section(info)[i].subnet == NilIpNetText)
  {
    KeepEvery(info.ipv4Info, AnyPool, RuntimeV4Entry);
  }

  /** A configured IPv6 pool that names a preferred pool shuts out the runtime IPv6 pools:
      the IPv6 entries are then exactly the configured preferred pools, and no runtime pool
      is listed unless it coincides with one of them. */
  lemma ConfiguredV6Wins(info: NetworkInfo, p: IpamInfo)
    requires HasPreferredPool(info.ipv6Conf)
    ensures V6Section(info) == Keep(info.ipv6Conf, IsPreferred, ConfiguredEntry)
    ensures RuntimeV6Entry(p) in V6Section(info) ==>
              exists i :: 0 <= i < |info.ipv6Conf| && IsPreferred(info.ipv6Conf[i])
                          && RuntimeV6Entry(p) == ConfiguredEntry(info.ipv6Conf[i])
  {
    KeepMembers(info.ipv6Conf, IsPreferred, ConfiguredEntry, RuntimeV6Entry(p));
  }

  /** Runtime IPv6 pools are listed exactly when no configured IPv6 pool names a preferred
      pool, and then only those that have a pool. */
  lemma {:induction false} RuntimeV6Fallback(info: NetworkInfo, p: IpamInfo)
    requires forall i :: 0 <= i < |info.ipv6Conf| ==> !IsPreferred(info.ipv6Conf[i])
    ensures V6Section(info) == Keep(info.ipv6Info, HasPool, RuntimeV6Entry)
    ensures RuntimeV6Entry(p) in V6Section(info) <==>
              exists i :: 0 <= i < |info.ipv6Info| && info.ipv6Info[i].pool.Some?
                          && RuntimeV6Entry(info.ipv6Info[i]) == RuntimeV6Entry(p)
  {
    KeepEmpty(info.ipv6Conf, IsPreferred, ConfiguredEntry);
    KeepMembers(info.ipv6Info, HasPool, RuntimeV6Entry, RuntimeV6Entry(p));
  }

  /** The IPv4 half of buildIpamResources: the configured pools that name a preferred
      pool, or every runtime pool when there is none. */
  method BuildV4Config(info: NetworkInfo) returns (config: seq<IpamConfig>)
    ensures config == V4Section(info)
  {
    config := [];
    for i := 0 to |info.ipv4Conf|
      invariant config == Keep(info.ipv4Conf[..i], IsPreferred, ConfiguredEntry)
    {
      KeepStep(info.ipv4Conf, i, IsPreferred, ConfiguredEntry);
      var ip4 := info.ipv4Conf[i];
      if ip4.preferredPool == "" {
        continue;
      }
      config := config + [ConfiguredEntry(ip4)];
    }
    assert info.ipv4Conf[..|info.ipv4Conf|] == info.ipv4Conf;
    KeepEmpty(info.ipv4Conf, IsPreferred, ConfiguredEntry);

    if |config| == 0 {
      for i := 0 to |info.ipv4Info|
        invariant config == Keep(info.ipv4Info[..i], AnyPool, RuntimeV4Entry)
      {
        KeepStep(info.ipv4Info, i, AnyPool, RuntimeV4Entry);
        config := config + [RuntimeV4Entry(info.ipv4Info[i])];
      }
      assert info.ipv4Info[..|info.ipv4Info|] == info.ipv4Info;
    }
  }

  /** The first IPv6 loop of buildIpamResources: appends the configured pools that name
      a preferred pool and reports whether there was one. */
  method AppendConfiguredV6(confs: seq<IpamConf>, start: seq<IpamConfig>) returns (config: seq<IpamConfig>, hasIpv6Conf: bool)
    ensures config == start + Keep(confs, IsPreferred, ConfiguredEntry)
    ensures hasIpv6Conf == HasPreferredPool(confs)
  {
    config := start;
    hasIpv6Conf := false;
    ghost var kept: seq<IpamConfig> := [];
    for i := 0 to |confs|
      invariant kept == Keep(confs[..i], IsPreferred, ConfiguredEntry)
      invariant config == start + kept
      invariant hasIpv6Conf == (kept != [])
    {
      KeepStep(confs, i, IsPreferred, ConfiguredEntry);
      var ip6 := confs[i];
      if ip6.preferredPool == "" {
        continue;
      }
      hasIpv6Conf := true;
      config := config + [ConfiguredEntry(ip6)];
      kept := kept + [ConfiguredEntry(ip6)];
    }
    assert confs[..|confs|] == confs;
    KeepEmpty(confs, IsPreferred, ConfiguredEntry);
  }

  /** The second IPv6 loop of buildIpamResources: appends the runtime pools that have a
      pool. */
  method AppendRuntimeV6(infos: seq<IpamInfo>, start: seq<IpamConfig>) returns (config: seq<IpamConfig>)
    ensures config == start + Keep(infos, HasPool, RuntimeV6Entry)
  {
    config := start;
    ghost var kept: seq<IpamConfig> := [];
    for i := 0 to |infos|
      invariant kept == Keep(infos[..i], HasPool, RuntimeV6Entry)
      invariant config == start + kept
    {
      KeepStep(infos, i, HasPool, RuntimeV6Entry);
      var ip6Info := infos[i];
      if ip6Info.pool.None? {
        continue;
      }
      config := config + [RuntimeV6Entry(ip6Info)];
      kept := kept + [RuntimeV6Entry(ip6Info)];
    }
    assert infos[..|infos|] == infos;
  }

  /** The IPv6 half of buildIpamResources, appended to the entries built so far: the
      configured pools that name a preferred pool, or, when there is none, the runtime
      pools that have a pool. */
  method AppendV6Config(info: NetworkInfo, start: seq<IpamConfig>) returns (config: seq<IpamConfig>)
    ensures config == start + V6Section(info)
  {
    var hasIpv6Conf;
    config, hasIpv6Conf := AppendConfiguredV6(info.ipv6Conf, start);
    if !hasIpv6Conf {
      config := AppendRuntimeV6(info.ipv6Info, config);
    }
  }

  /** buildIpamResources: the IPAM driver, its options and the merged pool list. */
  method BuildIpamResources(info: NetworkInfo) returns (ipam: Ipam)
    ensures ipam == IpamOf(info)
  {
    var config := BuildV4Config(info);
    config := AppendV6Config(info, config);
    ipam := Ipam(info.ipamDriver, info.ipamOptions, config);
  }

  // ---------------------------------------------------------------------------
  // Peers (buildPeerInfoResources)
  // ---------------------------------------------------------------------------

  function PeerInfos(peers: seq<PeerEntry>): (r: seq<PeerInfo>)
    ensures |r| == |peers|
    ensures forall i :: 0 <= i < |peers| ==> r[i].name == peers[i].name && r[i].ip == peers[i].ip
  {
    seq(|peers|, i requires 0 <= i < |peers| => PeerInfo(peers[i].name, peers[i].ip))
  }

  /** buildPeerInfoResources: one entry per peer, in order, with its name and address. */
  method BuildPeerInfoResources(peers: seq<PeerEntry>) returns (r: seq<PeerInfo>)
    ensures r == PeerInfos(peers)
  {
    r := [];
    for i := 0 to |peers|
      invariant |r| == i
      invariant forall j :: 0 <= j < i ==> r[j] == PeerInfo(peers[j].name, peers[j].ip)
    {
      r := r + [PeerInfo(peers[i].name, peers[i].ip)];
    }
  }

  // ---------------------------------------------------------------------------
  // Endpoints (buildEndpointResource) and the Containers map
  // ---------------------------------------------------------------------------

  /** An interface address is reported only when it is there and has address bytes. */
  predicate Present(a: Option<IpNet>)
  {
    a.Some? && |a.value.ip| > 0
  }

  /** buildEndpointResource: the endpoint's ID and name, and each address field only
      when the endpoint has interface data with that address. */
  function BuildEndpointResource(id: string, name: string, info: Option<EndpointInfo>): (er: EndpointResource)
    ensures er.endpointId == id && er.name == name
    ensures info.None? || info.value.iface.None? ==>
              er.macAddress == "" && er.ipv4Address == "" && er.ipv6Address == ""
    ensures info.Some? && info.value.iface.Some? ==>
              var iface := info.value.iface.value;
              && (er.macAddress != "" ==> iface.mac == Some(er.macAddress))
              && (iface.mac.Some? ==> er.macAddress == iface.mac.value)
              && (Present(iface.address) ==> er.ipv4Address == iface.address.value.cidrText)
              && (!Present(iface.address) ==> er.ipv4Address == "")
              && (Present(iface.addressIPv6) ==> er.ipv6Address == iface.addressIPv6.value.cidrText)
              && (!Present(iface.addressIPv6) ==> er.ipv6Address == "")
  {
    var er := EndpointResource(id, name, "", "", "");
    if info.None? || info.value.iface.None? then er
    else
      var iface := info.value.iface.value;
      er.(macAddress := if iface.mac.Some? then iface.mac.value else "",
          ipv4Address := if Present(iface.address) then iface.address.value.cidrText else "",
          ipv6Address := if Present(iface.addressIPv6) then iface.addressIPv6.value.cidrText else "")
  }

  /** The synthetic key of an endpoint that belongs to no container. */
  const DanglingKeyPrefix: string := "ep-"

  /** The Containers key of an endpoint: its sandbox's container, else "ep-" + its ID. */
  function EndpointKey(e: Endpoint): string
    requires e.info.Some?
  {
    if e.info.value.sandbox.Some? then e.info.value.sandbox.value.containerId
    else DanglingKeyPrefix + e.id
  }

  /** The Containers map built from a network's endpoints, in order; endpoints without
      info are skipped and a later endpoint overwrites an earlier one with the same key. */
  function ContainerMap(eps: seq<Endpoint>): map<string, EndpointResource>
    decreases |eps|
  {
    if eps == [] then map[]
    else
      var m := ContainerMap(eps[..|eps| - 1]);
      var e := eps[|eps| - 1];
      if e.info.None? then m else m[EndpointKey(e) := BuildEndpointResource(e.id, e.name, e.info)]
  }

  /** One more endpoint: skipped without info, otherwise stored under its key. */
  lemma ContainerMapStep(eps: seq<Endpoint>, i: nat)
    requires i < |eps|
    ensures ContainerMap(eps[..i + 1]) ==
              if eps[i].info.None? then ContainerMap(eps[..i])
              else ContainerMap(eps[..i])[EndpointKey(eps[i]) := BuildEndpointResource(eps[i].id, eps[i].name, eps[i].info)]
  {
    assert eps[..i + 1][..i] == eps[..i];
  }

  /** The keys of the Containers map are exactly the keys of the endpoints that have info. */
  lemma {:induction false} ContainerMapKeys(eps: seq<Endpoint>, k: string)
    ensures k in ContainerMap(eps) <==>
              exists i :: 0 <= i < |eps| && eps[i].info.Some? && EndpointKey(eps[i]) == k
    decreases |eps|
  {
    if eps != [] {
      var init := eps[..|eps| - 1];
      ContainerMapKeys(init, k);
      if k in ContainerMap(init) {
        var i :| 0 <= i < |init| && init[i].info.Some? && EndpointKey(init[i]) == k;
        assert eps[i] == init[i];
      }
      if exists i :: 0 <= i < |eps| && eps[i].info.Some? && EndpointKey(eps[i]) == k {
        var i :| 0 <= i < |eps| && eps[i].info.Some? && EndpointKey(eps[i]) == k;
        if i < |init| {
          assert init[i] == eps[i];
        }
      }
    }
  }

  /** An endpoint with info that no later endpoint shares a key with is listed under its
      key with its own endpoint entry. */
  lemma {:induction false} ContainerMapEntry(eps: seq<Endpoint>, i: nat)
    requires i < |eps| && eps[i].info.Some?
    requires forall j :: i < j < |eps| && eps[j].info.Some? ==> EndpointKey(eps[j]) != EndpointKey(eps[i])
    ensures EndpointKey(eps[i]) in ContainerMap(eps)
    ensures ContainerMap(eps)[EndpointKey(eps[i])] == BuildEndpointResource(eps[i].id, eps[i].name, eps[i].info)
    decreases |eps|
  {
    var init := eps[..|eps| - 1];
    if i < |init| {
      assert init[i] == eps[i];
      forall j | i < j < |init| && init[j].info.Some?
        ensures EndpointKey(init[j]) != EndpointKey(init[i])
      {
        assert init[j] == eps[j];
      }
      ContainerMapEntry(init, i);
    }
  }

  // ---------------------------------------------------------------------------
  // Network views
  // ---------------------------------------------------------------------------

  /** The summary view (buildNetworkResource); a nil network gives the zero view. */
  function SummaryView(nw: Option<LocalNetwork>): (r: NetworkResource)
    ensures nw.None? ==> r == EmptyResource
    ensures nw.Some? ==>
              && r.id == nw.value.id && r.name == nw.value.name && r.driver == nw.value.networkType
              && r.scope == nw.value.info.scope && r.ingress == nw.value.info.ingress
              && r.configFrom == nw.value.info.configFrom
              && r.containers == map[] && r.services.None?
              && r.created == nw.value.info.created && r.enableIPv6 == nw.value.info.ipv6Enabled
              && r.internal == nw.value.info.internal && r.attachable == nw.value.info.attachable
              && r.options == nw.value.info.driverOptions && r.labels == nw.value.info.labels
              && r.configOnly == nw.value.info.configOnly
              && r.ipam.driver == nw.value.info.ipamDriver && r.ipam.options == nw.value.info.ipamOptions
              && r.ipam.config == V4Section(nw.value.info) + V6Section(nw.value.info)
              && r.peers == PeerInfos(nw.value.info.peers)
  {
    if nw.None? then EmptyResource
    else
      var n := nw.value;
      var info := n.info;
      NetworkResource(
        name := n.name,
        id := n.id,
        created := info.created,
        scope := info.scope,
        driver := n.networkType,
        enableIPv6 := info.ipv6Enabled,
        internal := info.internal,
        attachable := info.attachable,
        ingress := info.ingress,
        ipam := IpamOf(info),
        containers := map[],
        options := info.driverOptions,
        labels := info.labels,
        configOnly := info.configOnly,
        configFrom := info.configFrom,
        peers := PeerInfos(info.peers),
        services := None)
  }

  /** The detailed view (buildDetailedNetworkResources): the summary view plus the
      Containers map of its endpoints, plus the services when verbose; a nil network gives
      the zero view. */
  function DetailedView(nw: Option<LocalNetwork>, verbose: bool): (r: NetworkResource)
    ensures nw.None? ==> r == EmptyResource
    ensures nw.Some? ==>
              && r.id == nw.value.id && r.name == nw.value.name && r.scope == nw.value.info.scope
              && r.ipam == SummaryView(nw).ipam && r.peers == SummaryView(nw).peers
              && (verbose <==> r.services.Some?)
              && (verbose ==> r.services.value.Keys == nw.value.info.services.Keys)
    // What the detailed builder adds to the summary: the endpoints' Containers map and,
    // when verbose, the services; every other field is the summary's.
    ensures nw.Some? ==> r.containers == ContainerMap(nw.value.endpoints)
    ensures nw.Some? ==> r.(containers := map[], services := None) == SummaryView(nw)
  {
    if nw.None? then EmptyResource
    else
      SummaryView(nw).(containers := ContainerMap(nw.value.endpoints),
                       services := if verbose then Some(nw.value.info.services) else None)
  }

  /** In the detailed view every endpoint that has info is listed, under its sandbox's
      container ID or, without a sandbox, under "ep-" + its ID; nothing else is listed. */
  lemma DetailedContainers(nw: LocalNetwork, verbose: bool, k: string)
    ensures k in DetailedView(Some(nw), verbose).containers <==>
              exists i :: 0 <= i < |nw.endpoints| && nw.endpoints[i].info.Some?
                          && (if nw.endpoints[i].info.value.sandbox.Some?
                              then k == nw.endpoints[i].info.value.sandbox.value.containerId
                              else k == "ep-" + nw.endpoints[i].id)
  {
    ContainerMapKeys(nw.endpoints, k);
  }

  /** buildNetworkResource. */
  method BuildNetworkResource(nw: Option<LocalNetwork>) returns (r: NetworkResource)
    ensures r == SummaryView(nw)
  {
    r := EmptyResource;
    if nw.None? {
      return;
    }
    var n := nw.value;
    var info := n.info;
    r := r.(name := n.name, id := n.id, created := info.created, scope := info.scope,
            driver := n.networkType, enableIPv6 := info.ipv6Enabled, internal := info.internal,
            attachable := info.attachable, ingress := info.ingress, options := info.driverOptions,
            containers := map[]);
    var ipam := BuildIpamResources(info);
    r := r.(ipam := ipam, labels := info.labels, configOnly := info.configOnly);
    if info.configFrom != "" {
      r := r.(configFrom := info.configFrom);
    }
    if |info.peers| != 0 {
      var peers := BuildPeerInfoResources(info.peers);
      r := r.(peers := peers);
    }
  }

  /** buildDetailedNetworkResources. */
  method BuildDetailedNetworkResources(nw: Option<LocalNetwork>, verbose: bool) returns (r: NetworkResource)
    ensures r == DetailedView(nw, verbose)
  {
    if nw.None? {
      return EmptyResource;
    }
    r := BuildNetworkResource(nw);
    ghost var summary := r;
    var eps := nw.value.endpoints;
    for i := 0 to |eps|
      invariant r == summary.(containers := ContainerMap(eps[..i]))
    {
      ContainerMapStep(eps, i);
      var e := eps[i];
      var ei := e.info;
      if ei.None? {
        continue;
      }
      var key := DanglingKeyPrefix + e.id;
      if ei.value.sandbox.Some? {
        key := ei.value.sandbox.value.containerId;
      }
      r := r.(containers := r.containers[key := BuildEndpointResource(e.id, e.name, ei)]);
    }
    assert eps[..|eps|] == eps;
    if !verbose {
      return;
    }
    r := r.(services := Some(nw.value.info.services));
  }
}
