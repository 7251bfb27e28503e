/**
 * The records the local network backend (libnetwork) and the cluster backend hand over,
 * the public resource views built from them, and the errors the network routes report.
 */
module NetworkTypes {
  import opened Wrappers

  // ---------------------------------------------------------------------------
  // Backend-native data (libnetwork). The object graph behind `Info()`, `Sandbox()`
  // and `Iface()` is flattened into plain records; absent objects are `None`.
  // ---------------------------------------------------------------------------

  /** An IP network: the raw address bytes and its two printed forms (address alone,
      and address with prefix length). Printing is not modelled; the texts are given. */
  datatype IpNet = IpNet(ip: seq<bv8>, ipText: string, cidrText: string)

  /** What Go prints for a nil *net.IPNet. */
  const NilIpNetText: string := "<nil>"

  /** The printed form of a possibly-nil IP network. */
  function IpNetText(n: Option<IpNet>): string
  {
    if n.Some? then n.value.cidrText else NilIpNetText
  }

  datatype Interface = Interface(mac: Option<string>, address: Option<IpNet>, addressIPv6: Option<IpNet>)

  datatype Sandbox = Sandbox(containerId: string)

  datatype EndpointInfo = EndpointInfo(sandbox: Option<Sandbox>, iface: Option<Interface>)

  datatype Endpoint = Endpoint(id: string, name: string, info: Option<EndpointInfo>)

  /** A pool as configured by the user (libnetwork's IpamConf). */
  datatype IpamConf = IpamConf(preferredPool: string, subPool: string, gateway: string,
                               auxAddresses: map<string, string>)

  /** A pool as allocated by the IPAM driver at run time (libnetwork's IpamInfo). */
  datatype IpamInfo = IpamInfo(pool: Option<IpNet>, gateway: Option<IpNet>)

  /** A gossip peer (networkdb's PeerInfo). */
  datatype PeerEntry = PeerEntry(name: string, ip: string)

  datatype Task = Task(name: string, endpointId: string, endpointIp: string, info: map<string, string>)

  datatype ServiceInfo = ServiceInfo(vip: string, ports: seq<string>, localLBIndex: int, tasks: seq<Task>)

  /** Everything `Network.Info()` reports. `created` stands for the creation timestamp. */
  datatype NetworkInfo = NetworkInfo(
    scope: string,
    created: int,
    ipv6Enabled: bool,
    internal: bool,
    attachable: bool,
    ingress: bool,
    configOnly: bool,
    configFrom: string,
    driverOptions: map<string, string>,
    labels: map<string, string>,
    ipamDriver: string,
    ipamOptions: map<string, string>,
    ipv4Conf: seq<IpamConf>,
    ipv6Conf: seq<IpamConf>,
    ipv4Info: seq<IpamInfo>,
    ipv6Info: seq<IpamInfo>,
    peers: seq<PeerEntry>,
    services: map<string, ServiceInfo>)

  /** A network of the local backend. */
  datatype LocalNetwork = LocalNetwork(id: string, name: string, networkType: string,
                                       info: NetworkInfo, endpoints: seq<Endpoint>)

  // ---------------------------------------------------------------------------
  // Public resource views (types.NetworkResource and its parts). The cluster
  // backend already returns networks in this shape.
  // ---------------------------------------------------------------------------

  datatype IpamConfig = IpamConfig(subnet: string, ipRange: string, gateway: string,
                                   auxAddress: map<string, string>)

  datatype Ipam = Ipam(driver: string, options: map<string, string>, config: seq<IpamConfig>)

  datatype EndpointResource = EndpointResource(endpointId: string, name: string, macAddress: string,
                                               ipv4Address: string, ipv6Address: string)

  datatype PeerInfo = PeerInfo(name: string, ip: string)

  /** `services` is `None` when the view was not built verbosely (the field stays nil). */
  datatype NetworkResource = NetworkResource(
    name: string,
    id: string,
    created: int,
    scope: string,
    driver: string,
    enableIPv6: bool,
    internal: bool,
    attachable: bool,
    ingress: bool,
    ipam: Ipam,
    containers: map<string, EndpointResource>,
    options: map<string, string>,
    labels: map<string, string>,
    configOnly: bool,
    configFrom: string,
    peers: seq<PeerInfo>,
    services: Option<map<string, ServiceInfo>>)

  /** The zero-value resource. */
  const EmptyResource: NetworkResource :=
    NetworkResource("", "", 0, "", "", false, false, false, false, Ipam("", map[], []),
                    map[], map[], map[], false, "", [], None)

  // ---------------------------------------------------------------------------
  // Errors
  // ---------------------------------------------------------------------------

  /** Errors a backend call can return. The two named ones are the libnetwork error
      types the create handler tells apart; every other error is `OtherError`. */
  datatype BackendError =
    | NetworkNameError(networkName: string)
    | ManagerRedirectError
    | OtherError(message: string)

  /** On which kind of match an ambiguous lookup failed. */
  datatype Basis = ByName | ByPrefix

  /** The errors the network routes report. An ambiguous term is an invalid parameter, an
      unknown one is not found, a taken name is a conflict; a backend's error is passed
      on unchanged, with whatever class the backend gave it. */
  datatype Error =
    | Ambiguous(term: string, matches: nat, basis: Basis)
    | NotFound(term: string)
    | Conflict(conflictName: string)
    | Backend(cause: BackendError)

  /** `strings.HasPrefix(s, prefix)`. */
  predicate HasPrefix(s: string, prefix: string)
  {
    |prefix| <= |s| && s[..|prefix|] == prefix
  }
}
