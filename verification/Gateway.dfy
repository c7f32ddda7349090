/** The gateway spec and the checks the operator makes before it renders anything:
    internal/controller/gateway.go, specProblem, and the addresses other components derive from peerCIDR. */
module Gateway {
  import opened Sequences
  import opened Ipv4
  import opened Ipam

  /** The text of a CIDR field. An IPv4 prefix has one accepted spelling, host bits included. */
  datatype Cidr = NoCidr | Malformed(text: string) | V6(text: string, bits: nat) | V4(prefix: Prefix)

  datatype NamespacePolicy = NoPolicy | FromAll | FromSame

  datatype Spec = Spec(
    name: string,
    ns: string,
    peerCIDR: Cidr,
    localCIDRs: seq<Cidr>,
    allowed: NamespacePolicy)

  datatype Reason =
    | InvalidPeerCIDR
    | ProbeAddressInPeerCIDR
    | InvalidLocalCIDRs
    | PeerCIDROverlapsLocalCIDRs
    | ProbeAddressInLocalCIDRs

  /** 192.0.2.1, an address of TEST-NET-1 (section 3 of RFC 5737). */
  const PROBE: Addr := Dotted(192, 0, 2, 1)

  /** 10.8.0.0/24. */
  const DEFAULT_PEER_CIDR: Cidr := V4(Prefix(Dotted(10, 8, 0, 0), 24))

  function EffectivePeerCIDR(gw: Spec): Cidr {
    if gw.peerCIDR == NoCidr then DEFAULT_PEER_CIDR else gw.peerCIDR
  }

  predicate CanonicalV4(c: Cidr) {
    c.V4? && c.prefix == Masked(c.prefix)
  }

  predicate ValidPeerCIDR(c: Cidr) {
    CanonicalV4(c) && c.prefix.bits <= 30
  }

  function InvalidLocal(cidrs: seq<Cidr>): Option<nat> {
    IndexFunc(cidrs, (c: Cidr) => !CanonicalV4(c))
  }

  function OverlappingLocal(peer: Cidr, cidrs: seq<Cidr>): Option<nat> {
    IndexFunc(cidrs, (c: Cidr) => peer.V4? && c.V4? && Overlaps(peer.prefix, c.prefix))
  }

  function ProbeLocal(cidrs: seq<Cidr>): Option<nat> {
    IndexFunc(cidrs, (c: Cidr) => c.V4? && Contains(c.prefix, PROBE))
  }

  /** specProblem, in its order; the gluetun environment checks are not part of this model. */
  function SpecProblem(gw: Spec): Option<Reason> {
    var peer := EffectivePeerCIDR(gw);
    if !ValidPeerCIDR(peer) then Some(InvalidPeerCIDR)
    else if Contains(peer.prefix, PROBE) then Some(ProbeAddressInPeerCIDR)
    else if InvalidLocal(gw.localCIDRs).Some? then Some(InvalidLocalCIDRs)
    else if OverlappingLocal(peer, gw.localCIDRs).Some? then Some(PeerCIDROverlapsLocalCIDRs)
    else if ProbeLocal(gw.localCIDRs).Some? then Some(ProbeAddressInLocalCIDRs)
    else None
  }

  predicate Accepted(gw: Spec) {
    SpecProblem(gw).None?
  }

  /** The pool of an accepted gateway. */
  function Pool(gw: Spec): Prefix
    requires Accepted(gw)
  {
    EffectivePeerCIDR(gw).prefix
  }

  /** clusterIPOutside, negated: the Service address lies in some localCIDRs entry. */
  predicate ClusterIPInside(clusterIP: Address, localCIDRs: seq<Cidr>) {
    clusterIP.Ip? && IndexFunc(localCIDRs, (c: Cidr) => c.V4? && Contains(c.prefix, clusterIP.ip)).Some?
  }

  // ---- addresses derived from peerCIDR, each as its own component computes it ----

  /** gatewayIPFromPrefix: the address of the server's wg0; it fails when the network has no successor. */
  function ServerAddress(p: Prefix): Option<Addr> {
    Next(Network(p))
  }

  /** addressUsable: inside the pool, and neither its network nor its first host. */
  predicate AddressUsable(a: Address, p: Prefix) {
    a.Ip? && Contains(p, a.ip) && a.ip != Network(p) && Some(a.ip) != Next(Network(p))
  }

  /** peerProbeSource: the second host, when it lies in the prefix. */
  function ProbeSource(p: Prefix): Option<Addr> {
    match Next(Network(p))
    case None => None
    case Some(first) =>
      match Next(first)
      case None => None
      case Some(second) => if Contains(p, second) then Some(second) else None
  }

  // ---- properties ----

  lemma PoolHasFourAddresses(p: Prefix)
    requires p.bits <= 30
    ensures Size(p) >= 4
    ensures Network(p) + 4 <= 0x1_0000_0000
  {
    Pow2Monotone(2, 32 - p.bits);
    assert Pow2(2) == 4;
    PrefixInterval(p, p.addr);
  }

  /** The usable addresses are exactly the pool without the two reserved ones. */
  lemma UsableIffAllocatable(p: Prefix, a: Address)
    requires p.bits <= 30
    ensures AddressUsable(a, p) <==> a in Block(p) && a !in Reserved(p)
    ensures Elements(Reserved(p)) <= Block(p) && Distinct(Reserved(p))
  {
    PoolHasFourAddresses(p);
    if a.Ip? {
      PrefixInterval(p, a.ip);
    }
  }

  /** Every component derives the same first host, and the readiness probe speaks as the first address
      the allocator would hand out. */
  lemma GatewayAddressesAgree(gw: Spec)
    requires Accepted(gw)
    ensures var p := Pool(gw);
      && ServerAddress(p) == Some(Network(p) + 1)
      && Reserved(p) == [Ip(Network(p)), Ip(ServerAddress(p).value)]
      && !AddressUsable(Ip(ServerAddress(p).value), p)
      && ProbeSource(p) == Some(Network(p) + 2)
      && AddressUsable(Ip(ProbeSource(p).value), p)
      && LeastFree(p, Reserved(p)) == ProbeSource(p)
  {
    var p := Pool(gw);
    PoolHasFourAddresses(p);
    PrefixInterval(p, Network(p) + 1);
    PrefixInterval(p, Network(p) + 2);
    FirstAllocatable(p);
  }

  lemma FirstAllocatable(p: Prefix)
    requires p.bits <= 30
    ensures Network(p) + 2 < 0x1_0000_0000
    ensures LeastFree(p, Reserved(p)) == Some(Network(p) + 2)
  {
    PoolHasFourAddresses(p);
    var first: Addr, second: Addr := Network(p) + 1, Network(p) + 2;
    PrefixInterval(p, second);
    LeastFreeIsLeast(p, Reserved(p));
    assert Reserved(p) == [Ip(Network(p)), Ip(first)];
    var least := LeastFree(p, Reserved(p));
    assert Ip(second) !in Reserved(p);
    PrefixInterval(p, least.value);
  }

  /** An accepted spec keeps the pool, the cluster networks and the probe address apart. */
  lemma NetworksApart(gw: Spec, a: Addr, i: nat)
    requires Accepted(gw) && i < |gw.localCIDRs|
    ensures gw.localCIDRs[i].V4?
    ensures Contains(Pool(gw), a) ==> !Contains(gw.localCIDRs[i].prefix, a)
    ensures !Contains(Pool(gw), PROBE) && !Contains(gw.localCIDRs[i].prefix, PROBE)
  {
    var c := gw.localCIDRs[i];
    assert c in gw.localCIDRs;
    OverlapsIffShared(Pool(gw), c.prefix);
  }

  /** Which problem is reported: the first of the five, in this order, that the networks have. */
  lemma FirstProblemReported(gw: Spec)
    ensures var peer, local, probe := EffectivePeerCIDR(gw), gw.localCIDRs, Dotted(192, 0, 2, 1);
      var badPeer := !(peer.V4? && Network(peer.prefix) == peer.prefix.addr && peer.prefix.bits <= 30);
      var badLocal := exists c :: c in local && !(c.V4? && Network(c.prefix) == c.prefix.addr);
      SpecProblem(gw) ==
        if badPeer then Some(InvalidPeerCIDR)
        else if Contains(peer.prefix, probe) then Some(ProbeAddressInPeerCIDR)
        else if badLocal then Some(InvalidLocalCIDRs)
        else if exists c, a: Addr :: c in local && c.V4? && Contains(peer.prefix, a) && Contains(c.prefix, a) then Some(PeerCIDROverlapsLocalCIDRs)
        else if exists c :: c in local && c.V4? && Contains(c.prefix, probe) then Some(ProbeAddressInLocalCIDRs)
        else None
  {
    var peer := EffectivePeerCIDR(gw);
    if peer.V4? {
      forall c | c in gw.localCIDRs && c.V4?
        ensures Overlaps(peer.prefix, c.prefix) <==>
                exists a: Addr :: Contains(peer.prefix, a) && Contains(c.prefix, a)
      {
        OverlapsIffShared(peer.prefix, c.prefix);
      }
    }
  }

  /** Acceptance, stated on the networks themselves rather than on the order of the checks. */
  lemma AcceptedIff(gw: Spec)
    ensures Accepted(gw) <==>
      var peer := if gw.peerCIDR == NoCidr then V4(Prefix(Dotted(10, 8, 0, 0), 24)) else gw.peerCIDR;
      && peer.V4? && Network(peer.prefix) == peer.prefix.addr && peer.prefix.bits <= 30
      && !Contains(peer.prefix, Dotted(192, 0, 2, 1))
      && forall c :: c in gw.localCIDRs ==>
           && c.V4? && Network(c.prefix) == c.prefix.addr
           && !Contains(c.prefix, Dotted(192, 0, 2, 1))
           && !exists a: Addr :: Contains(peer.prefix, a) && Contains(c.prefix, a)
  {
    var peer := EffectivePeerCIDR(gw);
    if ValidPeerCIDR(peer) && InvalidLocal(gw.localCIDRs).None? {
      forall c | c in gw.localCIDRs
        ensures Overlaps(peer.prefix, c.prefix) <==>
                exists a: Addr :: Contains(peer.prefix, a) && Contains(c.prefix, a)
      {
        OverlapsIffShared(peer.prefix, c.prefix);
      }
    }
  }
}
