/** The tunnel a client reads from its peer's status (internal/sidecar/tunnel.go), and why the endpoint it dials
    stays out of that tunnel. */
module Tunnel {
  import opened Sequences
  import opened Ipv4
  import opened Gateway
  import opened Peers
  import opened Identity
  import opened ClientRoutes
  import opened ClientSafety

  datatype Tunnel = Tunnel(address: Prefix, serverKey: nat, endpoint: Addr, local: seq<Cidr>)

  /** desiredTunnel's answers: wait for the operator, give up on a value that does not parse, or a tunnel. */
  datatype Desired = Waiting | Unusable | Configured(tunnel: Tunnel)

  // ---- specification ----

  /** A prefix of either family that does not cover every address. */
  predicate LocalEntry(c: Cidr) {
    (c.V4? && c.prefix.bits != 0) || (c.V6? && c.bits != 0)
  }

  /** Prefix.Masked; the host bits of an IPv6 prefix are part of its text. */
  function MaskedCidr(c: Cidr): Cidr {
    if c.V4? then V4(Masked(c.prefix)) else c
  }

  function Parsed(cidrs: seq<Cidr>): Option<seq<Cidr>> {
    if cidrs == [] then Some([])
    else
      var last := cidrs[|cidrs| - 1];
      var front := Parsed(cidrs[..|cidrs| - 1]);
      if front.None? || !LocalEntry(last) then None else Some(front.value + [MaskedCidr(last)])
  }

  /** The IPv4 prefixes of a list, which the IPv4 routing pass installs. */
  function V4Part(local: seq<Cidr>): seq<Prefix> {
    if local == [] then [] else
    var last := local[|local| - 1];
    V4Part(local[..|local| - 1]) + if last.V4? then [last.prefix] else []
  }

  function DesiredTunnel(s: Status): Desired {
    if s.address == Unset || s.endpoint == NoEndpoint || s.serverKey == NoKey || s.localCIDRs == [] then Waiting
    else if !s.address.Ip? || !s.endpoint.host.Ip? || !s.serverKey.Key? then Unusable
    else match Parsed(s.localCIDRs)
      case None => Unusable
      case Some(local) => Desired.Configured(Tunnel(Prefix(s.address.ip, 32), s.serverKey.key, s.endpoint.host.ip, local))
  }

  /** parseLocalCIDRs: the entries, masked, in order; an entry that does not parse, or that covers every address, is
      an error. */
  method ParseLocalCIDRs(cidrs: seq<Cidr>) returns (r: Option<seq<Cidr>>)
    ensures r == Parsed(cidrs)
    ensures r.None? <==> exists c :: c in cidrs && !LocalEntry(c)
    ensures r.Some? ==> |r.value| == |cidrs| && forall i :: 0 <= i < |cidrs| ==> r.value[i] == MaskedCidr(cidrs[i])
  {
    var local := [];
    for i := 0 to |cidrs|
      invariant Parsed(cidrs[..i]) == Some(local) && |local| == i
      invariant forall j :: 0 <= j < i ==> LocalEntry(cidrs[j]) && local[j] == MaskedCidr(cidrs[j])
    {
      assert cidrs[..i + 1][..i] == cidrs[..i];
      if !LocalEntry(cidrs[i]) {
        ParsedPrefix(cidrs, i + 1);
        assert cidrs[i] in cidrs;
        return None;
      }
      local := local + [MaskedCidr(cidrs[i])];
    }
    assert cidrs[..|cidrs|] == cidrs;
    r := Some(local);
  }

  lemma {:induction false} ParsedPrefix(cidrs: seq<Cidr>, k: nat)
    requires k <= |cidrs| && Parsed(cidrs[..k]).None?
    ensures Parsed(cidrs).None?
  {
    if k == |cidrs| {
      assert cidrs[..k] == cidrs;
    } else {
      assert cidrs[..|cidrs| - 1][..k] == cidrs[..k];
      ParsedPrefix(cidrs[..|cidrs| - 1], k);
    }
  }

  // ---- properties ----

  lemma MaskedContains(p: Prefix, a: Addr)
    ensures Contains(Masked(p), a) <==> Contains(p, a)
  {
    NetworkOfMasked(p);
    PrefixInterval(p, a);
    PrefixInterval(Masked(p), a);
  }

  /** The parsed list is one the routing pass handles, and it covers exactly the addresses the status lists; without
      IPv6 entries nothing is left out of it. */
  lemma {:induction false} ParsedFacts(cidrs: seq<Cidr>, a: Addr)
    requires Parsed(cidrs).Some?
    ensures var local := V4Part(Parsed(cidrs).value);
      && ProperLocal(local)
      && ((exists p :: p in local && Contains(p, a)) <==> exists c :: c in cidrs && c.V4? && Contains(c.prefix, a))
      && ((forall c :: c in cidrs ==> c.V4?) ==> |local| == |cidrs|)
  {
    if cidrs != [] {
      var front, last := cidrs[..|cidrs| - 1], cidrs[|cidrs| - 1];
      ParsedFacts(front, a);
      assert cidrs == front + [last];
      V4Snoc(Parsed(front).value, MaskedCidr(last));
      OneMoreCovers(V4Part(Parsed(front).value), last, a);
      CoveredBy(front, last, a);
    }
  }

  lemma V4Snoc(local: seq<Cidr>, c: Cidr)
    ensures V4Part(local + [c]) == V4Part(local) + if c.V4? then [c.prefix] else []
  {
    assert (local + [c])[..|local|] == local;
  }

  lemma OneMoreCovers(local: seq<Prefix>, c: Cidr, a: Addr)
    ensures var more := local + if c.V4? then [Masked(c.prefix)] else [];
      (exists q :: q in more && Contains(q, a)) <==> (exists q :: q in local && Contains(q, a)) || (c.V4? && Contains(c.prefix, a))
  {
    if c.V4? {
      MaskedContains(c.prefix, a);
      OneMore(local, Masked(c.prefix), a);
    } else {
      assert local + [] == local;
    }
  }

  lemma OneMore(local: seq<Prefix>, p: Prefix, a: Addr)
    ensures (exists q :: q in local + [p] && Contains(q, a)) <==> (exists q :: q in local && Contains(q, a)) || Contains(p, a)
  {
    assert forall q :: q in local + [p] <==> q in local || q == p;
    assert p in local + [p];
  }

  lemma CoveredBy(front: seq<Cidr>, last: Cidr, a: Addr)
    ensures (exists c :: c in front + [last] && c.V4? && Contains(c.prefix, a)) <==>
      (exists c :: c in front && c.V4? && Contains(c.prefix, a)) || (last.V4? && Contains(last.prefix, a))
  {
    assert forall c :: c in front + [last] <==> c in front || c == last;
    assert last in front + [last];
  }

  /** A tunnel exists exactly when all four fields are published and parse, and it is what they say: the published
      address and no other, the published server key and endpoint, and the published networks, masked, in order. */
  lemma TunnelIsPublished(s: Status)
    ensures DesiredTunnel(s).Waiting? <==>
      s.address == Unset || s.endpoint == NoEndpoint || s.serverKey == NoKey || s.localCIDRs == []
    ensures DesiredTunnel(s).Configured? <==>
      && s.address.Ip? && s.endpoint.Host? && s.endpoint.host.Ip? && s.serverKey.Key? && s.localCIDRs != []
      && forall c :: c in s.localCIDRs ==> (c.V4? && c.prefix.bits > 0) || (c.V6? && c.bits > 0)
    ensures DesiredTunnel(s).Configured? ==>
      var t := DesiredTunnel(s).tunnel;
      && (forall a: Addr :: Contains(t.address, a) <==> s.address == Ip(a))
      && Key(t.serverKey) == s.serverKey && Host(Ip(t.endpoint)) == s.endpoint
      && |t.local| == |s.localCIDRs|
      && forall i :: 0 <= i < |t.local| ==>
           var c := s.localCIDRs[i];
           t.local[i] == if c.V4? then V4(Prefix(Network(c.prefix), c.prefix.bits)) else c
  {
    ParsedEntries(s.localCIDRs);
    if DesiredTunnel(s).Configured? {
      var t := DesiredTunnel(s).tunnel;
      forall a: Addr
        ensures Contains(t.address, a) <==> s.address == Ip(a)
      {
        PrefixInterval(t.address, a);
      }
    }
  }

  lemma {:induction false} ParsedEntries(cidrs: seq<Cidr>)
    ensures Parsed(cidrs).Some? <==> forall c :: c in cidrs ==> LocalEntry(c)
    ensures Parsed(cidrs).Some? ==>
      |Parsed(cidrs).value| == |cidrs| && forall i :: 0 <= i < |cidrs| ==> Parsed(cidrs).value[i] == MaskedCidr(cidrs[i])
  {
    if cidrs != [] {
      ParsedEntries(cidrs[..|cidrs| - 1]);
      assert cidrs == cidrs[..|cidrs| - 1] + [cidrs[|cidrs| - 1]];
    }
  }

  /** A client that gets a tunnel from a sound status dials an address inside its local list, and that list is
      neither empty nor able to cover everything. */
  lemma EndpointIsLocal(s: Status)
    requires Sound(s) && DesiredTunnel(s).Configured?
    ensures var t := DesiredTunnel(s).tunnel;
      && |V4Part(t.local)| == |s.localCIDRs| && V4Part(t.local) != [] && ProperLocal(V4Part(t.local))
      && exists p :: p in V4Part(t.local) && Contains(p, t.endpoint)
  {
    var host := s.endpoint.host.ip;
    ParsedFacts(s.localCIDRs, host);
    var i := IndexFunc(s.localCIDRs, (c: Cidr) => c.V4? && Contains(c.prefix, host)).value;
    assert s.localCIDRs[i] in s.localCIDRs;
  }

  /** The endpoint never enters the tunnel: for every sound status, once the client's pass over its local
      list has completed, the kernel's route to the endpoint is not wg0, provided nothing but a default was on it. */
  lemma EndpointAvoidsTunnel(s: Status, t0: Table, have: seq<Route>, wg: nat) returns (best: Slot)
    requires Sound(s) && DesiredTunnel(s).Configured?
    requires WellKeyed(t0) && Dumps(have, t0) && Planned(have, wg, V4Part(DesiredTunnel(s).tunnel.local)).Some?
    requires Planned(have, wg, V4Part(DesiredTunnel(s).tunnel.local)).value.gwLink != wg
    requires forall k :: k in t0 && !IsDefault(t0[k]) ==> t0[k].link != wg
    ensures var plan := Planned(have, wg, V4Part(DesiredTunnel(s).tunnel.local)).value;
      var t := DoAll(t0, wg, plan, Ops(plan));
      Chosen(t, DesiredTunnel(s).tunnel.endpoint, best) && forall k :: Chosen(t, DesiredTunnel(s).tunnel.endpoint, k) ==> t[k].link != wg
  {
    EndpointIsLocal(s);
    var tunnel := DesiredTunnel(s).tunnel;
    var local := V4Part(tunnel.local);
    var plan := Planned(have, wg, local).value;
    var p :| p in local && Contains(p, tunnel.endpoint);
    PassIsFinal(t0, have, wg, local);
    best := LocalStaysLocal(t0, wg, plan, DoAll(t0, wg, plan, Ops(plan)), tunnel.endpoint, p);
  }
}
