/** From the operator's runs to the device: whatever the cluster went through, the state.json it leads to can be
    applied to any device, and cryptokey routing then takes each peer's address to that peer's key alone; and whatever
    status a client reads, the endpoint in it stays out of the client's own tunnel. */
module EndToEnd {
  import opened Sequences
  import opened Ipv4
  import opened Gateway
  import opened Peers
  import opened StateJson
  import opened Operator
  import opened Safety
  import opened Convergence
  import opened Fixpoint
  import opened Statuses
  import Device
  import Identity
  import Tunnel
  import ClientRoutes
  import ClientSafety

  lemma RunsLeadToExactDevices(c: Cluster, events: seq<Event>, d: Device.Device,
      view: seq<Device.DevicePeer>, cs: seq<Device.PeerConfig>, view': seq<Device.DevicePeer>, e: Entry)
    requires SafeSecret(c.secret) && PossibleRun(c, events)
    requires var secret := Run(c, events).secret; secret.Some? && secret.value.state.Some? && e in secret.value.state.value.peers
    requires Device.Valid(d) && Device.Reports(view, d)
    requires Device.Lists(cs, Device.Configs(Run(c, events).secret.value.state.value.peers, view))
    requires Device.Reports(view', Device.ConfigureAll(d, cs))
    ensures !Device.Fallible(Run(c, events).secret.value.state.value.peers, view)
    ensures var after := Device.ConfigureAll(d, cs);
      && e.key.Key? && e.address.Ip?
      && e.key.key in after.peers
      && Device.Allowed(after, e.key.key) == {Device.HostRoute(e.address.ip)}
      && (forall a: Addr :: Device.Reaches(after, e.key.key, a) <==> e.address == Ip(a))
      && (forall key :: key in after.peers ==> exists f :: f in Run(c, events).secret.value.state.value.peers && f.key == Key(key))
      && Device.Configs(Run(c, events).secret.value.state.value.peers, view') == map[]
  {
    StateSafetyOverRuns(c, events);
    var s := Run(c, events).secret.value.state.value;
    Device.SafeIsGood(s);
    Device.NeverFails(s.peers, view);
    Device.SyncIsExact(d, s.peers, view, cs, view');
    Device.WantEntries(s.peers);
    forall a: Addr
      ensures Device.Reaches(Device.ConfigureAll(d, cs), e.key.key, a) <==> e.address == Ip(a)
    {
      AssignsOnlyOwn(s.peers, e, a);
    }
  }

  lemma AssignsOnlyOwn(entries: seq<Entry>, e: Entry, a: Addr)
    requires Device.GoodEntries(entries) && e in entries
    ensures Device.Assigns(entries, e.key.key, a) <==> e.address == Ip(a)
  {
    var i :| 0 <= i < |entries| && entries[i] == e;
    if f :| f in entries && f.key == Key(e.key.key) && f.address == Ip(a) {
      var j :| 0 <= j < |entries| && entries[j] == f;
    }
  }

  /** s is the status the operator left on the peer id after the run. */
  ghost predicate Published(c: Cluster, events: seq<Event>, id: PeerId, s: Status) {
    && Identity.AllSound(c.peers)
    && (forall i :: 0 <= i < |events| ==> Possible(events[i]) && Identity.ListsThePast(c, events, i))
    && id in Run(c, events).peers && Run(c, events).peers[id].status == s
  }

  lemma PublishedIsSound(c: Cluster, events: seq<Event>, id: PeerId, s: Status)
    requires Published(c, events, id, s)
    ensures Identity.Sound(s)
  {
    Identity.EndpointsStayLocal(c, events, |events|);
    assert events[..|events|] == events;
  }

  /** The endpoint never enters the tunnel: whatever run the operator made, with stale lists, lost writes and changing
      specs, once a client has made a pass over the local list it read, which is then all IPv4, the kernel's route to
      the endpoint it read is not wg0, provided nothing but a default was on wg0. */
  lemma RunsKeepEndpointsOut(c: Cluster, events: seq<Event>, id: PeerId, s: Status, t0: ClientRoutes.Table, have: seq<ClientRoutes.Route>, wg: nat)
    returns (best: ClientRoutes.Slot)
    requires Published(c, events, id, s) && Tunnel.DesiredTunnel(s).Configured?
    requires ClientRoutes.WellKeyed(t0) && ClientRoutes.Dumps(have, t0)
    requires forall k :: k in t0 && !ClientRoutes.IsDefault(t0[k]) ==> t0[k].link != wg
    requires var local := Tunnel.V4Part(Tunnel.DesiredTunnel(s).tunnel.local);
      ClientRoutes.Planned(have, wg, local).Some? && ClientRoutes.Planned(have, wg, local).value.gwLink != wg
    ensures var tunnel := Tunnel.DesiredTunnel(s).tunnel;
      var plan := ClientRoutes.Planned(have, wg, Tunnel.V4Part(tunnel.local)).value;
      var t := ClientRoutes.DoAll(t0, wg, plan, ClientRoutes.Ops(plan));
      && |Tunnel.V4Part(tunnel.local)| == |s.localCIDRs|
      && ClientSafety.Chosen(t, tunnel.endpoint, best)
      && forall k :: ClientSafety.Chosen(t, tunnel.endpoint, k) ==> t[k].link != wg
  {
    PublishedIsSound(c, events, id, s);
    Tunnel.EndpointIsLocal(s);
    best := Tunnel.EndpointAvoidsTunnel(s, t0, have, wg);
  }

  // ---- the client and the server agree ----

  /** Every network of an accepted gateway is one a client accepts. */
  lemma AcceptedIsLocal(gw: Spec, cidr: Cidr)
    requires Accepted(gw) && cidr in gw.localCIDRs
    ensures cidr.V4? && cidr.prefix.bits > 0
  {
    AcceptedIff(gw);
    if cidr.V4? && cidr.prefix.bits == 0 {
      ZeroLengthContainsAll(cidr.prefix, Dotted(192, 0, 2, 1));
    }
  }

  /** next, with the state s, is what a good reconcile of c leaves. */
  ghost predicate Leaves(c: Cluster, gw: Spec, w: World, next: Cluster, s: State) {
    Good(c, gw, w) && next == Reconciled(c, gw, w) && next.secret.Some? && next.secret.value.state == Some(s)
  }

  lemma ListedIsServed(c: Cluster, gw: Spec, w: World, next: Cluster, s: State, e: Entry)
    requires Leaves(c, gw, w, next, s) && e in s.peers
    ensures e.id in c.peers && e.id in next.peers && e == EntryOf(next.peers[e.id])
    ensures ReadsServed(gw, w.clusterIP, c.secret.value.publicKey, c.peers[e.id], next.peers[e.id].status)
  {
    StateAfter(c, gw, w);
    GoodResult(c, gw, w);
    EveryPeerReads(c, gw, w, e.id);
  }

  /** After a good reconcile, the client of every peer that state.json lists gets a tunnel, and it is this gateway's:
      the listed address and no other, the key of the Secret, the Service address, and the gateway's own networks. */
  lemma ListedPeersGetTunnels(c: Cluster, gw: Spec, w: World, next: Cluster, s: State, e: Entry)
    requires Leaves(c, gw, w, next, s) && c.secret.value.publicKey.Key? && e in s.peers
    ensures e.id in next.peers
    ensures var desired := Tunnel.DesiredTunnel(next.peers[e.id].status);
      && desired.Configured?
      && (forall a: Addr :: Contains(desired.tunnel.address, a) <==> e.address == Ip(a))
      && Key(desired.tunnel.serverKey) == c.secret.value.publicKey
      && Ip(desired.tunnel.endpoint) == w.clusterIP
      && desired.tunnel.local == gw.localCIDRs
  {
    ListedIsServed(c, gw, w, next, s, e);
    ServedGetsTunnel(gw, w.clusterIP, c.secret.value.publicKey, c.peers[e.id], next.peers[e.id].status);
  }

  lemma ServedGetsTunnel(gw: Spec, host: Address, serverKey: PublicKey, p: Peer, s: Status)
    requires Accepted(gw) && ClusterIPInside(host, gw.localCIDRs) && serverKey.Key?
    requires ReadsServed(gw, host, serverKey, p, s)
    ensures var desired := Tunnel.DesiredTunnel(s);
      && desired.Configured?
      && (forall a: Addr :: Contains(desired.tunnel.address, a) <==> s.address == Ip(a))
      && Key(desired.tunnel.serverKey) == serverKey && Ip(desired.tunnel.endpoint) == host
      && desired.tunnel.local == gw.localCIDRs
  {
    forall cidr | cidr in gw.localCIDRs
      ensures cidr.V4? && cidr.prefix.bits > 0 && Network(cidr.prefix) == cidr.prefix.addr
    {
      AcceptedIsLocal(gw, cidr);
      AcceptedIff(gw);
    }
    Tunnel.TunnelIsPublished(s);
    var local := Tunnel.DesiredTunnel(s).tunnel.local;
    assert forall i :: 0 <= i < |local| ==> gw.localCIDRs[i] in gw.localCIDRs && local[i] == gw.localCIDRs[i];
  }

  /** And the server's device, once the agent has synced that state, sends to each such client's key exactly the packets
      for the address the client gave its own end of the tunnel. */
  lemma TunnelEndsMeet(c: Cluster, gw: Spec, w: World, next: Cluster, s: State, e: Entry, d: Device.Device,
      view: seq<Device.DevicePeer>, cs: seq<Device.PeerConfig>, view': seq<Device.DevicePeer>, a: Addr)
    requires Leaves(c, gw, w, next, s) && c.secret.value.publicKey.Key? && SafeSecret(c.secret) && e in s.peers
    requires Device.Valid(d) && Device.Reports(view, d) && Device.Lists(cs, Device.Configs(s.peers, view))
    requires Device.Reports(view', Device.ConfigureAll(d, cs))
    ensures e.id in next.peers && next.peers[e.id].key.Key?
    ensures var p := next.peers[e.id];
      && Tunnel.DesiredTunnel(p.status).Configured?
      && (Contains(Tunnel.DesiredTunnel(p.status).tunnel.address, a) <==>
            Device.Reaches(Device.ConfigureAll(d, cs), p.key.key, a))
  {
    ListedIsServed(c, gw, w, next, s, e);
    ListedPeersGetTunnels(c, gw, w, next, s, e);
    GoodStateIsSafe(c, gw, w, next, s);
    SyncedReaches(s, e, d, view, cs, view', a);
  }

  lemma GoodStateIsSafe(c: Cluster, gw: Spec, w: World, next: Cluster, s: State)
    requires Leaves(c, gw, w, next, s) && SafeSecret(c.secret)
    ensures Safe(s)
  {
    GoodReconciled(c, gw, w);
    AdmittedFacts(c, gw, w);
    PassRendersSafeState(gw, ServedKeys(c.secret), w.listed, w.answers, c.secret.value.privateKey);
  }

  lemma SyncedReaches(s: State, e: Entry, d: Device.Device, view: seq<Device.DevicePeer>, cs: seq<Device.PeerConfig>,
      view': seq<Device.DevicePeer>, a: Addr)
    requires Safe(s) && e in s.peers && Device.Valid(d) && Device.Reports(view, d)
    requires Device.Lists(cs, Device.Configs(s.peers, view)) && Device.Reports(view', Device.ConfigureAll(d, cs))
    ensures e.key.Key? && (Device.Reaches(Device.ConfigureAll(d, cs), e.key.key, a) <==> e.address == Ip(a))
  {
    Device.SafeIsGood(s);
    Device.SyncIsExact(d, s.peers, view, cs, view');
    AssignsOnlyOwn(s.peers, e, a);
  }
}
