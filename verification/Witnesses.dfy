/** The hypotheses of the main theorems are met: by some accepted spec, on every accepted gateway whose localCIDRs
    leave room for a Service address, and from every cluster that has a Secret. */
module Witnesses {
  import opened Sequences
  import opened Ipv4
  import opened Gateway
  import opened Peers
  import opened StateJson
  import opened Pass
  import opened Operator
  import opened Freshness
  import opened Stability
  import opened Serving
  import opened SkippedRelease
  import opened Convergence
  import opened Fixpoint
  import opened Tightness

  /** The default pool, 10.8.0.0/24, beside the Service range 10.96.0.0/12. */
  const EXAMPLE := Spec("gateway", "tunnels", NoCidr, [V4(Prefix(0x0A60_0000, 12))], FromAll)

  lemma ExampleSizes()
    ensures Pow2(8) == 256 && Pow2(20) == 0x10_0000
  {
    assert Pow2(4) == 16;
    Pow2Sum(4, 4);
    Pow2Sum(8, 8);
    Pow2Sum(16, 4);
  }

  lemma ExampleAccepted()
    ensures Accepted(EXAMPLE) && EXAMPLE.localCIDRs != []
  {
    ExampleSizes();
    var pool, local := Prefix(0x0A08_0000, 24), Prefix(0x0A60_0000, 12);
    assert Size(pool) == 256 && Size(local) == 0x10_0000;
    forall a: Addr | Contains(pool, a) && Contains(local, a)
      ensures false
    {
      PrefixInterval(pool, a);
      PrefixInterval(local, a);
    }
    forall c | c in EXAMPLE.localCIDRs
      ensures c == V4(local)
    {
    }
    AcceptedIff(EXAMPLE);
  }

  /** The API stores an object under its own name. */
  ghost predicate Keyed(store: Store) {
    forall id :: id in store ==> store[id].id == id
  }

  lemma {:induction false} Listing(store: Store) returns (listed: seq<Peer>)
    requires Keyed(store)
    ensures Lists(listed, store)
    decreases |store|
  {
    if store == map[] {
      listed := [];
    } else {
      var id :| id in store;
      var rest := Listing(store - {id});
      listed := rest + [store[id]];
      forall id' | id' in store
        ensures store[id'] in listed
      {
        assert id' == id || id' in store - {id};
      }
      assert forall p :: p in rest ==> p.id != id;
    }
  }

  /** The Service address used below: any address of the first localCIDRs entry will do. */
  function ServiceAddress(gw: Spec): Address
    requires Accepted(gw) && gw.localCIDRs != []
  {
    assert gw.localCIDRs[0] in gw.localCIDRs;
    Ip(gw.localCIDRs[0].prefix.addr)
  }

  lemma GoodWorld(gw: Spec, c: Cluster) returns (w: World)
    requires Accepted(gw) && gw.localCIDRs != [] && Keyed(c.peers) && c.secret.Some?
    ensures Good(c, gw, w) && w.clusterIP == ServiceAddress(gw)
  {
    var listed := Listing(c.peers);
    assert gw.localCIDRs[0] in gw.localCIDRs;
    w := World(true, ServiceAddress(gw), true, c.secret, listed, ALL_WRITTEN, c.secret, c.secret.value, true, true, ALL_WRITTEN);
  }

  lemma GoodKeepsKeyed(gw: Spec, c: Cluster, w: World)
    requires Good(c, gw, w)
    ensures Keyed(Reconciled(c, gw, w).peers) && Reconciled(c, gw, w).secret.Some?
  {
    var next := Reconciled(c, gw, w);
    GoodResult(c, gw, w);
    StateAfter(c, gw, w);
    forall id | id in next.peers
      ensures next.peers[id].id == id
    {
      ResultSpec(c, gw, w, next, id);
    }
  }

  /** Every cluster with a Secret reaches, in two reconciles that exist, a cluster no good reconcile changes. */
  lemma EveryClusterSettles(gw: Spec, c: Cluster) returns (w1: World, w2: World)
    requires Accepted(gw) && gw.localCIDRs != [] && Keyed(c.peers) && c.secret.Some?
    ensures Good(c, gw, w1) && Good(Reconciled(c, gw, w1), gw, w2)
    ensures var c2 := Reconciled(Reconciled(c, gw, w1), gw, w2);
      forall w :: Good(c2, gw, w) && w.clusterIP == ServiceAddress(gw) ==> Reconciled(c2, gw, w) == c2
  {
    w1 := GoodWorld(gw, c);
    var c1 := Reconciled(c, gw, w1);
    GoodKeepsKeyed(gw, c, w1);
    w2 := GoodWorld(gw, c1);
    var c2 := Reconciled(c1, gw, w2);
    forall w | Good(c2, gw, w) && w.clusterIP == ServiceAddress(gw)
      ensures Reconciled(c2, gw, w) == c2
    {
      TwoReconcilesConverge(c, gw, w1, w2, w);
    }
  }

  /** And there are clusters for which one is not enough. */
  lemma SecondReconcileMatters(gw: Spec) returns (w1: World, w2: World)
    requires Accepted(gw) && gw.localCIDRs != []
    ensures Good(Contested(gw), gw, w1) && Good(Reconciled(Contested(gw), gw, w1), gw, w2)
    ensures var c1 := Reconciled(Contested(gw), gw, w1); Reconciled(c1, gw, w2) != c1
  {
    w1 := GoodWorld(gw, Contested(gw));
    GoodKeepsKeyed(gw, Contested(gw), w1);
    w2 := GoodWorld(gw, Reconciled(Contested(gw), gw, w1));
    OneReconcileIsNotEnough(gw, w1, w2);
  }

  /** On every gateway some cluster serves a peer, and shares no address. */
  lemma SomeoneIsServed(gw: Spec) returns (c: Cluster, v: PeerId, k: PublicKey, a: Address)
    requires Accepted(gw)
    ensures Served(c, gw, v, k, a) && Unshared(Pool(gw), c.peers) && Keyed(c.peers)
  {
    v, k, a := PeerId("peer", gw.ns), Key(1), FirstHost(gw);
    FirstHostUsable(gw);
    var key := seq(44, _ => '0');
    c := Cluster(
      map[v := Peer(v, 0, 1, k, FRESH_STATUS.(address := a))],
      Some(Secret(key, Key(0), Some(State(gw, key, [Entry(v, k, a)])))));
    assert Entry(v, k, a) in c.secret.value.state.value.peers;
  }
}
