/** The gateway identity a client reads from its peer's status: the published endpoint always lies in the
    published localCIDRs, in every status the operator ever stores. */
module Identity {
  import opened Ipv4
  import opened Gateway
  import opened Peers
  import opened StateJson
  import opened Pass
  import opened PassFacts
  import opened Operator
  import opened Safety
  import opened Freshness

  /** The endpoint host lies in one of the published localCIDRs, which are all canonical IPv4, or both are empty. */
  ghost predicate Sound(s: Status) {
    || (s.endpoint == NoEndpoint && s.localCIDRs == [])
    || (s.endpoint.Host? && ClusterIPInside(s.endpoint.host, s.localCIDRs) && forall c :: c in s.localCIDRs ==> CanonicalV4(c))
  }

  ghost predicate AllSound(store: Store) {
    forall id :: id in store ==> Sound(store[id].status)
  }

  ghost predicate SoundPlan(plan: Plan) {
    forall i :: 0 <= i < |plan| && plan[i].Some? ==> Sound(plan[i].value.peer.status)
  }

  lemma SoundPlanKeeps(store: Store, plan: Plan, answers: Answers)
    requires AllSound(store) && SoundPlan(plan)
    ensures AllSound(Apply(store, plan, answers))
  {
    forall id | id in Apply(store, plan, answers)
      ensures Sound(Apply(store, plan, answers)[id].status)
    {
      ApplyPointwise(store, plan, answers, id);
    }
  }

  lemma SoundConcat(a: Plan, b: Plan)
    requires SoundPlan(a) && SoundPlan(b)
    ensures SoundPlan(a + b)
  {
  }

  lemma ReleasesSound(gw: Spec, current: Keys, listed: seq<Peer>)
    requires Accepted(gw)
    ensures SoundPlan(ReleasePlan(gw, current, listed))
  {
    SoundConcat(Refusals(gw, listed), Releases(KeyContest(current), KeyLosers(gw, current, listed)));
    SoundConcat(Refusals(gw, listed) + Releases(KeyContest(current), KeyLosers(gw, current, listed)),
      Releases(AddressContest, AddressLosers(gw, current, listed)));
  }

  /** A grant keeps the identity of the listed object it starts from. */
  lemma GrantsSound(gw: Spec, current: Keys, listed: seq<Peer>)
    requires Accepted(gw) && DistinctIds(listed) && forall p :: p in listed ==> Sound(p.status)
    ensures forall g :: g in PassGrants(gw, current, listed) ==> Sound(g.peer.status)
  {
    SurvivorsFacts(gw, current, listed);
    forall g | g in PassGrants(gw, current, listed)
      ensures Sound(g.peer.status)
    {
      var gs := PassGrants(gw, current, listed);
      var i :| 0 <= i < |gs| && gs[i] == g;
      GrantOrigin(gw, current, listed, i);
    }
  }

  lemma PassSound(store: Store, gw: Spec, current: Keys, listed: seq<Peer>, answers: Answers)
    requires Accepted(gw) && DistinctIds(listed) && AllSound(store) && forall p :: p in listed ==> Sound(p.status)
    ensures AllSound(PassStore(store, gw, current, listed, answers))
  {
    ReleasesSound(gw, current, listed);
    GrantsSound(gw, current, listed);
    GrantWritesSound(Pool(gw), PassGrants(gw, current, listed));
    SoundConcat(ReleasePlan(gw, current, listed), GrantPlan(gw, current, listed));
    SoundPlanKeeps(store, PassPlan(gw, current, listed), answers);
  }

  lemma GrantWritesSound(pool: Prefix, gs: seq<Grant>)
    requires forall g :: g in gs ==> Sound(g.peer.status)
    ensures SoundPlan(GrantWrites(pool, gs))
  {
    forall i | 0 <= i < |gs| && GrantWrites(pool, gs)[i].Some?
      ensures Sound(GrantWrites(pool, gs)[i].value.peer.status)
    {
      assert gs[i] in gs;
    }
  }

  /** The identity is published only after the Service address has been found inside localCIDRs. */
  lemma IdentityPlanSound(gw: Spec, host: Address, serverKey: PublicKey, admitted: seq<Peer>)
    requires Accepted(gw) && ClusterIPInside(host, gw.localCIDRs)
    ensures SoundPlan(IdentityPlan(gw, host, serverKey, admitted))
  {
  }

  lemma StepKeepsSound(c: Cluster, e: Event)
    requires AllSound(c.peers) && Possible(e)
    requires e.Reconcile? ==> forall p :: p in e.world.listed ==> Sound(p.status)
    ensures AllSound(Step(c, e).peers)
  {
    if e.Reconcile? && Proceeds(e.gw, e.world) {
      var w := e.world;
      var current := ServedKeys(w.earlier);
      var after := PassStore(c.peers, e.gw, current, w.listed, w.answers);
      PassSound(c.peers, e.gw, current, w.listed, w.answers);
      if w.found.Some? {
        var admitted := AdmittedPeers(PassGrants(e.gw, current, w.listed), w.answers);
        IdentityPlanSound(e.gw, w.clusterIP, w.found.value.publicKey, admitted);
        SoundPlanKeeps(after, IdentityPlan(e.gw, w.clusterIP, w.found.value.publicKey, admitted), w.again);
      }
    }
  }

  /** Every listed object was stored at some earlier point of the run: lists may be stale, but not invented. */
  ghost predicate ListsThePast(c: Cluster, events: seq<Event>, i: nat)
    requires i < |events|
  {
    events[i].Reconcile? ==> forall p :: p in events[i].world.listed ==>
      exists j :: 0 <= j <= i && p.id in Run(c, events[..j]).peers && Run(c, events[..j]).peers[p.id] == p
  }

  /** Over every run with arbitrarily stale lists, lost writes and changing specs, starting from peers without
      an identity, every stored status publishes an endpoint inside the localCIDRs published beside it. */
  lemma {:induction false} EndpointsStayLocal(c: Cluster, events: seq<Event>, n: nat)
    requires AllSound(c.peers) && n <= |events|
    requires forall i :: 0 <= i < |events| ==> Possible(events[i]) && ListsThePast(c, events, i)
    ensures forall j :: 0 <= j <= n ==> AllSound(Run(c, events[..j]).peers)
  {
    if n == 0 {
      assert events[..0] == [];
    } else {
      EndpointsStayLocal(c, events, n - 1);
      ListedIsSound(c, events, n - 1);
      StepKeepsSound(Run(c, events[..n - 1]), events[n - 1]);
      assert events[..n][..n - 1] == events[..n - 1];
    }
  }

  lemma ListedIsSound(c: Cluster, events: seq<Event>, i: nat)
    requires i < |events| && ListsThePast(c, events, i) && forall j :: 0 <= j <= i ==> AllSound(Run(c, events[..j]).peers)
    ensures events[i].Reconcile? ==> forall p :: p in events[i].world.listed ==> Sound(p.status)
  {
  }
}
