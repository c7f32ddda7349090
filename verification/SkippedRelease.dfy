/** Why stability asks that no release be skipped: on every gateway, one release lost to a Conflict lets a
    peer be listed under an address another stored peer still holds, and a later key edit of that other,
    older peer then takes the address away. */
module SkippedRelease {
  import opened Sequences
  import opened Ipv4
  import opened Ipam
  import opened Gateway
  import opened Peers
  import opened StateJson
  import opened Pass
  import opened PassFacts
  import opened Operator
  import opened Safety
  import opened Freshness
  import opened Stability
  import opened Serving

  function Old(gw: Spec): PeerId {
    PeerId("a", gw.ns)
  }

  function Young(gw: Spec): PeerId {
    PeerId("b", gw.ns)
  }

  function FirstHost(gw: Spec): Address
    requires Accepted(gw)
  {
    FirstAllocatable(Pool(gw));
    Ip(Network(Pool(gw)) + 2)
  }

  /** An older peer with an unusable key that still holds the pool's first allocatable address. */
  function Elder(gw: Spec): Peer
    requires Accepted(gw)
  {
    Peer(Old(gw), 0, 1, BadKey("?"), FRESH_STATUS.(address := FirstHost(gw)))
  }

  function Newcomer(gw: Spec): Peer {
    Peer(Young(gw), 1, 1, Key(7), FRESH_STATUS)
  }

  function Start(gw: Spec): Cluster
    requires Accepted(gw)
  {
    Cluster(map[Old(gw) := Elder(gw), Young(gw) := Newcomer(gw)], Some(Secret(seq(44, _ => '0'), Key(0), None)))
  }

  /** A reconcile that stores its state and stops before the identity writes. */
  function Quiet(host: Address, secret: Secret, listed: seq<Peer>, answers: Answers): World {
    World(true, host, true, Some(secret), listed, answers, Some(secret), secret, true, false, answers)
  }

  function LoseOld(gw: Spec): Answers {
    (id: PeerId) => if id == Old(gw) then Conflict else Written
  }

  const ALL_WRITTEN: Answers := (_: PeerId) => Written

  lemma NothingFatal(plan: Plan, answers: Answers)
    requires forall id :: answers(id) == Written || answers(id) == Conflict
    ensures Completes(plan, answers)
  {
  }

  ghost predicate FirstListing(gw: Spec, listed: seq<Peer>)
    requires Accepted(gw)
  {
    DistinctIds(listed) && forall p :: p in listed <==> p == Elder(gw) || p == Newcomer(gw)
  }

  lemma FirstSurvivors(gw: Spec, listed: seq<Peer>)
    requires Accepted(gw) && FirstListing(gw, listed)
    ensures forall p :: p in Survivors(gw, map[], listed) <==> p == Newcomer(gw)
  {
    var n, admissible := Newcomer(gw), Admissible(gw, listed);
    SurvivorsFacts(gw, map[], listed);
    AdmissibleDistinct(gw, listed);
    assert forall q :: q in admissible <==> q == n;
    assert Holds(KeyContest(map[]), admissible, KeyValue(Key(7)), n);
    WinsIff(KeyContest(map[]), admissible, n);
  }

  lemma FirstHolders(gw: Spec, listed: seq<Peer>)
    requires Accepted(gw) && FirstListing(gw, listed)
    ensures Holders(gw, map[], listed) == [Newcomer(gw)]
  {
    var n, candidates := Newcomer(gw), Candidates(gw, map[], listed);
    FirstSurvivors(gw, listed);
    CandidatesFacts(gw, map[], listed);
    KeepersMembership(AddressContest, candidates, candidates);
    HoldersFacts(gw, map[], listed);
    assert ClearUnusable(Pool(gw), n) == n;
    OnlyElement(Holders(gw, map[], listed), n);
  }

  /** The first pass serves the newcomer the address the elder still holds. */
  lemma FirstPass(gw: Spec, listed: seq<Peer>) returns (p: Peer)
    requires Accepted(gw) && FirstListing(gw, listed)
    ensures p in AdmittedPeers(PassGrants(gw, map[], listed), LoseOld(gw))
    ensures EntryOf(p) == Entry(Young(gw), Key(7), FirstHost(gw))
  {
    FirstHolders(gw, listed);
    FirstGrant(Pool(gw), Newcomer(gw));
    var gs := PassGrants(gw, map[], listed);
    AdmittedMembership(gs, LoseOld(gw));
    p := MarkReady(WithAddress(Newcomer(gw), Network(Pool(gw)) + 2));
    assert AdmittedPeer(gs[0], LoseOld(gw)) == Some(p);
  }

  lemma OnlyElement(s: seq<Peer>, n: Peer)
    requires DistinctIds(s) && n in s && forall h :: h in s ==> h == n
    ensures s == [n]
  {
    DistinctCardinality(s);
    assert Elements(s) == {n};
    assert s[0] in s;
  }

  lemma FirstGrant(pool: Prefix, n: Peer)
    requires pool.bits <= 30 && n.status.address == Unset
    ensures Network(pool) + 2 < 0x1_0000_0000
    ensures Grants(pool, Used(pool, Addresses([n])), [n]) == [Fresh(n, Network(pool) + 2)]
  {
    FirstAllocatable(pool);
    assert Addresses([n]) == [Unset];
    assert Assigned([Unset]) == [] by {
      assert [Unset][..0] == [];
    }
    assert Used(pool, Addresses([n])) == Reserved(pool);
    assert Reserved(pool) + FreshAddresses([]) == Reserved(pool);
    assert [n][..0] == [];
  }

  /** The cluster once the newcomer has been listed: both peers are stored with its address. */
  ghost predicate BothHold(gw: Spec, c: Cluster, elderKey: PublicKey)
    requires Accepted(gw)
  {
    && c.peers.Keys == {Old(gw), Young(gw)}
    && c.peers[Old(gw)].id == Old(gw) && c.peers[Old(gw)].created == 0 && c.peers[Old(gw)].key == elderKey
    && c.peers[Young(gw)].id == Young(gw) && c.peers[Young(gw)].created == 1 && c.peers[Young(gw)].key == Key(7)
    && c.peers[Old(gw)].status.address == FirstHost(gw) && c.peers[Young(gw)].status.address == FirstHost(gw)
  }

  /** The elder's release was skipped, so its object is as it was. */
  lemma ElderStays(gw: Spec, listed: seq<Peer>)
    requires Accepted(gw) && Lists(listed, Start(gw).peers)
    ensures var after := PassStore(Start(gw).peers, gw, map[], listed, LoseOld(gw));
      Old(gw) in after && after[Old(gw)] == Elder(gw)
  {
    ApplyPointwise(Start(gw).peers, PassPlan(gw, map[], listed), LoseOld(gw), Old(gw));
  }

  lemma YoungIsServed(gw: Spec, listed: seq<Peer>)
    requires Accepted(gw) && FirstListing(gw, listed) && Lists(listed, Start(gw).peers)
    ensures var after := PassStore(Start(gw).peers, gw, map[], listed, LoseOld(gw));
      && Young(gw) in after && after[Young(gw)].status.address == FirstHost(gw)
      && after[Young(gw)] == Newcomer(gw).(status := after[Young(gw)].status)
  {
    var p := FirstPass(gw, listed);
    NothingFatal(PassPlan(gw, map[], listed), LoseOld(gw));
    AdmittedStored(Start(gw).peers, gw, map[], listed, LoseOld(gw), p);
    PassKeepsSpecs(Start(gw).peers, gw, map[], listed, LoseOld(gw), Young(gw));
  }

  lemma FirstStore(gw: Spec, listed: seq<Peer>)
    requires Accepted(gw) && FirstListing(gw, listed) && Lists(listed, Start(gw).peers)
    ensures BothHold(gw, Cluster(PassStore(Start(gw).peers, gw, map[], listed, LoseOld(gw)), None), BadKey("?"))
  {
    ElderStays(gw, listed);
    YoungIsServed(gw, listed);
    forall id
      ensures id in PassStore(Start(gw).peers, gw, map[], listed, LoseOld(gw)) <==> id == Old(gw) || id == Young(gw)
    {
      PassKeepsSpecs(Start(gw).peers, gw, map[], listed, LoseOld(gw), id);
    }
  }

  lemma FirstState(gw: Spec, listed: seq<Peer>, secret: Secret)
    requires Accepted(gw) && FirstListing(gw, listed) && |secret.privateKey| == 44
    ensures PassResult(gw, map[], listed, LoseOld(gw)).Some?
    ensures Serves(Some(StateOf(gw, secret, PassResult(gw, map[], listed, LoseOld(gw)).value)), Young(gw), Key(7), FirstHost(gw))
  {
    var gs := PassGrants(gw, map[], listed);
    var p := FirstPass(gw, listed);
    NothingFatal(PassPlan(gw, map[], listed), LoseOld(gw));
    PassGrantsDistinct(gw, map[], listed);
    AdmittedDistinct(gs, LoseOld(gw));
    RenderedEntries(gw, secret.privateKey, AdmittedPeers(gs, LoseOld(gw)));
    PassRendersSafeState(gw, map[], listed, LoseOld(gw), secret.privateKey);
  }

  lemma FirstStep(gw: Spec, host: Address, listed: seq<Peer>)
    requires Accepted(gw) && ClusterIPInside(host, gw.localCIDRs)
    requires FirstListing(gw, listed) && Lists(listed, Start(gw).peers)
    ensures var c := Reconciled(Start(gw), gw, Quiet(host, Start(gw).secret.value, listed, LoseOld(gw)));
      BothHold(gw, c, BadKey("?")) && Serves(c.secret, Young(gw), Key(7), FirstHost(gw))
  {
    FirstStore(gw, listed);
    FirstState(gw, listed, Start(gw).secret.value);
  }

  lemma ThirdStep(gw: Spec, host: Address, c: Cluster, listed: seq<Peer>)
    requires Accepted(gw) && ClusterIPInside(host, gw.localCIDRs)
    requires BothHold(gw, c, Key(8)) && listed == [c.peers[Old(gw)], c.peers[Young(gw)]] && c.secret.Some?
    ensures Lists(listed, c.peers)
    ensures var s := Reconciled(c, gw, Quiet(host, c.secret.value, listed, ALL_WRITTEN)).secret;
      s.Some? && s.value.state.Some? && forall e :: e in s.value.state.value.peers ==> e.id != Young(gw)
  {
    LosesPlace(gw, c, listed);
    NothingFatal(PassPlan(gw, ServedKeys(c.secret), listed), ALL_WRITTEN);
  }

  /** Starting from a store that shares no address: a release is skipped, the newcomer is listed; the elder gets
      a valid key; and the next pass, in which every write succeeds, no longer lists the newcomer, which kept
      its key all along. */
  lemma SkippedReleaseCostsAPlace(gw: Spec, host: Address) returns (c0: Cluster, e1: Event, e2: Event, e3: Event)
    requires Accepted(gw) && ClusterIPInside(host, gw.localCIDRs)
    ensures Unshared(Pool(gw), c0.peers) && SafeSecret(c0.secret)
    ensures RunLeavesAlone(c0, gw, Young(gw), [e1, e2, e3])
    ensures e3.Reconcile? && NoSkips(e3.world.answers)
    ensures Serves(Run(c0, [e1]).secret, Young(gw), Key(7), FirstHost(gw))
    ensures var s := Run(c0, [e1, e2, e3]).secret;
      s.Some? && s.value.state.Some? && forall e :: e in s.value.state.value.peers ==> e.id != Young(gw)
  {
    c0 := Start(gw);
    var listed := [Elder(gw), Newcomer(gw)];
    StartFacts(gw, listed);
    e1, e2 := Reconcile(gw, Quiet(host, Start(gw).secret.value, listed, LoseOld(gw))), EditKey(Old(gw), Key(8));
    FirstStep(gw, host, listed);
    var c1 := Step(c0, e1);
    EditStep(gw, c1);
    var c2 := Step(c1, e2);
    e3 := Reconcile(gw, Quiet(host, c2.secret.value, [c2.peers[Old(gw)], c2.peers[Young(gw)]], ALL_WRITTEN));
    ThirdStep(gw, host, c2, [c2.peers[Old(gw)], c2.peers[Young(gw)]]);
    AloneOfThree(c0, gw, e1, e2, e3);
    RunOfThree(c0, e1, e2, e3);
  }

  lemma StartFacts(gw: Spec, listed: seq<Peer>)
    requires Accepted(gw) && listed == [Elder(gw), Newcomer(gw)]
    ensures FirstListing(gw, listed) && Lists(listed, Start(gw).peers)
    ensures Unshared(Pool(gw), Start(gw).peers) && SafeSecret(Start(gw).secret)
  {
    assert listed[0] == Elder(gw) && listed[1] == Newcomer(gw);
  }

  lemma EditStep(gw: Spec, c: Cluster)
    requires Accepted(gw) && BothHold(gw, c, BadKey("?"))
    ensures BothHold(gw, Step(c, EditKey(Old(gw), Key(8))), Key(8))
    ensures Step(c, EditKey(Old(gw), Key(8))).secret == c.secret
  {
  }

  lemma AloneOfThree(c0: Cluster, gw: Spec, e1: Event, e2: Event, e3: Event)
    requires LeavesAlone(c0, gw, Young(gw), e1) && LeavesAlone(Step(c0, e1), gw, Young(gw), e2)
    requires LeavesAlone(Step(Step(c0, e1), e2), gw, Young(gw), e3)
    ensures RunLeavesAlone(c0, gw, Young(gw), [e1, e2, e3])
  {
    RunOfThree(c0, e1, e2, e3);
    var events := [e1, e2, e3];
    assert LeavesAlone(Run(c0, events[..0]), gw, Young(gw), events[0]);
    assert LeavesAlone(Run(c0, events[..1]), gw, Young(gw), events[1]);
    assert LeavesAlone(Run(c0, events[..2]), gw, Young(gw), events[2]);
  }

  lemma RunOfThree(c0: Cluster, e1: Event, e2: Event, e3: Event)
    ensures Run(c0, []) == c0 && Run(c0, [e1]) == Step(c0, e1)
    ensures Run(c0, [e1, e2]) == Step(Step(c0, e1), e2)
    ensures Run(c0, [e1, e2, e3]) == Step(Step(Step(c0, e1), e2), e3)
    ensures [e1, e2, e3][..0] == [] && [e1, e2, e3][..1] == [e1] && [e1, e2, e3][..2] == [e1, e2]
  {
    RunOfTwo(c0, e1, e2);
    RunStep(c0, [e1, e2], e3);
    assert [e1, e2] + [e3] == [e1, e2, e3];
  }

  lemma RunOfTwo(c0: Cluster, e1: Event, e2: Event)
    ensures Run(c0, []) == c0 && Run(c0, [e1]) == Step(c0, e1) && Run(c0, [e1, e2]) == Step(Step(c0, e1), e2)
  {
    RunStep(c0, [], e1);
    RunStep(c0, [e1], e2);
    assert [] + [e1] == [e1] && [e1] + [e2] == [e1, e2];
  }

  lemma RunStep(c: Cluster, events: seq<Event>, e: Event)
    ensures Run(c, events + [e]) == Step(Run(c, events), e)
  {
    assert (events + [e])[..|events|] == events;
  }

  /** With a valid key the elder keeps it, and it is older, so the newcomer does not keep the address. */
  lemma ElderTakesAddress(gw: Spec, c: Cluster, listed: seq<Peer>)
    requires Accepted(gw) && BothHold(gw, c, Key(8)) && listed == [c.peers[Old(gw)], c.peers[Young(gw)]]
    ensures DistinctIds(listed) && c.peers[Young(gw)] !in Holders(gw, ServedKeys(c.secret), listed)
  {
    var current, p, q := ServedKeys(c.secret), c.peers[Young(gw)], c.peers[Old(gw)];
    assert listed[0] == q && listed[1] == p;
    AdmissibleDistinct(gw, listed);
    SurvivorsFacts(gw, current, listed);
    assert Holds(KeyContest(current), Admissible(gw, listed), KeyValue(Key(8)), q);
    WinsIff(KeyContest(current), Admissible(gw, listed), q);
    FirstHostUsable(gw);
    HolderIff(gw, current, listed, p);
  }

  lemma LosesPlace(gw: Spec, c: Cluster, listed: seq<Peer>)
    requires Accepted(gw) && BothHold(gw, c, Key(8)) && listed == [c.peers[Old(gw)], c.peers[Young(gw)]]
    ensures Lists(listed, c.peers)
    ensures forall key, e :: e in Render(gw, key, AdmittedPeers(PassGrants(gw, ServedKeys(c.secret), listed), ALL_WRITTEN)).peers ==> e.id != Young(gw)
  {
    var current, p := ServedKeys(c.secret), c.peers[Young(gw)];
    ElderTakesAddress(gw, c, listed);
    FirstHostUsable(gw);
    assert listed[0] == c.peers[Old(gw)] && listed[1] == p;
    forall key
      ensures forall e :: e in Render(gw, key, AdmittedPeers(PassGrants(gw, current, listed), ALL_WRITTEN)).peers ==> e.id != Young(gw)
    {
      EntryIffHolder(gw, current, listed, ALL_WRITTEN, key, p);
    }
  }

  lemma FirstHostUsable(gw: Spec)
    requires Accepted(gw)
    ensures AddressUsable(FirstHost(gw), Pool(gw))
  {
    GatewayAddressesAgree(gw);
  }
}
