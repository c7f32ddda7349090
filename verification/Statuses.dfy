/** What one good reconcile leaves on every peer, spelled out on the fields users read and on the specs, ages and
    namespaces they wrote, without any of the operator's own decisions: the reference the pass is proved against. */
module Statuses {
  import opened Sequences
  import opened Ipv4
  import opened Gateway
  import opened Peers
  import opened StateJson
  import opened Pass
  import opened PassFacts
  import opened Operator
  import opened Freshness
  import opened Serving
  import opened Decisions
  import opened Convergence
  import opened Fixpoint

  // ---- the reference ----

  /** A WireGuard key, from a namespace the gateway admits. */
  ghost predicate Admits(gw: Spec, p: Peer) {
    p.key.Key? && (gw.allowed == FromSame ==> p.id.ns == gw.ns)
  }

  /** By age, then name, then namespace. */
  ghost predicate Elder(a: Peer, b: Peer) {
    || a.created < b.created
    || (a.created == b.created && Precedes(a.id.name, b.id.name))
    || (a.created == b.created && a.id.name == b.id.name && Precedes(a.id.ns, b.id.ns))
  }

  ghost predicate ServedUnder(keys: Keys, p: Peer) {
    p.id in keys && keys[p.id] == p.key
  }

  /** Of two peers with one key, the one state.json serves under it, and otherwise the elder. */
  ghost predicate BetterClaim(keys: Keys, a: Peer, b: Peer) {
    (ServedUnder(keys, a) && !ServedUnder(keys, b)) || ((ServedUnder(keys, a) <==> ServedUnder(keys, b)) && Elder(a, b))
  }

  ghost predicate OwnsKey(gw: Spec, c: Cluster, id: PeerId) {
    && id in c.peers && Admits(gw, c.peers[id])
    && forall id' :: id' in c.peers && id' != id && Admits(gw, c.peers[id']) && c.peers[id'].key == c.peers[id].key ==>
         BetterClaim(ServedKeys(c.secret), c.peers[id], c.peers[id'])
  }

  /** A host of the pool behind the gateway's own address. */
  ghost predicate InPool(gw: Spec, a: Address)
    requires Accepted(gw)
  {
    a.Ip? && Network(Pool(gw)) + 1 < a.ip < Network(Pool(gw)) + Size(Pool(gw))
  }

  ghost predicate OwnsAddress(gw: Spec, c: Cluster, id: PeerId) {
    && OwnsKey(gw, c, id)
    && forall id' :: OwnsKey(gw, c, id') && id' != id && c.peers[id'].status.address == c.peers[id].status.address ==>
         Elder(c.peers[id], c.peers[id'])
  }

  /** A peer that is not served: no address, no identity, and the cause in its message and its Ready condition. */
  ghost function Unserved(summary: Summary, cause: NotReady, generation: nat): Status {
    Status(summary, Because(cause), Unset, NoEndpoint, NoKey, [], Some(Condition(true, Because(cause), generation)))
  }

  // ---- the operator's decisions against it ----

  lemma AdmitsIff(gw: Spec, p: Peer)
    ensures AdmissionProblem(gw, p).None? <==> Admits(gw, p)
  {
  }

  lemma ElderIff(a: Peer, b: Peer)
    ensures Older(a, b) <==> Elder(a, b)
  {
    StringLessIff(a.id.name, b.id.name);
    StringLessIff(a.id.ns, b.id.ns);
  }

  /** The order of the rendered list: by name, then namespace. */
  lemma RenderedInOrder(gw: Spec, privateKey: string, peers: seq<Peer>, i: nat, j: nat)
    requires DistinctIds(peers) && i < j < |Render(gw, privateKey, peers).peers|
    ensures var a, b := Render(gw, privateKey, peers).peers[i].id, Render(gw, privateKey, peers).peers[j].id;
      Precedes(a.name, b.name) || (a.name == b.name && Precedes(a.ns, b.ns))
  {
    RenderedEntries(gw, privateKey, peers);
    var a, b := Render(gw, privateKey, peers).peers[i].id, Render(gw, privateKey, peers).peers[j].id;
    StringLessIff(a.name, b.name);
    StringLessIff(a.ns, b.ns);
  }

  lemma ClaimIff(keys: Keys, a: Peer, b: Peer)
    requires a.key.Key? && b.key.Key?
    ensures Beats(KeyContest(keys), a, b) <==> BetterClaim(keys, a, b)
  {
    ElderIff(a, b);
  }

  lemma OwnsKeyIff(gw: Spec, c: Cluster, id: PeerId)
    ensures OwnsKey(gw, c, id) <==> KeyHolder(gw, c, id)
  {
    if id in c.peers && Admits(gw, c.peers[id]) {
      forall id' | id' in c.peers && Admits(gw, c.peers[id'])
        ensures Beats(KeyContest(ServedKeys(c.secret)), c.peers[id], c.peers[id']) <==>
          BetterClaim(ServedKeys(c.secret), c.peers[id], c.peers[id'])
      {
        ClaimIff(ServedKeys(c.secret), c.peers[id], c.peers[id']);
      }
    }
  }

  lemma InPoolIff(gw: Spec, a: Address)
    requires Accepted(gw)
    ensures InPool(gw, a) <==> AddressUsable(a, Pool(gw))
  {
    PoolHasFourAddresses(Pool(gw));
    if a.Ip? {
      PrefixInterval(Pool(gw), a.ip);
    }
  }

  // ---- which case a peer is in ----

  lemma OwnerSurvives(gw: Spec, c: Cluster, listed: seq<Peer>, id: PeerId)
    requires Lists(listed, c.peers) && id in c.peers
    ensures c.peers[id] in Survivors(gw, ServedKeys(c.secret), listed) <==> OwnsKey(gw, c, id)
  {
    SurvivorIff(gw, c, listed, id);
    OwnsKeyIff(gw, c, id);
  }

  lemma SurvivorOwns(gw: Spec, c: Cluster, listed: seq<Peer>, q: Peer)
    requires Lists(listed, c.peers) && q in Survivors(gw, ServedKeys(c.secret), listed)
    ensures q.id in c.peers && c.peers[q.id] == q && OwnsKey(gw, c, q.id)
  {
    SurvivorsFacts(gw, ServedKeys(c.secret), listed);
    OwnerSurvives(gw, c, listed, q.id);
  }

  /** A key owner keeps a pool address exactly when it is the eldest key owner with it. */
  lemma KeepsAddressIff(gw: Spec, c: Cluster, listed: seq<Peer>, id: PeerId)
    requires Accepted(gw) && Lists(listed, c.peers) && OwnsKey(gw, c, id) && InPool(gw, c.peers[id].status.address)
    ensures c.peers[id] in Holders(gw, ServedKeys(c.secret), listed) <==> OwnsAddress(gw, c, id)
  {
    var current, p := ServedKeys(c.secret), c.peers[id];
    OwnerSurvives(gw, c, listed, id);
    InPoolIff(gw, p.status.address);
    HolderIff(gw, current, listed, p);
    if OwnsAddress(gw, c, id) {
      forall q | q in Survivors(gw, current, listed) && q.id != id && q.status.address == p.status.address
        ensures Older(p, q)
      {
        SurvivorOwns(gw, c, listed, q);
        ElderIff(p, q);
      }
    }
    if p in Holders(gw, current, listed) {
      forall id' | OwnsKey(gw, c, id') && id' != id && c.peers[id'].status.address == p.status.address
        ensures Elder(p, c.peers[id'])
      {
        OwnerSurvives(gw, c, listed, id');
        ElderIff(p, c.peers[id']);
      }
    }
  }

  /** A key owner without a pool address contends for none. */
  lemma AddresslessHolds(gw: Spec, c: Cluster, listed: seq<Peer>, id: PeerId)
    requires Accepted(gw) && Lists(listed, c.peers) && OwnsKey(gw, c, id) && !InPool(gw, c.peers[id].status.address)
    ensures ClearUnusable(Pool(gw), c.peers[id]) in Holders(gw, ServedKeys(c.secret), listed)
    ensures ClearUnusable(Pool(gw), c.peers[id]).status.address == Unset
  {
    var current := ServedKeys(c.secret);
    var candidates := Candidates(gw, current, listed);
    OwnerSurvives(gw, c, listed, id);
    InPoolIff(gw, c.peers[id].status.address);
    CandidatesFacts(gw, current, listed);
    KeepersMembership(AddressContest, candidates, candidates);
  }

  lemma PhaseOf(c: Cluster, gw: Spec, w: World, id: PeerId)
    requires Good(c, gw, w) && id in c.peers
    ensures var p := c.peers[id];
      PhaseIn(c, gw, w, id) ==
        if !Admits(gw, p) then 0
        else if !OwnsKey(gw, c, id) then 1
        else if InPool(gw, p.status.address) && !OwnsAddress(gw, c, id) then 2
        else 3
  {
    AdmitsIff(gw, c.peers[id]);
    OwnerSurvives(gw, c, w.listed, id);
    InPoolIff(gw, c.peers[id].status.address);
    if OwnsKey(gw, c, id) {
      if InPool(gw, c.peers[id].status.address) {
        KeepsAddressIff(gw, c, w.listed, id);
      } else {
        AddresslessHolds(gw, c, w.listed, id);
      }
    }
  }

  lemma OwnerIsCandidate(c: Cluster, gw: Spec, listed: seq<Peer>, id: PeerId)
    requires Accepted(gw) && Lists(listed, c.peers) && OwnsKey(gw, c, id) && InPool(gw, c.peers[id].status.address)
    ensures c.peers[id] in Candidates(gw, ServedKeys(c.secret), listed)
  {
    OwnerSurvives(gw, c, listed, id);
    InPoolIff(gw, c.peers[id].status.address);
    CandidatesFacts(gw, ServedKeys(c.secret), listed);
    assert c.peers[id] == ClearUnusable(Pool(gw), c.peers[id]);
  }

  lemma AddressBest(c: Cluster, gw: Spec, listed: seq<Peer>, id: PeerId) returns (o: Peer)
    requires Accepted(gw) && Lists(listed, c.peers) && OwnsKey(gw, c, id) && InPool(gw, c.peers[id].status.address)
    ensures var a := c.peers[id].status.address;
      && o in Survivors(gw, ServedKeys(c.secret), listed) && o.status.address == a
      && o.id == AddressWinner(gw, ServedKeys(c.secret), listed, c.peers[id])
      && Holds(AddressContest, Candidates(gw, ServedKeys(c.secret), listed), AddressValue(a), o)
  {
    var current, p := ServedKeys(c.secret), c.peers[id];
    var a, candidates := p.status.address, Candidates(gw, current, listed);
    OwnerIsCandidate(c, gw, listed, id);
    CandidatesFacts(gw, current, listed);
    BestHolds(AddressContest, candidates, AddressValue(a));
    o := CandidateOrigin(c, gw, listed, Best(AddressContest, candidates, AddressValue(a)).value);
  }

  lemma BestOwnsAddress(c: Cluster, gw: Spec, listed: seq<Peer>, o: Peer)
    requires Accepted(gw) && Lists(listed, c.peers) && InPool(gw, o.status.address)
    requires o in Survivors(gw, ServedKeys(c.secret), listed)
    requires Holds(AddressContest, Candidates(gw, ServedKeys(c.secret), listed), AddressValue(o.status.address), o)
    ensures OwnsAddress(gw, c, o.id) && c.peers[o.id] == o
  {
    SurvivorOwns(gw, c, listed, o);
    forall id' | OwnsKey(gw, c, id') && id' != o.id && c.peers[id'].status.address == o.status.address
      ensures Elder(o, c.peers[id'])
    {
      OwnerIsCandidate(c, gw, listed, id');
      ElderIff(o, c.peers[id']);
    }
  }

  /** The peer an address loser is told about owns the address. */
  lemma AddressWinnerOwns(c: Cluster, gw: Spec, listed: seq<Peer>, id: PeerId)
    requires Accepted(gw) && Lists(listed, c.peers) && OwnsKey(gw, c, id) && InPool(gw, c.peers[id].status.address)
    ensures var winner := AddressWinner(gw, ServedKeys(c.secret), listed, c.peers[id]);
      OwnsAddress(gw, c, winner) && c.peers[winner].status.address == c.peers[id].status.address
  {
    var o := AddressBest(c, gw, listed, id);
    BestOwnsAddress(c, gw, listed, o);
  }

  // ---- what each peer reads ----

  ghost predicate ReadsRefusal(gw: Spec, p: Peer, s: Status) {
    s == if gw.allowed == FromSame && p.id.ns != gw.ns
         then Unserved(Error, NamespaceNotAllowed(PeerId(gw.name, gw.ns)), p.generation)
         else if p.key == NoKey then Unserved(Pending, PublicKeyMissing, p.generation)
         else Unserved(Error, InvalidPublicKey, p.generation)
  }

  ghost predicate ReadsKeyLoss(gw: Spec, c: Cluster, p: Peer, s: Status) {
    exists winner :: OwnsKey(gw, c, winner) && c.peers[winner].key == p.key
      && s == Unserved(Pending, PublicKeyConflict(winner), p.generation)
  }

  ghost predicate ReadsAddressLoss(gw: Spec, c: Cluster, p: Peer, s: Status) {
    exists winner :: OwnsAddress(gw, c, winner) && c.peers[winner].status.address == p.status.address
      && s == Unserved(Pending, AddressConflict(p.status.address, winner), p.generation)
  }

  /** Ready, with a pool address (the one it had, if it had one) and the gateway's identity. */
  ghost predicate ReadsServed(gw: Spec, host: Address, serverKey: PublicKey, p: Peer, s: Status)
    requires Accepted(gw)
  {
    && s.summary == Ready && s.ready == None
    && InPool(gw, s.address) && (InPool(gw, p.status.address) ==> s.address == p.status.address)
    && s.endpoint == Host(host) && s.serverKey == serverKey && s.localCIDRs == gw.localCIDRs
  }

  /** A peer the pool had no address for; an address outside the pool that its status still shows is left there. */
  ghost predicate ReadsExhausted(gw: Spec, p: Peer, s: Status)
    requires Accepted(gw)
  {
    && !InPool(gw, p.status.address) && !InPool(gw, s.address)
    && s.(address := Unset) == Unserved(Pending, AddressPoolExhausted(Pool(gw)), p.generation)
  }

  ghost predicate Reads(c: Cluster, gw: Spec, w: World, next: Cluster, id: PeerId)
    requires Good(c, gw, w) && id in c.peers && id in next.peers
  {
    var p, s, listed := c.peers[id], next.peers[id].status, id in ServedKeys(next.secret);
    if !Admits(gw, p) then ReadsRefusal(gw, p, s) && !listed
    else if !OwnsKey(gw, c, id) then ReadsKeyLoss(gw, c, p, s) && !listed
    else if InPool(gw, p.status.address) && !OwnsAddress(gw, c, id) then ReadsAddressLoss(gw, c, p, s) && !listed
    else if listed then ReadsServed(gw, w.clusterIP, c.secret.value.publicKey, p, s)
    else ReadsExhausted(gw, p, s) && PoolFull(gw, next)
  }

  lemma RefusedReads(c: Cluster, gw: Spec, w: World, id: PeerId, p': Peer)
    requires Good(c, gw, w) && id in c.peers && PhaseIn(c, gw, w, id) == 0 && PeerOutcome(c, gw, w, id, p')
    requires !Admits(gw, c.peers[id])
    ensures ReadsRefusal(gw, c.peers[id], p'.status)
  {
    RecordsExactly(p', AdmissionProblem(gw, p').value);
  }

  lemma RecordsExactly(p: Peer, nr: NotReady)
    requires Records(p, nr)
    ensures p.status == Unserved(if nr.InvalidPublicKey? || nr.NamespaceNotAllowed? then Error else Pending, nr, p.generation)
  {
  }

  lemma KeyLoserReads(c: Cluster, gw: Spec, w: World, id: PeerId, p': Peer)
    requires Good(c, gw, w) && id in c.peers && PhaseIn(c, gw, w, id) == 1 && PeerOutcome(c, gw, w, id, p')
    ensures ReadsKeyLoss(gw, c, c.peers[id], p'.status)
  {
    var winner := KeyWinner(gw, ServedKeys(c.secret), w.listed, c.peers[id]);
    WinnerHolds(gw, c, w.listed, id);
    OwnsKeyIff(gw, c, winner);
    RecordsExactly(p', PublicKeyConflict(winner));
  }

  lemma AddressLoserReads(c: Cluster, gw: Spec, w: World, id: PeerId, p': Peer)
    requires Good(c, gw, w) && id in c.peers && PhaseIn(c, gw, w, id) == 2 && PeerOutcome(c, gw, w, id, p')
    requires OwnsKey(gw, c, id) && InPool(gw, c.peers[id].status.address)
    ensures ReadsAddressLoss(gw, c, c.peers[id], p'.status)
  {
    var winner := AddressWinner(gw, ServedKeys(c.secret), w.listed, c.peers[id]);
    AddressWinnerOwns(c, gw, w.listed, id);
    RecordsExactly(p', AddressConflict(c.peers[id].status.address, winner));
  }

  lemma ServedReads(c: Cluster, gw: Spec, w: World, id: PeerId, p': Peer)
    requires Good(c, gw, w) && id in c.peers && AdmittedTo(c, gw, w, id) && PeerOutcome(c, gw, w, id, p')
    ensures ReadsServed(gw, w.clusterIP, c.secret.value.publicKey, c.peers[id], p'.status)
  {
    var i := GrantForFacts(gw, ServedKeys(c.secret), w.listed, c.peers[id]);
    InPoolIff(gw, p'.status.address);
    InPoolIff(gw, c.peers[id].status.address);
  }

  lemma ExhaustedReads(c: Cluster, gw: Spec, w: World, id: PeerId, p': Peer)
    requires Good(c, gw, w) && id in c.peers && PhaseIn(c, gw, w, id) == 3 && !AdmittedTo(c, gw, w, id)
    requires PeerOutcome(c, gw, w, id, p')
    ensures ReadsExhausted(gw, c.peers[id], p'.status)
  {
    var i := GrantForFacts(gw, ServedKeys(c.secret), w.listed, c.peers[id]);
    InPoolIff(gw, p'.status.address);
    InPoolIff(gw, c.peers[id].status.address);
    RecordsExactly(ClearUnusable(Pool(gw), p'), AddressPoolExhausted(Pool(gw)));
  }

  lemma PeerReads(c: Cluster, gw: Spec, w: World, next: Cluster, id: PeerId)
    requires Good(c, gw, w) && Result(c, gw, w, next) && id in c.peers
    ensures id in next.peers && Reads(c, gw, w, next, id)
  {
    var p' := next.peers[id];
    PhaseOf(c, gw, w, id);
    match PhaseIn(c, gw, w, id) {
      case 0 => RefusedReads(c, gw, w, id, p');
      case 1 => KeyLoserReads(c, gw, w, id, p');
      case 2 => AddressLoserReads(c, gw, w, id, p');
      case _ =>
        if AdmittedTo(c, gw, w, id) {
          ServedReads(c, gw, w, id, p');
        } else {
          ExhaustedReads(c, gw, w, id, p');
          ExhaustedMeansFull(c, gw, w, next, id);
        }
    }
  }

  /** What every peer reads after a reconcile over current data with successful writes, from whatever statuses and
      state.json it started. */
  lemma EveryPeerReads(c: Cluster, gw: Spec, w: World, id: PeerId)
    requires Good(c, gw, w) && id in c.peers
    ensures id in Reconciled(c, gw, w).peers && Reads(c, gw, w, Reconciled(c, gw, w), id)
  {
    GoodResult(c, gw, w);
    PeerReads(c, gw, w, Reconciled(c, gw, w), id);
  }
}
