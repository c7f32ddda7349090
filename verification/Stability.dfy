/** Stability: a peer the server is serving, whose address no other stored peer holds, stays served under the
    same key and address through every run; and runs in which no write is skipped keep addresses unshared,
    so every peer they list is served. */
module Stability {
  import opened Ipv4
  import opened Gateway
  import opened Peers
  import opened StateJson
  import opened Pass
  import opened PassFacts
  import opened Operator
  import opened Safety
  import opened Freshness

  // ---- addresses across a pass over fresh reads ----

  lemma UnmentionedUnchanged(store: Store, plan: Plan, answers: Answers, id: PeerId)
    requires id in store && !Mentions(plan, id)
    ensures id in Apply(store, plan, answers) && Apply(store, plan, answers)[id] == store[id]
  {
    ApplyPointwise(store, plan, answers, id);
  }

  /** A granted peer was not released, and its grant is its stored object, cleared if unusable. */
  lemma GrantOverFresh(store: Store, gw: Spec, current: Keys, listed: seq<Peer>, g: Grant)
    requires Accepted(gw) && Lists(listed, store) && g in PassGrants(gw, current, listed)
    ensures g.peer.id in store && g.peer == ClearUnusable(Pool(gw), store[g.peer.id])
    ensures !Mentions(ReleasePlan(gw, current, listed), g.peer.id)
  {
    var id := g.peer.id;
    var p := GrantsMentionListed(gw, current, listed, id);
    GrantById(gw, current, listed, p, g);
    PassGrantsFacts(gw, current, listed);
    assert g.peer in Holders(gw, current, listed);
    HolderById(gw, current, listed, g.peer, p);
    IdsIdentify(listed);
    if Mentions(ReleasePlan(gw, current, listed), id) {
      var q := MentionedInRelease(gw, current, listed, id);
    }
  }

  lemma HolderById(gw: Spec, current: Keys, listed: seq<Peer>, h: Peer, p: Peer)
    requires Accepted(gw) && DistinctIds(listed) && p in listed && h in Holders(gw, current, listed) && h.id == p.id
    ensures h == ClearUnusable(Pool(gw), p)
  {
    var candidates := Candidates(gw, current, listed);
    KeepersMembership(AddressContest, candidates, candidates);
    CandidateById(gw, current, listed, h, p);
  }

  /** The address a grant writes is the address it granted. */
  lemma GrantWriteAddress(pool: Prefix, gs: seq<Grant>, g: Grant, status: Status)
    requires DistinctGrants(gs) && g in gs && Writes(GrantWrites(pool, gs), g.peer.id, status)
    ensures status.address == GrantedAddress(g)
  {
    var plan := GrantWrites(pool, gs);
    var i :| 0 <= i < |plan| && plan[i].Some? && plan[i].value.peer.id == g.peer.id && plan[i].value.peer.status == status;
    var j :| 0 <= j < |gs| && gs[j] == g;
    assert plan[i] == GrantWrite(pool, gs[i]);
    assert i == j;
  }

  /** After any part of a pass, a granted peer with a usable address has the address it was granted, and one
      that held its address still does. */
  lemma GrantedAddressStored(store: Store, gw: Spec, current: Keys, listed: seq<Peer>, answers: Answers, g: Grant)
    requires Accepted(gw) && Lists(listed, store) && g in PassGrants(gw, current, listed)
    ensures var after := PassStore(store, gw, current, listed, answers);
      && g.peer.id in after
      && (AddressUsable(after[g.peer.id].status.address, Pool(gw)) ==>
            !g.Exhausted? && after[g.peer.id].status.address == GrantedAddress(g))
      && (g.Held? ==> after[g.peer.id].status.address == GrantedAddress(g))
  {
    var id, after := g.peer.id, PassStore(store, gw, current, listed, answers);
    GrantOverFresh(store, gw, current, listed, g);
    PassGrantsFacts(gw, current, listed);
    HoldersFacts(gw, current, listed);
    PassGrantsDistinct(gw, current, listed);
    var released := Apply(store, ReleasePlan(gw, current, listed), answers);
    UnmentionedUnchanged(store, ReleasePlan(gw, current, listed), answers, id);
    ApplyConcat(store, ReleasePlan(gw, current, listed), GrantPlan(gw, current, listed), answers);
    ApplyPointwise(released, GrantPlan(gw, current, listed), answers, id);
    if after[id] != store[id] {
      GrantWriteAddress(Pool(gw), PassGrants(gw, current, listed), g, after[id].status);
    }
  }

  /** A peer without a grant keeps its stored address or loses it. */
  lemma UngrantedAddress(store: Store, gw: Spec, current: Keys, listed: seq<Peer>, answers: Answers, id: PeerId)
    requires Accepted(gw) && Lists(listed, store) && id in store
    requires forall g :: g in PassGrants(gw, current, listed) ==> g.peer.id != id
    ensures var after := PassStore(store, gw, current, listed, answers);
      && id in after
      && (after[id].status.address == store[id].status.address || after[id].status.address == Unset)
  {
    var release, grant := ReleasePlan(gw, current, listed), GrantPlan(gw, current, listed);
    ReleasesOnly(gw, current, listed);
    ReleasedAddress(store, release, answers, id);
    ApplyConcat(store, release, grant, answers);
    if Mentions(grant, id) {
      GrantsMention(Pool(gw), PassGrants(gw, current, listed), id);
    }
    UnmentionedUnchanged(Apply(store, release, answers), grant, answers, id);
  }

  /** A pass never moves a peer's spec, and never adds or removes one. */
  lemma PassKeepsSpecs(store: Store, gw: Spec, current: Keys, listed: seq<Peer>, answers: Answers, id: PeerId)
    requires Accepted(gw)
    ensures var after := PassStore(store, gw, current, listed, answers);
      (id in after <==> id in store) && (id in store ==> after[id] == store[id].(status := after[id].status))
  {
    ApplyPointwise(store, PassPlan(gw, current, listed), answers, id);
  }

  /** What a completed pass returns is what the store holds, as far as addresses go. */
  lemma AdmittedStored(store: Store, gw: Spec, current: Keys, listed: seq<Peer>, answers: Answers, p: Peer)
    requires Accepted(gw) && Lists(listed, store) && Completes(PassPlan(gw, current, listed), answers)
    requires p in AdmittedPeers(PassGrants(gw, current, listed), answers)
    ensures var after := PassStore(store, gw, current, listed, answers);
      && p.id in store && store[p.id].key == p.key
      && p.id in after && after[p.id].status.address == p.status.address
      && AdmissionProblem(gw, store[p.id]).None?
  {
    var i := AdmittedGrant(gw, current, listed, answers, p);
    GrantOverFresh(store, gw, current, listed, PassGrants(gw, current, listed)[i]);
    SurvivorsFacts(gw, current, listed);
    if PassGrants(gw, current, listed)[i].Fresh? {
      FreshStored(store, gw, current, listed, answers, i);
    } else {
      GrantedAddressStored(store, gw, current, listed, answers, PassGrants(gw, current, listed)[i]);
    }
  }

  /** A new address that was written is stored. */
  lemma FreshStored(store: Store, gw: Spec, current: Keys, listed: seq<Peer>, answers: Answers, i: nat)
    requires Accepted(gw) && DistinctIds(listed) && Completes(PassPlan(gw, current, listed), answers)
    requires i < |PassGrants(gw, current, listed)| && PassGrants(gw, current, listed)[i].Fresh?
    requires var id := PassGrants(gw, current, listed)[i].peer.id; id in store && answers(id) == Written
    ensures var g := PassGrants(gw, current, listed)[i];
      var after := PassStore(store, gw, current, listed, answers);
      g.peer.id in after && after[g.peer.id].status.address == Ip(g.address)
  {
    var release := ReleasePlan(gw, current, listed);
    OneWritePerPeer(gw, current, listed);
    assert PassPlan(gw, current, listed)[|release| + i] == GrantWrite(Pool(gw), PassGrants(gw, current, listed)[i]);
    ApplyWritten(store, PassPlan(gw, current, listed), answers, |release| + i);
  }

  // ---- the identity phase ----

  lemma IdentityKeepsAddresses(store: Store, gw: Spec, host: Address, serverKey: PublicKey, admitted: seq<Peer>, answers: Answers, id: PeerId)
    requires forall p :: p in admitted && p.id in store ==> store[p.id].status.address == p.status.address
    ensures var after := Apply(store, IdentityPlan(gw, host, serverKey, admitted), answers);
      && (id in after <==> id in store)
      && (id in store ==> after[id] == store[id].(status := after[id].status))
      && (id in store ==> after[id].status.address == store[id].status.address)
  {
    var plan := IdentityPlan(gw, host, serverKey, admitted);
    ApplyPointwise(store, plan, answers, id);
    var after := Apply(store, plan, answers);
    if id in store && after[id] != store[id] {
      var i :| 0 <= i < |plan| && plan[i].Some? && plan[i].value.peer.id == id && plan[i].value.peer.status == after[id].status;
      assert plan[i] == IdentityWrite(gw, host, serverKey, admitted[i]);
      assert admitted[i] in admitted;
    }
  }

  /** What a reconcile that proceeds does to the peers: its pass, and after a completed one perhaps the identity. */
  lemma ReconciledPeers(c: Cluster, gw: Spec, w: World)
    requires Proceeds(gw, w)
    ensures var current := ServedKeys(w.earlier);
      var after, next := PassStore(c.peers, gw, current, w.listed, w.answers), Reconciled(c, gw, w).peers;
      next != after ==>
        && Completes(PassPlan(gw, current, w.listed), w.answers) && w.found.Some?
        && var admitted := AdmittedPeers(PassGrants(gw, current, w.listed), w.answers);
           next == Apply(after, IdentityPlan(gw, w.clusterIP, w.found.value.publicKey, admitted), w.again)
  {
  }

  lemma IdentityAfterPass(store: Store, gw: Spec, w: World, current: Keys, id: PeerId)
    requires Proceeds(gw, w) && Lists(w.listed, store) && Completes(PassPlan(gw, current, w.listed), w.answers) && w.found.Some?
    ensures var after := PassStore(store, gw, current, w.listed, w.answers);
      var admitted := AdmittedPeers(PassGrants(gw, current, w.listed), w.answers);
      var next := Apply(after, IdentityPlan(gw, w.clusterIP, w.found.value.publicKey, admitted), w.again);
      && (id in next <==> id in after)
      && (id in after ==> next[id] == after[id].(status := next[id].status))
      && (id in after ==> next[id].status.address == after[id].status.address)
  {
    var after := PassStore(store, gw, current, w.listed, w.answers);
    var admitted := AdmittedPeers(PassGrants(gw, current, w.listed), w.answers);
    forall p | p in admitted && p.id in after
      ensures after[p.id].status.address == p.status.address
    {
      AdmittedStored(store, gw, current, w.listed, w.answers, p);
    }
    IdentityKeepsAddresses(after, gw, w.clusterIP, w.found.value.publicKey, admitted, w.again, id);
  }

  /** A whole reconcile changes addresses exactly as its pass does. */
  lemma ReconcileAddresses(c: Cluster, gw: Spec, w: World, id: PeerId)
    requires Proceeds(gw, w) && Lists(w.listed, c.peers)
    ensures var after := PassStore(c.peers, gw, ServedKeys(w.earlier), w.listed, w.answers);
      var next := Reconciled(c, gw, w).peers;
      && (id in next <==> id in c.peers) && (id in after <==> id in c.peers)
      && (id in c.peers ==> next[id] == c.peers[id].(status := next[id].status))
      && (id in c.peers ==> next[id].status.address == after[id].status.address)
  {
    var current := ServedKeys(w.earlier);
    PassKeepsSpecs(c.peers, gw, current, w.listed, w.answers, id);
    ReconciledPeers(c, gw, w);
    if Reconciled(c, gw, w).peers != PassStore(c.peers, gw, current, w.listed, w.answers) {
      IdentityAfterPass(c.peers, gw, w, current, id);
    }
  }

  // ---- addresses stay unshared while no write is skipped ----

  /** No two stored peers share an address of the pool. */
  ghost predicate Unshared(pool: Prefix, store: Store) {
    forall id, id' :: id in store && id' in store && id != id' && AddressUsable(store[id].status.address, pool) ==>
      store[id].status.address != store[id'].status.address
  }

  /** A peer the release phase decides is mentioned there, or already holds no address. */
  lemma DecidedInRelease(gw: Spec, current: Keys, listed: seq<Peer>, p: Peer)
    requires Accepted(gw) && DistinctIds(listed) && p in listed && Phase(gw, current, listed, p) < 3
    ensures p.status.address == Unset || Mentions(ReleasePlan(gw, current, listed), p.id)
  {
    var a, b, d := Refusals(gw, listed), Releases(KeyContest(current), KeyLosers(gw, current, listed)),
      Releases(AddressContest, AddressLosers(gw, current, listed));
    var plan := a + b + d;
    if Phase(gw, current, listed, p) == 0 {
      var i :| 0 <= i < |listed| && listed[i] == p;
      assert plan[i] == a[i] == RefusalOf(gw, p);
    } else if Phase(gw, current, listed, p) == 1 {
      var i := KeyLoserAt(gw, current, listed, p);
      assert plan[|a| + i] == b[i];
    } else {
      var i := AddressLoserAt(gw, current, listed, p);
      assert plan[|a| + |b| + i] == d[i];
    }
  }

  lemma KeyLoserAt(gw: Spec, current: Keys, listed: seq<Peer>, p: Peer) returns (i: nat)
    requires Accepted(gw) && DistinctIds(listed) && p in listed && Phase(gw, current, listed, p) == 1
    ensures i < |KeyLosers(gw, current, listed)|
    ensures KeyLosers(gw, current, listed)[i].peer == p
    ensures Releases(KeyContest(current), KeyLosers(gw, current, listed))[i] ==
      NotReadyWrite(p, PublicKeyConflict(KeyLosers(gw, current, listed)[i].winner))
  {
    var answers: Answers := (_: PeerId) => Written;
    LostKeyIff(gw, current, listed, answers, p);
    var losers := KeyLosers(gw, current, listed);
    var l :| l in losers && l.peer == p;
    i :| 0 <= i < |losers| && losers[i] == l;
  }

  lemma AddressLoserAt(gw: Spec, current: Keys, listed: seq<Peer>, p: Peer) returns (i: nat)
    requires Accepted(gw) && DistinctIds(listed) && p in listed && Phase(gw, current, listed, p) == 2
    ensures i < |AddressLosers(gw, current, listed)|
    ensures var slot := Releases(AddressContest, AddressLosers(gw, current, listed))[i];
      slot.Some? && slot.value.peer.id == p.id
  {
    var answers: Answers := (_: PeerId) => Written;
    var candidates := Candidates(gw, current, listed);
    LostAddressIff(gw, current, listed, answers, p);
    CandidatesFacts(gw, current, listed);
    var losers := AddressLosers(gw, current, listed);
    var l :| l in losers && l.peer.id == p.id;
    i :| 0 <= i < |losers| && losers[i] == l;
    LosersMembership(AddressContest, candidates, candidates);
    LosersNameTheHolder(AddressContest, candidates, candidates, l);
  }

  lemma UngrantedReleased(store: Store, gw: Spec, current: Keys, listed: seq<Peer>, answers: Answers, id: PeerId)
    requires Accepted(gw) && Lists(listed, store) && id in store && NoSkips(answers)
    requires Completes(ReleasePlan(gw, current, listed), answers)
    requires forall g :: g in PassGrants(gw, current, listed) ==> g.peer.id != id
    ensures var after := PassStore(store, gw, current, listed, answers);
      id in after && after[id].status.address == Unset
  {
    var p, release, grant := store[id], ReleasePlan(gw, current, listed), GrantPlan(gw, current, listed);
    if Phase(gw, current, listed, p) == 3 {
      var g := HolderHasGrant(gw, current, listed, p);
    }
    DecidedInRelease(gw, current, listed, p);
    ReleasesOnly(gw, current, listed);
    ReleasedAddress(store, release, answers, id);
    if Mentions(release, id) {
      ReleasedWhenDone(store, release, answers, id);
    }
    ApplyConcat(store, release, grant, answers);
    if Mentions(grant, id) {
      GrantsMention(Pool(gw), PassGrants(gw, current, listed), id);
    }
    UnmentionedUnchanged(Apply(store, release, answers), grant, answers, id);
  }

  lemma GrantedUnshared(store: Store, gw: Spec, current: Keys, listed: seq<Peer>, answers: Answers, g: Grant, h: Grant)
    requires Accepted(gw) && Lists(listed, store)
    requires g in PassGrants(gw, current, listed) && h in PassGrants(gw, current, listed) && g.peer.id != h.peer.id
    ensures var after := PassStore(store, gw, current, listed, answers);
      && g.peer.id in after && h.peer.id in after
      && (AddressUsable(after[g.peer.id].status.address, Pool(gw)) ==>
            after[g.peer.id].status.address != after[h.peer.id].status.address)
  {
    GrantedAddressStored(store, gw, current, listed, answers, g);
    GrantedAddressStored(store, gw, current, listed, answers, h);
    var gs := PassGrants(gw, current, listed);
    var i :| 0 <= i < |gs| && gs[i] == g;
    var j :| 0 <= j < |gs| && gs[j] == h;
    if !g.Exhausted? && !h.Exhausted? {
      GrantedAddressesDistinct(gw, current, listed, if i < j then i else j, if i < j then j else i);
    }
  }

  /** The release phase precedes every allocation, so even a pass that aborts anywhere shares no address. */
  lemma PassKeepsUnshared(store: Store, gw: Spec, current: Keys, listed: seq<Peer>, answers: Answers)
    requires Accepted(gw) && Lists(listed, store) && NoSkips(answers) && Unshared(Pool(gw), store)
    ensures Unshared(Pool(gw), PassStore(store, gw, current, listed, answers))
  {
    var pool, after, release := Pool(gw), PassStore(store, gw, current, listed, answers), ReleasePlan(gw, current, listed);
    forall id, id' | id in after && id' in after && id != id' && AddressUsable(after[id].status.address, pool)
      ensures after[id].status.address != after[id'].status.address
    {
      PassKeepsSpecs(store, gw, current, listed, answers, id);
      PassKeepsSpecs(store, gw, current, listed, answers, id');
      if !Completes(release, answers) {
        ReleasesOnly(gw, current, listed);
        ReleasedAddress(store, release, answers, id);
        ReleasedAddress(store, release, answers, id');
        ApplyConcat(store, release, GrantPlan(gw, current, listed), answers);
      } else if g :| g in PassGrants(gw, current, listed) && g.peer.id == id {
        if h :| h in PassGrants(gw, current, listed) && h.peer.id == id' {
          GrantedUnshared(store, gw, current, listed, answers, g, h);
        } else {
          UngrantedReleased(store, gw, current, listed, answers, id');
        }
      } else {
        UngrantedReleased(store, gw, current, listed, answers, id);
      }
    }
  }
}
