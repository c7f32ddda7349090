/** Convergence: from any statuses and any earlier state.json, two reconciles over fresh reads reach a fixpoint,
    whatever order each of them lists the peers in. */
module Convergence {
  import opened Sequences
  import opened Ipv4
  import opened Gateway
  import opened Peers
  import opened StateJson
  import opened Pass
  import opened PassFacts
  import opened Operator
  import opened Safety
  import opened Freshness
  import opened Stability
  import opened Decisions

  /** A reconcile in which nothing goes wrong: fresh reads in any order, every write succeeds, the Secret exists. */
  ghost predicate Good(c: Cluster, gw: Spec, w: World) {
    && Proceeds(gw, w) && Lists(w.listed, c.peers) && c.secret.Some? && w.earlier == c.secret && w.found == c.secret
    && AllWritten(w.answers) && AllWritten(w.again) && w.stored && w.deployed
  }

  ghost function AdmittedIn(c: Cluster, gw: Spec, w: World): seq<Peer>
    requires Proceeds(gw, w)
  {
    AdmittedPeers(PassGrants(gw, ServedKeys(c.secret), w.listed), w.answers)
  }

  ghost function PhaseIn(c: Cluster, gw: Spec, w: World, id: PeerId): nat
    requires Proceeds(gw, w) && id in c.peers
  {
    Phase(gw, ServedKeys(c.secret), w.listed, c.peers[id])
  }

  ghost function GrantIn(c: Cluster, gw: Spec, w: World, id: PeerId): Grant
    requires Good(c, gw, w) && id in c.peers && PhaseIn(c, gw, w, id) == 3
  {
    GrantFor(gw, ServedKeys(c.secret), w.listed, c.peers[id])
  }

  ghost predicate AdmittedTo(c: Cluster, gw: Spec, w: World, id: PeerId)
    requires Good(c, gw, w) && id in c.peers
  {
    PhaseIn(c, gw, w, id) == 3 && !GrantIn(c, gw, w, id).Exhausted?
  }

  // ---- one good reconcile, peer by peer ----

  lemma AdmittedFacts(c: Cluster, gw: Spec, w: World)
    requires Good(c, gw, w)
    ensures DistinctIds(AdmittedIn(c, gw, w))
    ensures PassResult(gw, ServedKeys(c.secret), w.listed, w.answers) == Some(AdmittedIn(c, gw, w))
    ensures forall id :: id in c.peers ==> (AdmittedTo(c, gw, w, id) <==> exists p :: p in AdmittedIn(c, gw, w) && p.id == id)
    ensures forall p :: p in AdmittedIn(c, gw, w) ==> p.id in c.peers
  {
    var current := ServedKeys(c.secret);
    PassGrantsDistinct(gw, current, w.listed);
    AdmittedDistinct(PassGrants(gw, current, w.listed), w.answers);
    forall p | p in AdmittedIn(c, gw, w)
      ensures p.id in c.peers && AdmittedTo(c, gw, w, p.id)
    {
      AdmittedIsStored(c.peers, gw, current, w.listed, w.answers, p);
    }
    forall id | id in c.peers && AdmittedTo(c, gw, w, id)
      ensures exists p :: p in AdmittedIn(c, gw, w) && p.id == id
    {
      GrantedIsAdmitted(c.peers, gw, current, w.listed, w.answers, id);
    }
  }

  lemma IdentityOnce(gw: Spec, host: Address, serverKey: PublicKey, admitted: seq<Peer>)
    requires DistinctIds(admitted)
    ensures OneWriteEach(IdentityPlan(gw, host, serverKey, admitted))
  {
  }

  /** The identity writes give every admitted peer the gateway's identity and leave the rest alone. */
  lemma IdentityDecides(store: Store, gw: Spec, host: Address, serverKey: PublicKey, admitted: seq<Peer>, answers: Answers, id: PeerId)
    requires DistinctIds(admitted) && AllWritten(answers) && id in store && store[id].id == id
    requires forall p :: p in admitted ==> p.id in store && store[p.id] == p
    ensures var after := Apply(store, IdentityPlan(gw, host, serverKey, admitted), answers);
      && id in after
      && (store[id] in admitted ==> after[id] == WithIdentity(gw, host, serverKey, store[id]))
      && (store[id] !in admitted ==> after[id] == store[id])
  {
    var plan := IdentityPlan(gw, host, serverKey, admitted);
    IdentityOnce(gw, host, serverKey, admitted);
    ApplyPointwise(store, plan, answers, id);
    var after := Apply(store, plan, answers);
    if after[id] != store[id] {
      var i :| 0 <= i < |plan| && plan[i].Some? && plan[i].value.peer.id == id && plan[i].value.peer.status == after[id].status;
      assert plan[i] == IdentityWrite(gw, host, serverKey, admitted[i]) && admitted[i] in admitted;
    } else if store[id] in admitted {
      var i :| 0 <= i < |admitted| && admitted[i] == store[id];
      assert plan[i] == IdentityWrite(gw, host, serverKey, admitted[i]);
      if plan[i].Some? {
        ApplyWritten(store, plan, answers, i);
      }
    }
  }

  lemma GoodReconciled(c: Cluster, gw: Spec, w: World)
    requires Good(c, gw, w)
    ensures var current, secret, admitted := ServedKeys(c.secret), c.secret.value, AdmittedIn(c, gw, w);
      var after := PassStore(c.peers, gw, current, w.listed, w.answers);
      Reconciled(c, gw, w) ==
        Cluster(Apply(after, IdentityPlan(gw, w.clusterIP, secret.publicKey, admitted), w.again), Some(StateOf(gw, secret, admitted)))
  {
    AdmittedFacts(c, gw, w);
  }

  /** A good reconcile leaves the store as its pass did, with the identity added to the admitted peers. */
  lemma GoodStore(c: Cluster, gw: Spec, w: World, id: PeerId) returns (slot: Option<Write>)
    requires Good(c, gw, w) && id in c.peers
    ensures Decides(gw, ServedKeys(c.secret), w.listed, c.peers[id], slot)
    ensures var decided := Decided(c.peers[id], slot);
      && id in Reconciled(c, gw, w).peers
      && (AdmittedTo(c, gw, w, id) ==>
            && AlreadyReady(decided) && decided.status.address == GrantedAddress(GrantIn(c, gw, w, id))
            && Reconciled(c, gw, w).peers[id] == WithIdentity(gw, w.clusterIP, c.secret.value.publicKey, decided))
      && (!AdmittedTo(c, gw, w, id) ==> Reconciled(c, gw, w).peers[id] == decided)
  {
    var current, admitted := ServedKeys(c.secret), AdmittedIn(c, gw, w);
    AdmittedFacts(c, gw, w);
    GoodReconciled(c, gw, w);
    slot := PassDecides(c.peers, gw, current, w.listed, w.answers, id);
    var after := PassStore(c.peers, gw, current, w.listed, w.answers);
    forall p | p in admitted
      ensures p.id in after && after[p.id] == p
    {
      AdmittedIsStored(c.peers, gw, current, w.listed, w.answers, p);
    }
    IdentityDecides(after, gw, w.clusterIP, c.secret.value.publicKey, admitted, w.again, id);
    if AdmittedTo(c, gw, w, id) {
      var p :| p in admitted && p.id == id;
      AdmittedIsStored(c.peers, gw, current, w.listed, w.answers, p);
    }
  }

  /** The keys the next reconcile reads are those of the peers this one admitted. */
  lemma GoodKeys(c: Cluster, gw: Spec, w: World, id: PeerId)
    requires Good(c, gw, w)
    ensures var keys := ServedKeys(Reconciled(c, gw, w).secret);
      && (id in keys <==> id in c.peers && AdmittedTo(c, gw, w, id))
      && (id in keys ==> keys[id] == c.peers[id].key)
  {
    var admitted := AdmittedIn(c, gw, w);
    AdmittedFacts(c, gw, w);
    GoodReconciled(c, gw, w);
    KeysRoundTrip(gw, c.secret.value, admitted);
    if p :| p in admitted && p.id == id {
      AdmittedIsStored(c.peers, gw, ServedKeys(c.secret), w.listed, w.answers, p);
      PassKeepsSpecs(c.peers, gw, ServedKeys(c.secret), w.listed, w.answers, id);
    }
  }

  /** Reconciling neither adds nor removes a peer, nor touches a spec. */
  lemma GoodSpecs(c: Cluster, gw: Spec, w: World, id: PeerId)
    requires Good(c, gw, w)
    ensures var next := Reconciled(c, gw, w);
      && (id in next.peers <==> id in c.peers)
      && (id in c.peers ==> next.peers[id] == c.peers[id].(status := next.peers[id].status))
      && next.secret.Some? && next.secret.value.publicKey == c.secret.value.publicKey
  {
    ReconcileAddresses(c, gw, w, id);
    GoodReconciled(c, gw, w);
  }

  // ---- what a good reconcile leaves, apart from how it got there ----

  /** p' is what a good reconcile of c makes of the peer id. */
  ghost predicate PeerOutcome(c: Cluster, gw: Spec, w: World, id: PeerId, p': Peer)
    requires Good(c, gw, w) && id in c.peers
  {
    && p' == c.peers[id].(status := p'.status)
    && match PhaseIn(c, gw, w, id)
       case 0 => Records(p', AdmissionProblem(gw, p').value)
       case 1 => Records(p', PublicKeyConflict(KeyWinner(gw, ServedKeys(c.secret), w.listed, c.peers[id])))
       case 2 => Records(p', AddressConflict(c.peers[id].status.address, AddressWinner(gw, ServedKeys(c.secret), w.listed, c.peers[id])))
       case _ =>
         var g := GrantIn(c, gw, w, id);
         if g.Exhausted? then Records(ClearUnusable(Pool(gw), p'), AddressPoolExhausted(Pool(gw)))
         else
           && AlreadyReady(p') && p'.status.address == GrantedAddress(g)
           && CarriesIdentity(gw, w.clusterIP, c.secret.value.publicKey, p')
  }

  ghost predicate Result(c: Cluster, gw: Spec, w: World, next: Cluster)
    requires Good(c, gw, w)
  {
    var keys := ServedKeys(next.secret);
    && next.secret.Some? && next.secret.value.publicKey == c.secret.value.publicKey
    && (forall id :: id in keys <==> id in c.peers && AdmittedTo(c, gw, w, id))
    && (forall id :: id in keys ==> keys[id] == c.peers[id].key)
    && (forall id :: id in next.peers <==> id in c.peers)
    && (forall id :: id in c.peers ==> PeerOutcome(c, gw, w, id, next.peers[id]))
  }

  lemma PeerOutcomes(c: Cluster, gw: Spec, w: World, id: PeerId)
    requires Good(c, gw, w) && id in c.peers
    ensures id in Reconciled(c, gw, w).peers
    ensures PeerOutcome(c, gw, w, id, Reconciled(c, gw, w).peers[id])
  {
    var slot := GoodStore(c, gw, w, id);
    if AdmittedTo(c, gw, w, id) {
      AdmittedOutcome(c, gw, w, id, Decided(c.peers[id], slot));
    } else {
      UnadmittedOutcome(c, gw, w, id, slot);
    }
  }

  lemma AdmittedOutcome(c: Cluster, gw: Spec, w: World, id: PeerId, decided: Peer)
    requires Good(c, gw, w) && id in c.peers && AdmittedTo(c, gw, w, id)
    requires decided == c.peers[id].(status := decided.status) && AlreadyReady(decided)
    requires decided.status.address == GrantedAddress(GrantIn(c, gw, w, id))
    ensures PeerOutcome(c, gw, w, id, WithIdentity(gw, w.clusterIP, c.secret.value.publicKey, decided))
  {
  }

  lemma UnadmittedOutcome(c: Cluster, gw: Spec, w: World, id: PeerId, slot: Option<Write>)
    requires Good(c, gw, w) && id in c.peers && !AdmittedTo(c, gw, w, id)
    requires Decides(gw, ServedKeys(c.secret), w.listed, c.peers[id], slot)
    ensures PeerOutcome(c, gw, w, id, Decided(c.peers[id], slot))
  {
    if PhaseIn(c, gw, w, id) == 3 {
      var i := GrantForFacts(gw, ServedKeys(c.secret), w.listed, c.peers[id]);
    }
  }

  lemma GoodResult(c: Cluster, gw: Spec, w: World)
    requires Good(c, gw, w)
    ensures Result(c, gw, w, Reconciled(c, gw, w))
  {
    forall id
      ensures (id in Reconciled(c, gw, w).peers <==> id in c.peers)
      ensures var keys := ServedKeys(Reconciled(c, gw, w).secret);
        && (id in keys <==> id in c.peers && AdmittedTo(c, gw, w, id))
        && (id in keys ==> keys[id] == c.peers[id].key)
      ensures id in c.peers ==> PeerOutcome(c, gw, w, id, Reconciled(c, gw, w).peers[id])
    {
      GoodKeys(c, gw, w, id);
      GoodSpecs(c, gw, w, id);
      if id in c.peers {
        PeerOutcomes(c, gw, w, id);
      }
    }
    AdmittedFacts(c, gw, w);
  }

  // ---- after one good reconcile: tidy ----

  /** Everyone state.json lists is an admissible stored peer with its own usable address and key, and no other
      admissible peer has a usable address. */
  ghost predicate Tidy(gw: Spec, c: Cluster)
    requires Accepted(gw)
  {
    var keys := ServedKeys(c.secret);
    && (forall id :: id in keys ==> id in c.peers && keys[id] == c.peers[id].key && keys[id].Key?)
    && (forall id :: id in keys ==>
          AdmissionProblem(gw, c.peers[id]).None? && AddressUsable(c.peers[id].status.address, Pool(gw)))
    && (forall id, id' :: id in keys && id' in keys && id != id' ==>
          keys[id] != keys[id'] && c.peers[id].status.address != c.peers[id'].status.address)
    && (forall id :: id in c.peers && id !in keys && AdmissionProblem(gw, c.peers[id]).None? ==>
          ClearUnusable(Pool(gw), c.peers[id]).status.address == Unset)
  }

  lemma AdmittedIsTidy(c: Cluster, gw: Spec, w: World, id: PeerId, p': Peer)
    requires Good(c, gw, w) && id in c.peers && AdmittedTo(c, gw, w, id) && PeerOutcome(c, gw, w, id, p')
    ensures p'.key.Key? && AdmissionProblem(gw, p').None? && AddressUsable(p'.status.address, Pool(gw))
  {
    var i := GrantForFacts(gw, ServedKeys(c.secret), w.listed, c.peers[id]);
  }

  lemma UnadmittedIsTidy(c: Cluster, gw: Spec, w: World, id: PeerId, p': Peer)
    requires Good(c, gw, w) && id in c.peers && !AdmittedTo(c, gw, w, id) && PeerOutcome(c, gw, w, id, p')
    requires AdmissionProblem(gw, p').None?
    ensures ClearUnusable(Pool(gw), p').status.address == Unset
  {
  }

  lemma GrantsApart(c: Cluster, gw: Spec, w: World, id: PeerId, id': PeerId)
    requires Good(c, gw, w) && id in c.peers && id' in c.peers && id != id'
    requires AdmittedTo(c, gw, w, id) && AdmittedTo(c, gw, w, id')
    ensures GrantedAddress(GrantIn(c, gw, w, id)) != GrantedAddress(GrantIn(c, gw, w, id'))
    ensures c.peers[id].key != c.peers[id'].key
  {
    GrantsForApart(gw, ServedKeys(c.secret), w.listed, c.peers[id], c.peers[id']);
  }

  lemma ListedApart(c: Cluster, gw: Spec, w: World, next: Cluster)
    requires Good(c, gw, w) && Result(c, gw, w, next)
    ensures var keys := ServedKeys(next.secret);
      forall id, id' :: id in keys && id' in keys && id != id' ==>
        && id in next.peers && id' in next.peers
        && keys[id] != keys[id'] && next.peers[id].status.address != next.peers[id'].status.address
  {
    var keys := ServedKeys(next.secret);
    forall id, id' | id in keys && id' in keys && id != id'
      ensures id in next.peers && id' in next.peers
      ensures keys[id] != keys[id'] && next.peers[id].status.address != next.peers[id'].status.address
    {
      GrantsApart(c, gw, w, id, id');
    }
  }

  /** Whatever the statuses and the earlier state were, one good reconcile tidies them. */
  lemma ResultIsTidy(c: Cluster, gw: Spec, w: World, next: Cluster)
    requires Good(c, gw, w) && Result(c, gw, w, next)
    ensures Tidy(gw, next)
  {
    var keys := ServedKeys(next.secret);
    ListedApart(c, gw, w, next);
    forall id | id in keys
      ensures id in next.peers && keys[id] == next.peers[id].key && keys[id].Key?
      ensures AdmissionProblem(gw, next.peers[id]).None? && AddressUsable(next.peers[id].status.address, Pool(gw))
    {
      AdmittedIsTidy(c, gw, w, id, next.peers[id]);
    }
    forall id | id in next.peers && id !in keys && AdmissionProblem(gw, next.peers[id]).None?
      ensures ClearUnusable(Pool(gw), next.peers[id]).status.address == Unset
    {
      UnadmittedIsTidy(c, gw, w, id, next.peers[id]);
    }
  }

  // ---- from a tidy cluster: listed peers win, and no address is contested ----

  /** A listed peer of a tidy cluster keeps its key: no other contender is listed under it. */
  lemma TidyListedWins(c: Cluster, gw: Spec, listed: seq<Peer>, id: PeerId)
    requires Accepted(gw) && Tidy(gw, c) && Lists(listed, c.peers) && id in ServedKeys(c.secret)
    ensures c.peers[id] in Survivors(gw, ServedKeys(c.secret), listed)
  {
    var current, p, admissible := ServedKeys(c.secret), c.peers[id], Admissible(gw, listed);
    SurvivorsFacts(gw, current, listed);
    AdmissibleDistinct(gw, listed);
    forall q | q in admissible && q.key == p.key && q != p
      ensures Beats(KeyContest(current), p, q)
    {
      assert q.id != id && c.peers[q.id] == q;
    }
    assert Holds(KeyContest(current), admissible, KeyValue(p.key), p);
    WinsIff(KeyContest(current), admissible, p);
  }

  /** In a tidy cluster every key winner also keeps its address, or has none. */
  lemma TidyHolders(c: Cluster, gw: Spec, listed: seq<Peer>, p: Peer)
    requires Accepted(gw) && Tidy(gw, c) && Lists(listed, c.peers) && p in Survivors(gw, ServedKeys(c.secret), listed)
    ensures ClearUnusable(Pool(gw), p) in Holders(gw, ServedKeys(c.secret), listed)
  {
    var current, h := ServedKeys(c.secret), ClearUnusable(Pool(gw), p);
    var candidates := Candidates(gw, current, listed);
    CandidatesFacts(gw, current, listed);
    SurvivorsFacts(gw, current, listed);
    KeepersMembership(AddressContest, candidates, candidates);
    if h.status.address != Unset {
      forall q | q in candidates && q.status.address == h.status.address
        ensures q == h
      {
        var o := CandidateOrigin(c, gw, listed, q);
        assert o.id in current && p.id in current;
      }
      assert Holds(AddressContest, candidates, ValueOf(AddressContest, h), h);
      WinsIff(AddressContest, candidates, h);
    }
  }

  lemma CandidateOrigin(c: Cluster, gw: Spec, listed: seq<Peer>, q: Peer) returns (o: Peer)
    requires Accepted(gw) && Lists(listed, c.peers) && q in Candidates(gw, ServedKeys(c.secret), listed)
    ensures o in Survivors(gw, ServedKeys(c.secret), listed) && q == ClearUnusable(Pool(gw), o)
    ensures o.id in c.peers && c.peers[o.id] == o && AdmissionProblem(gw, o).None?
  {
    CandidatesFacts(gw, ServedKeys(c.secret), listed);
    SurvivorsFacts(gw, ServedKeys(c.secret), listed);
    o :| o in Survivors(gw, ServedKeys(c.secret), listed) && q == ClearUnusable(Pool(gw), o);
  }

  // ---- key winners, without a listing ----

  /** id is admissible and beats every other admissible peer with its key. */
  ghost predicate KeyHolder(gw: Spec, c: Cluster, id: PeerId) {
    && id in c.peers && AdmissionProblem(gw, c.peers[id]).None?
    && forall id' :: id' in c.peers && id' != id && AdmissionProblem(gw, c.peers[id']).None? && c.peers[id'].key == c.peers[id].key ==>
         Beats(KeyContest(ServedKeys(c.secret)), c.peers[id], c.peers[id'])
  }

  lemma SurvivorIff(gw: Spec, c: Cluster, listed: seq<Peer>, id: PeerId)
    requires Lists(listed, c.peers) && id in c.peers
    ensures c.peers[id] in Survivors(gw, ServedKeys(c.secret), listed) <==> KeyHolder(gw, c, id)
  {
    var current, p, admissible := ServedKeys(c.secret), c.peers[id], Admissible(gw, listed);
    SurvivorsFacts(gw, current, listed);
    AdmissibleDistinct(gw, listed);
    if AdmissionProblem(gw, p).None? {
      WinsIff(KeyContest(current), admissible, p);
      if KeyHolder(gw, c, id) {
        assert forall q :: q in admissible && q != p ==> q.id != id && c.peers[q.id] == q;
        assert Holds(KeyContest(current), admissible, KeyValue(p.key), p);
      } else {
        var id' :| id' in c.peers && id' != id && AdmissionProblem(gw, c.peers[id']).None? && c.peers[id'].key == p.key
          && !Beats(KeyContest(current), p, c.peers[id']);
        assert c.peers[id'] in admissible && c.peers[id'] != p;
      }
    }
  }

  /** The peer a key loser is told about is the holder of its key. */
  lemma WinnerHolds(gw: Spec, c: Cluster, listed: seq<Peer>, id: PeerId)
    requires Lists(listed, c.peers) && id in c.peers && AdmissionProblem(gw, c.peers[id]).None?
    ensures var winner := KeyWinner(gw, ServedKeys(c.secret), listed, c.peers[id]);
      winner in c.peers && KeyHolder(gw, c, winner) && c.peers[winner].key == c.peers[id].key
  {
    var current, p, admissible := ServedKeys(c.secret), c.peers[id], Admissible(gw, listed);
    AdmissibleDistinct(gw, listed);
    assert p in admissible;
    BestHolds(KeyContest(current), admissible, KeyValue(p.key));
    var h := Best(KeyContest(current), admissible, KeyValue(p.key)).value;
    WinsIff(KeyContest(current), admissible, h);
    SurvivorsFacts(gw, current, listed);
    SurvivorIff(gw, c, listed, h.id);
  }

  lemma HolderOfKeyUnique(gw: Spec, c: Cluster, id: PeerId, id': PeerId)
    requires KeyHolder(gw, c, id) && KeyHolder(gw, c, id') && c.peers[id].key == c.peers[id'].key
    ensures id == id'
  {
    BeatsStrictTotal(KeyContest(ServedKeys(c.secret)), c.peers[id], c.peers[id']);
  }
}
