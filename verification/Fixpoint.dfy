/** The second reconcile settles a tidy cluster, and a settled cluster is a fixpoint. */
module Fixpoint {
  import opened Sequences
  import opened Ipv4
  import opened Ipam
  import opened Gateway
  import opened Peers
  import opened StateJson
  import opened Pass
  import opened PassFacts
  import opened Operator
  import opened Freshness
  import opened Stability
  import opened Decisions
  import opened Convergence

  // ---- reconciling a tidy cluster ----

  /** From a tidy cluster no address is contested: a peer is refused, loses its key, or is granted. */
  lemma TidyPhases(c: Cluster, gw: Spec, w: World, id: PeerId)
    requires Good(c, gw, w) && Tidy(gw, c) && id in c.peers
    ensures PhaseIn(c, gw, w, id) != 2
    ensures PhaseIn(c, gw, w, id) == 3 <==> KeyHolder(gw, c, id)
    ensures PhaseIn(c, gw, w, id) == 0 <==> AdmissionProblem(gw, c.peers[id]).Some?
  {
    SurvivorIff(gw, c, w.listed, id);
    if KeyHolder(gw, c, id) {
      TidyHolders(c, gw, w.listed, c.peers[id]);
    }
  }

  /** A listed peer of a tidy cluster is admitted with the address it has. */
  lemma TidyListedStays(c: Cluster, gw: Spec, w: World, id: PeerId)
    requires Good(c, gw, w) && Tidy(gw, c) && id in ServedKeys(c.secret)
    ensures KeyHolder(gw, c, id) && AdmittedTo(c, gw, w, id)
    ensures GrantIn(c, gw, w, id) == Held(c.peers[id])
  {
    TidyListedWins(c, gw, w.listed, id);
    SurvivorIff(gw, c, w.listed, id);
    TidyPhases(c, gw, w, id);
    var i := GrantForFacts(gw, ServedKeys(c.secret), w.listed, c.peers[id]);
  }

  lemma ListedThenHolder(c: Cluster, gw: Spec, w: World, next: Cluster, id: PeerId)
    requires Good(c, gw, w) && Tidy(gw, c) && Result(c, gw, w, next) && id in ServedKeys(next.secret)
    ensures KeyHolder(gw, c, id)
  {
    TidyPhases(c, gw, w, id);
  }

  /** What a reconcile leaves of one peer: its spec. */
  lemma ResultSpec(c: Cluster, gw: Spec, w: World, next: Cluster, id: PeerId)
    requires Good(c, gw, w) && Result(c, gw, w, next)
    ensures id in next.peers <==> id in c.peers
    ensures id in c.peers ==> next.peers[id] == c.peers[id].(status := next.peers[id].status)
    ensures id in ServedKeys(next.secret) ==> id in c.peers && ServedKeys(next.secret)[id] == c.peers[id].key
  {
    if id in c.peers {
      assert PeerOutcome(c, gw, w, id, next.peers[id]);
    }
  }

  /** The order between two contenders survives a change of state.json that keeps the winner listed if it was,
      and does not list the other. */
  lemma StaysAhead(current: Keys, keys: Keys, p: Peer, q: Peer, p': Peer, q': Peer)
    requires Beats(KeyContest(current), p, q) && p.key.Key?
    requires p' == p.(status := p'.status) && q' == q.(status := q'.status) && q.key == p.key
    requires p.id in current ==> current[p.id] == p.key && p.id in keys
    requires p.id in keys ==> keys[p.id] == p.key
    requires q.id !in keys
    ensures Beats(KeyContest(keys), p', q')
  {
  }

  /** The holder of a key stays its holder: either it was listed, and stays so, or nobody with that key was, and
      it is the oldest. */
  lemma HolderStays(c: Cluster, gw: Spec, w: World, next: Cluster, id: PeerId)
    requires Good(c, gw, w) && Tidy(gw, c) && Result(c, gw, w, next) && KeyHolder(gw, c, id)
    ensures KeyHolder(gw, next, id)
  {
    ResultSpec(c, gw, w, next, id);
    forall id' | Contends(gw, next, id, id')
      ensures Beats(KeyContest(ServedKeys(next.secret)), next.peers[id], next.peers[id'])
    {
      HolderStaysAhead(c, gw, w, next, id, id');
    }
  }

  /** id' is another admissible peer with the key of id. */
  ghost predicate Contends(gw: Spec, c: Cluster, id: PeerId, id': PeerId) {
    && id in c.peers && id' in c.peers && id' != id
    && AdmissionProblem(gw, c.peers[id']).None? && c.peers[id'].key == c.peers[id].key
  }

  lemma HolderStaysAhead(c: Cluster, gw: Spec, w: World, next: Cluster, id: PeerId, id': PeerId)
    requires Good(c, gw, w) && Tidy(gw, c) && Result(c, gw, w, next) && KeyHolder(gw, c, id)
    requires Contends(gw, next, id, id')
    ensures Beats(KeyContest(ServedKeys(next.secret)), next.peers[id], next.peers[id'])
  {
    ResultSpec(c, gw, w, next, id);
    ResultSpec(c, gw, w, next, id');
    if id' in ServedKeys(next.secret) {
      ListedThenHolder(c, gw, w, next, id');
      HolderOfKeyUnique(gw, c, id, id');
    }
    if id in ServedKeys(c.secret) {
      TidyListedStays(c, gw, w, id);
    }
    assert c.peers[id].id == id && c.peers[id'].id == id';
    StaysAhead(ServedKeys(c.secret), ServedKeys(next.secret), c.peers[id], c.peers[id'], next.peers[id], next.peers[id']);
  }

  lemma HolderWas(c: Cluster, gw: Spec, w: World, next: Cluster, id: PeerId)
    requires Good(c, gw, w) && Tidy(gw, c) && Result(c, gw, w, next) && KeyHolder(gw, next, id)
    ensures KeyHolder(gw, c, id)
  {
    ResultSpec(c, gw, w, next, id);
    WinnerHolds(gw, c, w.listed, id);
    var winner := KeyWinner(gw, ServedKeys(c.secret), w.listed, c.peers[id]);
    HolderStays(c, gw, w, next, winner);
    ResultSpec(c, gw, w, next, winner);
    HolderOfKeyUnique(gw, next, id, winner);
  }

  // ---- the pool ----

  /** Every address of the pool is reserved or belongs to a listed peer. */
  ghost predicate PoolFull(gw: Spec, c: Cluster)
    requires Accepted(gw)
  {
    forall a :: a in Block(Pool(gw)) && a !in Reserved(Pool(gw)) ==>
      exists id :: id in ServedKeys(c.secret) && id in c.peers && c.peers[id].status.address == a
  }

  /** When one peer of a pass is turned away, the pass has granted every allocatable address. */
  lemma ExhaustedCovers(gw: Spec, current: Keys, listed: seq<Peer>, i: nat, a: Address) returns (j: nat)
    requires Accepted(gw) && DistinctIds(listed) && i < |PassGrants(gw, current, listed)|
    requires PassGrants(gw, current, listed)[i].Exhausted? && a in Block(Pool(gw)) && a !in Reserved(Pool(gw))
    ensures j < |PassGrants(gw, current, listed)| && !PassGrants(gw, current, listed)[j].Exhausted?
    ensures GrantedAddress(PassGrants(gw, current, listed)[j]) == a
  {
    var pool, holders, gs := Pool(gw), Holders(gw, current, listed), PassGrants(gw, current, listed);
    var base := Used(pool, Addresses(holders));
    PassGrantsFacts(gw, current, listed);
    GrantAt(pool, base, holders, i);
    LeastFreeIsLeast(pool, base + FreshAddresses(gs[..i]));
    assert a in Elements(base + FreshAddresses(gs[..i]));
    if a in base {
      AssignedMembership(Addresses(holders));
      j :| 0 <= j < |holders| && Addresses(holders)[j] == a;
    } else {
      FreshMembership(gs[..i]);
      j :| 0 <= j < i && gs[..i][j].Fresh? && Ip(gs[..i][j].address) == a;
      assert gs[j] == gs[..i][j];
    }
  }

  lemma GrantIsResult(c: Cluster, gw: Spec, w: World, next: Cluster, j: nat) returns (id: PeerId)
    requires Good(c, gw, w) && Result(c, gw, w, next)
    requires j < |PassGrants(gw, ServedKeys(c.secret), w.listed)| && !PassGrants(gw, ServedKeys(c.secret), w.listed)[j].Exhausted?
    ensures id in ServedKeys(next.secret) && id in next.peers
    ensures next.peers[id].status.address == GrantedAddress(PassGrants(gw, ServedKeys(c.secret), w.listed)[j])
  {
    var g := PassGrants(gw, ServedKeys(c.secret), w.listed)[j];
    assert g in PassGrants(gw, ServedKeys(c.secret), w.listed);
    var p := GrantsMentionListed(gw, ServedKeys(c.secret), w.listed, g.peer.id);
    var i := GrantForFacts(gw, ServedKeys(c.secret), w.listed, p);
    id := p.id;
    assert PeerOutcome(c, gw, w, id, next.peers[id]);
  }

  lemma ExhaustedMeansFull(c: Cluster, gw: Spec, w: World, next: Cluster, id: PeerId)
    requires Good(c, gw, w) && Result(c, gw, w, next) && id in c.peers
    requires PhaseIn(c, gw, w, id) == 3 && !AdmittedTo(c, gw, w, id)
    ensures PoolFull(gw, next)
  {
    var i := GrantForFacts(gw, ServedKeys(c.secret), w.listed, c.peers[id]);
    forall a | a in Block(Pool(gw)) && a !in Reserved(Pool(gw))
      ensures exists id :: id in ServedKeys(next.secret) && id in next.peers && next.peers[id].status.address == a
    {
      var j := ExhaustedCovers(gw, ServedKeys(c.secret), w.listed, i, a);
      var holder := GrantIsResult(c, gw, w, next, j);
    }
  }

  // ---- settled ----

  /** The status of id names the holder of its key. */
  ghost predicate NamesHolder(gw: Spec, c: Cluster, id: PeerId)
    requires id in c.peers
  {
    exists winner :: winner in c.peers && KeyHolder(gw, c, winner) && c.peers[winner].key == c.peers[id].key
      && Records(c.peers[id], PublicKeyConflict(winner))
  }

  /** Nothing is left to write about id: a refused peer records its problem, a key loser names the holder, a
      listed peer is ready and carries the gateway's identity, and a key holder without an address records an
      exhausted pool that is indeed full. */
  ghost predicate SettledPeer(gw: Spec, host: Address, c: Cluster, id: PeerId)
    requires Accepted(gw) && id in c.peers && c.secret.Some?
  {
    var p := c.peers[id];
    if AdmissionProblem(gw, p).Some? then Records(p, AdmissionProblem(gw, p).value)
    else if !KeyHolder(gw, c, id) then NamesHolder(gw, c, id)
    else if id in ServedKeys(c.secret) then AlreadyReady(p) && CarriesIdentity(gw, host, c.secret.value.publicKey, p)
    else Records(ClearUnusable(Pool(gw), p), AddressPoolExhausted(Pool(gw))) && PoolFull(gw, c)
  }

  ghost predicate Settled(gw: Spec, host: Address, c: Cluster)
    requires Accepted(gw)
  {
    Tidy(gw, c) && c.secret.Some? && forall id :: id in c.peers ==> SettledPeer(gw, host, c, id)
  }

  lemma HolderSettles(c: Cluster, gw: Spec, w: World, next: Cluster, id: PeerId)
    requires Good(c, gw, w) && Tidy(gw, c) && Result(c, gw, w, next) && KeyHolder(gw, next, id)
    ensures SettledPeer(gw, w.clusterIP, next, id)
  {
    assert PeerOutcome(c, gw, w, id, next.peers[id]);
    HolderWas(c, gw, w, next, id);
    TidyPhases(c, gw, w, id);
    if id !in ServedKeys(next.secret) {
      ExhaustedMeansFull(c, gw, w, next, id);
    }
  }

  lemma LoserSettles(c: Cluster, gw: Spec, w: World, next: Cluster, id: PeerId)
    requires Good(c, gw, w) && Tidy(gw, c) && Result(c, gw, w, next) && id in c.peers
    requires AdmissionProblem(gw, c.peers[id]).None? && !KeyHolder(gw, next, id)
    ensures id in next.peers && NamesHolder(gw, next, id)
  {
    if KeyHolder(gw, c, id) {
      HolderStays(c, gw, w, next, id);
    }
    TidyPhases(c, gw, w, id);
    WinnerHolds(gw, c, w.listed, id);
    var winner := KeyWinner(gw, ServedKeys(c.secret), w.listed, c.peers[id]);
    HolderStays(c, gw, w, next, winner);
    ResultSpec(c, gw, w, next, winner);
    assert PeerOutcome(c, gw, w, id, next.peers[id]);
  }

  lemma RefusedSettles(c: Cluster, gw: Spec, w: World, next: Cluster, id: PeerId)
    requires Good(c, gw, w) && Result(c, gw, w, next) && id in c.peers && AdmissionProblem(gw, c.peers[id]).Some?
    ensures id in next.peers && AdmissionProblem(gw, next.peers[id]).Some?
    ensures Records(next.peers[id], AdmissionProblem(gw, next.peers[id]).value)
  {
    assert PeerOutcome(c, gw, w, id, next.peers[id]);
  }

  lemma SecondSettlesPeer(c: Cluster, gw: Spec, w: World, next: Cluster, id: PeerId)
    requires Good(c, gw, w) && Tidy(gw, c) && Result(c, gw, w, next) && id in c.peers
    ensures SettledPeer(gw, w.clusterIP, next, id)
  {
    ResultSpec(c, gw, w, next, id);
    if AdmissionProblem(gw, c.peers[id]).Some? {
      RefusedSettles(c, gw, w, next, id);
    } else if KeyHolder(gw, next, id) {
      HolderSettles(c, gw, w, next, id);
    } else {
      LoserSettles(c, gw, w, next, id);
    }
  }

  lemma SecondSettles(c: Cluster, gw: Spec, w: World, next: Cluster)
    requires Good(c, gw, w) && Tidy(gw, c) && Result(c, gw, w, next)
    ensures Settled(gw, w.clusterIP, next)
  {
    ResultIsTidy(c, gw, w, next);
    forall id | id in next.peers
      ensures SettledPeer(gw, w.clusterIP, next, id)
    {
      SecondSettlesPeer(c, gw, w, next, id);
    }
  }

  // ---- a settled cluster is a fixpoint ----

  /** A key holder without an address finds the pool full again, in whatever order the peers are listed. */
  lemma StillExhausted(c: Cluster, gw: Spec, w: World, id: PeerId)
    requires Good(c, gw, w) && Tidy(gw, c) && PoolFull(gw, c)
    requires KeyHolder(gw, c, id) && id !in ServedKeys(c.secret)
    ensures PhaseIn(c, gw, w, id) == 3 && GrantIn(c, gw, w, id) == Exhausted(ClearUnusable(Pool(gw), c.peers[id]))
  {
    var current, pool := ServedKeys(c.secret), Pool(gw);
    var holders := Holders(gw, current, w.listed);
    var base := Used(pool, Addresses(holders));
    TidyPhases(c, gw, w, id);
    var i := GrantForFacts(gw, current, w.listed, c.peers[id]);
    assert forall j :: 0 <= j < |holders| ==> holders[j] in holders;
    if GrantIn(c, gw, w, id).Fresh? {
      BaseFacts(gw, current, w.listed);
      FreshFacts(pool, base, holders, i);
      var a := Ip(PassGrants(gw, current, w.listed)[i].address);
      UsableIffAllocatable(pool, a);
      var owner :| owner in current && owner in c.peers && c.peers[owner].status.address == a;
      TidyListedStays(c, gw, w, owner);
      var j := GrantForFacts(gw, current, w.listed, c.peers[owner]);
      PassGrantsFacts(gw, current, w.listed);
    }
  }

  lemma LoserDecision(c: Cluster, gw: Spec, w: World, id: PeerId, slot: Option<Write>)
    requires Good(c, gw, w) && Settled(gw, w.clusterIP, c) && id in c.peers
    requires AdmissionProblem(gw, c.peers[id]).None? && !KeyHolder(gw, c, id)
    requires Decides(gw, ServedKeys(c.secret), w.listed, c.peers[id], slot)
    ensures slot.None?
  {
    assert SettledPeer(gw, w.clusterIP, c, id);
    TidyPhases(c, gw, w, id);
    WinnerHolds(gw, c, w.listed, id);
    var winner :| winner in c.peers && KeyHolder(gw, c, winner) && c.peers[winner].key == c.peers[id].key
      && Records(c.peers[id], PublicKeyConflict(winner));
    HolderOfKeyUnique(gw, c, winner, KeyWinner(gw, ServedKeys(c.secret), w.listed, c.peers[id]));
  }

  lemma ListedDecision(c: Cluster, gw: Spec, w: World, id: PeerId, slot: Option<Write>)
    requires Good(c, gw, w) && Settled(gw, w.clusterIP, c) && id in ServedKeys(c.secret)
    requires id in c.peers && KeyHolder(gw, c, id) && Decides(gw, ServedKeys(c.secret), w.listed, c.peers[id], slot)
    ensures slot.None? && AdmittedTo(c, gw, w, id)
  {
    assert SettledPeer(gw, w.clusterIP, c, id);
    TidyListedStays(c, gw, w, id);
  }

  lemma UnlistedDecision(c: Cluster, gw: Spec, w: World, id: PeerId, slot: Option<Write>)
    requires Good(c, gw, w) && Settled(gw, w.clusterIP, c) && id !in ServedKeys(c.secret)
    requires id in c.peers && KeyHolder(gw, c, id) && Decides(gw, ServedKeys(c.secret), w.listed, c.peers[id], slot)
    ensures slot.None? && !AdmittedTo(c, gw, w, id)
  {
    assert SettledPeer(gw, w.clusterIP, c, id);
    StillExhausted(c, gw, w, id);
  }

  lemma HolderDecision(c: Cluster, gw: Spec, w: World, id: PeerId, slot: Option<Write>)
    requires Good(c, gw, w) && Settled(gw, w.clusterIP, c) && KeyHolder(gw, c, id)
    requires Decides(gw, ServedKeys(c.secret), w.listed, c.peers[id], slot)
    ensures slot.None?
    ensures AdmittedTo(c, gw, w, id) <==> id in ServedKeys(c.secret)
  {
    if id in ServedKeys(c.secret) {
      ListedDecision(c, gw, w, id, slot);
    } else {
      UnlistedDecision(c, gw, w, id, slot);
    }
  }

  /** Nothing the plan could decide about a peer of a settled cluster is a write. */
  lemma SettledDecision(c: Cluster, gw: Spec, w: World, id: PeerId, slot: Option<Write>)
    requires Good(c, gw, w) && Settled(gw, w.clusterIP, c) && id in c.peers
    requires Decides(gw, ServedKeys(c.secret), w.listed, c.peers[id], slot)
    ensures slot.None?
    ensures AdmittedTo(c, gw, w, id) <==> id in ServedKeys(c.secret)
  {
    TidyPhases(c, gw, w, id);
    if KeyHolder(gw, c, id) {
      HolderDecision(c, gw, w, id, slot);
    } else {
      if id in ServedKeys(c.secret) {
        TidyListedStays(c, gw, w, id);
      }
      if AdmissionProblem(gw, c.peers[id]).None? {
        LoserDecision(c, gw, w, id, slot);
      } else {
        assert SettledPeer(gw, w.clusterIP, c, id);
      }
    }
  }

  ghost predicate WritesNothing(plan: Plan) {
    forall k :: 0 <= k < |plan| ==> plan[k].None?
  }

  lemma {:induction false} NothingApplied(store: Store, plan: Plan, answers: Answers)
    requires WritesNothing(plan)
    ensures Apply(store, plan, answers) == store
  {
    if plan != [] {
      NothingApplied(store, plan[..|plan| - 1], answers);
    }
  }

  lemma SettledPlan(c: Cluster, gw: Spec, w: World)
    requires Good(c, gw, w) && Settled(gw, w.clusterIP, c)
    ensures WritesNothing(PassPlan(gw, ServedKeys(c.secret), w.listed))
  {
    var plan := PassPlan(gw, ServedKeys(c.secret), w.listed);
    forall k | 0 <= k < |plan|
      ensures plan[k].None?
    {
      if plan[k].Some? {
        var p := SlotDecides(gw, ServedKeys(c.secret), w.listed, k);
        SettledDecision(c, gw, w, p.id, plan[k]);
      }
    }
  }

  lemma SettledIdentity(c: Cluster, gw: Spec, w: World)
    requires Good(c, gw, w) && Settled(gw, w.clusterIP, c)
    ensures WritesNothing(IdentityPlan(gw, w.clusterIP, c.secret.value.publicKey, AdmittedIn(c, gw, w)))
  {
    var current, admitted := ServedKeys(c.secret), AdmittedIn(c, gw, w);
    SettledPlan(c, gw, w);
    NothingApplied(c.peers, PassPlan(gw, current, w.listed), w.answers);
    forall i | 0 <= i < |admitted|
      ensures CarriesIdentity(gw, w.clusterIP, c.secret.value.publicKey, admitted[i])
    {
      var p := admitted[i];
      assert p in admitted;
      AdmittedIsStored(c.peers, gw, current, w.listed, w.answers, p);
      var slot := PassDecides(c.peers, gw, current, w.listed, w.answers, p.id);
      SettledDecision(c, gw, w, p.id, slot);
      TidyListedStays(c, gw, w, p.id);
      assert SettledPeer(gw, w.clusterIP, c, p.id);
    }
  }

  /** A reconcile of a settled cluster issues no status write at all. */
  lemma SettledPeersStay(c: Cluster, gw: Spec, w: World)
    requires Good(c, gw, w) && Settled(gw, w.clusterIP, c)
    ensures Reconciled(c, gw, w).peers == c.peers
    ensures forall id :: id in ServedKeys(Reconciled(c, gw, w).secret) <==> id in ServedKeys(c.secret)
  {
    var current := ServedKeys(c.secret);
    SettledPlan(c, gw, w);
    SettledIdentity(c, gw, w);
    AdmittedFacts(c, gw, w);
    NothingApplied(c.peers, PassPlan(gw, current, w.listed), w.answers);
    NothingApplied(c.peers, IdentityPlan(gw, w.clusterIP, c.secret.value.publicKey, AdmittedIn(c, gw, w)), w.again);
    forall id
      ensures id in ServedKeys(Reconciled(c, gw, w).secret) <==> id in current
    {
      GoodKeys(c, gw, w, id);
      if id in c.peers {
        var slot := PassDecides(c.peers, gw, current, w.listed, w.answers, id);
        SettledDecision(c, gw, w, id, slot);
      }
    }
  }

  // ---- the rendered state ----

  /** The Secret's state is the canonical rendering of the stored peers it lists. */
  ghost predicate StateMatches(gw: Spec, c: Cluster) {
    && c.secret.Some? && c.secret.value.state.Some?
    && var s := c.secret.value.state.value;
    && s.server == gw && s.privateKey == c.secret.value.privateKey && Sorted(s.peers)
    && (forall e :: e in s.peers <==> e.id in ServedKeys(c.secret) && e.id in c.peers && e == EntryOf(c.peers[e.id]))
  }

  lemma GoodEntries(c: Cluster, gw: Spec, w: World, next: Cluster, p: Peer)
    requires Good(c, gw, w) && Result(c, gw, w, next) && p in AdmittedIn(c, gw, w)
    ensures p.id in ServedKeys(next.secret) && p.id in next.peers && EntryOf(next.peers[p.id]) == EntryOf(p)
  {
    AdmittedIsStored(c.peers, gw, ServedKeys(c.secret), w.listed, w.answers, p);
    PassKeepsSpecs(c.peers, gw, ServedKeys(c.secret), w.listed, w.answers, p.id);
    assert PeerOutcome(c, gw, w, p.id, next.peers[p.id]);
  }

  lemma StateAfter(c: Cluster, gw: Spec, w: World)
    requires Good(c, gw, w)
    ensures StateMatches(gw, Reconciled(c, gw, w))
    ensures Reconciled(c, gw, w).secret.value.privateKey == c.secret.value.privateKey
    ensures Reconciled(c, gw, w).secret.value.publicKey == c.secret.value.publicKey
  {
    GoodResult(c, gw, w);
    AdmittedFacts(c, gw, w);
    var admitted := AdmittedIn(c, gw, w);
    RenderedEntries(gw, c.secret.value.privateKey, admitted);
    EntriesMatch(c, gw, w, Reconciled(c, gw, w), admitted);
  }

  lemma EntriesMatch(c: Cluster, gw: Spec, w: World, next: Cluster, admitted: seq<Peer>)
    requires Good(c, gw, w) && Result(c, gw, w, next) && admitted == AdmittedIn(c, gw, w)
    ensures forall e :: (exists p :: p in admitted && EntryOf(p) == e) <==>
      e.id in ServedKeys(next.secret) && e.id in next.peers && e == EntryOf(next.peers[e.id])
  {
    AdmittedFacts(c, gw, w);
    forall p | p in admitted
      ensures p.id in ServedKeys(next.secret) && p.id in next.peers && EntryOf(next.peers[p.id]) == EntryOf(p)
    {
      GoodEntries(c, gw, w, next, p);
    }
  }

  lemma SameStates(gw: Spec, a: Cluster, b: Cluster)
    requires StateMatches(gw, a) && StateMatches(gw, b) && a.peers == b.peers
    requires a.secret.value.privateKey == b.secret.value.privateKey && a.secret.value.publicKey == b.secret.value.publicKey
    requires forall id :: id in ServedKeys(a.secret) <==> id in ServedKeys(b.secret)
    ensures a == b
  {
    var s, t := a.secret.value.state.value, b.secret.value.state.value;
    assert Elements(s.peers) == Elements(t.peers);
    SortedUnique(s.peers, t.peers);
  }

  // ---- convergence ----

  /** From any statuses and any earlier state.json, with the specs fixed, reads fresh and writes succeeding, two
      reconciles reach a fixpoint: the third issues no status write and renders the same state, whatever order
      each of the three lists the peers in. */
  lemma TwoReconcilesConverge(c: Cluster, gw: Spec, w1: World, w2: World, w3: World)
    requires Good(c, gw, w1) && w1.clusterIP == w2.clusterIP == w3.clusterIP
    requires var c1 := Reconciled(c, gw, w1); Good(c1, gw, w2) && Good(Reconciled(c1, gw, w2), gw, w3)
    ensures var c2 := Reconciled(Reconciled(c, gw, w1), gw, w2);
      && WritesNothing(PassPlan(gw, ServedKeys(c2.secret), w3.listed))
      && WritesNothing(IdentityPlan(gw, w3.clusterIP, c2.secret.value.publicKey, AdmittedIn(c2, gw, w3)))
      && Reconciled(c2, gw, w3) == c2
  {
    var c1 := Reconciled(c, gw, w1);
    var c2 := Reconciled(c1, gw, w2);
    GoodResult(c, gw, w1);
    ResultIsTidy(c, gw, w1, c1);
    GoodResult(c1, gw, w2);
    SecondSettles(c1, gw, w2, c2);
    StateAfter(c1, gw, w2);
    SettledIsFixed(c2, gw, w3);
  }

  lemma SettledIsFixed(c: Cluster, gw: Spec, w: World)
    requires Good(c, gw, w) && Settled(gw, w.clusterIP, c) && StateMatches(gw, c)
    ensures WritesNothing(PassPlan(gw, ServedKeys(c.secret), w.listed))
    ensures WritesNothing(IdentityPlan(gw, w.clusterIP, c.secret.value.publicKey, AdmittedIn(c, gw, w)))
    ensures Reconciled(c, gw, w) == c
  {
    SettledPlan(c, gw, w);
    SettledIdentity(c, gw, w);
    SettledPeersStay(c, gw, w);
    StateAfter(c, gw, w);
    SameStates(gw, Reconciled(c, gw, w), c);
  }
}
