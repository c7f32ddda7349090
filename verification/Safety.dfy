/** State safety and conservation: what every state.json ever rendered satisfies, and where every listed peer
    ends up, for any listing (fresh or stale) and any answers to the status writes. */
module Safety {
  import opened Sequences
  import opened Ipv4
  import opened Ipam
  import opened Gateway
  import opened Peers
  import opened StateJson
  import opened Pass
  import opened PassFacts
  import opened Operator

  // ---- who is returned ----

  lemma {:induction false} AdmittedMembership(gs: seq<Grant>, answers: Answers)
    ensures forall p :: p in AdmittedPeers(gs, answers) <==>
      exists i :: 0 <= i < |gs| && AdmittedPeer(gs[i], answers) == Some(p)
  {
    if gs != [] {
      var front, last := gs[..|gs| - 1], gs[|gs| - 1];
      AdmittedMembership(front, answers);
      forall p | exists i :: 0 <= i < |gs| && AdmittedPeer(gs[i], answers) == Some(p)
        ensures p in AdmittedPeers(gs, answers)
      {
        var i :| 0 <= i < |gs| && AdmittedPeer(gs[i], answers) == Some(p);
        assert i < |front| ==> front[i] == gs[i];
      }
      forall p | p in AdmittedPeers(gs, answers)
        ensures exists i :: 0 <= i < |gs| && AdmittedPeer(gs[i], answers) == Some(p)
      {
        if p in AdmittedPeers(front, answers) {
          var i :| 0 <= i < |front| && AdmittedPeer(front[i], answers) == Some(p);
          assert gs[i] == front[i];
        } else {
          assert AdmittedPeer(gs[|gs| - 1], answers) == Some(p);
        }
      }
    }
  }

  ghost predicate DistinctGrants(gs: seq<Grant>) {
    forall i, j :: 0 <= i < j < |gs| ==> gs[i].peer.id != gs[j].peer.id
  }

  lemma {:induction false} AdmittedDistinct(gs: seq<Grant>, answers: Answers)
    requires DistinctGrants(gs)
    ensures DistinctIds(AdmittedPeers(gs, answers))
  {
    if gs != [] {
      var front, last := gs[..|gs| - 1], gs[|gs| - 1];
      AdmittedDistinct(front, answers);
      AdmittedMembership(front, answers);
      forall p | p in AdmittedPeers(front, answers)
        ensures p.id != last.peer.id
      {
        var i :| 0 <= i < |front| && AdmittedPeer(front[i], answers) == Some(p);
        assert front[i] == gs[i];
      }
    }
  }

  lemma PassGrantsDistinct(gw: Spec, current: Keys, listed: seq<Peer>)
    requires Accepted(gw) && DistinctIds(listed)
    ensures DistinctGrants(PassGrants(gw, current, listed))
  {
    PassGrantsFacts(gw, current, listed);
    HoldersFacts(gw, current, listed);
  }

  /** The grant behind an admitted peer. */
  lemma AdmittedGrant(gw: Spec, current: Keys, listed: seq<Peer>, answers: Answers, p: Peer) returns (i: nat)
    requires Accepted(gw) && DistinctIds(listed)
    requires p in AdmittedPeers(PassGrants(gw, current, listed), answers)
    ensures i < |PassGrants(gw, current, listed)|
    ensures AdmittedPeer(PassGrants(gw, current, listed)[i], answers) == Some(p)
    ensures p.status.address == GrantedAddress(PassGrants(gw, current, listed)[i])
    ensures AddressUsable(p.status.address, Pool(gw))
    ensures exists q :: q in Survivors(gw, current, listed) && q.id == p.id && q.key == p.key
  {
    AdmittedMembership(PassGrants(gw, current, listed), answers);
    i :| 0 <= i < |PassGrants(gw, current, listed)| && AdmittedPeer(PassGrants(gw, current, listed)[i], answers) == Some(p);
    GrantOrigin(gw, current, listed, i);
  }

  lemma GrantOrigin(gw: Spec, current: Keys, listed: seq<Peer>, i: nat)
    requires Accepted(gw) && DistinctIds(listed) && i < |PassGrants(gw, current, listed)|
    ensures var g := PassGrants(gw, current, listed)[i];
      && (!g.Exhausted? ==> AddressUsable(GrantedAddress(g), Pool(gw)))
      && exists q :: q in Survivors(gw, current, listed) && g.peer == ClearUnusable(Pool(gw), q)
  {
    PassGrantsFacts(gw, current, listed);
    HoldersFacts(gw, current, listed);
    assert PassGrants(gw, current, listed)[i].peer in Holders(gw, current, listed);
  }

  /** Any two peers one pass admits differ in name, key and address. */
  lemma AdmittedShareNothing(gw: Spec, current: Keys, listed: seq<Peer>, answers: Answers, p: Peer, q: Peer)
    requires Accepted(gw) && DistinctIds(listed)
    requires p in AdmittedPeers(PassGrants(gw, current, listed), answers)
    requires q in AdmittedPeers(PassGrants(gw, current, listed), answers) && p.id != q.id
    ensures p.key.Key? && q.key.Key? && p.key != q.key && p.status.address != q.status.address
  {
    var i := AdmittedGrant(gw, current, listed, answers, p);
    var j := AdmittedGrant(gw, current, listed, answers, q);
    var p' :| p' in Survivors(gw, current, listed) && p'.id == p.id && p'.key == p.key;
    var q' :| q' in Survivors(gw, current, listed) && q'.id == q.id && q'.key == q.key;
    SurvivorKeysDistinct(gw, current, listed, p', q');
    assert i != j;
    GrantedAddressesDistinct(gw, current, listed, if i < j then i else j, if i < j then j else i);
  }

  // ---- state safety ----

  /** A state the agent accepts, in which no two peers share a name, a key or an address, every key is a
      canonical WireGuard key, every address is one the allocator could hand out, and a server that admits only its own
      namespace lists only peers of it. */
  ghost predicate Safe(s: State) {
    && Accepted(s.server)
    && IsStateValid(s)
    && (forall e :: e in s.peers ==> e.key.Key? && AddressUsable(e.address, Pool(s.server)))
    && (s.server.allowed == FromSame ==> forall e :: e in s.peers ==> e.id.ns == s.server.ns)
    && (forall i, j :: 0 <= i < j < |s.peers| ==>
          && s.peers[i].id != s.peers[j].id
          && s.peers[i].key != s.peers[j].key
          && s.peers[i].address != s.peers[j].address)
  }

  /** Every completed pass renders a safe state, whatever it listed and however its writes were answered. */
  lemma PassRendersSafeState(gw: Spec, current: Keys, listed: seq<Peer>, answers: Answers, privateKey: string)
    requires Accepted(gw) && DistinctIds(listed) && |privateKey| == 44
    requires PassResult(gw, current, listed, answers).Some?
    ensures Safe(Render(gw, privateKey, PassResult(gw, current, listed, answers).value))
  {
    var admitted := AdmittedPeers(PassGrants(gw, current, listed), answers);
    PassGrantsDistinct(gw, current, listed);
    AdmittedDistinct(PassGrants(gw, current, listed), answers);
    var s := Render(gw, privateKey, admitted);
    RenderedEntries(gw, privateKey, admitted);
    SortedDistinct(s.peers);
    SurvivorsFacts(gw, current, listed);
    forall e | e in s.peers
      ensures e.key.Key? && AddressUsable(e.address, Pool(gw)) && (gw.allowed == FromSame ==> e.id.ns == gw.ns)
    {
      var p :| p in admitted && EntryOf(p) == e;
      var i := AdmittedGrant(gw, current, listed, answers, p);
    }
    forall i, j | 0 <= i < j < |s.peers|
      ensures s.peers[i].key != s.peers[j].key && s.peers[i].address != s.peers[j].address
    {
      assert s.peers[i] in s.peers && s.peers[j] in s.peers;
      var p :| p in admitted && EntryOf(p) == s.peers[i];
      var q :| q in admitted && EntryOf(q) == s.peers[j];
      AdmittedShareNothing(gw, current, listed, answers, p, q);
    }
  }

  /** The Secret, if there is one, holds a 44-character private key and a safe state. */
  ghost predicate SafeSecret(secret: Option<Secret>) {
    secret.Some? ==> |secret.value.privateKey| == 44 && (secret.value.state.Some? ==> Safe(secret.value.state.value))
  }

  lemma StepKeepsSafe(c: Cluster, e: Event)
    requires Possible(e) && SafeSecret(c.secret) && (e.Reconcile? ==> SafeSecret(e.world.found))
    ensures SafeSecret(Step(c, e).secret)
  {
    if e.Reconcile? && Proceeds(e.gw, e.world) {
      var w := e.world;
      var current := ServedKeys(w.earlier);
      if PassResult(e.gw, current, w.listed, w.answers).Some? {
        var key := if w.found.Some? then w.found.value.privateKey else w.generated.privateKey;
        PassRendersSafeState(e.gw, current, w.listed, w.answers, key);
      }
    }
  }

  /** The Secret a reconcile finds was stored at some earlier point of the run: it may be stale, but not invented. */
  ghost predicate FindsThePast(c: Cluster, events: seq<Event>, i: nat)
    requires i < |events|
  {
    events[i].Reconcile? && events[i].world.found.Some? ==>
      exists j :: 0 <= j <= i && Run(c, events[..j]).secret == events[i].world.found
  }

  ghost predicate PossibleRun(c: Cluster, events: seq<Event>) {
    forall i :: 0 <= i < |events| ==> Possible(events[i]) && FindsThePast(c, events, i)
  }

  lemma {:induction false} SafeAlong(c: Cluster, events: seq<Event>, n: nat)
    requires SafeSecret(c.secret) && PossibleRun(c, events) && n <= |events|
    ensures forall j :: 0 <= j <= n ==> SafeSecret(Run(c, events[..j]).secret)
  {
    if n == 0 {
      assert events[..0] == [];
    } else {
      SafeAlong(c, events, n - 1);
      var e := events[n - 1];
      FoundIsSafe(c, events, n - 1);
      StepKeepsSafe(Run(c, events[..n - 1]), e);
      assert events[..n][..n - 1] == events[..n - 1];
    }
  }

  lemma FoundIsSafe(c: Cluster, events: seq<Event>, i: nat)
    requires i < |events| && FindsThePast(c, events, i) && forall j :: 0 <= j <= i ==> SafeSecret(Run(c, events[..j]).secret)
    ensures events[i].Reconcile? ==> SafeSecret(events[i].world.found)
  {
  }

  /** State safety over every run: any interleaving of reconciles (stale lists and Secrets, lost writes, aborted
      passes, changing specs) with user edits leaves only safe states in the Secret. */
  lemma StateSafetyOverRuns(c: Cluster, events: seq<Event>)
    requires SafeSecret(c.secret) && PossibleRun(c, events)
    ensures SafeSecret(Run(c, events).secret)
  {
    SafeAlong(c, events, |events|);
    assert events[..|events|] == events;
  }

  // ---- conservation ----

  datatype Outcome = Refused | LostKey | LostAddress | PoolExhausted | Admitted | NotPersisted

  /** Where a pass that completes leaves the listed peer p. */
  ghost predicate Ends(gw: Spec, current: Keys, listed: seq<Peer>, answers: Answers, p: Peer, o: Outcome)
    requires Accepted(gw)
  {
    match o
    case Refused => AdmissionProblem(gw, p).Some?
    case LostKey => exists l :: l in KeyLosers(gw, current, listed) && l.peer == p
    case LostAddress => exists l :: l in AddressLosers(gw, current, listed) && l.peer.id == p.id
    case PoolExhausted => exists g :: g in PassGrants(gw, current, listed) && g.peer.id == p.id && g.Exhausted?
    case Admitted => exists q :: q in AdmittedPeers(PassGrants(gw, current, listed), answers) && q.id == p.id
    case NotPersisted =>
      exists g :: g in PassGrants(gw, current, listed) && g.peer.id == p.id && g.Fresh? && answers(p.id) != Written
  }

  /** A pass refuses a peer exactly when its key is not a WireGuard key, or the gateway admits only its own namespace
      and the peer is in another. */
  lemma RefusedIff(gw: Spec, current: Keys, listed: seq<Peer>, answers: Answers, p: Peer)
    requires Accepted(gw) && p in listed
    ensures Ends(gw, current, listed, answers, p, Refused) <==>
      !p.key.Key? || (gw.allowed == FromSame && p.id.ns != gw.ns)
  {
  }

  lemma LostKeyIff(gw: Spec, current: Keys, listed: seq<Peer>, answers: Answers, p: Peer)
    requires Accepted(gw) && DistinctIds(listed) && p in listed
    ensures Ends(gw, current, listed, answers, p, LostKey) <==>
      AdmissionProblem(gw, p).None? && p !in Survivors(gw, current, listed)
  {
    var c, admissible := KeyContest(current), Admissible(gw, listed);
    SurvivorsFacts(gw, current, listed);
    AdmissibleDistinct(gw, listed);
    LosersMembership(c, admissible, admissible);
  }

  lemma CandidateById(gw: Spec, current: Keys, listed: seq<Peer>, c: Peer, p: Peer)
    requires Accepted(gw) && DistinctIds(listed) && p in listed && c in Candidates(gw, current, listed) && c.id == p.id
    ensures p in Survivors(gw, current, listed) && c == ClearUnusable(Pool(gw), p)
  {
    CandidatesFacts(gw, current, listed);
    SurvivorsFacts(gw, current, listed);
  }

  lemma LostAddressIff(gw: Spec, current: Keys, listed: seq<Peer>, answers: Answers, p: Peer)
    requires Accepted(gw) && DistinctIds(listed) && p in listed
    ensures Ends(gw, current, listed, answers, p, LostAddress) <==>
      p in Survivors(gw, current, listed) && ClearUnusable(Pool(gw), p) !in Holders(gw, current, listed)
  {
    var candidates, q := Candidates(gw, current, listed), ClearUnusable(Pool(gw), p);
    CandidatesFacts(gw, current, listed);
    LosersMembership(AddressContest, candidates, candidates);
    KeepersMembership(AddressContest, candidates, candidates);
    if l :| l in AddressLosers(gw, current, listed) && l.peer.id == p.id {
      CandidateById(gw, current, listed, l.peer, p);
    }
  }

  /** The grant of a peer, when it has one, is unique and is the one its cleared copy got. */
  lemma GrantById(gw: Spec, current: Keys, listed: seq<Peer>, p: Peer, g: Grant)
    requires Accepted(gw) && DistinctIds(listed) && p in listed
    requires g in PassGrants(gw, current, listed) && g.peer.id == p.id
    ensures p in Survivors(gw, current, listed) && ClearUnusable(Pool(gw), p) in Holders(gw, current, listed)
    ensures forall h :: h in PassGrants(gw, current, listed) && h.peer.id == p.id ==> h == g
  {
    var candidates := Candidates(gw, current, listed);
    PassGrantsFacts(gw, current, listed);
    PassGrantsDistinct(gw, current, listed);
    KeepersMembership(AddressContest, candidates, candidates);
    assert g.peer in Holders(gw, current, listed);
    CandidateById(gw, current, listed, g.peer, p);
  }

  lemma HolderHasGrant(gw: Spec, current: Keys, listed: seq<Peer>, p: Peer) returns (g: Grant)
    requires Accepted(gw) && DistinctIds(listed) && ClearUnusable(Pool(gw), p) in Holders(gw, current, listed)
    ensures g in PassGrants(gw, current, listed) && g.peer.id == p.id
  {
    PassGrantsFacts(gw, current, listed);
    var holders := Holders(gw, current, listed);
    var i :| 0 <= i < |holders| && holders[i] == ClearUnusable(Pool(gw), p);
    g := PassGrants(gw, current, listed)[i];
  }

  lemma AdmittedIff(gw: Spec, current: Keys, listed: seq<Peer>, answers: Answers, p: Peer)
    requires Accepted(gw) && DistinctIds(listed) && p in listed
    ensures Ends(gw, current, listed, answers, p, Admitted) <==>
      exists g :: g in PassGrants(gw, current, listed) && g.peer.id == p.id && AdmittedPeer(g, answers).Some?
  {
    AdmittedById(PassGrants(gw, current, listed), answers, p.id);
  }

  lemma AdmittedById(gs: seq<Grant>, answers: Answers, id: PeerId)
    ensures (exists q :: q in AdmittedPeers(gs, answers) && q.id == id) <==>
            exists g :: g in gs && g.peer.id == id && AdmittedPeer(g, answers).Some?
  {
    AdmittedMembership(gs, answers);
    if q :| q in AdmittedPeers(gs, answers) && q.id == id {
      var i :| 0 <= i < |gs| && AdmittedPeer(gs[i], answers) == Some(q);
      assert gs[i] in gs;
    }
    if g :| g in gs && g.peer.id == id && AdmittedPeer(g, answers).Some? {
      var i :| 0 <= i < |gs| && gs[i] == g;
      assert AdmittedPeer(gs[i], answers) == Some(AdmittedPeer(g, answers).value);
    }
  }

  /** Conservation: a pass leaves every listed peer in exactly one of the six outcomes. */
  lemma ExactlyOneOutcome(gw: Spec, current: Keys, listed: seq<Peer>, answers: Answers, p: Peer) returns (o: Outcome)
    requires Accepted(gw) && DistinctIds(listed) && p in listed
    ensures Ends(gw, current, listed, answers, p, o)
    ensures forall o' :: Ends(gw, current, listed, answers, p, o') ==> o' == o
  {
    if g :| g in PassGrants(gw, current, listed) && g.peer.id == p.id {
      o := GrantedOutcome(gw, current, listed, answers, p, g);
    } else {
      o := UngrantedOutcome(gw, current, listed, answers, p);
    }
  }

  lemma GrantedOutcome(gw: Spec, current: Keys, listed: seq<Peer>, answers: Answers, p: Peer, g: Grant) returns (o: Outcome)
    requires Accepted(gw) && DistinctIds(listed) && p in listed
    requires g in PassGrants(gw, current, listed) && g.peer.id == p.id
    ensures Ends(gw, current, listed, answers, p, o)
    ensures forall o' :: Ends(gw, current, listed, answers, p, o') ==> o' == o
  {
    SurvivorsFacts(gw, current, listed);
    LostKeyIff(gw, current, listed, answers, p);
    LostAddressIff(gw, current, listed, answers, p);
    AdmittedIff(gw, current, listed, answers, p);
    GrantById(gw, current, listed, p, g);
    o := if g.Exhausted? then PoolExhausted else if AdmittedPeer(g, answers).Some? then Admitted else NotPersisted;
  }

  lemma UngrantedOutcome(gw: Spec, current: Keys, listed: seq<Peer>, answers: Answers, p: Peer) returns (o: Outcome)
    requires Accepted(gw) && DistinctIds(listed) && p in listed
    requires forall g :: g in PassGrants(gw, current, listed) ==> g.peer.id != p.id
    ensures Ends(gw, current, listed, answers, p, o)
    ensures forall o' :: Ends(gw, current, listed, answers, p, o') ==> o' == o
  {
    SurvivorsFacts(gw, current, listed);
    LostKeyIff(gw, current, listed, answers, p);
    LostAddressIff(gw, current, listed, answers, p);
    AdmittedIff(gw, current, listed, answers, p);
    if ClearUnusable(Pool(gw), p) in Holders(gw, current, listed) {
      var g := HolderHasGrant(gw, current, listed, p);
    }
    o := if AdmissionProblem(gw, p).Some? then Refused
         else if p !in Survivors(gw, current, listed) then LostKey else LostAddress;
  }

  /** Of the peers that keep their key and hold no address, exactly the first min(n, capacity) in list order
      get one, where capacity is the pool without the reserved and the held addresses; each new address is
      larger than the ones before it. The answers to the writes play no part. */
  lemma FirstNeedyAreServed(gw: Spec, current: Keys, listed: seq<Peer>)
    requires Accepted(gw) && DistinctIds(listed)
    ensures var holders := Holders(gw, current, listed);
      ServesFirst(holders, PassGrants(gw, current, listed), Size(Pool(gw)) - 2 - |Assigned(Addresses(holders))|)
  {
    BaseFacts(gw, current, listed);
    var holders := Holders(gw, current, listed);
    AllocationRound(Pool(gw), Used(Pool(gw), Addresses(holders)), holders);
  }
}
