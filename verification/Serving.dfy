/** Served-peer stability over runs, and exactly when it fails. */
module Serving {
  import opened Sequences
  import opened Ipv4
  import opened Gateway
  import opened Peers
  import opened StateJson
  import opened Pass
  import opened PassFacts
  import opened Operator
  import opened Safety
  import opened Freshness
  import opened Stability

  /** state.json lists v under key k and address a, the stored peer still has both, and no other stored peer
      holds a. */
  ghost predicate Served(c: Cluster, gw: Spec, v: PeerId, k: PublicKey, a: Address) {
    && Accepted(gw)
    && v in c.peers && c.peers[v].key == k && c.peers[v].status.address == a
    && AddressUsable(a, Pool(gw)) && AdmissionProblem(gw, c.peers[v]).None?
    && (forall id :: id in c.peers && id != v ==> c.peers[id].status.address != a)
    && Serves(c.secret, v, k, a)
  }

  ghost predicate Serves(secret: Option<Secret>, v: PeerId, k: PublicKey, a: Address) {
    && SafeSecret(secret)
    && secret.Some? && secret.value.state.Some?
    && Entry(v, k, a) in secret.value.state.value.peers
  }

  // ---- one pass ----

  /** A safe state lists a key under one name only. */
  lemma ListedAlone(secret: Option<Secret>, v: PeerId, k: PublicKey, a: Address)
    requires Serves(secret, v, k, a)
    ensures var keys := ServedKeys(secret);
      && v in keys && keys[v] == k && k.Key?
      && forall id :: id in keys && id != v ==> keys[id] != k
  {
    var es := secret.value.state.value.peers;
    KeysOfLookup(es);
    forall id | id in KeysOf(es) && id != v
      ensures KeysOf(es)[id] != k
    {
      KeyAlone(es, Entry(v, k, a), id);
    }
  }

  lemma KeyAlone(es: seq<Entry>, own: Entry, id: PeerId)
    requires forall i, j :: 0 <= i < j < |es| ==> es[i].id != es[j].id && es[i].key != es[j].key
    requires own in es && id in KeysOf(es) && id != own.id
    ensures KeysOf(es)[id] != own.key
  {
    KeysOfLookup(es);
    var e :| e in es && e.id == id;
    var i :| 0 <= i < |es| && es[i] == e;
    var j :| 0 <= j < |es| && es[j] == own;
  }

  /** The peer state.json lists under a key keeps it against every contender, whatever their age. */
  lemma ListedKeepsKey(c: Cluster, gw: Spec, listed: seq<Peer>, v: PeerId, k: PublicKey, a: Address)
    requires Served(c, gw, v, k, a) && Lists(listed, c.peers)
    ensures c.peers[v] in Survivors(gw, ServedKeys(c.secret), listed)
  {
    var current, p, admissible := ServedKeys(c.secret), c.peers[v], Admissible(gw, listed);
    ListedAlone(c.secret, v, k, a);
    SurvivorsFacts(gw, current, listed);
    AdmissibleDistinct(gw, listed);
    forall q | q in admissible && q.key == k && q != p
      ensures Beats(KeyContest(current), p, q)
    {
      assert q.id != v;
    }
    assert Holds(KeyContest(current), admissible, KeyValue(k), p);
    WinsIff(KeyContest(current), admissible, p);
  }

  lemma ServedHolds(c: Cluster, gw: Spec, listed: seq<Peer>, v: PeerId, k: PublicKey, a: Address)
    requires Served(c, gw, v, k, a) && Lists(listed, c.peers)
    ensures c.peers[v] in Holders(gw, ServedKeys(c.secret), listed)
  {
    var current, p := ServedKeys(c.secret), c.peers[v];
    var candidates := Candidates(gw, current, listed);
    ListedKeepsKey(c, gw, listed, v, k, a);
    CandidatesFacts(gw, current, listed);
    assert ClearUnusable(Pool(gw), p) == p;
    forall q | q in candidates && q.status.address == a
      ensures q == p
    {
      var o := CandidateIsListed(gw, current, listed, q);
      assert o.id == v ==> o == p;
    }
    assert Holds(AddressContest, candidates, AddressValue(a), p);
    WinsIff(AddressContest, candidates, p);
    KeepersMembership(AddressContest, candidates, candidates);
  }

  lemma ServedGrant(c: Cluster, gw: Spec, listed: seq<Peer>, v: PeerId, k: PublicKey, a: Address) returns (i: nat)
    requires Served(c, gw, v, k, a) && Lists(listed, c.peers)
    ensures i < |PassGrants(gw, ServedKeys(c.secret), listed)|
    ensures PassGrants(gw, ServedKeys(c.secret), listed)[i] == Held(c.peers[v])
  {
    var holders := Holders(gw, ServedKeys(c.secret), listed);
    ServedHolds(c, gw, listed, v, k, a);
    PassGrantsFacts(gw, ServedKeys(c.secret), listed);
    i :| 0 <= i < |holders| && holders[i] == c.peers[v];
  }

  /** No other peer ends a pass, or any part of it, with the address of a served peer. */
  lemma AddressStaysPrivate(c: Cluster, gw: Spec, listed: seq<Peer>, answers: Answers, v: PeerId, k: PublicKey, a: Address, id: PeerId)
    requires Served(c, gw, v, k, a) && Lists(listed, c.peers) && id in c.peers
    ensures var after := PassStore(c.peers, gw, ServedKeys(c.secret), listed, answers);
      && v in after && after[v].status.address == a
      && id in after && (id != v ==> after[id].status.address != a)
  {
    var current := ServedKeys(c.secret);
    var gs := PassGrants(gw, current, listed);
    var i := ServedGrant(c, gw, listed, v, k, a);
    assert gs[i] in gs;
    GrantedAddressStored(c.peers, gw, current, listed, answers, gs[i]);
    if g :| g in gs && g.peer.id == id && id != v {
      GrantedUnshared(c.peers, gw, current, listed, answers, gs[i], g);
    } else if id != v {
      UngrantedAddress(c.peers, gw, current, listed, answers, id);
    }
  }

  /** A completed pass lists the served peer again, under the same key and address. */
  lemma ListedAgain(c: Cluster, gw: Spec, listed: seq<Peer>, answers: Answers, v: PeerId, k: PublicKey, a: Address, secret: Secret)
    requires Served(c, gw, v, k, a) && Lists(listed, c.peers) && |secret.privateKey| == 44
    requires Completes(PassPlan(gw, ServedKeys(c.secret), listed), answers)
    ensures Serves(Some(StateOf(gw, secret, AdmittedPeers(PassGrants(gw, ServedKeys(c.secret), listed), answers))), v, k, a)
  {
    var current := ServedKeys(c.secret);
    var gs := PassGrants(gw, current, listed);
    var admitted := AdmittedPeers(gs, answers);
    var i := ServedGrant(c, gw, listed, v, k, a);
    AdmittedMembership(gs, answers);
    var p := AdmittedPeer(gs[i], answers).value;
    assert p in admitted && EntryOf(p) == Entry(v, k, a);
    PassGrantsDistinct(gw, current, listed);
    AdmittedDistinct(gs, answers);
    RenderedEntries(gw, secret.privateKey, admitted);
    PassRendersSafeState(gw, current, listed, answers, secret.privateKey);
  }

  lemma ReconcileKeepsServed(c: Cluster, gw: Spec, w: World, v: PeerId, k: PublicKey, a: Address)
    requires Served(c, gw, v, k, a) && Proceeds(gw, w)
    requires Lists(w.listed, c.peers) && w.earlier == c.secret && SafeSecret(w.found)
    ensures Served(Reconciled(c, gw, w), gw, v, k, a)
  {
    var next := Reconciled(c, gw, w);
    forall id
      ensures (id in next.peers <==> id in c.peers)
        && (id in c.peers ==> (next.peers[id].status.address == a <==> id == v) && next.peers[id].key == c.peers[id].key)
        && (id in c.peers ==> next.peers[id].id == c.peers[id].id)
    {
      ReconcileAddresses(c, gw, w, id);
      if id in c.peers {
        AddressStaysPrivate(c, gw, w.listed, w.answers, v, k, a, id);
      }
    }
    if Completes(PassPlan(gw, ServedKeys(c.secret), w.listed), w.answers) && w.found.Some? {
      ListedAgain(c, gw, w.listed, w.answers, v, k, a, w.found.value);
    }
  }

  // ---- runs ----

  /** The events of a run that leaves v alone: reconciles of gw over fresh reads of peers and keys, with any answers
      and any safe Secret found later, and any user edit that neither re-keys nor deletes v. */
  ghost predicate LeavesAlone(c: Cluster, gw: Spec, v: PeerId, e: Event) {
    match e
    case Reconcile(gw', w) => gw' == gw && Lists(w.listed, c.peers) && w.earlier == c.secret && SafeSecret(w.found)
    case Create(_) => true
    case EditKey(id, _) => id != v
    case Delete(id) => id != v
  }

  ghost predicate RunLeavesAlone(c: Cluster, gw: Spec, v: PeerId, events: seq<Event>) {
    forall i :: 0 <= i < |events| ==> LeavesAlone(Run(c, events[..i]), gw, v, events[i])
  }

  /** Served-peer stability: whatever other peers appear, change keys or vanish, and however the writes of each
      reconcile are answered (skipped and aborted passes included), a served peer stays served under the same
      key and address. */
  lemma {:induction false} ServedForever(c: Cluster, gw: Spec, v: PeerId, k: PublicKey, a: Address, events: seq<Event>)
    requires Served(c, gw, v, k, a) && RunLeavesAlone(c, gw, v, events)
    ensures Served(Run(c, events), gw, v, k, a)
  {
    if events != [] {
      var front, e := events[..|events| - 1], events[|events| - 1];
      assert forall i :: 0 <= i < |front| ==> front[..i] == events[..i] && front[i] == events[i];
      ServedForever(c, gw, v, k, a, front);
      assert LeavesAlone(Run(c, front), gw, v, e);
      StepKeepsServed(Run(c, front), gw, v, k, a, e);
    }
  }

  lemma StepKeepsServed(c: Cluster, gw: Spec, v: PeerId, k: PublicKey, a: Address, e: Event)
    requires Served(c, gw, v, k, a) && LeavesAlone(c, gw, v, e)
    ensures Served(Step(c, e), gw, v, k, a)
  {
    if e.Reconcile? && Proceeds(gw, e.world) {
      ReconcileKeepsServed(c, gw, e.world, v, k, a);
    }
  }

  // ---- where served peers come from ----

  /** A reconcile over a fresh list in which no write is skipped. */
  ghost predicate Careful(c: Cluster, gw: Spec, e: Event) {
    e.Reconcile? ==> e.gw == gw && Lists(e.world.listed, c.peers) && NoSkips(e.world.answers) && Possible(e)
  }

  ghost predicate CarefulRun(c: Cluster, gw: Spec, events: seq<Event>) {
    forall i :: 0 <= i < |events| ==> Careful(Run(c, events[..i]), gw, events[i])
  }

  lemma StepKeepsUnshared(c: Cluster, gw: Spec, e: Event)
    requires Accepted(gw) && Unshared(Pool(gw), c.peers) && Careful(c, gw, e)
    ensures Unshared(Pool(gw), Step(c, e).peers)
  {
    if e.Reconcile? && Proceeds(gw, e.world) {
      var current := ServedKeys(e.world.earlier);
      var after := PassStore(c.peers, gw, current, e.world.listed, e.world.answers);
      PassKeepsUnshared(c.peers, gw, current, e.world.listed, e.world.answers);
      var next := Step(c, e).peers;
      forall id, id' | id in next && id' in next && id != id' && AddressUsable(next[id].status.address, Pool(gw))
        ensures next[id].status.address != next[id'].status.address
      {
        ReconcileAddresses(c, gw, e.world, id);
        ReconcileAddresses(c, gw, e.world, id');
      }
    }
  }

  /** From a store that shares no address, every run of careful reconciles and arbitrary user edits ends in one. */
  lemma {:induction false} UnsharedForever(c: Cluster, gw: Spec, events: seq<Event>)
    requires Accepted(gw) && Unshared(Pool(gw), c.peers) && CarefulRun(c, gw, events)
    ensures Unshared(Pool(gw), Run(c, events).peers)
  {
    if events != [] {
      var front, e := events[..|events| - 1], events[|events| - 1];
      assert forall i :: 0 <= i < |front| ==> front[..i] == events[..i] && front[i] == events[i];
      UnsharedForever(c, gw, front);
      assert Careful(Run(c, front), gw, e);
      StepKeepsUnshared(Run(c, front), gw, e);
    }
  }

  /** The reconcile stores a state: nothing aborted it, and it found the stored Secret. */
  ghost predicate Stores(c: Cluster, gw: Spec, w: World) {
    && Proceeds(gw, w) && w.stored && w.found == c.secret
    && Completes(PassPlan(gw, ServedKeys(w.earlier), w.listed), w.answers)
  }

  /** After a careful reconcile that stores a state, every peer listed in it is served. */
  lemma EveryEntryServed(c: Cluster, gw: Spec, w: World, e: Entry)
    requires Stores(c, gw, w) && Careful(c, gw, Reconcile(gw, w))
    requires Unshared(Pool(gw), c.peers) && SafeSecret(c.secret)
    requires e in Reconciled(c, gw, w).secret.value.state.value.peers
    ensures Served(Reconciled(c, gw, w), gw, e.id, e.key, e.address)
  {
    var next := Reconciled(c, gw, w);
    var p := EntryPeer(c, gw, w, e);
    StepKeepsSafe(c, Reconcile(gw, w));
    AdmittedStored(c.peers, gw, ServedKeys(w.earlier), w.listed, w.answers, p);
    ReconcileAddresses(c, gw, w, p.id);
    StepKeepsUnshared(c, gw, Reconcile(gw, w));
    assert next.secret.value.state.value.server == gw;
    assert Safe(next.secret.value.state.value);
  }

  lemma EntryPeer(c: Cluster, gw: Spec, w: World, e: Entry) returns (p: Peer)
    requires Stores(c, gw, w) && DistinctIds(w.listed)
    requires e in Reconciled(c, gw, w).secret.value.state.value.peers
    ensures p in AdmittedPeers(PassGrants(gw, ServedKeys(w.earlier), w.listed), w.answers) && EntryOf(p) == e
  {
    var current := ServedKeys(w.earlier);
    var admitted := AdmittedPeers(PassGrants(gw, current, w.listed), w.answers);
    PassGrantsDistinct(gw, current, w.listed);
    AdmittedDistinct(PassGrants(gw, current, w.listed), w.answers);
    RenderedEntries(gw, if c.secret.Some? then c.secret.value.privateKey else w.generated.privateKey, admitted);
    p :| p in admitted && EntryOf(p) == e;
  }

  // ---- exactly when a peer keeps its place ----

  lemma HolderIff(gw: Spec, current: Keys, listed: seq<Peer>, p: Peer)
    requires Accepted(gw) && DistinctIds(listed) && p in listed && AddressUsable(p.status.address, Pool(gw))
    ensures p in Holders(gw, current, listed) <==>
      && p in Survivors(gw, current, listed)
      && forall q :: q in Survivors(gw, current, listed) && q.id != p.id && q.status.address == p.status.address ==> Older(p, q)
  {
    var pool, candidates, survivors := Pool(gw), Candidates(gw, current, listed), Survivors(gw, current, listed);
    CandidatesFacts(gw, current, listed);
    SurvivorsFacts(gw, current, listed);
    KeepersMembership(AddressContest, candidates, candidates);
    assert ClearUnusable(pool, p) == p;
    if p in survivors {
      WinsIff(AddressContest, candidates, p);
      if Holds(AddressContest, candidates, AddressValue(p.status.address), p) {
        forall q | q in survivors && q.id != p.id && q.status.address == p.status.address
          ensures Older(p, q)
        {
          assert ClearUnusable(pool, q) == q && q in candidates;
        }
      }
    } else if p in candidates {
      CandidateById(gw, current, listed, p, p);
    }
  }

  /** A completed pass lists a peer with the usable address it has if and only if the peer is admissible, beats
      every admissible contender for its key (listed first, then age), and is older than every other key
      winner stored with the same address. The answers to the writes play no part. */
  lemma KeepsPlaceIff(gw: Spec, current: Keys, listed: seq<Peer>, answers: Answers, privateKey: string, p: Peer)
    requires Accepted(gw) && DistinctIds(listed) && p in listed && AddressUsable(p.status.address, Pool(gw))
    ensures EntryOf(p) in Render(gw, privateKey, AdmittedPeers(PassGrants(gw, current, listed), answers)).peers <==>
      && AdmissionProblem(gw, p).None?
      && Holds(KeyContest(current), Admissible(gw, listed), KeyValue(p.key), p)
      && forall q :: q in Survivors(gw, current, listed) && q.id != p.id && q.status.address == p.status.address ==> Older(p, q)
  {
    HolderIff(gw, current, listed, p);
    SurvivorsFacts(gw, current, listed);
    AdmissibleDistinct(gw, listed);
    if AdmissionProblem(gw, p).None? {
      WinsIff(KeyContest(current), Admissible(gw, listed), p);
    }
    EntryIffHolder(gw, current, listed, answers, privateKey, p);
  }

  lemma EntryIffHolder(gw: Spec, current: Keys, listed: seq<Peer>, answers: Answers, privateKey: string, p: Peer)
    requires Accepted(gw) && DistinctIds(listed) && p in listed && AddressUsable(p.status.address, Pool(gw))
    ensures var s := Render(gw, privateKey, AdmittedPeers(PassGrants(gw, current, listed), answers));
      && (EntryOf(p) in s.peers <==> p in Holders(gw, current, listed))
      && (p !in Holders(gw, current, listed) ==> forall e :: e in s.peers ==> e.id != p.id)
  {
    var gs := PassGrants(gw, current, listed);
    var admitted := AdmittedPeers(gs, answers);
    PassGrantsDistinct(gw, current, listed);
    AdmittedDistinct(gs, answers);
    RenderedEntries(gw, privateKey, admitted);
    assert ClearUnusable(Pool(gw), p) == p;
    if p in Holders(gw, current, listed) {
      HeldIsAdmitted(gw, current, listed, answers, p);
    } else if e :| e in Render(gw, privateKey, admitted).peers && e.id == p.id {
      var q :| q in admitted && EntryOf(q) == e;
      AdmittedById(gs, answers, p.id);
      var g :| g in gs && g.peer.id == p.id && AdmittedPeer(g, answers).Some?;
      GrantById(gw, current, listed, p, g);
    }
  }

  lemma HeldIsAdmitted(gw: Spec, current: Keys, listed: seq<Peer>, answers: Answers, p: Peer)
    requires Accepted(gw) && DistinctIds(listed) && p in Holders(gw, current, listed) && p.status.address != Unset
    ensures exists q :: q in AdmittedPeers(PassGrants(gw, current, listed), answers) && EntryOf(q) == EntryOf(p)
  {
    var gs, holders := PassGrants(gw, current, listed), Holders(gw, current, listed);
    PassGrantsFacts(gw, current, listed);
    AdmittedMembership(gs, answers);
    var i :| 0 <= i < |holders| && holders[i] == p;
    var q := AdmittedPeer(gs[i], answers).value;
    assert q in AdmittedPeers(gs, answers) && EntryOf(q) == EntryOf(p);
  }
}
