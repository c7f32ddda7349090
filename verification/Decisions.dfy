/** The plan of a pass, read peer by peer: the one slot that concerns a listed peer, and what a pass and the
    identity writes after it make of that peer when every write succeeds. */
module Decisions {
  import opened Sequences
  import opened Ipv4
  import opened Gateway
  import opened Peers
  import opened Pass
  import opened PassFacts
  import opened Safety
  import opened Freshness
  import opened Stability

  /** The holder p lost its key to. */
  ghost function KeyWinner(gw: Spec, current: Keys, listed: seq<Peer>, p: Peer): PeerId {
    var best := Best(KeyContest(current), Admissible(gw, listed), KeyValue(p.key));
    if best.Some? then best.value.id else p.id
  }

  /** What allocatePeers granted p. */
  ghost function GrantFor(gw: Spec, current: Keys, listed: seq<Peer>, p: Peer): (g: Grant)
    requires Accepted(gw) && DistinctIds(listed) && p in listed && Phase(gw, current, listed, p) == 3
    ensures g in PassGrants(gw, current, listed) && g.peer.id == p.id
  {
    assert exists g :: g in PassGrants(gw, current, listed) && g.peer.id == p.id by {
      var g := HolderHasGrant(gw, current, listed, p);
    }
    var g :| g in PassGrants(gw, current, listed) && g.peer.id == p.id;
    g
  }

  lemma GrantForFacts(gw: Spec, current: Keys, listed: seq<Peer>, p: Peer) returns (i: nat)
    requires Accepted(gw) && DistinctIds(listed) && p in listed && Phase(gw, current, listed, p) == 3
    ensures var g := GrantFor(gw, current, listed, p);
      && i < |PassGrants(gw, current, listed)| && PassGrants(gw, current, listed)[i] == g
      && g.peer == ClearUnusable(Pool(gw), p)
      && (g.Held? <==> ClearUnusable(Pool(gw), p).status.address != Unset)
      && (!g.Exhausted? ==> AddressUsable(GrantedAddress(g), Pool(gw)))
      && forall h :: h in PassGrants(gw, current, listed) && h.peer.id == p.id ==> h == g
  {
    var g := GrantFor(gw, current, listed, p);
    GrantById(gw, current, listed, p, g);
    PassGrantsFacts(gw, current, listed);
    var gs := PassGrants(gw, current, listed);
    i :| 0 <= i < |gs| && gs[i] == g;
    assert g.peer in Holders(gw, current, listed);
    HolderById(gw, current, listed, g.peer, p);
  }

  lemma GrantsForApart(gw: Spec, current: Keys, listed: seq<Peer>, p: Peer, q: Peer)
    requires Accepted(gw) && DistinctIds(listed) && p in listed && q in listed && p.id != q.id
    requires Phase(gw, current, listed, p) == 3 && Phase(gw, current, listed, q) == 3
    requires !GrantFor(gw, current, listed, p).Exhausted? && !GrantFor(gw, current, listed, q).Exhausted?
    ensures GrantedAddress(GrantFor(gw, current, listed, p)) != GrantedAddress(GrantFor(gw, current, listed, q))
    ensures p.key != q.key
  {
    var i := GrantForFacts(gw, current, listed, p);
    var j := GrantForFacts(gw, current, listed, q);
    SurvivorKeysDistinct(gw, current, listed, p, q);
    if i < j {
      GrantedAddressesDistinct(gw, current, listed, i, j);
    } else if j < i {
      GrantedAddressesDistinct(gw, current, listed, j, i);
    }
  }

  /** The holder p lost its address to. */
  ghost function AddressWinner(gw: Spec, current: Keys, listed: seq<Peer>, p: Peer): PeerId
    requires Accepted(gw)
  {
    var best := Best(AddressContest, Candidates(gw, current, listed), AddressValue(p.status.address));
    if best.Some? then best.value.id else p.id
  }

  /** slot is what the plan holds for p. */
  ghost predicate Decides(gw: Spec, current: Keys, listed: seq<Peer>, p: Peer, slot: Option<Write>)
    requires Accepted(gw) && DistinctIds(listed) && p in listed
  {
    match Phase(gw, current, listed, p)
    case 0 => slot == RefusalOf(gw, p)
    case 1 => slot == NotReadyWrite(p, PublicKeyConflict(KeyWinner(gw, current, listed, p)))
    case 2 =>
      slot == Some(Write(MarkNotReady(p, AddressConflict(p.status.address, AddressWinner(gw, current, listed, p))), false))
    case _ => slot == GrantWrite(Pool(gw), GrantFor(gw, current, listed, p))
  }

  // ---- each phase's slots ----

  lemma RefusalDecides(gw: Spec, current: Keys, listed: seq<Peer>, i: nat)
    requires Accepted(gw) && DistinctIds(listed) && i < |listed|
    ensures Refusals(gw, listed)[i].Some? || Phase(gw, current, listed, listed[i]) == 0 ==>
      Decides(gw, current, listed, listed[i], Refusals(gw, listed)[i])
  {
  }

  lemma KeyLossDecides(gw: Spec, current: Keys, listed: seq<Peer>, i: nat)
    requires Accepted(gw) && DistinctIds(listed) && i < |KeyLosers(gw, current, listed)|
    ensures var l := KeyLosers(gw, current, listed)[i];
      && l.peer in listed && Phase(gw, current, listed, l.peer) == 1
      && Decides(gw, current, listed, l.peer, Releases(KeyContest(current), KeyLosers(gw, current, listed))[i])
  {
    var c, admissible := KeyContest(current), Admissible(gw, listed);
    var l := KeyLosers(gw, current, listed)[i];
    assert l in KeyLosers(gw, current, listed);
    AdmissibleDistinct(gw, listed);
    SurvivorsFacts(gw, current, listed);
    LosersMembership(c, admissible, admissible);
    LosersNameTheHolder(c, admissible, admissible, l);
  }

  lemma AddressLossDecides(gw: Spec, current: Keys, listed: seq<Peer>, i: nat, p: Peer)
    requires Accepted(gw) && DistinctIds(listed) && i < |AddressLosers(gw, current, listed)|
    requires p in listed && p.id == AddressLosers(gw, current, listed)[i].peer.id
    ensures Phase(gw, current, listed, p) == 2
    ensures Decides(gw, current, listed, p, Releases(AddressContest, AddressLosers(gw, current, listed))[i])
  {
    var candidates, losers := Candidates(gw, current, listed), AddressLosers(gw, current, listed);
    var l := losers[i];
    assert l in losers;
    CandidatesFacts(gw, current, listed);
    SurvivorsFacts(gw, current, listed);
    LosersMembership(AddressContest, candidates, candidates);
    LosersNameTheHolder(AddressContest, candidates, candidates, l);
    CandidateById(gw, current, listed, l.peer, p);
    KeepersMembership(AddressContest, candidates, candidates);
  }

  lemma GrantDecides(gw: Spec, current: Keys, listed: seq<Peer>, i: nat, p: Peer)
    requires Accepted(gw) && DistinctIds(listed) && i < |PassGrants(gw, current, listed)|
    requires p in listed && p.id == PassGrants(gw, current, listed)[i].peer.id
    ensures Phase(gw, current, listed, p) == 3
    ensures Decides(gw, current, listed, p, GrantPlan(gw, current, listed)[i])
  {
    assert PassGrants(gw, current, listed)[i] in PassGrants(gw, current, listed);
    GrantPhase(gw, current, listed, p);
    var j := GrantForFacts(gw, current, listed, p);
  }

  /** Every write of the plan is the decision about a listed peer. */
  lemma SlotDecides(gw: Spec, current: Keys, listed: seq<Peer>, k: nat) returns (p: Peer)
    requires Accepted(gw) && DistinctIds(listed) && k < |PassPlan(gw, current, listed)| && PassPlan(gw, current, listed)[k].Some?
    ensures p in listed && p.id == PassPlan(gw, current, listed)[k].value.peer.id
    ensures Decides(gw, current, listed, p, PassPlan(gw, current, listed)[k])
  {
    var a, b := Refusals(gw, listed), Releases(KeyContest(current), KeyLosers(gw, current, listed));
    var d, e := Releases(AddressContest, AddressLosers(gw, current, listed)), GrantPlan(gw, current, listed);
    assert PassPlan(gw, current, listed) == a + b + d + e;
    PartOf(a, b, d, e, k);
    if k < |a| {
      p := RefusalSlot(gw, current, listed, k);
    } else if k < |a| + |b| {
      p := KeyLossSlot(gw, current, listed, k - |a|);
    } else if k < |a| + |b| + |d| {
      p := AddressLossSlot(gw, current, listed, k - |a| - |b|);
    } else {
      p := GrantSlot(gw, current, listed, k - |a| - |b| - |d|);
    }
  }

  lemma RefusalSlot(gw: Spec, current: Keys, listed: seq<Peer>, i: nat) returns (p: Peer)
    requires Accepted(gw) && DistinctIds(listed) && i < |listed| && Refusals(gw, listed)[i].Some?
    ensures var slot := Refusals(gw, listed)[i];
      p in listed && p.id == slot.value.peer.id && Decides(gw, current, listed, p, slot)
  {
    p := listed[i];
    RefusalDecides(gw, current, listed, i);
  }

  lemma KeyLossSlot(gw: Spec, current: Keys, listed: seq<Peer>, i: nat) returns (p: Peer)
    requires Accepted(gw) && DistinctIds(listed) && i < |KeyLosers(gw, current, listed)|
    requires Releases(KeyContest(current), KeyLosers(gw, current, listed))[i].Some?
    ensures var slot := Releases(KeyContest(current), KeyLosers(gw, current, listed))[i];
      p in listed && p.id == slot.value.peer.id && Decides(gw, current, listed, p, slot)
  {
    p := KeyLosers(gw, current, listed)[i].peer;
    KeyLossDecides(gw, current, listed, i);
  }

  lemma PartOf(a: Plan, b: Plan, d: Plan, e: Plan, k: nat)
    requires k < |a + b + d + e|
    ensures (a + b + d + e)[k] ==
      if k < |a| then a[k]
      else if k < |a| + |b| then b[k - |a|]
      else if k < |a| + |b| + |d| then d[k - |a| - |b|]
      else e[k - |a| - |b| - |d|]
  {
  }

  lemma AddressLossSlot(gw: Spec, current: Keys, listed: seq<Peer>, i: nat) returns (p: Peer)
    requires Accepted(gw) && DistinctIds(listed) && i < |AddressLosers(gw, current, listed)|
    ensures var slot := Releases(AddressContest, AddressLosers(gw, current, listed))[i];
      p in listed && p.id == AddressLosers(gw, current, listed)[i].peer.id && Decides(gw, current, listed, p, slot)
  {
    var candidates := Candidates(gw, current, listed);
    LosersMembership(AddressContest, candidates, candidates);
    assert AddressLosers(gw, current, listed)[i] in AddressLosers(gw, current, listed);
    p := CandidateIsListed(gw, current, listed, AddressLosers(gw, current, listed)[i].peer);
    AddressLossDecides(gw, current, listed, i, p);
  }

  lemma GrantSlot(gw: Spec, current: Keys, listed: seq<Peer>, i: nat) returns (p: Peer)
    requires Accepted(gw) && DistinctIds(listed) && i < |PassGrants(gw, current, listed)|
    ensures p in listed && p.id == PassGrants(gw, current, listed)[i].peer.id
    ensures Decides(gw, current, listed, p, GrantPlan(gw, current, listed)[i])
  {
    var g := PassGrants(gw, current, listed)[i];
    assert g in PassGrants(gw, current, listed);
    p := GrantsMentionListed(gw, current, listed, g.peer.id);
    GrantDecides(gw, current, listed, i, p);
  }

  ghost predicate HasSlot(gw: Spec, current: Keys, listed: seq<Peer>, p: Peer, part: Plan)
    requires Accepted(gw) && DistinctIds(listed) && p in listed
  {
    exists k :: 0 <= k < |part| && Decides(gw, current, listed, p, part[k])
  }

  lemma HasSlotConcat(gw: Spec, current: Keys, listed: seq<Peer>, p: Peer, a: Plan, b: Plan)
    requires Accepted(gw) && DistinctIds(listed) && p in listed
    requires HasSlot(gw, current, listed, p, a) || HasSlot(gw, current, listed, p, b)
    ensures HasSlot(gw, current, listed, p, a + b)
  {
    if HasSlot(gw, current, listed, p, a) {
      var k :| 0 <= k < |a| && Decides(gw, current, listed, p, a[k]);
      assert (a + b)[k] == a[k];
    } else {
      var k :| 0 <= k < |b| && Decides(gw, current, listed, p, b[k]);
      assert (a + b)[|a| + k] == b[k];
    }
  }

  lemma HasRefusalSlot(gw: Spec, current: Keys, listed: seq<Peer>, p: Peer)
    requires Accepted(gw) && DistinctIds(listed) && p in listed && Phase(gw, current, listed, p) == 0
    ensures HasSlot(gw, current, listed, p, Refusals(gw, listed))
  {
    var i :| 0 <= i < |listed| && listed[i] == p;
    RefusalDecides(gw, current, listed, i);
  }

  lemma HasKeyLossSlot(gw: Spec, current: Keys, listed: seq<Peer>, p: Peer)
    requires Accepted(gw) && DistinctIds(listed) && p in listed && Phase(gw, current, listed, p) == 1
    ensures HasSlot(gw, current, listed, p, Releases(KeyContest(current), KeyLosers(gw, current, listed)))
  {
    var i := KeyLoserAt(gw, current, listed, p);
    KeyLossDecides(gw, current, listed, i);
    assert Decides(gw, current, listed, p, Releases(KeyContest(current), KeyLosers(gw, current, listed))[i]);
  }

  lemma HasAddressLossSlot(gw: Spec, current: Keys, listed: seq<Peer>, p: Peer)
    requires Accepted(gw) && DistinctIds(listed) && p in listed && Phase(gw, current, listed, p) == 2
    ensures HasSlot(gw, current, listed, p, Releases(AddressContest, AddressLosers(gw, current, listed)))
  {
    var i := AddressLoserAt(gw, current, listed, p);
    AddressLossDecides(gw, current, listed, i, p);
    assert Decides(gw, current, listed, p, Releases(AddressContest, AddressLosers(gw, current, listed))[i]);
  }

  lemma HasGrantSlot(gw: Spec, current: Keys, listed: seq<Peer>, p: Peer)
    requires Accepted(gw) && DistinctIds(listed) && p in listed && Phase(gw, current, listed, p) == 3
    ensures HasSlot(gw, current, listed, p, GrantPlan(gw, current, listed))
  {
    var i := GrantForFacts(gw, current, listed, p);
    assert Decides(gw, current, listed, p, GrantPlan(gw, current, listed)[i]);
  }

  /** Every listed peer has its slot. */
  lemma DecisionSlot(gw: Spec, current: Keys, listed: seq<Peer>, p: Peer) returns (k: nat)
    requires Accepted(gw) && DistinctIds(listed) && p in listed
    ensures k < |PassPlan(gw, current, listed)| && Decides(gw, current, listed, p, PassPlan(gw, current, listed)[k])
  {
    var a, b := Refusals(gw, listed), Releases(KeyContest(current), KeyLosers(gw, current, listed));
    var d, e := Releases(AddressContest, AddressLosers(gw, current, listed)), GrantPlan(gw, current, listed);
    match Phase(gw, current, listed, p) {
      case 0 =>
        HasRefusalSlot(gw, current, listed, p);
        HasSlotConcat(gw, current, listed, p, a, b);
        HasSlotConcat(gw, current, listed, p, a + b, d);
      case 1 =>
        HasKeyLossSlot(gw, current, listed, p);
        HasSlotConcat(gw, current, listed, p, a, b);
        HasSlotConcat(gw, current, listed, p, a + b, d);
      case 2 =>
        HasAddressLossSlot(gw, current, listed, p);
        HasSlotConcat(gw, current, listed, p, a + b, d);
      case _ =>
        HasGrantSlot(gw, current, listed, p);
    }
    HasSlotConcat(gw, current, listed, p, a + b + d, e);
    assert PassPlan(gw, current, listed) == a + b + d + e;
    k :| 0 <= k < |PassPlan(gw, current, listed)| && Decides(gw, current, listed, p, PassPlan(gw, current, listed)[k]);
  }

  // ---- a pass in which every write succeeds ----

  ghost predicate AllWritten(answers: Answers) {
    forall id :: answers(id) == Written
  }

  function Decided(p: Peer, slot: Option<Write>): Peer {
    if slot.Some? then p.(status := slot.value.peer.status) else p
  }

  /** Over fresh reads, with every write succeeding, the store ends with every decision carried out. */
  lemma PassDecides(store: Store, gw: Spec, current: Keys, listed: seq<Peer>, answers: Answers, id: PeerId) returns (slot: Option<Write>)
    requires Accepted(gw) && Lists(listed, store) && AllWritten(answers) && id in store
    ensures Completes(PassPlan(gw, current, listed), answers)
    ensures Decides(gw, current, listed, store[id], slot)
    ensures var after := PassStore(store, gw, current, listed, answers);
      id in after && after[id] == Decided(store[id], slot)
  {
    var p, plan := store[id], PassPlan(gw, current, listed);
    var k := DecisionSlot(gw, current, listed, p);
    slot := plan[k];
    OneWritePerPeer(gw, current, listed);
    ApplyPointwise(store, plan, answers, id);
    IdsIdentify(listed);
    if slot.Some? {
      DecidesItself(gw, current, listed, p, slot);
      ApplyWritten(store, plan, answers, k);
    } else if PassStore(store, gw, current, listed, answers)[id] != p {
      var i :| 0 <= i < |plan| && plan[i].Some? && plan[i].value.peer.id == id;
      var q := SlotDecides(gw, current, listed, i);
    }
  }

  lemma DecidesItself(gw: Spec, current: Keys, listed: seq<Peer>, p: Peer, slot: Option<Write>)
    requires Accepted(gw) && DistinctIds(listed) && p in listed && Decides(gw, current, listed, p, slot) && slot.Some?
    ensures slot.value.peer.id == p.id
  {
    if Phase(gw, current, listed, p) == 3 {
      var i := GrantForFacts(gw, current, listed, p);
    }
  }

  /** What the pass returns is, object for object, what it stored. */
  lemma AdmittedIsStored(store: Store, gw: Spec, current: Keys, listed: seq<Peer>, answers: Answers, p: Peer)
    requires Accepted(gw) && Lists(listed, store) && AllWritten(answers)
    requires p in AdmittedPeers(PassGrants(gw, current, listed), answers)
    ensures var after := PassStore(store, gw, current, listed, answers);
      && p.id in store && p.id in after && after[p.id] == p && AlreadyReady(p)
      && Phase(gw, current, listed, store[p.id]) == 3
      && !GrantFor(gw, current, listed, store[p.id]).Exhausted?
      && p.status.address == GrantedAddress(GrantFor(gw, current, listed, store[p.id]))
  {
    var i := AdmittedGrant(gw, current, listed, answers, p);
    var g := PassGrants(gw, current, listed)[i];
    assert g in PassGrants(gw, current, listed);
    var q := GrantsMentionListed(gw, current, listed, g.peer.id);
    var j := GrantForFacts(gw, current, listed, q);
    var slot := PassDecides(store, gw, current, listed, answers, q.id);
  }

  lemma GrantedIsAdmitted(store: Store, gw: Spec, current: Keys, listed: seq<Peer>, answers: Answers, id: PeerId)
    requires Accepted(gw) && Lists(listed, store) && AllWritten(answers) && id in store
    requires Phase(gw, current, listed, store[id]) == 3 && !GrantFor(gw, current, listed, store[id]).Exhausted?
    ensures exists p :: p in AdmittedPeers(PassGrants(gw, current, listed), answers) && p.id == id
  {
    AdmittedById(PassGrants(gw, current, listed), answers, id);
  }
}
