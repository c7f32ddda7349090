/** The effect of a pass on the store it was listed from: who is written, and what becomes of each address. */
module Freshness {
  import opened Ipv4
  import opened Gateway
  import opened Peers
  import opened Pass
  import opened PassFacts
  import opened Safety

  /** listed is what the store holds, in some order. */
  ghost predicate Lists(listed: seq<Peer>, store: Store) {
    && DistinctIds(listed)
    && (forall p :: p in listed ==> p.id in store && store[p.id] == p)
    && (forall id :: id in store ==> store[id].id == id && store[id] in listed)
  }

  // ---- plans, pointwise ----

  ghost predicate Writes(plan: Plan, id: PeerId, status: Status) {
    exists i :: 0 <= i < |plan| && plan[i].Some? && plan[i].value.peer.id == id && plan[i].value.peer.status == status
  }

  ghost predicate Mentions(plan: Plan, id: PeerId) {
    exists i :: 0 <= i < |plan| && plan[i].Some? && plan[i].value.peer.id == id
  }

  /** A plan changes only statuses, each to one it writes, and only where the answer was Written. */
  lemma {:induction false} ApplyPointwise(store: Store, plan: Plan, answers: Answers, id: PeerId)
    ensures id in Apply(store, plan, answers) <==> id in store
    ensures id in store ==>
      var p := Apply(store, plan, answers)[id];
      p == store[id] || (answers(id) == Written && p == store[id].(status := p.status) && Writes(plan, id, p.status))
  {
    if plan != [] {
      var front, slot := plan[..|plan| - 1], plan[|plan| - 1];
      ApplyPointwise(store, front, answers, id);
      if id in store {
        var p := Apply(store, plan, answers)[id];
        if Writes(front, id, p.status) {
          var i :| 0 <= i < |front| && front[i].Some? && front[i].value.peer.id == id && front[i].value.peer.status == p.status;
          assert plan[i] == front[i];
        }
      }
    }
  }

  ghost predicate NoSkips(answers: Answers) {
    forall id :: answers(id) == Written || answers(id) == Failed
  }

  ghost predicate OneWriteEach(plan: Plan) {
    forall i, j :: 0 <= i < j < |plan| && plan[i].Some? && plan[j].Some? ==> plan[i].value.peer.id != plan[j].value.peer.id
  }

  /** When a plan that writes each peer once completes, an answered write is what the store holds. */
  lemma {:induction false} ApplyWritten(store: Store, plan: Plan, answers: Answers, i: nat)
    requires OneWriteEach(plan) && Completes(plan, answers) && i < |plan| && plan[i].Some?
    requires plan[i].value.peer.id in store && answers(plan[i].value.peer.id) == Written
    ensures var w := plan[i].value.peer;
      w.id in Apply(store, plan, answers) && Apply(store, plan, answers)[w.id] == store[w.id].(status := w.status)
  {
    var front, w := plan[..|plan| - 1], plan[i].value.peer;
    CompletesConcat(front, [plan[|plan| - 1]], answers);
    assert plan == front + [plan[|plan| - 1]];
    ApplyPointwise(store, front, answers, w.id);
    if i < |front| {
      assert front[i] == plan[i];
      ApplyWritten(store, front, answers, i);
    }
  }

  // ---- the release phase only clears addresses ----

  ghost predicate OnlyReleases(plan: Plan) {
    forall i :: 0 <= i < |plan| && plan[i].Some? ==> plan[i].value.peer.status.address == Unset && !plan[i].value.readying
  }

  lemma ReleasesOnly(gw: Spec, current: Keys, listed: seq<Peer>)
    requires Accepted(gw)
    ensures OnlyReleases(ReleasePlan(gw, current, listed))
  {
  }

  lemma ReleasedAddress(store: Store, plan: Plan, answers: Answers, id: PeerId)
    requires OnlyReleases(plan) && id in store
    ensures var after := Apply(store, plan, answers);
      id in after && (after[id] == store[id] || after[id].status.address == Unset)
  {
    ApplyPointwise(store, plan, answers, id);
  }

  /** With no write skipped, a completed release phase clears every peer it mentions. */
  lemma {:induction false} ReleasedWhenDone(store: Store, plan: Plan, answers: Answers, id: PeerId)
    requires OnlyReleases(plan) && id in store && Completes(plan, answers) && NoSkips(answers) && Mentions(plan, id)
    ensures id in Apply(store, plan, answers) && Apply(store, plan, answers)[id].status.address == Unset
  {
    var front, slot := plan[..|plan| - 1], plan[|plan| - 1];
    assert plan == front + [slot];
    CompletesConcat(front, [slot], answers);
    ApplyPointwise(store, front, answers, id);
    if slot.Some? && slot.value.peer.id == id {
      assert SlotCompletes(plan[|plan| - 1], answers);
    } else {
      var i :| 0 <= i < |plan| && plan[i].Some? && plan[i].value.peer.id == id;
      assert front[i] == plan[i];
      ReleasedWhenDone(store, front, answers, id);
    }
  }

  // ---- every peer is written at most once ----

  lemma RefusalsMention(gw: Spec, listed: seq<Peer>, id: PeerId)
    requires Mentions(Refusals(gw, listed), id)
    ensures exists p :: p in listed && p.id == id && AdmissionProblem(gw, p).Some?
  {
    var plan := Refusals(gw, listed);
    var i :| 0 <= i < |plan| && plan[i].Some? && plan[i].value.peer.id == id;
    assert listed[i] in listed && plan[i] == RefusalOf(gw, listed[i]);
  }

  lemma ReleasesMention(c: Contest, losers: seq<Loser>, id: PeerId)
    requires Mentions(Releases(c, losers), id)
    ensures exists l :: l in losers && l.peer.id == id
  {
    var plan := Releases(c, losers);
    var i :| 0 <= i < |plan| && plan[i].Some? && plan[i].value.peer.id == id;
    assert losers[i] in losers && plan[i] == NotReadyWrite(losers[i].peer, ConflictRecord(c, losers[i]));
  }

  lemma GrantsMention(pool: Prefix, gs: seq<Grant>, id: PeerId)
    requires Mentions(GrantWrites(pool, gs), id)
    ensures exists g :: g in gs && g.peer.id == id
  {
    var plan := GrantWrites(pool, gs);
    var i :| 0 <= i < |plan| && plan[i].Some? && plan[i].value.peer.id == id;
    assert gs[i] in gs && plan[i] == GrantWrite(pool, gs[i]);
  }

  /** The phase that decides a listed peer: refused, key lost, address lost, granted. */
  ghost function Phase(gw: Spec, current: Keys, listed: seq<Peer>, p: Peer): nat
    requires Accepted(gw)
  {
    if AdmissionProblem(gw, p).Some? then 0
    else if p !in Survivors(gw, current, listed) then 1
    else if ClearUnusable(Pool(gw), p) !in Holders(gw, current, listed) then 2
    else 3
  }

  lemma KeyLoserPhase(gw: Spec, current: Keys, listed: seq<Peer>, p: Peer)
    requires Accepted(gw) && DistinctIds(listed) && p in listed
    requires Mentions(Releases(KeyContest(current), KeyLosers(gw, current, listed)), p.id)
    ensures Phase(gw, current, listed, p) == 1
  {
    var c, admissible := KeyContest(current), Admissible(gw, listed);
    ReleasesMention(c, KeyLosers(gw, current, listed), p.id);
    LosersMembership(c, admissible, admissible);
    SurvivorsFacts(gw, current, listed);
    AdmissibleDistinct(gw, listed);
  }

  lemma AddressLoserPhase(gw: Spec, current: Keys, listed: seq<Peer>, p: Peer)
    requires Accepted(gw) && DistinctIds(listed) && p in listed
    requires Mentions(Releases(AddressContest, AddressLosers(gw, current, listed)), p.id)
    ensures Phase(gw, current, listed, p) == 2
  {
    ReleasesMention(AddressContest, AddressLosers(gw, current, listed), p.id);
    var answers: Answers := (_: PeerId) => Written;
    assert Ends(gw, current, listed, answers, p, LostAddress);
    LostAddressIff(gw, current, listed, answers, p);
    SurvivorsFacts(gw, current, listed);
  }

  lemma GrantPhase(gw: Spec, current: Keys, listed: seq<Peer>, p: Peer)
    requires Accepted(gw) && DistinctIds(listed) && p in listed
    requires exists g :: g in PassGrants(gw, current, listed) && g.peer.id == p.id
    ensures Phase(gw, current, listed, p) == 3
  {
    var g :| g in PassGrants(gw, current, listed) && g.peer.id == p.id;
    GrantById(gw, current, listed, p, g);
    SurvivorsFacts(gw, current, listed);
  }

  lemma CandidateIsListed(gw: Spec, current: Keys, listed: seq<Peer>, c: Peer) returns (p: Peer)
    requires Accepted(gw) && DistinctIds(listed) && c in Candidates(gw, current, listed)
    ensures p in listed && p.id == c.id && c == ClearUnusable(Pool(gw), p)
  {
    CandidatesFacts(gw, current, listed);
    SurvivorsFacts(gw, current, listed);
    p :| p in Survivors(gw, current, listed) && c == ClearUnusable(Pool(gw), p);
  }

  /** Each phase mentions only listed peers it decides. */
  lemma ReleasePhases(gw: Spec, current: Keys, listed: seq<Peer>, id: PeerId) returns (p: Peer)
    requires Accepted(gw) && DistinctIds(listed)
    requires Mentions(Refusals(gw, listed), id)
          || Mentions(Releases(KeyContest(current), KeyLosers(gw, current, listed)), id)
          || Mentions(Releases(AddressContest, AddressLosers(gw, current, listed)), id)
    ensures p in listed && p.id == id
    ensures Mentions(Refusals(gw, listed), id) ==> Phase(gw, current, listed, p) == 0
    ensures Mentions(Releases(KeyContest(current), KeyLosers(gw, current, listed)), id) ==> Phase(gw, current, listed, p) == 1
    ensures Mentions(Releases(AddressContest, AddressLosers(gw, current, listed)), id) ==> Phase(gw, current, listed, p) == 2
  {
    if Mentions(Refusals(gw, listed), id) {
      RefusalsMention(gw, listed, id);
      p :| p in listed && p.id == id && AdmissionProblem(gw, p).Some?;
    } else if Mentions(Releases(KeyContest(current), KeyLosers(gw, current, listed)), id) {
      p := KeyLoserListed(gw, current, listed, id);
    } else {
      p := AddressLoserListed(gw, current, listed, id);
    }
    if Mentions(Releases(KeyContest(current), KeyLosers(gw, current, listed)), id) {
      KeyLoserPhase(gw, current, listed, p);
    }
    if Mentions(Releases(AddressContest, AddressLosers(gw, current, listed)), id) {
      AddressLoserPhase(gw, current, listed, p);
    }
  }

  lemma KeyLoserListed(gw: Spec, current: Keys, listed: seq<Peer>, id: PeerId) returns (p: Peer)
    requires Accepted(gw) && DistinctIds(listed)
    requires Mentions(Releases(KeyContest(current), KeyLosers(gw, current, listed)), id)
    ensures p in listed && p.id == id
  {
    var c, admissible := KeyContest(current), Admissible(gw, listed);
    ReleasesMention(c, KeyLosers(gw, current, listed), id);
    LosersMembership(c, admissible, admissible);
    AdmissibleDistinct(gw, listed);
    var l :| l in KeyLosers(gw, current, listed) && l.peer.id == id;
    p := l.peer;
  }

  lemma AddressLoserListed(gw: Spec, current: Keys, listed: seq<Peer>, id: PeerId) returns (p: Peer)
    requires Accepted(gw) && DistinctIds(listed)
    requires Mentions(Releases(AddressContest, AddressLosers(gw, current, listed)), id)
    ensures p in listed && p.id == id
  {
    var candidates := Candidates(gw, current, listed);
    ReleasesMention(AddressContest, AddressLosers(gw, current, listed), id);
    LosersMembership(AddressContest, candidates, candidates);
    var l :| l in AddressLosers(gw, current, listed) && l.peer.id == id;
    p := CandidateIsListed(gw, current, listed, l.peer);
  }

  lemma OneWriteConcat(a: Plan, b: Plan)
    requires OneWriteEach(a) && OneWriteEach(b) && forall id :: Mentions(a, id) ==> !Mentions(b, id)
    ensures OneWriteEach(a + b)
    ensures forall id :: Mentions(a + b, id) ==> Mentions(a, id) || Mentions(b, id)
  {
    var ab := a + b;
    forall i | 0 <= i < |ab| && ab[i].Some?
      ensures i < |a| ==> Mentions(a, ab[i].value.peer.id)
      ensures i >= |a| ==> Mentions(b, ab[i].value.peer.id)
    {
      if i < |a| { assert a[i] == ab[i]; } else { assert b[i - |a|] == ab[i]; }
    }
  }

  lemma MentionedInRelease(gw: Spec, current: Keys, listed: seq<Peer>, id: PeerId) returns (p: Peer)
    requires Accepted(gw) && DistinctIds(listed) && Mentions(ReleasePlan(gw, current, listed), id)
    ensures p in listed && p.id == id && Phase(gw, current, listed, p) < 3
  {
    var a, b, d := Refusals(gw, listed), Releases(KeyContest(current), KeyLosers(gw, current, listed)),
      Releases(AddressContest, AddressLosers(gw, current, listed));
    var plan := a + b + d;
    var i :| 0 <= i < |plan| && plan[i].Some? && plan[i].value.peer.id == id;
    if i < |a| {
      assert a[i] == plan[i];
    } else if i < |a| + |b| {
      assert b[i - |a|] == plan[i];
    } else {
      assert d[i - |a| - |b|] == plan[i];
    }
    p := ReleasePhases(gw, current, listed, id);
  }

  lemma ReleaseWritesOnce(gw: Spec, current: Keys, listed: seq<Peer>)
    requires Accepted(gw) && DistinctIds(listed)
    ensures OneWriteEach(ReleasePlan(gw, current, listed))
  {
    var a, b, d := Refusals(gw, listed), Releases(KeyContest(current), KeyLosers(gw, current, listed)),
      Releases(AddressContest, AddressLosers(gw, current, listed));
    AdmissibleDistinct(gw, listed);
    CandidatesFacts(gw, current, listed);
    LosersDistinct(KeyContest(current), Admissible(gw, listed), Admissible(gw, listed));
    LosersDistinct(AddressContest, Candidates(gw, current, listed), Candidates(gw, current, listed));
    forall id | Mentions(a, id) || Mentions(b, id)
      ensures !(Mentions(a, id) && Mentions(b, id)) && !Mentions(d, id)
    {
      var p := ReleasePhases(gw, current, listed, id);
    }
    OneWriteConcat(a, b);
    OneWriteConcat(a + b, d);
  }

  lemma GrantsMentionListed(gw: Spec, current: Keys, listed: seq<Peer>, id: PeerId) returns (p: Peer)
    requires Accepted(gw) && DistinctIds(listed)
    requires exists g :: g in PassGrants(gw, current, listed) && g.peer.id == id
    ensures p in listed && p.id == id && Phase(gw, current, listed, p) == 3
  {
    var candidates := Candidates(gw, current, listed);
    PassGrantsFacts(gw, current, listed);
    KeepersMembership(AddressContest, candidates, candidates);
    var g :| g in PassGrants(gw, current, listed) && g.peer.id == id;
    assert g.peer in Holders(gw, current, listed);
    p := CandidateIsListed(gw, current, listed, g.peer);
    GrantPhase(gw, current, listed, p);
  }

  lemma GrantWritesOnce(pool: Prefix, gs: seq<Grant>)
    requires DistinctGrants(gs)
    ensures OneWriteEach(GrantWrites(pool, gs))
  {
  }

  /** A pass writes each peer at most once, so one answer per peer describes every behaviour of the API. */
  lemma OneWritePerPeer(gw: Spec, current: Keys, listed: seq<Peer>)
    requires Accepted(gw) && DistinctIds(listed)
    ensures OneWriteEach(PassPlan(gw, current, listed))
  {
    ReleaseWritesOnce(gw, current, listed);
    PassGrantsDistinct(gw, current, listed);
    GrantWritesOnce(Pool(gw), PassGrants(gw, current, listed));
    IdsIdentify(listed);
    forall id | Mentions(ReleasePlan(gw, current, listed), id)
      ensures !Mentions(GrantPlan(gw, current, listed), id)
    {
      var p := MentionedInRelease(gw, current, listed, id);
      if Mentions(GrantPlan(gw, current, listed), id) {
        GrantsMention(Pool(gw), PassGrants(gw, current, listed), id);
        var q := GrantsMentionListed(gw, current, listed, id);
      }
    }
    OneWriteConcat(ReleasePlan(gw, current, listed), GrantPlan(gw, current, listed));
  }
}
