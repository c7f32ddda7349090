/** One peer reconciliation pass as a plan: the decisions reconcilePeers takes from the peers it listed and
    the keys it read, in the order it takes them. No decision looks at how an earlier status write was
    answered, so the plan is a function of the inputs, and the answers only decide which of its writes take
    effect, who is returned, and where the pass stops
    (internal/controller/wireguard_controller.go, reconcilePeers and what it calls). */
module Pass {
  import opened Sequences
  import opened Ipv4
  import opened Ipam
  import opened Gateway
  import opened Peers

  /** How the API server answers a status write. */
  datatype Answer = Written | Conflict | NotFound | Invalid | Failed

  /** Every peer is written at most once in a pass, so one answer per peer covers every behaviour. */
  type Answers = PeerId -> Answer

  /** A status write; readying tells the writes of allocatePeers and syncPeerIdentity, which an Invalid
      answer aborts, from those of markPeerNotReady, which swallows it. */
  datatype Write = Write(peer: Peer, readying: bool)

  /** One slot per decision; None where the stored status already records it. */
  type Plan = seq<Option<Write>>

  type Store = map<PeerId, Peer>

  // ---- writes ----

  predicate Fatal(w: Write, a: Answer) {
    a == Failed || (a == Invalid && w.readying)
  }

  predicate SlotCompletes(slot: Option<Write>, answers: Answers) {
    slot.Some? ==> !Fatal(slot.value, answers(slot.value.peer.id))
  }

  ghost predicate Completes(plan: Plan, answers: Answers) {
    forall i :: 0 <= i < |plan| ==> SlotCompletes(plan[i], answers)
  }

  /** A write of the status subresource: the stored spec is untouched. */
  function Put(store: Store, p: Peer): Store {
    if p.id in store then store[p.id := store[p.id].(status := p.status)] else store
  }

  function ApplySlot(store: Store, slot: Option<Write>, answers: Answers): Store {
    if slot.Some? && answers(slot.value.peer.id) == Written then Put(store, slot.value.peer) else store
  }

  /** The store after the plan has run up to its first fatal answer. */
  ghost function Apply(store: Store, plan: Plan, answers: Answers): Store {
    if plan == [] then store else
    var front := plan[..|plan| - 1];
    var before := Apply(store, front, answers);
    if Completes(front, answers) then ApplySlot(before, plan[|plan| - 1], answers) else before
  }

  // ---- decisions ----

  function NotReadyWrite(p: Peer, nr: NotReady): Option<Write> {
    if Records(p, nr) then None else Some(Write(MarkNotReady(p, nr), false))
  }

  function RefusalOf(gw: Spec, p: Peer): Option<Write> {
    var problem := AdmissionProblem(gw, p);
    if problem.Some? then NotReadyWrite(p, problem.value) else None
  }

  /** admitPeers' writes, one slot per listed peer. */
  function Refusals(gw: Spec, peers: seq<Peer>): Plan {
    seq(|peers|, i requires 0 <= i < |peers| => RefusalOf(gw, peers[i]))
  }

  function Admissible(gw: Spec, peers: seq<Peer>): seq<Peer> {
    if peers == [] then [] else
    var p := peers[|peers| - 1];
    Admissible(gw, peers[..|peers| - 1]) + if AdmissionProblem(gw, p).None? then [p] else []
  }

  function ConflictRecord(c: Contest, l: Loser): NotReady {
    if c.AddressContest? then AddressConflict(l.peer.status.address, l.winner) else PublicKeyConflict(l.winner)
  }

  /** releaseLosers' writes. */
  function Releases(c: Contest, losers: seq<Loser>): Plan {
    seq(|losers|, i requires 0 <= i < |losers| => NotReadyWrite(losers[i].peer, ConflictRecord(c, losers[i])))
  }

  /** An address the allocator could not have handed out counts as none. */
  function ClearUnusable(pool: Prefix, p: Peer): Peer {
    if p.status.address != Unset && !AddressUsable(p.status.address, pool)
    then p.(status := p.status.(address := Unset)) else p
  }

  function ClearAll(pool: Prefix, peers: seq<Peer>): seq<Peer> {
    seq(|peers|, i requires 0 <= i < |peers| => ClearUnusable(pool, peers[i]))
  }

  function Addresses(peers: seq<Peer>): seq<Address> {
    seq(|peers|, i requires 0 <= i < |peers| => peers[i].status.address)
  }

  /** What allocatePeers gives a peer: the address it holds, a new one, or nothing. */
  datatype Grant = Held(peer: Peer) | Fresh(peer: Peer, address: Addr) | Exhausted(peer: Peer)

  function FreshAddresses(grants: seq<Grant>): seq<Address> {
    if grants == [] then [] else
    var g := grants[|grants| - 1];
    FreshAddresses(grants[..|grants| - 1]) + if g.Fresh? then [Ip(g.address)] else []
  }

  function GrantOf(pool: Prefix, used: seq<Address>, p: Peer): Grant {
    if p.status.address != Unset then Held(p)
    else match LeastFree(pool, used)
      case Some(a) => Fresh(p, a)
      case None => Exhausted(p)
  }

  /** allocatePeers' decisions; an address handed out is in use for every later peer. */
  function Grants(pool: Prefix, base: seq<Address>, peers: seq<Peer>): (gs: seq<Grant>)
    ensures |gs| == |peers|
  {
    if peers == [] then [] else
    var front := Grants(pool, base, peers[..|peers| - 1]);
    front + [GrantOf(pool, base + FreshAddresses(front), peers[|peers| - 1])]
  }

  predicate AlreadyReady(p: Peer) {
    p.status.summary == Ready && p.status.ready.None?
  }

  function MarkReady(p: Peer): Peer {
    p.(status := p.status.(summary := Ready, message := Configured, ready := None))
  }

  function WithAddress(p: Peer, a: Addr): Peer {
    p.(status := p.status.(address := Ip(a)))
  }

  function GrantWrite(pool: Prefix, g: Grant): Option<Write> {
    match g
    case Held(p) => if AlreadyReady(p) then None else Some(Write(MarkReady(p), true))
    case Fresh(p, a) => Some(Write(MarkReady(WithAddress(p, a)), true))
    case Exhausted(p) => NotReadyWrite(p, AddressPoolExhausted(pool))
  }

  function GrantWrites(pool: Prefix, gs: seq<Grant>): Plan {
    seq(|gs|, i requires 0 <= i < |gs| => GrantWrite(pool, gs[i]))
  }

  /** The peer a grant admits, as written: a held address stays even when the write was skipped, a new one
      counts only once it is persisted. */
  function AdmittedPeer(g: Grant, answers: Answers): Option<Peer> {
    match g
    case Held(p) => Some(if AlreadyReady(p) then p else MarkReady(p))
    case Fresh(p, a) => if answers(p.id) == Written then Some(MarkReady(WithAddress(p, a))) else None
    case Exhausted(_) => None
  }

  function AdmittedPeers(gs: seq<Grant>, answers: Answers): seq<Peer> {
    if gs == [] then [] else
    var last := AdmittedPeer(gs[|gs| - 1], answers);
    AdmittedPeers(gs[..|gs| - 1], answers) + if last.Some? then [last.value] else []
  }

  // ---- the pass ----

  type Keys = map<PeerId, PublicKey>

  /** The admissible peers that keep their key. */
  function Survivors(gw: Spec, current: Keys, listed: seq<Peer>): seq<Peer> {
    var admissible := Admissible(gw, listed);
    Keepers(KeyContest(current), admissible, admissible)
  }

  function Candidates(gw: Spec, current: Keys, listed: seq<Peer>): seq<Peer>
    requires Accepted(gw)
  {
    ClearAll(Pool(gw), Survivors(gw, current, listed))
  }

  /** The survivors that keep their address, or have none. */
  function Holders(gw: Spec, current: Keys, listed: seq<Peer>): seq<Peer>
    requires Accepted(gw)
  {
    var candidates := Candidates(gw, current, listed);
    Keepers(AddressContest, candidates, candidates)
  }

  function PassGrants(gw: Spec, current: Keys, listed: seq<Peer>): seq<Grant>
    requires Accepted(gw)
  {
    var holders := Holders(gw, current, listed);
    Grants(Pool(gw), Used(Pool(gw), Addresses(holders)), holders)
  }

  function KeyLosers(gw: Spec, current: Keys, listed: seq<Peer>): seq<Loser> {
    var admissible := Admissible(gw, listed);
    Losers(KeyContest(current), admissible, admissible)
  }

  function AddressLosers(gw: Spec, current: Keys, listed: seq<Peer>): seq<Loser>
    requires Accepted(gw)
  {
    var candidates := Candidates(gw, current, listed);
    Losers(AddressContest, candidates, candidates)
  }

  /** The writes that release an address: they all come before any that hands one out. */
  function ReleasePlan(gw: Spec, current: Keys, listed: seq<Peer>): Plan
    requires Accepted(gw)
  {
    Refusals(gw, listed)
    + Releases(KeyContest(current), KeyLosers(gw, current, listed))
    + Releases(AddressContest, AddressLosers(gw, current, listed))
  }

  function GrantPlan(gw: Spec, current: Keys, listed: seq<Peer>): Plan
    requires Accepted(gw)
  {
    GrantWrites(Pool(gw), PassGrants(gw, current, listed))
  }

  function PassPlan(gw: Spec, current: Keys, listed: seq<Peer>): Plan
    requires Accepted(gw)
  {
    ReleasePlan(gw, current, listed) + GrantPlan(gw, current, listed)
  }

  /** The peers the pass returns, or None when it aborted. */
  ghost function PassResult(gw: Spec, current: Keys, listed: seq<Peer>, answers: Answers): Option<seq<Peer>>
    requires Accepted(gw)
  {
    if Completes(PassPlan(gw, current, listed), answers)
    then Some(AdmittedPeers(PassGrants(gw, current, listed), answers))
    else None
  }

  ghost function PassStore(store: Store, gw: Spec, current: Keys, listed: seq<Peer>, answers: Answers): Store
    requires Accepted(gw)
  {
    Apply(store, PassPlan(gw, current, listed), answers)
  }

  // ---- which answers stop a pass ----

  /** Every write of a plan is marked readying exactly when it makes its peer Ready. */
  ghost predicate MarkedRight(plan: Plan) {
    forall i :: 0 <= i < |plan| && plan[i].Some? ==> (plan[i].value.readying <==> plan[i].value.peer.status.summary == Ready)
  }

  lemma PassMarkedRight(gw: Spec, current: Keys, listed: seq<Peer>)
    requires Accepted(gw)
    ensures MarkedRight(PassPlan(gw, current, listed))
  {
    MarkedConcat(Refusals(gw, listed), Releases(KeyContest(current), KeyLosers(gw, current, listed)));
    MarkedConcat(Refusals(gw, listed) + Releases(KeyContest(current), KeyLosers(gw, current, listed)),
      Releases(AddressContest, AddressLosers(gw, current, listed)));
    MarkedConcat(ReleasePlan(gw, current, listed), GrantPlan(gw, current, listed));
  }

  lemma MarkedConcat(a: Plan, b: Plan)
    requires MarkedRight(a) && MarkedRight(b)
    ensures MarkedRight(a + b)
  {
  }

  /** A pass completes exactly when no write it plans fails, and none that makes a peer Ready is rejected as Invalid. A
      Conflict, a peer that is gone, and an Invalid not-ready record stop nothing. */
  lemma PassCompletesIff(gw: Spec, current: Keys, listed: seq<Peer>, answers: Answers)
    requires Accepted(gw)
    ensures var plan := PassPlan(gw, current, listed);
      PassResult(gw, current, listed, answers).Some? <==>
        forall i :: 0 <= i < |plan| && plan[i].Some? ==>
          var p := plan[i].value.peer;
          answers(p.id) != Failed && (answers(p.id) == Invalid ==> p.status.summary != Ready)
    ensures (forall id :: answers(id) in {Written, Conflict, NotFound}) ==> PassResult(gw, current, listed, answers).Some?
  {
    PassMarkedRight(gw, current, listed);
  }

  // ---- running a plan in pieces ----

  lemma {:induction false} ApplyConcat(store: Store, a: Plan, b: Plan, answers: Answers)
    ensures Completes(a + b, answers) <==> Completes(a, answers) && Completes(b, answers)
    ensures Completes(a, answers) ==> Apply(store, a + b, answers) == Apply(Apply(store, a, answers), b, answers)
    ensures !Completes(a, answers) ==> Apply(store, a + b, answers) == Apply(store, a, answers)
  {
    CompletesConcat(a, b, answers);
    if b == [] {
      assert a + b == a;
    } else {
      var front := b[..|b| - 1];
      ApplyConcat(store, a, front, answers);
      assert (a + b)[..|a + b| - 1] == a + front;
    }
  }

  lemma CompletesConcat(a: Plan, b: Plan, answers: Answers)
    ensures Completes(a + b, answers) <==> Completes(a, answers) && Completes(b, answers)
  {
    assert forall i :: 0 <= i < |a| ==> (a + b)[i] == a[i];
    assert forall i :: 0 <= i < |b| ==> (a + b)[|a| + i] == b[i];
  }

  /** One more slot of a plan. */
  lemma ApplyStep(store: Store, plan: Plan, i: nat, answers: Answers)
    requires i < |plan|
    ensures Completes(plan[..i + 1], answers) <==> Completes(plan[..i], answers) && SlotCompletes(plan[i], answers)
    ensures Completes(plan[..i], answers) ==>
      Apply(store, plan[..i + 1], answers) == ApplySlot(Apply(store, plan[..i], answers), plan[i], answers)
  {
    assert plan[..i + 1] == plan[..i] + [plan[i]];
    assert plan[..i + 1][..i] == plan[..i];
    CompletesConcat(plan[..i], [plan[i]], answers);
    assert Completes([plan[i]], answers) <==> SlotCompletes([plan[i]][0], answers);
  }

  /** A pass stopped by the answer to its slot k runs exactly the slots before it. */
  lemma ApplyStops(store: Store, plan: Plan, k: nat, answers: Answers)
    requires k <= |plan| && !Completes(plan[..k], answers)
    ensures !Completes(plan, answers)
    ensures Apply(store, plan, answers) == Apply(store, plan[..k], answers)
  {
    assert plan == plan[..k] + plan[k..];
    ApplyConcat(store, plan[..k], plan[k..], answers);
  }

  /** One more grant. */
  lemma GrantsExtend(base: seq<Address>, gs: seq<Grant>, i: nat, answers: Answers)
    requires i < |gs|
    ensures base + FreshAddresses(gs[..i + 1]) ==
      base + FreshAddresses(gs[..i]) + if gs[i].Fresh? then [Ip(gs[i].address)] else []
    ensures AdmittedPeers(gs[..i + 1], answers) == AdmittedPeers(gs[..i], answers) +
      (if AdmittedPeer(gs[i], answers).Some? then [AdmittedPeer(gs[i], answers).value] else [])
  {
    assert gs[..i + 1][..i] == gs[..i];
  }

  /** Peer i is served from what the peers before it left. */
  lemma GrantAt(pool: Prefix, base: seq<Address>, peers: seq<Peer>, i: nat)
    requires i < |peers|
    ensures var gs := Grants(pool, base, peers);
      gs[i] == GrantOf(pool, base + FreshAddresses(gs[..i]), peers[i])
  {
    var gs := Grants(pool, base, peers);
    GrantsPrefix(pool, base, peers, i + 1);
    GrantsPrefix(pool, base, peers, i);
    assert peers[..i + 1][..i] == peers[..i];
    assert gs[..i + 1][i] == gs[i];
  }

  lemma {:induction false} GrantsPrefix(pool: Prefix, base: seq<Address>, peers: seq<Peer>, k: nat)
    requires k <= |peers|
    ensures Grants(pool, base, peers)[..k] == Grants(pool, base, peers[..k])
  {
    if k == |peers| {
      assert peers[..k] == peers;
    } else {
      var front := peers[..|peers| - 1];
      GrantsPrefix(pool, base, front, k);
      assert front[..k] == peers[..k];
    }
  }

  lemma {:induction false} AdmissibleMembers(gw: Spec, peers: seq<Peer>)
    ensures forall p :: p in Admissible(gw, peers) <==>
      p in peers && p.key.Key? && (gw.allowed == FromSame ==> p.id.ns == gw.ns)
  {
    if peers != [] {
      AdmissibleMembers(gw, peers[..|peers| - 1]);
      assert peers == peers[..|peers| - 1] + [peers[|peers| - 1]];
    }
  }

  lemma {:induction false} AdmissibleDistinct(gw: Spec, peers: seq<Peer>)
    requires DistinctIds(peers)
    ensures DistinctIds(Admissible(gw, peers))
    ensures forall p :: p in Admissible(gw, peers) <==> p in peers && AdmissionProblem(gw, p).None?
  {
    if peers != [] {
      var front, p := peers[..|peers| - 1], peers[|peers| - 1];
      AdmissibleDistinct(gw, front);
      assert peers == front + [p];
      assert forall q :: q in front ==> q.id != p.id;
    }
  }

  /** The plan in the order the phases run it. */
  lemma PassInPhases(store: Store, gw: Spec, current: Keys, listed: seq<Peer>, answers: Answers)
    requires Accepted(gw)
    ensures var refusals := Refusals(gw, listed);
      var keyed := Releases(KeyContest(current), KeyLosers(gw, current, listed));
      var addressed := Releases(AddressContest, AddressLosers(gw, current, listed));
      var grants := GrantPlan(gw, current, listed);
      var s1 := Apply(store, refusals, answers);
      var s2 := Apply(s1, keyed, answers);
      var s3 := Apply(s2, addressed, answers);
      var plan := PassPlan(gw, current, listed);
      && (!Completes(refusals, answers) ==> !Completes(plan, answers) && Apply(store, plan, answers) == s1)
      && (Completes(refusals, answers) && !Completes(keyed, answers) ==>
            !Completes(plan, answers) && Apply(store, plan, answers) == s2)
      && (Completes(refusals, answers) && Completes(keyed, answers) && !Completes(addressed, answers) ==>
            !Completes(plan, answers) && Apply(store, plan, answers) == s3)
      && (Completes(refusals, answers) && Completes(keyed, answers) && Completes(addressed, answers) ==>
            && (Completes(plan, answers) <==> Completes(grants, answers))
            && Apply(store, plan, answers) == Apply(s3, grants, answers))
  {
    var refusals := Refusals(gw, listed);
    var keyed := Releases(KeyContest(current), KeyLosers(gw, current, listed));
    var addressed := Releases(AddressContest, AddressLosers(gw, current, listed));
    var grants := GrantPlan(gw, current, listed);
    ApplyConcat(store, refusals, keyed, answers);
    ApplyConcat(store, refusals + keyed, addressed, answers);
    ApplyConcat(store, refusals + keyed + addressed, grants, answers);
  }
}
