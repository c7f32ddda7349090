/** The operator as it runs: the reconcile of one gateway over the API store, its methods proved against the
    plan of module Pass, and the cluster as a state machine whose events are reconciles and user edits
    (internal/controller/wireguard_controller.go). */
module Operator {
  import opened Sequences
  import opened Ipv4
  import opened Ipam
  import opened Gateway
  import opened Peers
  import opened StateJson
  import opened Pass

  /** The peers of one gateway, as stored, and the gateway's Secret. */
  datatype Cluster = Cluster(peers: Store, secret: Option<Secret>)

  /** Everything one reconcile meets that the operator does not decide: whether spec.gluetun's environment passes
      specProblem's last checks, the Service address, whether the Secret could be read and what admittedKeys read, the
      peers the list returned (fresh or stale), the answers to the status writes, the Secret found after the pass, the
      key pair it would generate, whether nothing stopped it from storing the rendered state, whether the Deployment
      could be applied, and the answers to the identity writes. Both reads of the Secret go through a cache. */
  datatype World = World(
    envAllowed: bool,
    clusterIP: Address,
    readable: bool,
    earlier: Option<Secret>,
    listed: seq<Peer>,
    answers: Answers,
    found: Option<Secret>,
    generated: Secret,
    stored: bool,
    deployed: bool,
    again: Answers)

  // ---- specification ----

  predicate CarriesIdentity(gw: Spec, host: Address, serverKey: PublicKey, p: Peer) {
    && p.status.endpoint == Host(host)
    && p.status.serverKey == serverKey
    && p.status.localCIDRs == gw.localCIDRs
  }

  function WithIdentity(gw: Spec, host: Address, serverKey: PublicKey, p: Peer): Peer {
    p.(status := p.status.(endpoint := Host(host), serverKey := serverKey, localCIDRs := gw.localCIDRs))
  }

  function IdentityWrite(gw: Spec, host: Address, serverKey: PublicKey, p: Peer): Option<Write> {
    if CarriesIdentity(gw, host, serverKey, p) then None else Some(Write(WithIdentity(gw, host, serverKey, p), true))
  }

  /** syncPeerIdentity's writes, one slot per admitted peer. */
  function IdentityPlan(gw: Spec, host: Address, serverKey: PublicKey, admitted: seq<Peer>): Plan {
    seq(|admitted|, i requires 0 <= i < |admitted| => IdentityWrite(gw, host, serverKey, admitted[i]))
  }

  function StateOf(gw: Spec, secret: Secret, admitted: seq<Peer>): Secret {
    secret.(state := Some(Render(gw, secret.privateKey, admitted)))
  }

  predicate Proceeds(gw: Spec, w: World) {
    Accepted(gw) && w.envAllowed && ClusterIPInside(w.clusterIP, gw.localCIDRs) && w.readable
  }

  /** One reconcile: a spec or a Service address the operator rejects, and an unreadable Secret, change
      nothing; an aborted pass keeps the writes made so far; a Secret that had to be created ends it, and a create over
      one that is there after all, or an update of one that is gone, fails. A state equal to the one found is not
      written. */
  ghost function Reconciled(c: Cluster, gw: Spec, w: World): Cluster {
    if !Proceeds(gw, w) then c else
    var current := ServedKeys(w.earlier);
    var peers := PassStore(c.peers, gw, current, w.listed, w.answers);
    var admitted := PassResult(gw, current, w.listed, w.answers);
    if admitted.None? || !w.stored then Cluster(peers, c.secret)
    else if w.found.None? then
      Cluster(peers, if c.secret.None? then Some(StateOf(gw, w.generated, admitted.value)) else c.secret)
    else
      var secret := StateOf(gw, w.found.value, admitted.value);
      if secret != w.found.value && c.secret.None? then Cluster(peers, None)
      else
        var stored := if secret == w.found.value then c.secret else Some(secret);
        if !w.deployed then Cluster(peers, stored)
        else Cluster(Apply(peers, IdentityPlan(gw, w.clusterIP, secret.publicKey, admitted.value), w.again), stored)
  }

  /** What happens to the peers of a gateway: the operator reconciles under some spec, and users create,
      re-key and delete peers. A created object has no status; an edit moves its generation. */
  datatype Event =
    | Reconcile(gw: Spec, world: World)
    | Create(peer: Peer)
    | EditKey(id: PeerId, key: PublicKey)
    | Delete(id: PeerId)

  ghost function Step(c: Cluster, e: Event): Cluster {
    match e
    case Reconcile(gw, w) => Reconciled(c, gw, w)
    case Create(p) => if p.id in c.peers then c else c.(peers := c.peers[p.id := p.(status := FRESH_STATUS)])
    case EditKey(id, key) =>
      if id !in c.peers then c else
      var p := c.peers[id];
      c.(peers := c.peers[id := p.(key := key, generation := p.generation + 1)])
    case Delete(id) => c.(peers := c.peers - {id})
  }

  ghost function Run(c: Cluster, events: seq<Event>): Cluster {
    if events == [] then c else Step(Run(c, events[..|events| - 1]), events[|events| - 1])
  }

  /** What the API guarantees of any event: a list has no object twice, a generated key has 44 characters. */
  ghost predicate Possible(e: Event) {
    e.Reconcile? ==> DistinctIds(e.world.listed) && |e.world.generated.privateKey| == 44
  }

  // ---- the reconciler's methods ----

  class Reconciler {
    var peers: Store
    var secret: Option<Secret>

    constructor (peers: Store, secret: Option<Secret>)
      ensures this.peers == peers && this.secret == secret
    {
      this.peers, this.secret := peers, secret;
    }

    /** A status write. It returns the error that is neither nil nor skipped, if any. */
    method UpdateStatus(w: Write, answers: Answers) returns (ok: bool)
      modifies this`peers
      ensures peers == ApplySlot(old(peers), Some(w), answers)
      ensures ok == SlotCompletes(Some(w), answers)
      ensures ok <==> answers(w.peer.id) != Failed && !(answers(w.peer.id) == Invalid && w.readying)
      ensures peers ==
        if answers(w.peer.id) == Written && w.peer.id in old(peers)
        then old(peers)[w.peer.id := old(peers)[w.peer.id].(status := w.peer.status)] else old(peers)
    {
      var answer := answers(w.peer.id);
      if answer == Written {
        peers := Put(peers, w.peer);
      }
      ok := !Fatal(w, answer);
    }

    method MarkPeerNotReady(p: Peer, nr: NotReady, answers: Answers) returns (ok: bool)
      modifies this`peers
      ensures peers == ApplySlot(old(peers), NotReadyWrite(p, nr), answers)
      ensures ok == SlotCompletes(NotReadyWrite(p, nr), answers)
      ensures ok <==> Records(p, nr) || answers(p.id) != Failed
    {
      ok := true;
      if !Records(p, nr) {
        ok := UpdateStatus(Write(MarkNotReady(p, nr), false), answers);
      }
    }

    method AdmitPeers(gw: Spec, listed: seq<Peer>, answers: Answers) returns (ok: bool, admitted: seq<Peer>)
      modifies this`peers
      ensures peers == Apply(old(peers), Refusals(gw, listed), answers)
      ensures ok == Completes(Refusals(gw, listed), answers)
      ensures ok ==> admitted == Admissible(gw, listed)
      ensures ok ==> forall p :: p in admitted <==>
        p in listed && p.key.Key? && (gw.allowed == FromSame ==> p.id.ns == gw.ns)
    {
      admitted := [];
      ghost var plan := Refusals(gw, listed);
      for i := 0 to |listed|
        invariant peers == Apply(old(peers), plan[..i], answers) && Completes(plan[..i], answers)
        invariant admitted == Admissible(gw, listed[..i])
      {
        assert listed[..i + 1][..i] == listed[..i];
        ApplyStep(old(peers), plan, i, answers);
        var problem := AdmissionProblem(gw, listed[i]);
        if problem.None? {
          admitted := admitted + [listed[i]];
        } else {
          ok := MarkPeerNotReady(listed[i], problem.value, answers);
          if !ok {
            ApplyStops(old(peers), plan, i + 1, answers);
            return;
          }
        }
      }
      assert plan[..|listed|] == plan && listed[..|listed|] == listed;
      AdmissibleMembers(gw, listed);
      ok := true;
    }

    method ReleaseLosers(c: Contest, losers: seq<Loser>, answers: Answers) returns (ok: bool)
      modifies this`peers
      ensures peers == Apply(old(peers), Releases(c, losers), answers)
      ensures ok == Completes(Releases(c, losers), answers)
    {
      ghost var plan := Releases(c, losers);
      for i := 0 to |losers|
        invariant peers == Apply(old(peers), plan[..i], answers) && Completes(plan[..i], answers)
      {
        ApplyStep(old(peers), plan, i, answers);
        ok := MarkPeerNotReady(losers[i].peer, ConflictRecord(c, losers[i]), answers);
        if !ok {
          ApplyStops(old(peers), plan, i + 1, answers);
          return;
        }
      }
      assert plan[..|losers|] == plan;
      ok := true;
    }

    /** The loop that treats an unusable address as none. */
    method ClearAddresses(pool: Prefix, admitted: seq<Peer>) returns (cleared: seq<Peer>)
      ensures cleared == ClearAll(pool, admitted)
    {
      cleared := [];
      for i := 0 to |admitted|
        invariant cleared == ClearAll(pool, admitted[..i])
      {
        var p := admitted[i];
        if p.status.address != Unset && !AddressUsable(p.status.address, pool) {
          p := p.(status := p.status.(address := Unset));
        }
        cleared := cleared + [p];
      }
      assert admitted[..|admitted|] == admitted;
    }

    method AllocatePeers(pool: Prefix, keep: seq<Peer>, answers: Answers) returns (ok: bool, served: seq<Peer>)
      modifies this`peers
      ensures var gs := Grants(pool, Used(pool, Addresses(keep)), keep);
        && peers == Apply(old(peers), GrantWrites(pool, gs), answers)
        && ok == Completes(GrantWrites(pool, gs), answers)
        && (ok ==> served == AdmittedPeers(gs, answers))
    {
      var used := GetUsedIPs(pool, Addresses(keep));
      ghost var base := used;
      ghost var gs := Grants(pool, base, keep);
      ghost var plan := GrantWrites(pool, gs);
      served := [];
      for i := 0 to |keep|
        invariant used == base + FreshAddresses(gs[..i])
        invariant peers == Apply(old(peers), plan[..i], answers) && Completes(plan[..i], answers)
        invariant served == AdmittedPeers(gs[..i], answers)
      {
        GrantAt(pool, base, keep, i);
        ApplyStep(old(peers), plan, i, answers);
        GrantsExtend(base, gs, i, answers);
        var one: Option<Peer>;
        var stopped: bool;
        assert plan[i] == GrantWrite(pool, GrantOf(pool, used, keep[i]));
        stopped, one, used := AllocatePeer(pool, used, keep[i], answers);
        if stopped {
          ApplyStops(old(peers), plan, i + 1, answers);
          ok := false;
          return;
        }
        if one.Some? {
          served := served + [one.value];
        }
      }
      assert plan[..|keep|] == plan && gs[..|keep|] == gs && keep[..|keep|] == keep;
      ok := true;
    }

    /** One iteration of allocatePeers. */
    method AllocatePeer(pool: Prefix, used: seq<Address>, keep: Peer, answers: Answers)
      returns (stopped: bool, served: Option<Peer>, used': seq<Address>)
      modifies this`peers
      ensures var g := GrantOf(pool, used, keep);
        && peers == ApplySlot(old(peers), GrantWrite(pool, g), answers)
        && stopped == !SlotCompletes(GrantWrite(pool, g), answers)
        && (!stopped ==> served == AdmittedPeer(g, answers))
        && used' == used + if g.Fresh? then [Ip(g.address)] else []
      ensures var isNew, full := keep.status.address == Unset, LeastFree(pool, used).None?;
        stopped <==>
          if isNew && full then !Records(keep, AddressPoolExhausted(pool)) && answers(keep.id) == Failed
          else (isNew || keep.status.summary != Ready || keep.status.ready.Some?) && answers(keep.id) in {Failed, Invalid}
    {
      var peer := keep;
      used', served, stopped := used, None, false;
      var isNew := peer.status.address == Unset;
      if isNew {
        var ip := AllocateIP(pool, used);
        if ip.None? {
          var ok := MarkPeerNotReady(peer, AddressPoolExhausted(pool), answers);
          stopped := !ok;
          return;
        }
        peer := peer.(status := peer.status.(address := Ip(ip.value)));
        used' := used + [Ip(ip.value)];
      } else if peer.status.summary == Ready && peer.status.ready.None? {
        served := Some(peer);
        return;
      }
      peer := peer.(status := peer.status.(summary := Ready, message := Configured, ready := None));
      var ok := UpdateStatus(Write(peer, true), answers);
      stopped := !ok;
      if ok && (answers(peer.id) == Written || !isNew) {
        served := Some(peer);
      }
    }

    method ReconcilePeers(gw: Spec, current: Keys, listed: seq<Peer>, answers: Answers)
      returns (admitted: Option<seq<Peer>>)
      requires Accepted(gw) && DistinctIds(listed)
      modifies this`peers
      ensures peers == PassStore(old(peers), gw, current, listed, answers)
      ensures admitted == PassResult(gw, current, listed, answers)
    {
      PassInPhases(old(peers), gw, current, listed, answers);

      admitted := None;
      var ok, admissible := AdmitPeers(gw, listed, answers);
      if !ok { return; }
      AdmissibleDistinct(gw, listed);
      var survivors, keyLosers := Dedupe(KeyContest(current), admissible);
      ok := ReleaseLosers(KeyContest(current), keyLosers, answers);
      if !ok { return; }
      KeepersDistinct(KeyContest(current), admissible, admissible);
      var candidates := ClearAddresses(Pool(gw), survivors);
      var keep, losers := Dedupe(AddressContest, candidates);
      ok := ReleaseLosers(AddressContest, losers, answers);
      if !ok { return; }
      var served;
      ok, served := AllocatePeers(Pool(gw), keep, answers);
      if ok {
        admitted := Some(served);
      }
    }

    method SyncPeerIdentity(gw: Spec, host: Address, serverKey: PublicKey, admitted: seq<Peer>, answers: Answers)
      modifies this`peers
      ensures peers == Apply(old(peers), IdentityPlan(gw, host, serverKey, admitted), answers)
    {
      ghost var plan := IdentityPlan(gw, host, serverKey, admitted);
      for i := 0 to |admitted|
        invariant peers == Apply(old(peers), plan[..i], answers) && Completes(plan[..i], answers)
      {
        ApplyStep(old(peers), plan, i, answers);
        assert plan[i] == IdentityWrite(gw, host, serverKey, admitted[i]);
        if !CarriesIdentity(gw, host, serverKey, admitted[i]) {
          var ok := UpdateStatus(Write(WithIdentity(gw, host, serverKey, admitted[i]), true), answers);
          if !ok {
            ApplyStops(old(peers), plan, i + 1, answers);
            return;
          }
        }
      }
      assert plan[..|admitted|] == plan;
    }

    method Reconcile(gw: Spec, w: World)
      requires DistinctIds(w.listed)
      modifies this
      ensures Cluster(peers, secret) == Reconciled(Cluster(old(peers), old(secret)), gw, w)
    {
      if SpecProblem(gw).Some? || !w.envAllowed || !ClusterIPInside(w.clusterIP, gw.localCIDRs) || !w.readable {
        return;
      }
      var current := AdmittedKeys(w.earlier);
      var admitted := ReconcilePeers(gw, current, w.listed, w.answers);
      if admitted.None? || !w.stored {
        return;
      }
      if w.found.None? {
        var state := DesiredState(gw, w.generated.privateKey, admitted.value);
        if secret.None? {
          secret := Some(w.generated.(state := Some(state)));
        }
        return;
      }
      var found := w.found.value;
      var state := DesiredState(gw, found.privateKey, admitted.value);
      if Some(state) != found.state {
        if secret.None? {
          return;
        }
        secret := Some(found.(state := Some(state)));
      }
      if w.deployed {
        SyncPeerIdentity(gw, w.clusterIP, found.publicKey, admitted.value, w.again);
      }
    }
  }
}
