/** The sidecar's registration of its pod's WireguardPeer: internal/sidecar/peer.go and runner.step in
    internal/sidecar/sidecar.go, against an API object that other actors may change at any moment and a watch cache
    that may be arbitrarily stale. */
module Registration {
  import opened Sequences
  import opened Peers
  import opened Tunnel

  /** The controller owner reference of an object: none, a v1 Pod, or anything else. */
  datatype Controller = NoController | Pod(uid: nat) | Other(uid: nat)

  /** The WireguardPeer under the pod's name. */
  datatype Object = Object(uid: nat, controller: Controller, key: PublicKey, ref: string, refNs: string, status: Status)

  datatype Config = Config(podUid: nat, key: PublicKey, ref: string, refNs: string)

  datatype Action = ActCreate | ActKeep | ActReplace | ActRefuse

  /** desiredPeer, as the API server stores it under a new UID. */
  function Own(cfg: Config, uid: nat): Object {
    Object(uid, Pod(cfg.podUid), cfg.key, cfg.ref, cfg.refNs, FRESH_STATUS)
  }

  function DecidePeer(existing: Option<Object>, cfg: Config): Action {
    if existing.None? then ActCreate
    else if !existing.value.controller.Pod? then ActRefuse
    else if existing.value.controller.uid != cfg.podUid then ActReplace
    else if existing.value.key != cfg.key || existing.value.ref != cfg.ref || existing.value.refNs != cfg.refNs then ActReplace
    else ActKeep
  }

  /** It is this pod's, with this pod's key and gateway reference. */
  predicate IsOwn(o: Object, cfg: Config) {
    o.controller == Pod(cfg.podUid) && o.key == cfg.key && o.ref == cfg.ref && o.refNs == cfg.refNs
  }

  lemma DecideIff(existing: Option<Object>, cfg: Config)
    ensures DecidePeer(existing, cfg) == ActKeep <==> existing.Some? && IsOwn(existing.value, cfg)
    ensures DecidePeer(existing, cfg) == ActReplace <==>
      existing.Some? && existing.value.controller.Pod? && !IsOwn(existing.value, cfg)
  {
  }

  // ---- the API ----

  /** A delete guarded by a UID: NotFound and Conflict leave the object. */
  function Deleted(live: Option<Object>, uid: nat): Option<Object> {
    if live.Some? && live.value.uid == uid then None else live
  }

  /** A create: AlreadyExists leaves the object. */
  function Created(live: Option<Object>, cfg: Config, uid: nat): Option<Object> {
    if live.None? then Some(Own(cfg, uid)) else live
  }

  // ---- one pass without interference ----

  /** An API error that ensurePeer returns; a write that reports one may still have been done. */
  datatype ApiFault = NoFault | GetFails | DeleteFails(done: bool) | CreateFails(done: bool)

  /** What ensurePeer returns. */
  datatype Result = Kept(peer: Object) | Wrote | Refuses | Errs

  datatype Outcome = Registered | Refused | Errored | Waits | Fails | Applies(tunnel: Tunnel)

  function Creation(live: Option<Object>, cfg: Config, uid: nat, fault: ApiFault): Option<Object> {
    if fault == CreateFails(false) then live else Created(live, cfg, uid)
  }

  function EnsuredPeer(live: Option<Object>, read: Option<Object>, cfg: Config, uid: nat, fault: ApiFault): Option<Object> {
    if fault.GetFails? then live else
    match DecidePeer(read, cfg)
    case ActKeep => live
    case ActRefuse => live
    case ActReplace =>
      if fault.DeleteFails? then if fault.done then Deleted(live, read.value.uid) else live
      else Creation(Deleted(live, read.value.uid), cfg, uid, fault)
    case ActCreate => Creation(live, cfg, uid, fault)
  }

  function EnsureResult(read: Option<Object>, cfg: Config, fault: ApiFault): Result {
    if fault.GetFails? then Errs else
    match DecidePeer(read, cfg)
    case ActKeep => Kept(read.value)
    case ActRefuse => Refuses
    case ActReplace => if fault.NoFault? then Wrote else Errs
    case ActCreate => if fault.CreateFails? then Errs else Wrote
  }

  class Runner {
    var live: Option<Object>  // the API's object under the pod's name
    var applied: Option<Tunnel>  // what the datapath was last given

    constructor (live: Option<Object>)
      ensures this.live == live && applied == None
    {
      this.live, this.applied := live, None;
    }

    /** ensurePeer: it returns the peer that is already this pod's, and only that; whatever else it does, the object
        that was live is gone only if it had the UID of one read as Pod-controlled and not this pod's own. */
    method EnsurePeer(cfg: Config, read: Option<Object>, uid: nat, fault: ApiFault) returns (r: Result)
      modifies this`live
      ensures live == EnsuredPeer(old(live), read, cfg, uid, fault)
      ensures r == EnsureResult(read, cfg, fault)
      ensures r.Kept? <==> !fault.GetFails? && read.Some? && IsOwn(read.value, cfg)
      ensures r.Kept? ==> read == Some(r.peer)
      ensures old(live).Some? && live != old(live) ==>
        read.Some? && read.value.uid == old(live).value.uid && read.value.controller.Pod? && !IsOwn(read.value, cfg)
    {
      if fault.GetFails? {
        return Errs;
      }
      match DecidePeer(read, cfg) {
        case ActKeep =>
          return Kept(read.value);
        case ActRefuse =>
          return Refuses;
        case ActReplace =>
          if fault != DeleteFails(false) && live.Some? && live.value.uid == read.value.uid {
            live := None;
          }
          if fault.DeleteFails? {
            return Errs;
          }
        case ActCreate =>
      }
      if fault != CreateFails(false) && live.None? {
        live := Some(Own(cfg, uid));
      }
      r := if fault.CreateFails? then Errs else Wrote;
    }

    /** step: register, then apply the tunnel once the operator has published all of it. */
    method Step(cfg: Config, read: Option<Object>, uid: nat, fault: ApiFault) returns (outcome: Outcome)
      modifies this
      ensures live == EnsuredPeer(old(live), read, cfg, uid, fault)
      ensures outcome.Applies? <==>
        !fault.GetFails? && read.Some? && IsOwn(read.value, cfg) && DesiredTunnel(read.value.status).Configured?
      ensures outcome.Applies? ==> outcome.tunnel == DesiredTunnel(read.value.status).tunnel && applied == Some(outcome.tunnel)
      ensures !outcome.Applies? ==> applied == old(applied)
      ensures outcome == Refused <==> !fault.GetFails? && read.Some? && !read.value.controller.Pod?
    {
      var r := EnsurePeer(cfg, read, uid, fault);
      match r {
        case Errs => outcome := Errored;
        case Refuses => outcome := Refused;
        case Wrote => outcome := Registered;
        case Kept(peer) =>
          match DesiredTunnel(peer.status) {
            case Waiting => outcome := Waits;
            case Unusable => outcome := Fails;
            case Configured(t) =>
              applied := Some(t);
              outcome := Applies(t);
          }
      }
    }
  }

  /** With fresh reads and no interference, a store that is not refused holds this pod's object after one step; every
      later step keeps it and writes nothing, whatever errors it would have met. */
  lemma RegistersByTheSecondStep(live: Option<Object>, cfg: Config, uid: nat, uid': nat, fault: ApiFault)
    requires DecidePeer(live, cfg) != ActRefuse
    ensures var after := EnsuredPeer(live, live, cfg, uid, NoFault);
      && after.Some? && IsOwn(after.value, cfg)
      && DecidePeer(after, cfg) == ActKeep
      && EnsuredPeer(after, after, cfg, uid', fault) == after
  {
  }

  // ---- runs with interference and stale reads ----

  /** Where the sidecar is inside a pass. */
  datatype Stage = Idle | Deleting(seen: Object) | Creating

  /** The API object, everything that was ever live under this name, everything the sidecar has read, its stage, and a
      log of what it deleted and of the objects it configured its tunnel from. */
  datatype World = World(
    live: Option<Object>,
    past: set<Object>,
    read: set<Object>,
    stage: Stage,
    deleted: seq<Object>,
    sources: seq<Object>)

  datatype Event =
    | Interfere(next: Option<Object>)  // any other actor creates, edits or deletes the object
    | Read(seen: Option<Object>)       // the sidecar starts a pass from its cache
    | SendDelete                       // the guarded delete reaches the API
    | SendCreate(uid: nat)             // the create reaches the API
    | Fail                             // the pass ends on any other error

  function Remember(past: set<Object>, o: Option<Object>): set<Object> {
    if o.Some? then past + {o.value} else past
  }

  function Next(w: World, cfg: Config, e: Event): World {
    match e
    case Interfere(next) => w.(live := next, past := Remember(w.past, next))
    case Read(seen) =>
      if !w.stage.Idle? then w else
      var w' := w.(read := Remember(w.read, seen));
      (match DecidePeer(seen, cfg)
       case ActKeep => w'.(sources := w.sources + [seen.value])
       case ActRefuse => w'
       case ActReplace => w'.(stage := Deleting(seen.value))
       case ActCreate => w'.(stage := Creating))
    case SendDelete =>
      if !w.stage.Deleting? then w
      else if Deleted(w.live, w.stage.seen.uid) == w.live then w.(stage := Creating)
      else w.(live := None, stage := Creating, deleted := w.deleted + [w.live.value])
    case SendCreate(uid) =>
      if !w.stage.Creating? then w else
      var next := Created(w.live, cfg, uid);
      w.(live := next, past := Remember(w.past, next), stage := Idle)
    case Fail => w.(stage := Idle)
  }

  function Run(w: World, cfg: Config, events: seq<Event>): World {
    if events == [] then w else Next(Run(w, cfg, events[..|events| - 1]), cfg, events[|events| - 1])
  }

  /** The events of one call of ensurePeer that nobody interferes with. */
  function PassEvents(read: Option<Object>, cfg: Config, uid: nat, fault: ApiFault): seq<Event> {
    if fault.GetFails? then [Fail] else
    [Read(read)] +
    match DecidePeer(read, cfg)
    case ActKeep => []
    case ActRefuse => []
    case ActReplace =>
      if fault.DeleteFails? then if fault.done then [SendDelete, Fail] else [Fail]
      else [SendDelete] + CreateEvents(uid, fault)
    case ActCreate => CreateEvents(uid, fault)
  }

  function CreateEvents(uid: nat, fault: ApiFault): seq<Event> {
    if fault == CreateFails(false) then [Fail] else [SendCreate(uid)]
  }

  lemma {:induction false} RunConcat(w: World, cfg: Config, a: seq<Event>, b: seq<Event>)
    ensures Run(w, cfg, a + b) == Run(Run(w, cfg, a), cfg, b)
  {
    if b == [] {
      assert a + b == a;
    } else {
      RunConcat(w, cfg, a, b[..|b| - 1]);
      assert (a + b)[..|a + b| - 1] == a + b[..|b| - 1];
    }
  }

  lemma RunOne(w: World, cfg: Config, e: Event, rest: seq<Event>)
    ensures Run(w, cfg, [e] + rest) == Run(Next(w, cfg, e), cfg, rest)
  {
    RunConcat(w, cfg, [e], rest);
    assert [e][..0] == [] && Run(w, cfg, []) == w;
  }

  lemma CreateIsRun(w: World, cfg: Config, uid: nat, fault: ApiFault)
    requires w.stage.Creating?
    ensures var w' := Run(w, cfg, CreateEvents(uid, fault));
      w'.stage.Idle? && w'.live == Creation(w.live, cfg, uid, fault)
  {
    var e := CreateEvents(uid, fault)[0];
    RunOne(w, cfg, e, []);
    assert CreateEvents(uid, fault) == [e] + [];
  }

  lemma ReplaceIsRun(w: World, cfg: Config, uid: nat, fault: ApiFault)
    requires w.stage.Deleting?
    ensures var w' := Run(w, cfg, [SendDelete] + CreateEvents(uid, fault));
      w'.stage.Idle? && w'.live == Creation(Deleted(w.live, w.stage.seen.uid), cfg, uid, fault)
  {
    RunOne(w, cfg, SendDelete, CreateEvents(uid, fault));
    CreateIsRun(Next(w, cfg, SendDelete), cfg, uid, fault);
  }

  lemma FailedDeleteIsRun(w: World, cfg: Config, done: bool)
    requires w.stage.Deleting?
    ensures var w' := Run(w, cfg, if done then [SendDelete, Fail] else [Fail]);
      w'.stage.Idle? && w'.live == if done then Deleted(w.live, w.stage.seen.uid) else w.live
  {
    RunOne(w, cfg, SendDelete, [Fail]);
    RunOne(Next(w, cfg, SendDelete), cfg, Fail, []);
    RunOne(w, cfg, Fail, []);
    assert [SendDelete] + [Fail] == [SendDelete, Fail] && [Fail] + [] == [Fail];
  }

  /** The machine is ensurePeer: without interference a pass ends idle, with the object the method leaves. */
  lemma PassIsEnsurePeer(w: World, cfg: Config, read: Option<Object>, uid: nat, fault: ApiFault)
    requires w.stage.Idle?
    ensures var w' := Run(w, cfg, PassEvents(read, cfg, uid, fault));
      w'.stage.Idle? && w'.live == EnsuredPeer(w.live, read, cfg, uid, fault)
  {
    var events := PassEvents(read, cfg, uid, fault);
    assert events == [events[0]] + events[1..];
    RunOne(w, cfg, events[0], events[1..]);
    var w1 := Next(w, cfg, events[0]);
    if !fault.GetFails? {
      match DecidePeer(read, cfg) {
        case ActReplace =>
          if fault.DeleteFails? {
            FailedDeleteIsRun(w1, cfg, fault.done);
          } else {
            ReplaceIsRun(w1, cfg, uid, fault);
          }
        case ActCreate => CreateIsRun(w1, cfg, uid, fault);
        case _ =>
      }
    }
  }

  /** Every object the sidecar deleted had, when it was deleted, the UID of one it had read as controlled by a Pod, and
      every object it configured its tunnel from was read with its own pod UID, key and gateway reference. */
  ghost predicate Lawful(w: World, cfg: Config) {
    && (forall d :: d in w.deleted ==> exists o :: o in w.read && o.uid == d.uid && o.controller.Pod?)
    && (forall o :: o in w.sources ==> o in w.read && IsOwn(o, cfg))
    && (w.stage.Deleting? ==> w.stage.seen in w.read && w.stage.seen.controller.Pod?)
  }

  lemma NextStaysLawful(w: World, cfg: Config, e: Event)
    requires Lawful(w, cfg)
    ensures Lawful(Next(w, cfg, e), cfg)
  {
    var next := Next(w, cfg, e);
    assert w.read <= next.read;
    forall d | d in next.deleted
      ensures exists o :: o in next.read && o.uid == d.uid && o.controller.Pod?
    {
      if d in w.deleted {
        var o :| o in w.read && o.uid == d.uid && o.controller.Pod?;
        assert o in next.read;
      } else {
        assert w.stage.seen in next.read && w.stage.seen.uid == d.uid;
      }
    }
  }

  /** Over every interleaving with other actors, and whatever the reads showed. */
  lemma {:induction false} RegistrationIsLawful(w: World, cfg: Config, events: seq<Event>)
    requires Lawful(w, cfg)
    ensures Lawful(Run(w, cfg, events), cfg)
  {
    if events != [] {
      var front := events[..|events| - 1];
      RegistrationIsLawful(w, cfg, front);
      NextStaysLawful(Run(w, cfg, front), cfg, events[|events| - 1]);
    }
  }

  /** A cache may be stale but never invents: what it shows was live at some time. */
  ghost predicate Honest(w: World, cfg: Config, events: seq<Event>) {
    forall i :: 0 <= i < |events| && events[i].Read? && events[i].seen.Some? ==>
      events[i].seen.value in Run(w, cfg, events[..i]).past
  }

  lemma {:induction false} ReadsAreHonest(w: World, cfg: Config, events: seq<Event>)
    requires w.read <= w.past && Honest(w, cfg, events)
    ensures Run(w, cfg, events).read <= Run(w, cfg, events).past
  {
    if events != [] {
      var front := events[..|events| - 1];
      assert forall i :: 0 <= i < |front| ==> front[..i] == events[..i] && front[i] == events[i];
      ReadsAreHonest(w, cfg, front);
      assert events[|events| - 1] == events[|front|] && events[..|front|] == front;
    }
  }

  /** In particular, with a cache that never invents, an object that no Pod ever controlled is never deleted. */
  lemma ForeignObjectsSurvive(w: World, cfg: Config, events: seq<Event>, uid: nat)
    requires Lawful(w, cfg) && w.read <= w.past && Honest(w, cfg, events)
    requires forall o :: o in Run(w, cfg, events).past && o.uid == uid ==> !o.controller.Pod?
    ensures forall d :: d in Run(w, cfg, events).deleted ==> d.uid != uid
  {
    RegistrationIsLawful(w, cfg, events);
    ReadsAreHonest(w, cfg, events);
  }
}
