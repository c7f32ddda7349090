/** WireguardPeer objects, their admission, and the two conflicts the operator resolves between them:
    internal/controller/peers.go. */
module Peers {
  import opened Sequences
  import opened Ipv4
  import opened Gateway

  /** A namespace/name. */
  datatype PeerId = PeerId(name: string, ns: string)

  /** By name, then by namespace. */
  predicate IdLess(a: PeerId, b: PeerId) {
    StringLess(a.name, b.name) || (a.name == b.name && StringLess(a.ns, b.ns))
  }

  /** spec.publicKey: empty, a canonical WireGuard key, or any other text. */
  datatype PublicKey = NoKey | Key(key: nat) | BadKey(text: string)

  /** The not-ready records the operator writes; each determines its texts and its condition reason. */
  datatype NotReady =
    | PublicKeyMissing
    | InvalidPublicKey
    | NamespaceNotAllowed(gateway: PeerId)
    | PublicKeyConflict(winner: PeerId)
    | AddressConflict(address: Address, winner: PeerId)
    | AddressPoolExhausted(pool: Prefix)

  datatype Summary = Blank | Ready | Pending | Error | OtherSummary(text: string)

  datatype Message = Configured | Because(cause: NotReady) | OtherMessage(text: string)

  /** The Ready condition: whether its status is False, its reason and message, its observed generation. */
  datatype Condition = Condition(isFalse: bool, message: Message, observed: nat)

  /** The host of status.endpoint; the port is constant. */
  datatype Endpoint = NoEndpoint | Host(host: Address)

  datatype Status = Status(
    summary: Summary,
    message: Message,
    address: Address,
    endpoint: Endpoint,
    serverKey: PublicKey,
    localCIDRs: seq<Cidr>,
    ready: Option<Condition>)

  datatype Peer = Peer(id: PeerId, created: int, generation: nat, key: PublicKey, status: Status)

  const FRESH_STATUS := Status(Blank, OtherMessage(""), Unset, NoEndpoint, NoKey, [], None)

  ghost predicate DistinctIds(peers: seq<Peer>) {
    forall i, j :: 0 <= i < j < |peers| ==> peers[i].id != peers[j].id
  }

  lemma IdsIdentify(peers: seq<Peer>)
    requires DistinctIds(peers)
    ensures forall p, q :: p in peers && q in peers && p.id == q.id ==> p == q
  {
  }

  // ---- admission ----

  /** namespaceNotAllowed, then admissionProblem. */
  function AdmissionProblem(gw: Spec, p: Peer): Option<NotReady> {
    if gw.allowed == FromSame && p.id.ns != gw.ns then Some(NamespaceNotAllowed(PeerId(gw.name, gw.ns)))
    else match p.key
      case NoKey => Some(PublicKeyMissing)
      case BadKey(_) => Some(InvalidPublicKey)
      case Key(_) => None
  }

  /** namespaceNotAllowed and invalidPublicKey are errors; every other record is pending. */
  function SummaryOf(nr: NotReady): Summary {
    if nr.InvalidPublicKey? || nr.NamespaceNotAllowed? then Error else Pending
  }

  /** peerStatusMatches: p already records nr. */
  predicate Records(p: Peer, nr: NotReady) {
    && p.status.summary == SummaryOf(nr)
    && p.status.address == Unset
    && p.status.endpoint == NoEndpoint
    && p.status.serverKey == NoKey
    && p.status.localCIDRs == []
    && p.status.message == Because(nr)
    && p.status.ready == Some(Condition(true, Because(nr), p.generation))
  }

  /** The object markPeerNotReady writes. */
  function MarkNotReady(p: Peer, nr: NotReady): (q: Peer)
    ensures Records(q, nr)
  {
    p.(status := Status(SummaryOf(nr), Because(nr), Unset, NoEndpoint, NoKey, [],
                        Some(Condition(true, Because(nr), p.generation))))
  }

  // ---- conflicts ----

  /** What two peers may contend for: a public key, with the keys the current state.json lists, or an
      address. */
  datatype Contest = KeyContest(current: map<PeerId, PublicKey>) | AddressContest

  datatype Value = Nothing | KeyValue(key: PublicKey) | AddressValue(address: Address)

  datatype Loser = Loser(peer: Peer, winner: PeerId)

  function ValueOf(c: Contest, p: Peer): Value {
    match c
    case KeyContest(_) => if p.key == NoKey then Nothing else KeyValue(p.key)
    case AddressContest => if p.status.address == Unset then Nothing else AddressValue(p.status.address)
  }

  predicate Older(a: Peer, b: Peer) {
    a.created < b.created || (a.created == b.created && IdLess(a.id, b.id))
  }

  /** The current state lists p under its key; a missing entry reads as the empty key. */
  predicate Listed(current: map<PeerId, PublicKey>, p: Peer) {
    (if p.id in current then current[p.id] else NoKey) == p.key
  }

  predicate Beats(c: Contest, a: Peer, b: Peer) {
    match c
    case KeyContest(current) =>
      if Listed(current, a) != Listed(current, b) then Listed(current, a) else Older(a, b)
    case AddressContest => Older(a, b)
  }

  /** The holder of v among pool, as the first loop of the dedupe functions computes it. */
  function Best(c: Contest, pool: seq<Peer>, v: Value): Option<Peer> {
    if pool == [] then None else
    var best := Best(c, pool[..|pool| - 1], v);
    var p := pool[|pool| - 1];
    if ValueOf(c, p) == v && (best.None? || Beats(c, p, best.value)) then Some(p) else best
  }

  predicate Wins(c: Contest, pool: seq<Peer>, p: Peer) {
    ValueOf(c, p) == Nothing || Best(c, pool, ValueOf(c, p)) in {None, Some(p)}
  }

  /** The peers of some prefix of pool that keep their value, in order. */
  function Keepers(c: Contest, pool: seq<Peer>, peers: seq<Peer>): seq<Peer> {
    if peers == [] then [] else
    var p := peers[|peers| - 1];
    Keepers(c, pool, peers[..|peers| - 1]) + if Wins(c, pool, p) then [p] else []
  }

  /** The peers that must give their value up, each with the holder's namespace/name. */
  function Losers(c: Contest, pool: seq<Peer>, peers: seq<Peer>): seq<Loser> {
    if peers == [] then [] else
    var p := peers[|peers| - 1];
    Losers(c, pool, peers[..|peers| - 1]) +
    if Wins(c, pool, p) then [] else [Loser(p, Best(c, pool, ValueOf(c, p)).value.id)]
  }

  /** dedupePublicKeys and dedupeAddresses: one loop records the holder of each value, a second one splits
      the peers. The source compares references to elements; here holder maps a value to an index. */
  method Dedupe(c: Contest, peers: seq<Peer>) returns (keep: seq<Peer>, losers: seq<Loser>)
    requires DistinctIds(peers)
    ensures keep == Keepers(c, peers, peers)
    ensures losers == Losers(c, peers, peers)
  {
    var holder := RecordHolders(c, peers);
    keep, losers := [], [];
    for i := 0 to |peers|
      invariant keep == Keepers(c, peers, peers[..i])
      invariant losers == Losers(c, peers, peers[..i])
    {
      assert peers[..i + 1][..i] == peers[..i];
      var v := ValueOf(c, peers[i]);
      if v !in holder || holder[v] == i {
        keep := keep + [peers[i]];
      } else {
        losers := losers + [Loser(peers[i], peers[holder[v]].id)];
      }
    }
    assert peers[..|peers|] == peers;
  }

  /** The first loop: holder maps each contested value to the index of its best contender. */
  method RecordHolders(c: Contest, peers: seq<Peer>) returns (holder: map<Value, nat>)
    ensures forall v :: v in holder ==> v != Nothing && holder[v] < |peers|
    ensures forall v :: v != Nothing ==>
      Best(c, peers, v) == if v in holder then Some(peers[holder[v]]) else None
  {
    holder := map[];
    for i := 0 to |peers|
      invariant forall v :: v in holder ==> v != Nothing && holder[v] < i
      invariant forall v :: v != Nothing ==>
        Best(c, peers[..i], v) == if v in holder then Some(peers[holder[v]]) else None
    {
      assert peers[..i + 1][..i] == peers[..i];
      var v := ValueOf(c, peers[i]);
      if v != Nothing && (v !in holder || Beats(c, peers[i], peers[holder[v]])) {
        holder := holder[v := i];
      }
    }
    assert peers[..|peers|] == peers;
  }

  // ---- the two relations are strict total orders ----

  lemma IdLessStrictTotal(a: PeerId, b: PeerId)
    ensures !(IdLess(a, b) && IdLess(b, a))
    ensures a == b || IdLess(a, b) || IdLess(b, a)
  {
    StringLessTotal(a.name, b.name);
    StringLessTotal(a.ns, b.ns);
    if StringLess(a.name, b.name) { StringLessAsymmetric(a.name, b.name); }
    if StringLess(b.name, a.name) { StringLessAsymmetric(b.name, a.name); }
    if StringLess(a.ns, b.ns) { StringLessAsymmetric(a.ns, b.ns); }
  }

  lemma IdLessTransitive(a: PeerId, b: PeerId, d: PeerId)
    requires IdLess(a, b) && IdLess(b, d)
    ensures IdLess(a, d)
  {
    if StringLess(a.name, b.name) && StringLess(b.name, d.name) {
      StringLessTransitive(a.name, b.name, d.name);
    } else if a.name == b.name == d.name {
      StringLessTransitive(a.ns, b.ns, d.ns);
    }
  }

  /** Both orders that decide a contest are strict and total on peers with distinct namespace/name. */
  lemma BeatsStrictTotal(c: Contest, a: Peer, b: Peer)
    ensures !(Beats(c, a, b) && Beats(c, b, a))
    ensures a.id != b.id ==> Beats(c, a, b) || Beats(c, b, a)
  {
    IdLessStrictTotal(a.id, b.id);
  }

  lemma BeatsTransitive(c: Contest, a: Peer, b: Peer, d: Peer)
    requires Beats(c, a, b) && Beats(c, b, d)
    ensures Beats(c, a, d)
  {
    if IdLess(a.id, b.id) && IdLess(b.id, d.id) {
      IdLessTransitive(a.id, b.id, d.id);
    }
  }

  // ---- the holder is the unique best contender ----

  /** h holds v in pool: it has the value and beats every other peer that has it. */
  ghost predicate Holds(c: Contest, pool: seq<Peer>, v: Value, h: Peer) {
    h in pool && ValueOf(c, h) == v && forall q :: q in pool && ValueOf(c, q) == v && q != h ==> Beats(c, h, q)
  }

  lemma {:induction false} BestHolds(c: Contest, pool: seq<Peer>, v: Value)
    requires DistinctIds(pool)
    ensures Best(c, pool, v).None? <==> forall q :: q in pool ==> ValueOf(c, q) != v
    ensures Best(c, pool, v).Some? ==> Holds(c, pool, v, Best(c, pool, v).value)
  {
    if pool != [] {
      var front, p := pool[..|pool| - 1], pool[|pool| - 1];
      BestHolds(c, front, v);
      assert pool == front + [p];
      if Best(c, front, v).Some? && ValueOf(c, p) == v {
        HolderExtends(c, front, v, Best(c, front, v).value, p);
      }
    }
  }

  /** One more contender either takes the value from the holder or leaves it. */
  lemma HolderExtends(c: Contest, front: seq<Peer>, v: Value, h: Peer, p: Peer)
    requires Holds(c, front, v, h) && ValueOf(c, p) == v && h.id != p.id
    ensures Holds(c, front + [p], v, if Beats(c, p, h) then p else h)
  {
    BeatsStrictTotal(c, p, h);
    if Beats(c, p, h) {
      forall q | q in front + [p] && ValueOf(c, q) == v && q != p
        ensures Beats(c, p, q)
      {
        if q != h {
          BeatsTransitive(c, p, h, q);
        }
      }
    }
  }

  lemma HolderUnique(c: Contest, pool: seq<Peer>, v: Value, h: Peer)
    requires DistinctIds(pool) && Holds(c, pool, v, h)
    ensures Best(c, pool, v) == Some(h)
  {
    BestHolds(c, pool, v);
    BeatsStrictTotal(c, h, Best(c, pool, v).value);
  }

  /** Winning is a property of the set of contenders, so the listing order is irrelevant. */
  lemma WinsIff(c: Contest, pool: seq<Peer>, p: Peer)
    requires DistinctIds(pool) && p in pool
    ensures Wins(c, pool, p) <==> ValueOf(c, p) == Nothing || Holds(c, pool, ValueOf(c, p), p)
  {
    if ValueOf(c, p) != Nothing {
      BestHolds(c, pool, ValueOf(c, p));
      if Holds(c, pool, ValueOf(c, p), p) {
        HolderUnique(c, pool, ValueOf(c, p), p);
      }
    }
  }

  lemma OrderIrrelevant(c: Contest, pool: seq<Peer>, pool': seq<Peer>, v: Value)
    requires DistinctIds(pool) && DistinctIds(pool') && Elements(pool) == Elements(pool')
    ensures Best(c, pool, v) == Best(c, pool', v)
  {
    BestHolds(c, pool, v);
    BestHolds(c, pool', v);
    assert forall p :: p in pool <==> p in Elements(pool);
    assert forall p :: p in pool' <==> p in Elements(pool');
    if Best(c, pool, v).Some? {
      HolderUnique(c, pool', v, Best(c, pool, v).value);
    }
  }

  // ---- keep and losers ----

  lemma {:induction false} KeepersMembership(c: Contest, pool: seq<Peer>, peers: seq<Peer>)
    ensures forall p :: p in Keepers(c, pool, peers) <==> p in peers && Wins(c, pool, p)
  {
    if peers != [] {
      var front := peers[..|peers| - 1];
      KeepersMembership(c, pool, front);
      assert peers == front + [peers[|peers| - 1]];
    }
  }

  lemma {:induction false} KeepersDistinct(c: Contest, pool: seq<Peer>, peers: seq<Peer>)
    requires DistinctIds(peers)
    ensures DistinctIds(Keepers(c, pool, peers))
  {
    if peers != [] {
      var front, p := peers[..|peers| - 1], peers[|peers| - 1];
      KeepersDistinct(c, pool, front);
      KeepersMembership(c, pool, front);
      assert forall q :: q in front ==> q.id != p.id;
    }
  }

  lemma {:induction false} LosersMembership(c: Contest, pool: seq<Peer>, peers: seq<Peer>)
    ensures forall l :: l in Losers(c, pool, peers) ==> l.peer in peers && !Wins(c, pool, l.peer)
    ensures forall p :: p in peers && !Wins(c, pool, p) ==> exists l :: l in Losers(c, pool, peers) && l.peer == p
    ensures |Keepers(c, pool, peers)| + |Losers(c, pool, peers)| == |peers|
  {
    if peers != [] {
      var front, p := peers[..|peers| - 1], peers[|peers| - 1];
      LosersMembership(c, pool, front);
      assert peers == front + [p];
      var losers, before := Losers(c, pool, peers), Losers(c, pool, front);
      assert before <= losers;
      if !Wins(c, pool, p) {
        assert losers[|losers| - 1].peer == p;
      }
      forall q | q in peers && !Wins(c, pool, q)
        ensures exists l :: l in losers && l.peer == q
      {
        if q in front {
          var l :| l in before && l.peer == q;
          assert l in losers;
        } else {
          assert losers[|losers| - 1] in losers;
        }
      }
    }
  }

  lemma {:induction false} LosersDistinct(c: Contest, pool: seq<Peer>, peers: seq<Peer>)
    requires DistinctIds(peers)
    ensures forall i, j :: 0 <= i < j < |Losers(c, pool, peers)| ==>
      Losers(c, pool, peers)[i].peer.id != Losers(c, pool, peers)[j].peer.id
  {
    if peers != [] {
      var front, p := peers[..|peers| - 1], peers[|peers| - 1];
      LosersDistinct(c, pool, front);
      LosersMembership(c, pool, front);
      assert forall q :: q in front ==> q.id != p.id;
      assert forall l :: l in Losers(c, pool, front) ==> l.peer.id != p.id;
    }
  }

  /** Every loser names the holder of the value it gives up: a peer that keeps it and beats the loser. */
  lemma {:induction false} LosersNameTheHolder(c: Contest, pool: seq<Peer>, peers: seq<Peer>, l: Loser)
    requires DistinctIds(pool) && (forall p :: p in peers ==> p in pool) && l in Losers(c, pool, peers)
    ensures ValueOf(c, l.peer) != Nothing
    ensures var h := Best(c, pool, ValueOf(c, l.peer));
      h.Some? && h.value.id == l.winner && Holds(c, pool, ValueOf(c, l.peer), h.value) && Beats(c, h.value, l.peer)
  {
    var front, p := peers[..|peers| - 1], peers[|peers| - 1];
    if l in Losers(c, pool, front) {
      LosersNameTheHolder(c, pool, front, l);
    } else {
      BestHolds(c, pool, ValueOf(c, p));
      assert p in pool;
    }
  }

  /** keep preserves the input order: its elements sit at increasing positions of the input. */
  lemma {:induction false} KeepersInOrder(c: Contest, pool: seq<Peer>, peers: seq<Peer>) returns (at: seq<nat>)
    ensures |at| == |Keepers(c, pool, peers)|
    ensures forall i :: 0 <= i < |at| ==> at[i] < |peers| && Keepers(c, pool, peers)[i] == peers[at[i]]
    ensures forall i, j :: 0 <= i < j < |at| ==> at[i] < at[j]
  {
    at := [];
    if peers != [] {
      var front, p := peers[..|peers| - 1], peers[|peers| - 1];
      at := KeepersInOrder(c, pool, front);
      assert forall i :: 0 <= i < |at| ==> peers[at[i]] == front[at[i]];
      if Wins(c, pool, p) {
        assert Keepers(c, pool, peers) == Keepers(c, pool, front) + [p];
        at := at + [|front|];
      } else {
        assert Keepers(c, pool, peers) == Keepers(c, pool, front);
      }
    }
  }

  /** After a dedupe no two peers share the contested value. */
  lemma KeepersShareNothing(c: Contest, pool: seq<Peer>, p: Peer, q: Peer)
    requires DistinctIds(pool) && p in Keepers(c, pool, pool) && q in Keepers(c, pool, pool) && p != q
    ensures ValueOf(c, p) == Nothing || ValueOf(c, p) != ValueOf(c, q)
  {
    KeepersMembership(c, pool, pool);
    BestHolds(c, pool, ValueOf(c, p));
  }

  /** On the fields themselves: kept peers share no public key, or no address, unless it is empty, and every loser shares
      it with the peer it names. */
  lemma KeptApart(current: map<PeerId, PublicKey>, pool: seq<Peer>, p: Peer, q: Peer)
    requires DistinctIds(pool) && p != q
    ensures p in Keepers(KeyContest(current), pool, pool) && q in Keepers(KeyContest(current), pool, pool) ==>
      p.key == NoKey || p.key != q.key
    ensures p in Keepers(AddressContest, pool, pool) && q in Keepers(AddressContest, pool, pool) ==>
      p.status.address == Unset || p.status.address != q.status.address
    ensures forall l :: l in Losers(KeyContest(current), pool, pool) ==>
      l.peer.key != NoKey && exists h :: h in pool && h.id == l.winner && h.key == l.peer.key && h != l.peer
    ensures forall l :: l in Losers(AddressContest, pool, pool) ==>
      l.peer.status.address != Unset
      && exists h :: h in pool && h.id == l.winner && h.status.address == l.peer.status.address && h != l.peer
  {
    if p in Keepers(KeyContest(current), pool, pool) && q in Keepers(KeyContest(current), pool, pool) {
      KeepersShareNothing(KeyContest(current), pool, p, q);
    }
    if p in Keepers(AddressContest, pool, pool) && q in Keepers(AddressContest, pool, pool) {
      KeepersShareNothing(AddressContest, pool, p, q);
    }
    LosersShare(KeyContest(current), pool);
    LosersShare(AddressContest, pool);
  }

  lemma LosersShare(c: Contest, pool: seq<Peer>)
    requires DistinctIds(pool)
    ensures forall l :: l in Losers(c, pool, pool) ==>
      ValueOf(c, l.peer) != Nothing
      && exists h :: h in pool && h.id == l.winner && ValueOf(c, h) == ValueOf(c, l.peer) && h != l.peer
  {
    forall l | l in Losers(c, pool, pool)
      ensures ValueOf(c, l.peer) != Nothing
      ensures exists h :: h in pool && h.id == l.winner && ValueOf(c, h) == ValueOf(c, l.peer) && h != l.peer
    {
      LosersNameTheHolder(c, pool, pool, l);
      var h := Best(c, pool, ValueOf(c, l.peer)).value;
      BeatsStrictTotal(c, h, h);
    }
  }

  /** The whole contract of a dedupe, for every order the peers are listed in: keep and losers split the
      peers, every loser gives its value up to a peer that keeps it, and who wins depends only on the set. */
  lemma DedupeCorrect(c: Contest, pool: seq<Peer>, pool': seq<Peer>)
    requires DistinctIds(pool) && DistinctIds(pool') && Elements(pool) == Elements(pool')
    ensures |Keepers(c, pool, pool)| + |Losers(c, pool, pool)| == |pool|
    ensures forall p :: p in pool ==>
      (p in Keepers(c, pool, pool) <==> !exists l :: l in Losers(c, pool, pool) && l.peer == p)
    ensures Elements(Keepers(c, pool, pool)) == Elements(Keepers(c, pool', pool'))
    ensures forall l :: l in Losers(c, pool, pool) ==>
      exists h :: h in Keepers(c, pool, pool) && h.id == l.winner && ValueOf(c, h) == ValueOf(c, l.peer) && Beats(c, h, l.peer)
  {
    LosersMembership(c, pool, pool);
    KeepersMembership(c, pool, pool);
    KeepersMembership(c, pool', pool');
    forall p
      ensures p in pool <==> p in pool'
      ensures Wins(c, pool, p) <==> Wins(c, pool', p)
    {
      assert p in pool <==> p in Elements(pool);
      assert p in pool' <==> p in Elements(pool');
      OrderIrrelevant(c, pool, pool', ValueOf(c, p));
    }
    forall l | l in Losers(c, pool, pool)
      ensures exists h :: h in Keepers(c, pool, pool) && h.id == l.winner && ValueOf(c, h) == ValueOf(c, l.peer) && Beats(c, h, l.peer)
    {
      LosersNameTheHolder(c, pool, pool, l);
      var h := Best(c, pool, ValueOf(c, l.peer)).value;
      WinsIff(c, pool, h);
      assert h in Keepers(c, pool, pool);
    }
  }
}
