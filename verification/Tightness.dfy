/** Why convergence needs two reconciles: on every gateway there is a cluster that one good reconcile does not
    settle. A listed peer keeps its key against an older contender but loses its address, so it is left out of one
    state.json, and the contender then takes the key. */
module Tightness {
  import opened Sequences
  import opened Ipv4
  import opened Ipam
  import opened Gateway
  import opened Peers
  import opened StateJson
  import opened Pass
  import opened Operator
  import opened Serving
  import opened SkippedRelease
  import opened Convergence
  import opened Fixpoint

  function ListedPeer(gw: Spec): PeerId {
    PeerId("l", gw.ns)
  }

  function Contender(gw: Spec): PeerId {
    PeerId("c", gw.ns)
  }

  function Rival(gw: Spec): PeerId {
    PeerId("r", gw.ns)
  }

  /** One peer is served under key 1 with an address that an older rival also holds; a contender, the oldest, shares the
      key. */
  function Contested(gw: Spec): Cluster
    requires Accepted(gw)
  {
    var held := FRESH_STATUS.(address := FirstHost(gw));
    var key := seq(44, _ => '0');
    Cluster(
      map[ListedPeer(gw) := Peer(ListedPeer(gw), 2, 1, Key(1), held),
          Contender(gw) := Peer(Contender(gw), 0, 1, Key(1), FRESH_STATUS),
          Rival(gw) := Peer(Rival(gw), 1, 1, Key(2), held)],
      Some(Secret(key, Key(0), Some(State(gw, key, [Entry(ListedPeer(gw), Key(1), FirstHost(gw))])))))
  }

  /** What the argument needs of the contested cluster. */
  ghost predicate InContest(gw: Spec, c: Cluster)
    requires Accepted(gw)
  {
    && ListedPeer(gw) != Contender(gw) && ListedPeer(gw) != Rival(gw) && Contender(gw) != Rival(gw)
    && c.peers.Keys == {ListedPeer(gw), Contender(gw), Rival(gw)}
    && (forall id :: id in c.peers ==> AdmissionProblem(gw, c.peers[id]).None?)
    && c.peers[ListedPeer(gw)].key == c.peers[Contender(gw)].key == Key(1) && c.peers[Rival(gw)].key == Key(2)
    && c.peers[Contender(gw)].created < c.peers[Rival(gw)].created < c.peers[ListedPeer(gw)].created
    && c.peers[ListedPeer(gw)].status.address == c.peers[Rival(gw)].status.address == FirstHost(gw)
    && Listed(ServedKeys(c.secret), c.peers[ListedPeer(gw)]) && !Listed(ServedKeys(c.secret), c.peers[Contender(gw)])
  }

  lemma ContestedInContest(gw: Spec)
    requires Accepted(gw)
    ensures InContest(gw, Contested(gw))
  {
    var es := Contested(gw).secret.value.state.value.peers;
    assert es[..0] == [] && KeysOf([]) == map[];
    assert KeysOf(es) == map[][ListedPeer(gw) := Key(1)];
    assert ListedPeer(gw).name[0] == 'l' && Contender(gw).name[0] == 'c' && Rival(gw).name[0] == 'r';
  }

  /** The first reconcile lists neither of the two contenders for the key. */
  lemma FirstListsNeither(gw: Spec, c: Cluster, w: World, next: Cluster)
    requires Accepted(gw) && InContest(gw, c) && Good(c, gw, w) && Result(c, gw, w, next)
    ensures ListedPeer(gw) !in ServedKeys(next.secret) && Contender(gw) !in ServedKeys(next.secret)
  {
    SurvivorIff(gw, c, w.listed, Contender(gw));
    assert !Beats(KeyContest(ServedKeys(c.secret)), c.peers[Contender(gw)], c.peers[ListedPeer(gw)]);
    LosesAddress(gw, c, w);
  }

  lemma LosesAddress(gw: Spec, c: Cluster, w: World)
    requires Accepted(gw) && InContest(gw, c) && Good(c, gw, w)
    ensures ClearUnusable(Pool(gw), c.peers[ListedPeer(gw)]) !in Holders(gw, ServedKeys(c.secret), w.listed)
  {
    SurvivorIff(gw, c, w.listed, Rival(gw));
    assert KeyHolder(gw, c, Rival(gw));
    FirstHostUsable(gw);
    assert ClearUnusable(Pool(gw), c.peers[ListedPeer(gw)]) == c.peers[ListedPeer(gw)];
    HolderIff(gw, ServedKeys(c.secret), w.listed, c.peers[ListedPeer(gw)]);
    assert !Older(c.peers[ListedPeer(gw)], c.peers[Rival(gw)]);
  }

  /** So at the second one the older contender holds the key. */
  lemma ContenderTakesKey(gw: Spec, c: Cluster, w: World, next: Cluster)
    requires Accepted(gw) && InContest(gw, c) && Good(c, gw, w) && Result(c, gw, w, next)
    ensures KeyHolder(gw, next, Contender(gw)) && !KeyHolder(gw, next, ListedPeer(gw))
    ensures next.peers.Keys == {ListedPeer(gw), Contender(gw), Rival(gw)}
  {
    FirstListsNeither(gw, c, w, next);
    forall id
      ensures id in next.peers <==> id in c.peers
      ensures id in c.peers ==> next.peers[id] == c.peers[id].(status := next.peers[id].status)
    {
      ResultSpec(c, gw, w, next, id);
    }
    OldestUnlistedHolds(gw, next);
  }

  lemma OldestUnlistedHolds(gw: Spec, c: Cluster)
    requires c.peers.Keys == {ListedPeer(gw), Contender(gw), Rival(gw)} && ListedPeer(gw) != Contender(gw)
    requires AdmissionProblem(gw, c.peers[Contender(gw)]).None? && AdmissionProblem(gw, c.peers[ListedPeer(gw)]).None?
    requires c.peers[ListedPeer(gw)].key == c.peers[Contender(gw)].key == Key(1) && c.peers[Rival(gw)].key == Key(2)
    requires c.peers[Contender(gw)].created < c.peers[ListedPeer(gw)].created
    requires c.peers[ListedPeer(gw)].id !in ServedKeys(c.secret) && c.peers[Contender(gw)].id !in ServedKeys(c.secret)
    ensures KeyHolder(gw, c, Contender(gw)) && !KeyHolder(gw, c, ListedPeer(gw))
  {
    var contest := KeyContest(ServedKeys(c.secret));
    assert Beats(contest, c.peers[Contender(gw)], c.peers[ListedPeer(gw)]);
    BeatsStrictTotal(contest, c.peers[Contender(gw)], c.peers[ListedPeer(gw)]);
  }

  /** A single listed peer cannot exhaust a pool. */
  lemma OnePeerLeavesRoom(gw: Spec, c: Cluster, only: PeerId)
    requires Accepted(gw) && forall id :: id in ServedKeys(c.secret) ==> id == only
    ensures !PoolFull(gw, c)
  {
    var pool := Pool(gw);
    PoolHasFourAddresses(pool);
    var a, b := Ip(Network(pool) + 2), Ip(Network(pool) + 3);
    assert a in Block(pool) && b in Block(pool) && a !in Reserved(pool) && b !in Reserved(pool);
  }

  /** A holder of a key that a tidy cluster still does not list found the pool full. */
  lemma UnlistedMeansFull(gw: Spec, c: Cluster, w: World, next: Cluster, id: PeerId)
    requires Good(c, gw, w) && Tidy(gw, c) && Result(c, gw, w, next)
    requires id in c.peers && KeyHolder(gw, c, id) && id !in ServedKeys(next.secret)
    ensures PoolFull(gw, next)
  {
    TidyPhases(c, gw, w, id);
    ExhaustedMeansFull(c, gw, w, next, id);
  }

  lemma LoserStaysOut(gw: Spec, c: Cluster, w: World, next: Cluster, id: PeerId)
    requires Good(c, gw, w) && Tidy(gw, c) && Result(c, gw, w, next)
    requires c.peers.Keys == {ListedPeer(gw), Contender(gw), Rival(gw)} && !KeyHolder(gw, c, ListedPeer(gw))
    requires id in ServedKeys(next.secret)
    ensures id == Contender(gw) || id == Rival(gw)
  {
    ListedThenHolder(c, gw, w, next, id);
    AmongThree(gw, c, id);
  }

  lemma AmongThree(gw: Spec, c: Cluster, id: PeerId)
    requires c.peers.Keys == {ListedPeer(gw), Contender(gw), Rival(gw)} && !KeyHolder(gw, c, ListedPeer(gw))
    requires KeyHolder(gw, c, id)
    ensures id == Contender(gw) || id == Rival(gw)
  {
    assert id in c.peers.Keys;
  }

  lemma RoomForContender(gw: Spec, c: Cluster, w: World, next: Cluster)
    requires Good(c, gw, w) && Tidy(gw, c) && Result(c, gw, w, next)
    requires c.peers.Keys == {ListedPeer(gw), Contender(gw), Rival(gw)}
    requires KeyHolder(gw, c, Contender(gw)) && !KeyHolder(gw, c, ListedPeer(gw))
    ensures Contender(gw) in ServedKeys(next.secret)
  {
    if Contender(gw) !in ServedKeys(next.secret) {
      forall id | id in ServedKeys(next.secret)
        ensures id == Rival(gw)
      {
        LoserStaysOut(gw, c, w, next, id);
      }
      OnePeerLeavesRoom(gw, next, Rival(gw));
      UnlistedMeansFull(gw, c, w, next, Contender(gw));
    }
  }

  lemma SecondListsContender(gw: Spec, c: Cluster, w1: World, c1: Cluster, w2: World, c2: Cluster)
    requires Accepted(gw) && InContest(gw, c) && Good(c, gw, w1) && Result(c, gw, w1, c1)
    requires Good(c1, gw, w2) && Result(c1, gw, w2, c2)
    ensures Contender(gw) !in ServedKeys(c1.secret) && Contender(gw) in ServedKeys(c2.secret)
  {
    FirstListsNeither(gw, c, w1, c1);
    ContenderTakesKey(gw, c, w1, c1);
    ResultIsTidy(c, gw, w1, c1);
    RoomForContender(gw, c1, w2, c2);
  }

  /** One reconcile is not enough, on any gateway: the second still changes the state. */
  lemma OneReconcileIsNotEnough(gw: Spec, w1: World, w2: World)
    requires Accepted(gw) && Good(Contested(gw), gw, w1)
    requires Good(Reconciled(Contested(gw), gw, w1), gw, w2)
    ensures var c1 := Reconciled(Contested(gw), gw, w1);
      Contender(gw) !in ServedKeys(c1.secret) && Contender(gw) in ServedKeys(Reconciled(c1, gw, w2).secret)
    ensures var c1 := Reconciled(Contested(gw), gw, w1); Reconciled(c1, gw, w2) != c1
  {
    var c := Contested(gw);
    ContestedInContest(gw);
    GoodResult(c, gw, w1);
    GoodResult(Reconciled(c, gw, w1), gw, w2);
    SecondListsContender(gw, c, w1, Reconciled(c, gw, w1), w2, Reconciled(Reconciled(c, gw, w1), gw, w2));
  }
}
