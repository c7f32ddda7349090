/** What holds of every pass, whatever peers were listed and however its writes were answered: who ends
    where, which addresses are handed out, and that no two admitted peers share a key or an address. */
module PassFacts {
  import opened Sequences
  import opened Ipv4
  import opened Ipam
  import opened Gateway
  import opened Peers
  import opened Pass

  // ---- survivors, candidates, holders ----

  lemma SurvivorsFacts(gw: Spec, current: Keys, listed: seq<Peer>)
    requires DistinctIds(listed)
    ensures DistinctIds(Admissible(gw, listed)) && DistinctIds(Survivors(gw, current, listed))
    ensures forall p :: p in Survivors(gw, current, listed) <==>
      p in listed && AdmissionProblem(gw, p).None? && Wins(KeyContest(current), Admissible(gw, listed), p)
  {
    AdmissibleDistinct(gw, listed);
    KeepersDistinct(KeyContest(current), Admissible(gw, listed), Admissible(gw, listed));
    KeepersMembership(KeyContest(current), Admissible(gw, listed), Admissible(gw, listed));
  }

  lemma SurvivorKeysDistinct(gw: Spec, current: Keys, listed: seq<Peer>, p: Peer, q: Peer)
    requires DistinctIds(listed)
    requires p in Survivors(gw, current, listed) && q in Survivors(gw, current, listed) && p.id != q.id
    ensures p.key.Key? && q.key.Key? && p.key != q.key
  {
    SurvivorsFacts(gw, current, listed);
    KeepersShareNothing(KeyContest(current), Admissible(gw, listed), p, q);
  }

  lemma CandidatesFacts(gw: Spec, current: Keys, listed: seq<Peer>)
    requires Accepted(gw) && DistinctIds(listed)
    ensures DistinctIds(Candidates(gw, current, listed))
    ensures forall c :: c in Candidates(gw, current, listed) <==>
      exists p :: p in Survivors(gw, current, listed) && c == ClearUnusable(Pool(gw), p)
  {
    SurvivorsFacts(gw, current, listed);
    var survivors, candidates := Survivors(gw, current, listed), Candidates(gw, current, listed);
    forall p | p in survivors
      ensures ClearUnusable(Pool(gw), p) in candidates
    {
      var i :| 0 <= i < |survivors| && survivors[i] == p;
      assert candidates[i] == ClearUnusable(Pool(gw), p);
    }
  }

  /** A holder is a listed, admissible peer that keeps its key, with its address cleared if unusable. */
  lemma HoldersFacts(gw: Spec, current: Keys, listed: seq<Peer>)
    requires Accepted(gw) && DistinctIds(listed)
    ensures DistinctIds(Holders(gw, current, listed))
    ensures forall h :: h in Holders(gw, current, listed) ==>
      && (exists p :: p in Survivors(gw, current, listed) && h == ClearUnusable(Pool(gw), p))
      && (h.status.address == Unset || AddressUsable(h.status.address, Pool(gw)))
    ensures forall h, k :: h in Holders(gw, current, listed) && k in Holders(gw, current, listed) && h.id != k.id ==>
      h.status.address == Unset || h.status.address != k.status.address
  {
    CandidatesFacts(gw, current, listed);
    var candidates := Candidates(gw, current, listed);
    KeepersDistinct(AddressContest, candidates, candidates);
    KeepersMembership(AddressContest, candidates, candidates);
    forall h, k | h in Holders(gw, current, listed) && k in Holders(gw, current, listed) && h.id != k.id
      ensures h.status.address == Unset || h.status.address != k.status.address
    {
      KeepersShareNothing(AddressContest, candidates, h, k);
    }
  }

  // ---- the used list ----

  lemma {:induction false} AssignedMembership(addresses: seq<Address>)
    ensures forall a :: a in Assigned(addresses) <==> a in addresses && a != Unset
  {
    if addresses != [] {
      var front := addresses[..|addresses| - 1];
      AssignedMembership(front);
      assert addresses == front + [addresses[|addresses| - 1]];
    }
  }

  ghost predicate SetOnce(addresses: seq<Address>) {
    forall i, j :: 0 <= i < j < |addresses| ==> addresses[i] == Unset || addresses[i] != addresses[j]
  }

  lemma {:induction false} AssignedDistinct(addresses: seq<Address>)
    requires SetOnce(addresses)
    ensures Distinct(Assigned(addresses))
  {
    if addresses != [] {
      var front, last := addresses[..|addresses| - 1], addresses[|addresses| - 1];
      AssignedDistinct(front);
      AssignedMembership(front);
      if last != Unset {
        DistinctConcat(Assigned(front), [last]);
      }
    }
  }

  lemma UsedFacts(pool: Prefix, addresses: seq<Address>)
    requires pool.bits <= 30 && SetOnce(addresses)
    requires forall a :: a in addresses ==> a == Unset || AddressUsable(a, pool)
    ensures Distinct(Used(pool, addresses)) && Elements(Used(pool, addresses)) <= Block(pool)
    ensures |Used(pool, addresses)| == 2 + |Assigned(addresses)|
    ensures forall a :: a in addresses && a != Unset ==> a in Used(pool, addresses)
  {
    AssignedMembership(addresses);
    AssignedDistinct(addresses);
    forall a | a in Assigned(addresses)
      ensures a in Block(pool) && a !in Reserved(pool)
    {
      UsableIffAllocatable(pool, a);
    }
    UsableIffAllocatable(pool, Unset);
    DistinctConcat(Reserved(pool), Assigned(addresses));
  }

  /** The used list a pass starts from is duplicate-free and inside the pool. */
  lemma BaseFacts(gw: Spec, current: Keys, listed: seq<Peer>)
    requires Accepted(gw) && DistinctIds(listed)
    ensures var base := Used(Pool(gw), Addresses(Holders(gw, current, listed)));
      && Distinct(base) && Elements(base) <= Block(Pool(gw))
      && |base| == 2 + |Assigned(Addresses(Holders(gw, current, listed)))|
      && (forall h :: h in Holders(gw, current, listed) && h.status.address != Unset ==> h.status.address in base)
  {
    HoldersFacts(gw, current, listed);
    var holders := Holders(gw, current, listed);
    var addresses := Addresses(holders);
    forall i, j | 0 <= i < j < |addresses|
      ensures addresses[i] == Unset || addresses[i] != addresses[j]
    {
      assert holders[i] in holders && holders[j] in holders;
    }
    forall i | 0 <= i < |addresses|
      ensures addresses[i] == Unset || AddressUsable(addresses[i], Pool(gw))
    {
      assert holders[i] in holders;
    }
    UsedFacts(Pool(gw), addresses);
    forall h | h in holders
      ensures h.status.address in addresses
    {
      var i :| 0 <= i < |holders| && holders[i] == h;
      assert addresses[i] == h.status.address;
    }
  }

  // ---- grants ----

  ghost function Needy(peers: seq<Peer>): nat {
    if peers == [] then 0 else
    Needy(peers[..|peers| - 1]) + if peers[|peers| - 1].status.address == Unset then 1 else 0
  }

  /** Allocation from a duplicate-free used list: every new address is unused, and of the peers without one
      exactly those that find the pool not yet full are served, which are the first ones in order. */
  lemma {:induction false} GrantsFacts(pool: Prefix, base: seq<Address>, peers: seq<Peer>)
    requires Distinct(base) && Elements(base) <= Block(pool)
    ensures var gs := Grants(pool, base, peers);
      && Distinct(base + FreshAddresses(gs)) && Elements(base + FreshAddresses(gs)) <= Block(pool)
      && |FreshAddresses(gs)| == Least(Needy(peers), Size(pool) - |base|)
  {
    if peers == [] {
      PoolExhaustedIffFull(pool, base);
      assert base + FreshAddresses([]) == base;
    } else {
      var front, p := peers[..|peers| - 1], peers[|peers| - 1];
      GrantsFacts(pool, base, front);
      var before := Grants(pool, base, front);
      PoolExhaustedIffFull(pool, base + FreshAddresses(before));
      GrantExtends(pool, base, before, p);
    }
  }

  ghost function Least(a: int, b: int): int {
    if a < b then a else b
  }

  lemma {:induction false} GrantPeers(pool: Prefix, base: seq<Address>, peers: seq<Peer>, i: nat)
    requires i < |peers|
    ensures Grants(pool, base, peers)[i].peer == peers[i]
    ensures Grants(pool, base, peers)[i].Held? <==> peers[i].status.address != Unset
  {
    GrantAt(pool, base, peers, i);
  }

  lemma GrantExtends(pool: Prefix, base: seq<Address>, before: seq<Grant>, p: Peer)
    requires var used := base + FreshAddresses(before); Distinct(used) && Elements(used) <= Block(pool)
    ensures var used := base + FreshAddresses(before);
      var g := GrantOf(pool, used, p);
      && FreshAddresses(before + [g]) == FreshAddresses(before) + (if g.Fresh? then [Ip(g.address)] else [])
      && Distinct(base + FreshAddresses(before + [g]))
      && Elements(base + FreshAddresses(before + [g])) <= Block(pool)
  {
    var used := base + FreshAddresses(before);
    var g := GrantOf(pool, used, p);
    assert (before + [g])[..|before|] == before;
    LeastFreeIsLeast(pool, used);
    if g.Fresh? {
      PrefixInterval(pool, g.address);
      assert base + FreshAddresses(before + [g]) == used + [Ip(g.address)];
      assert Elements(used + [Ip(g.address)]) == Elements(used) + {Ip(g.address)};
    } else {
      assert base + FreshAddresses(before + [g]) == used;
    }
  }

  lemma {:induction false} FreshMembership(gs: seq<Grant>)
    ensures forall a :: a in FreshAddresses(gs) <==> exists i :: 0 <= i < |gs| && gs[i].Fresh? && Ip(gs[i].address) == a
  {
    if gs != [] {
      var front, g := gs[..|gs| - 1], gs[|gs| - 1];
      FreshMembership(front);
      forall a | a in FreshAddresses(gs)
        ensures exists i :: 0 <= i < |gs| && gs[i].Fresh? && Ip(gs[i].address) == a
      {
        if a in FreshAddresses(front) {
          var i :| 0 <= i < |front| && front[i].Fresh? && Ip(front[i].address) == a;
          assert gs[i] == front[i];
        } else {
          assert gs[|gs| - 1].Fresh?;
        }
      }
      forall i | 0 <= i < |gs| && gs[i].Fresh?
        ensures Ip(gs[i].address) in FreshAddresses(gs)
      {
        if i < |front| {
          assert front[i] == gs[i];
        }
      }
    }
  }

  /** Peer i of a pass, when it has no address, is served iff the pool was not full before it: exactly the
      first Size - |base| peers without an address are. */
  lemma ServedIffFirst(pool: Prefix, base: seq<Address>, peers: seq<Peer>, i: nat)
    requires Distinct(base) && Elements(base) <= Block(pool) && i < |peers| && peers[i].status.address == Unset
    ensures var g := Grants(pool, base, peers)[i];
      (g.Fresh? <==> Needy(peers[..i]) < Size(pool) - |base|) && (g.Exhausted? <==> !g.Fresh?)
  {
    GrantAt(pool, base, peers, i);
    GrantsPrefix(pool, base, peers, i);
    GrantsFacts(pool, base, peers[..i]);
    PoolExhaustedIffFull(pool, base + FreshAddresses(Grants(pool, base, peers)[..i]));
  }

  /** Of the peers without an address exactly the first min(n, capacity) get one, and each new address is
      larger than the ones before it. */
  ghost predicate ServesFirst(peers: seq<Peer>, gs: seq<Grant>, capacity: int) {
    && |gs| == |peers|
    && |FreshAddresses(gs)| == Least(Needy(peers), capacity)
    && (forall i :: 0 <= i < |peers| && peers[i].status.address == Unset ==>
          (gs[i].Fresh? <==> Needy(peers[..i]) < capacity) && (gs[i].Exhausted? <==> !gs[i].Fresh?))
    && (forall i, j :: 0 <= i < j < |gs| && gs[i].Fresh? && gs[j].Fresh? ==> gs[i].address < gs[j].address)
  }

  lemma AllocationRound(pool: Prefix, base: seq<Address>, peers: seq<Peer>)
    requires Distinct(base) && Elements(base) <= Block(pool)
    ensures ServesFirst(peers, Grants(pool, base, peers), Size(pool) - |base|)
  {
    GrantsFacts(pool, base, peers);
    var gs := Grants(pool, base, peers);
    forall i | 0 <= i < |peers| && peers[i].status.address == Unset
      ensures (gs[i].Fresh? <==> Needy(peers[..i]) < Size(pool) - |base|) && (gs[i].Exhausted? <==> !gs[i].Fresh?)
    {
      ServedIffFirst(pool, base, peers, i);
    }
    forall i, j | 0 <= i < j < |gs| && gs[i].Fresh? && gs[j].Fresh?
      ensures gs[i].address < gs[j].address
    {
      FreshIncreasing(pool, base, peers, i, j);
    }
  }

  /** A new address is usable, is no address in use, and exceeds every address handed out before it. */
  lemma FreshFacts(pool: Prefix, base: seq<Address>, peers: seq<Peer>, i: nat)
    requires pool.bits <= 30 && Elements(Reserved(pool)) <= Elements(base) && i < |peers|
    requires Grants(pool, base, peers)[i].Fresh?
    ensures var gs := Grants(pool, base, peers);
      && gs[i].peer == peers[i]
      && AddressUsable(Ip(gs[i].address), pool) && Ip(gs[i].address) !in base
      && forall j :: 0 <= j < i && gs[j].Fresh? ==> gs[j].address < gs[i].address
  {
    var gs := Grants(pool, base, peers);
    GrantAt(pool, base, peers, i);
    var used := base + FreshAddresses(gs[..i]);
    LeastFreeIsLeast(pool, used);
    var a := gs[i].address;
    UsableIffAllocatable(pool, Ip(a));
    PrefixInterval(pool, a);
    assert Ip(a) !in Elements(base);
    forall j | 0 <= j < i && gs[j].Fresh?
      ensures gs[j].address < a
    {
      FreshIncreasing(pool, base, peers, j, i);
    }
  }

  lemma FreshIncreasing(pool: Prefix, base: seq<Address>, peers: seq<Peer>, j: nat, i: nat)
    requires j < i < |peers| && Grants(pool, base, peers)[j].Fresh? && Grants(pool, base, peers)[i].Fresh?
    ensures Grants(pool, base, peers)[j].address < Grants(pool, base, peers)[i].address
  {
    var gs := Grants(pool, base, peers);
    GrantAt(pool, base, peers, i);
    GrantAt(pool, base, peers, j);
    FreshMembership(gs[..i]);
    assert gs[..i][j] == gs[j];
    FreshPrefix(gs, j, i);
    ElementsConcat(base, FreshAddresses(gs[..j]));
    ElementsConcat(base, FreshAddresses(gs[..i]));
    AllocationsIncrease(pool, base + FreshAddresses(gs[..j]), base + FreshAddresses(gs[..i]));
  }

  lemma {:induction false} FreshPrefix(gs: seq<Grant>, j: nat, i: nat)
    requires j <= i <= |gs|
    ensures Elements(FreshAddresses(gs[..j])) <= Elements(FreshAddresses(gs[..i]))
  {
    FreshMembership(gs[..j]);
    FreshMembership(gs[..i]);
    forall a | a in Elements(FreshAddresses(gs[..j]))
      ensures a in Elements(FreshAddresses(gs[..i]))
    {
      var k :| 0 <= k < j && gs[..j][k].Fresh? && Ip(gs[..j][k].address) == a;
      assert gs[..i][k] == gs[..j][k];
    }
  }

  // ---- the grants of a pass ----

  ghost function GrantedAddress(g: Grant): Address {
    match g case Held(p) => p.status.address case Fresh(_, a) => Ip(a) case Exhausted(_) => Unset
  }

  lemma PassGrantsFacts(gw: Spec, current: Keys, listed: seq<Peer>)
    requires Accepted(gw) && DistinctIds(listed)
    ensures var gs, holders := PassGrants(gw, current, listed), Holders(gw, current, listed);
      && |gs| == |holders|
      && (forall i :: 0 <= i < |gs| ==> gs[i].peer == holders[i])
      && (forall i :: 0 <= i < |gs| ==> (gs[i].Held? <==> holders[i].status.address != Unset))
      && (forall i :: 0 <= i < |gs| && !gs[i].Exhausted? ==> AddressUsable(GrantedAddress(gs[i]), Pool(gw)))
  {
    var pool, holders := Pool(gw), Holders(gw, current, listed);
    var base := Used(pool, Addresses(holders));
    HoldersFacts(gw, current, listed);
    BaseFacts(gw, current, listed);
    forall i | 0 <= i < |holders|
      ensures var g := Grants(pool, base, holders)[i];
        && g.peer == holders[i]
        && (g.Held? <==> holders[i].status.address != Unset)
        && (!g.Exhausted? ==> AddressUsable(GrantedAddress(g), pool))
    {
      GrantPeers(pool, base, holders, i);
      assert holders[i] in holders;
      if Grants(pool, base, holders)[i].Fresh? {
        assert forall a :: a in Reserved(pool) ==> a in base;
        FreshFacts(pool, base, holders, i);
      }
    }
  }

  /** No two peers of a pass are granted one address. */
  lemma GrantedAddressesDistinct(gw: Spec, current: Keys, listed: seq<Peer>, i: nat, j: nat)
    requires Accepted(gw) && DistinctIds(listed)
    requires i < j < |PassGrants(gw, current, listed)|
    requires !PassGrants(gw, current, listed)[i].Exhausted? && !PassGrants(gw, current, listed)[j].Exhausted?
    ensures GrantedAddress(PassGrants(gw, current, listed)[i]) != GrantedAddress(PassGrants(gw, current, listed)[j])
  {
    var pool, holders := Pool(gw), Holders(gw, current, listed);
    var base, gs := Used(pool, Addresses(holders)), PassGrants(gw, current, listed);
    PassGrantsFacts(gw, current, listed);
    HoldersFacts(gw, current, listed);
    BaseFacts(gw, current, listed);
    assert forall a :: a in Reserved(pool) ==> a in base;
    assert holders[i] in holders && holders[j] in holders && holders[i].id != holders[j].id;
    if gs[i].Fresh? { FreshFacts(pool, base, holders, i); }
    if gs[j].Fresh? { FreshFacts(pool, base, holders, j); }
  }
}
