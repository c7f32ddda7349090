/** The address pool of a gateway: internal/ipam/allocator.go. */
module Ipam {
  import opened Sequences
  import opened Ipv4

  // ---- specification ----

  /** deriveReservedIPs: the network address and the first host, as texts. */
  function Reserved(p: Prefix): seq<Address> {
    [Ip(Network(p)), match Next(Network(p)) case Some(g) => Ip(g) case None => Text("invalid IP")]
  }

  /** The addresses in use: the reserved ones, then every address set on a peer, in order. */
  function Used(p: Prefix, addresses: seq<Address>): seq<Address> {
    Reserved(p) + Assigned(addresses)
  }

  function Assigned(addresses: seq<Address>): seq<Address> {
    if addresses == [] then [] else
    var last := addresses[|addresses| - 1];
    Assigned(addresses[..|addresses| - 1]) + if last == Unset then [] else [last]
  }

  /** The first address at or after from, inside p, that used does not hold. */
  function FreeFrom(p: Prefix, used: seq<Address>, from: int): Option<Addr>
    requires 0 <= from
    requires Network(p) + Size(p) <= 0x1_0000_0000
    decreases Network(p) + Size(p) - from
  {
    if from >= Network(p) + Size(p) then None
    else if Ip(from) !in used then Some(from)
    else FreeFrom(p, used, from + 1)
  }

  function LeastFree(p: Prefix, used: seq<Address>): Option<Addr> {
    PrefixInterval(p, p.addr);
    FreeFrom(p, used, Network(p))
  }

  /** The texts of every address in p. */
  ghost function Block(p: Prefix): set<Address> {
    set a: Addr | Network(p) <= a < Network(p) + Size(p) :: Ip(a)
  }

  // ---- the methods of Allocator ----

  /** AllocateIP: the least address of p outside used; it fails exactly when used covers p. */
  method AllocateIP(p: Prefix, used: seq<Address>) returns (r: Option<Addr>)
    ensures r == LeastFree(p, used)
    ensures r.Some? ==> Contains(p, r.value) && Ip(r.value) !in used
    ensures r.Some? ==> forall b: Addr :: Contains(p, b) && b < r.value ==> Ip(b) in used
    ensures r.None? <==> forall b: Addr :: Contains(p, b) ==> Ip(b) in used
  {
    LeastFreeIsLeast(p, used);
    PrefixInterval(p, p.addr);
    var count, index, current: int := Size(p), 0, Network(p);
    while index != count
      invariant 0 <= index <= count && current == Network(p) + index
      invariant LeastFree(p, used) == FreeFrom(p, used, current)
      decreases count - index
    {
      if Ip(current) !in used {
        return Some(current);
      }
      index, current := index + 1, current + 1;
    }
    r := None;
  }

  /** GetUsedIPs over the status.address of each peer. */
  method GetUsedIPs(p: Prefix, addresses: seq<Address>) returns (used: seq<Address>)
    ensures used == Used(p, addresses)
    ensures forall a :: a in used <==> a in Reserved(p) || (a != Unset && a in addresses)
  {
    used := Reserved(p);
    for i := 0 to |addresses|
      invariant used == Used(p, addresses[..i])
      invariant forall a :: a in used <==> a in Reserved(p) || (a != Unset && a in addresses[..i])
    {
      assert addresses[..i + 1] == addresses[..i] + [addresses[i]];
      if addresses[i] != Unset {
        used := used + [addresses[i]];
      }
    }
    assert addresses[..|addresses|] == addresses;
  }

  // ---- properties ----

  lemma {:induction false} FreeFromIsLeast(p: Prefix, used: seq<Address>, from: int)
    requires 0 <= from && Network(p) + Size(p) <= 0x1_0000_0000
    ensures var r := FreeFrom(p, used, from);
      && (r.Some? ==> from <= r.value < Network(p) + Size(p) && Ip(r.value) !in used)
      && (forall b :: from <= b < (if r.Some? then r.value else Network(p) + Size(p)) ==> Ip(b) in used)
    decreases Network(p) + Size(p) - from
  {
    if from < Network(p) + Size(p) && Ip(from) in used {
      FreeFromIsLeast(p, used, from + 1);
    }
  }

  /** LeastFree is the least address of p that used does not hold, and none exists iff used covers p. */
  lemma LeastFreeIsLeast(p: Prefix, used: seq<Address>)
    ensures var r := LeastFree(p, used);
      && (r.Some? ==> Contains(p, r.value) && Ip(r.value) !in used)
      && (r.Some? ==> forall b: Addr :: Contains(p, b) && b < r.value ==> Ip(b) in used)
      && (r.None? <==> forall b: Addr :: Contains(p, b) ==> Ip(b) in used)
      && (r.None? <==> Block(p) <= Elements(used))
  {
    PrefixInterval(p, p.addr);
    FreeFromIsLeast(p, used, Network(p));
    var r := LeastFree(p, used);
    forall b: Addr
      ensures Contains(p, b) <==> Network(p) <= b < Network(p) + Size(p)
    {
      PrefixInterval(p, b);
    }
    if r.Some? {
      assert Ip(r.value) in Block(p);
    }
  }

  lemma {:induction false} IntervalCardinality(lo: int, n: nat)
    requires 0 <= lo && lo + n <= 0x1_0000_0000
    ensures |set a: Addr | lo <= a < lo + n :: Ip(a)| == n
  {
    var s := set a: Addr | lo <= a < lo + n :: Ip(a);
    if n == 0 {
      assert s == {};
    } else {
      IntervalCardinality(lo, n - 1);
      var rest := set a: Addr | lo <= a < lo + (n - 1) :: Ip(a);
      assert s == rest + {Ip(lo + n - 1)};
    }
  }

  lemma BlockCardinality(p: Prefix)
    ensures |Block(p)| == Size(p)
  {
    PrefixInterval(p, p.addr);
    IntervalCardinality(Network(p), Size(p));
  }

  /** Pigeonhole: a duplicate-free used list inside p holds at most Size(p) addresses, and the pool is
      exhausted exactly when it holds Size(p). */
  lemma PoolExhaustedIffFull(p: Prefix, used: seq<Address>)
    requires Distinct(used) && Elements(used) <= Block(p)
    ensures |used| <= Size(p)
    ensures LeastFree(p, used).None? <==> |used| == Size(p)
  {
    DistinctCardinality(used);
    BlockCardinality(p);
    SubsetCardinality(Elements(used), Block(p));
    LeastFreeIsLeast(p, used);
    if LeastFree(p, used).None? {
      assert Elements(used) == Block(p);
    }
  }

  /** Reserving the address just handed out makes the next one strictly larger, and exhaustion final. */
  lemma AllocationsIncrease(p: Prefix, used: seq<Address>, more: seq<Address>)
    requires Elements(used) <= Elements(more)
    ensures LeastFree(p, used).None? ==> LeastFree(p, more).None?
    ensures LeastFree(p, used).Some? && LeastFree(p, more).Some? ==>
              LeastFree(p, used).value <= LeastFree(p, more).value
    ensures LeastFree(p, used).Some? && LeastFree(p, more).Some? && Ip(LeastFree(p, used).value) in more ==>
              LeastFree(p, used).value < LeastFree(p, more).value
  {
    LeastFreeIsLeast(p, used);
    LeastFreeIsLeast(p, more);
    assert forall a :: a in used ==> a in Elements(used);
    assert forall a :: a in Elements(more) ==> a in more;
  }
}
