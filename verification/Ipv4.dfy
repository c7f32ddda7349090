/** IPv4 addresses as integers and prefixes as (address, length), with net/netip's operations on them.
    Prefix notation follows section 3.1 of RFC 4632. */
module Ipv4 {
  import opened Sequences

  type Addr = a: int | 0 <= a < 0x1_0000_0000
  type Bits = n: int | 0 <= n <= 32

  datatype Prefix = Prefix(addr: Addr, bits: Bits)

  type Octet = n: int | 0 <= n < 256

  /** The address a.b.c.d. */
  function Dotted(a: Octet, b: Octet, c: Octet, d: Octet): Addr {
    ((a * 256 + b) * 256 + c) * 256 + d
  }

  /** The text of an address field: empty, a canonical IPv4 address, or anything else (unparseable, IPv6,
      IPv4-mapped). net/netip accepts exactly one spelling of each IPv4 address, so equal addresses are
      equal texts. */
  datatype Address = Unset | Ip(ip: Addr) | Text(text: string)

  function Pow2(n: nat): (r: int)
    ensures r > 0
  {
    if n == 0 then 1 else 2 * Pow2(n - 1)
  }

  /** The number of addresses in p. */
  function Size(p: Prefix): (r: int)
    ensures r > 0
  {
    Pow2(32 - p.bits)
  }

  /** The first address of p: Masked().Addr(). */
  function Network(p: Prefix): (a: Addr)
    ensures a <= p.addr < a + Size(p)
  {
    DivMod(p.addr, Size(p));
    p.addr - p.addr % Size(p)
  }

  function Masked(p: Prefix): Prefix {
    Prefix(Network(p), p.bits)
  }

  predicate Contains(p: Prefix, a: Addr) {
    a / Size(p) == p.addr / Size(p)
  }

  /** Addr.Next: the last IPv4 address has no successor. */
  function Next(a: Addr): Option<Addr> {
    if a + 1 < 0x1_0000_0000 then Some(a + 1) else None
  }

  /** Prefix.Overlaps: the shorter length decides, and the two masked addresses are compared. */
  predicate Overlaps(p: Prefix, o: Prefix) {
    p == o || var shorter := if p.bits < o.bits then p.bits else o.bits;
    shorter == 0 || Network(Prefix(p.addr, shorter)) == Network(Prefix(o.addr, shorter))
  }

  // ---- arithmetic ----

  lemma {:induction false} Pow2Sum(m: nat, n: nat)
    ensures Pow2(m + n) == Pow2(m) * Pow2(n)
  {
    if m > 0 {
      Pow2Sum(m - 1, n);
      assert Pow2(m + n) == 2 * Pow2(m - 1 + n);
    }
  }

  lemma {:induction false} Pow2Monotone(m: nat, n: nat)
    requires m <= n
    ensures Pow2(m) <= Pow2(n)
  {
    if m < n {
      Pow2Monotone(m, n - 1);
    }
  }

  lemma Pow2Of32()
    ensures Pow2(32) == 0x1_0000_0000
  {
    assert Pow2(8) == 256;
    Pow2Sum(8, 8);
    Pow2Sum(16, 16);
  }

  lemma DivMod(a: int, s: int)
    requires s > 0
    ensures a == (a / s) * s + a % s && 0 <= a % s < s
    ensures a >= 0 ==> a / s >= 0 && (a / s) * s >= 0 && a % s <= a
  {
    if a >= 0 {
      ProductSign(a / s, s);
    }
  }

  /** Multiples of d at different factors are at least d apart. */
  lemma MultiplesApart(q: int, q': int, d: int)
    requires d > 0
    ensures q > q' ==> q * d >= q' * d + d
    ensures q < q' ==> q * d + d <= q' * d
  {
    ProductSign(q - q' - 1, d);
    ProductSign(q' - q - 1, d);
    assert (q - q' - 1) * d == q * d - q' * d - d;
    assert (q' - q - 1) * d == q' * d - q * d - d;
  }

  lemma ProductSign(x: int, d: int)
    requires d > 0
    ensures x >= 0 ==> x * d >= 0
  {
  }

  lemma QuotientUnique(a: int, d: int, q: int, r: int)
    requires d > 0 && a == q * d + r && 0 <= r < d
    ensures a / d == q && a % d == r
  {
    MultiplesApart(q, a / d, d);
    DivMod(a, d);
  }

  /** Equal quotients are exactly the members of one aligned block. */
  lemma BlockOfQuotient(a: int, b: int, s: int)
    requires s > 0
    ensures a / s == b / s <==> b - b % s <= a < b - b % s + s
  {
    DivMod(a, s);
    DivMod(b, s);
    MultiplesApart(a / s, b / s, s);
  }

  /** The block of a prefix is the interval [Network, Network + Size), and it never runs past the last
      IPv4 address. */
  lemma PrefixInterval(p: Prefix, a: Addr)
    ensures Contains(p, a) <==> Network(p) <= a < Network(p) + Size(p)
    ensures Network(p) + Size(p) <= 0x1_0000_0000
  {
    BlockOfQuotient(a, p.addr, Size(p));
    Pow2Sum(p.bits, 32 - p.bits);
    Pow2Of32();
    AlignedBelow(p.addr, Pow2(p.bits), Size(p));
  }

  lemma AlignedBelow(a: int, t: int, s: int)
    requires s > 0 && a < t * s
    ensures a - a % s + s <= t * s
  {
    DivMod(a, s);
    MultiplesApart(a / s, t, s);
  }

  lemma NetworkOfMasked(p: Prefix)
    ensures Network(Masked(p)) == Network(p)
    ensures Masked(Masked(p)) == Masked(p)
  {
    var s := Size(p);
    DivMod(p.addr, s);
    QuotientUnique((p.addr / s) * s, s, p.addr / s, 0);
  }

  /** Dividing twice is dividing by the product. */
  lemma DivideTwice(a: int, s: int, m: int)
    requires a >= 0 && s > 0 && m > 0
    ensures s * m > 0
    ensures (a / s) / m == a / (s * m)
  {
    DivMod(a, s);
    DivMod(a / s, m);
    DigitBound((a / s) % m, m, s, a % s);
    Regroup((a / s) / m, m, (a / s) % m, s);
    QuotientUnique(a, s * m, (a / s) / m, ((a / s) % m) * s + a % s);
  }

  lemma Regroup(k: int, m: int, j: int, s: int)
    ensures (k * m + j) * s == k * (s * m) + j * s
  {
  }

  lemma DigitBound(j: int, m: int, s: int, r: int)
    requires 0 <= j < m && 0 <= r < s
    ensures s * m > 0 && 0 <= j * s + r < s * m
  {
    MultiplesApart(j, m, s);
    MultiplesApart(0, m, s);
    ProductSign(j, s);
  }

  /** A prefix shortened to n bits keeps every address it contained. */
  lemma ShorterContains(p: Prefix, n: Bits, a: Addr)
    requires n <= p.bits && Contains(p, a)
    ensures Contains(Prefix(p.addr, n), a)
  {
    var s, m := Size(p), Pow2(p.bits - n);
    Pow2Sum(32 - p.bits, p.bits - n);
    assert Size(Prefix(p.addr, n)) == s * m;
    DivideTwice(a, s, m);
    DivideTwice(p.addr, s, m);
  }

  lemma SameQuotientSameNetwork(p: Prefix, o: Prefix)
    requires p.bits == o.bits
    ensures p.addr / Size(p) == o.addr / Size(o) <==> Network(p) == Network(o)
  {
    SameBlock(p.addr, o.addr, Size(p));
  }

  lemma SameBlock(a: int, b: int, s: int)
    requires s > 0
    ensures a / s == b / s <==> a - a % s == b - b % s
  {
    DivMod(a, s);
    DivMod(b, s);
    MultiplesApart(a / s, b / s, s);
  }

  /** Overlaps holds exactly when the two prefixes share an address. */
  lemma OverlapsIffShared(p: Prefix, o: Prefix)
    ensures Overlaps(p, o) <==> exists a: Addr :: Contains(p, a) && Contains(o, a)
  {
    if a: Addr :| Contains(p, a) && Contains(o, a) {
      SharedImpliesOverlaps(p, o, a);
    }
    if Overlaps(p, o) {
      if p.bits <= o.bits {
        LongerNetworkShared(p, o);
      } else {
        LongerNetworkShared(o, p);
      }
    }
  }

  lemma SharedImpliesOverlaps(p: Prefix, o: Prefix, a: Addr)
    requires Contains(p, a) && Contains(o, a)
    ensures Overlaps(p, o)
  {
    var n := if p.bits < o.bits then p.bits else o.bits;
    ShorterContains(p, n, a);
    ShorterContains(o, n, a);
    SameQuotientSameNetwork(Prefix(p.addr, n), Prefix(o.addr, n));
  }

  lemma LongerNetworkShared(short: Prefix, long: Prefix)
    requires short.bits <= long.bits && Overlaps(short, long)
    ensures Contains(short, long.addr) && Contains(long, long.addr)
  {
    if short.bits == 0 {
      Pow2Of32();
      assert Size(short) == 0x1_0000_0000;
      QuotientUnique(long.addr, 0x1_0000_0000, 0, long.addr);
      QuotientUnique(short.addr, 0x1_0000_0000, 0, short.addr);
    } else {
      SameQuotientSameNetwork(short, Prefix(long.addr, short.bits));
    }
  }

  /** A prefix of length zero is the whole address space. */
  lemma ZeroLengthContainsAll(p: Prefix, a: Addr)
    requires p.bits == 0
    ensures Contains(p, a)
  {
    Pow2Of32();
    QuotientUnique(a, 0x1_0000_0000, 0, a);
    QuotientUnique(p.addr, 0x1_0000_0000, 0, p.addr);
  }
}
