/** IP prefixes as `pkg/iputil` uses them: an address of one of two families
    together with a length, the subnet it lies in, and the CIDR containment
    order between prefixes (section 3.1 of RFC 4632).

    Addresses are natural numbers and both families are treated uniformly
    through `Width`.  Containment is defined on leading bits and proved equal to
    inclusion of address intervals; the interval bounds are the source's first
    and last address. */
module Prefixes {
  import opened Powers
  import opened Bits

  datatype Family = IPv4 | IPv6

  function Width(f: Family): nat {
    if f.IPv4? then 32 else 128
  }

  datatype RawPrefix = Prefix(family: Family, addr: nat, len: nat)

  type Prefix = p: RawPrefix | p.len <= Width(p.family)
    witness RawPrefix.Prefix(IPv4, 0, 0)

  // ---------------------------------------------------------------------
  // pkg/iputil
  // ---------------------------------------------------------------------

  function HostBits(p: Prefix): nat {
    Width(p.family) - p.len
  }

  /** GetFirstIPAddress. */
  function First(p: Prefix): nat {
    Shr(p.addr, HostBits(p)) * Pow2(HostBits(p))
  }

  /** GetLastIPAddress. */
  function Last(p: Prefix): nat {
    First(p) + (Pow2(HostBits(p)) - 1)
  }

  function Host(f: Family, a: nat): (r: Prefix) {
    Prefix(f, a, Width(f))
  }

  /** GetIPSubnet: the prefix with its host bits cleared. */
  function Masked(p: Prefix): (r: Prefix) {
    p.(addr := First(p))
  }

  predicate IsMasked(p: Prefix) {
    p.addr == First(p)
  }

  function AddressPrefix(p: Prefix): (r: Prefix) { Host(p.family, p.addr) }

  function FirstPrefix(p: Prefix): (r: Prefix) { Host(p.family, First(p)) }

  function LastPrefix(p: Prefix): (r: Prefix) { Host(p.family, Last(p)) }

  predicate IsAddressPrefix(p: Prefix) { p.len == Width(p.family) }

  predicate IsFirst(p: Prefix) { First(p) == p.addr }

  predicate IsLast(p: Prefix) { Last(p) == p.addr }

  predicate IsNorLastNorFirst(p: Prefix) { !IsFirst(p) && !IsLast(p) }

  /** IsPrefixPresentInSubnetMap; prefixes print differently exactly when they
      differ, so comparing their text is comparing them. */
  predicate IsPresentInSubnetMap(p: Prefix, q: Prefix) {
    q == Masked(p) || q == FirstPrefix(p) || q == LastPrefix(p) || q == AddressPrefix(p)
  }

  /** The first address clears the host bits: addr - addr mod 2^(W-len). */
  lemma FirstClearsHostBits(p: Prefix)
    ensures First(p) == p.addr - p.addr % Pow2(HostBits(p))
    ensures First(p) <= p.addr <= Last(p)
  {
    var k := HostBits(p);
    ShrBounds(p.addr, k);
    var s, w := Shr(p.addr, k), Pow2(k);
    var r := p.addr - s * w;
    assert p.addr == s * w + r && 0 <= r < w;
    ModuloOfSum(s, w, r);
  }

  /** Subnet bounds of an address that fits the family fit the family. */
  lemma BoundsStayInFamily(p: Prefix)
    requires p.addr < Pow2(Width(p.family))
    ensures First(p) <= Last(p) < Pow2(Width(p.family))
  {
    var k := HostBits(p);
    FirstClearsHostBits(p);
    Pow2Splits(k, p.len);
    ShrBounds(p.addr, k);
    ScaleFits(Shr(p.addr, k), Pow2(p.len), Pow2(k), p.addr);
  }

  // ---------------------------------------------------------------------
  // Containment
  // ---------------------------------------------------------------------

  /** `q` lies in the subnet of `p`: same family, at least as long, and the
      leading `p.len` bits agree. */
  predicate Covers(p: Prefix, q: Prefix) {
    && p.family == q.family
    && p.len <= q.len
    && Shr(p.addr, HostBits(p)) == Shr(q.addr, HostBits(p))
  }

  /** Strictly more specific. */
  predicate Inside(q: Prefix, p: Prefix) {
    Covers(p, q) && p.len < q.len
  }

  /** No address belongs to both. */
  predicate Disjoint(p: Prefix, q: Prefix) {
    p.family != q.family || Last(p) < First(q) || Last(q) < First(p)
  }

  lemma CoversTransitive(p: Prefix, q: Prefix, r: Prefix)
    requires Covers(p, q) && Covers(q, r)
    ensures Covers(p, r)
    ensures p.len < q.len || q.len < r.len ==> Inside(r, p)
  {
    ShrAgree(q.addr, r.addr, HostBits(q), HostBits(p));
  }

  /** Two prefixes that contain a common one are comparable. */
  lemma AncestorsComparable(p: Prefix, q: Prefix, r: Prefix)
    requires Covers(p, r) && Covers(q, r)
    ensures Covers(p, q) || Covers(q, p)
    ensures p.len <= q.len ==> Covers(p, q)
    ensures q.len <= p.len ==> Covers(q, p)
  {
    if p.len <= q.len {
      ShrAgree(q.addr, r.addr, HostBits(q), HostBits(p));
    }
    if q.len <= p.len {
      ShrAgree(p.addr, r.addr, HostBits(p), HostBits(q));
    }
  }

  /** Masked prefixes of equal length containing one another are equal. */
  lemma CoversSameLength(p: Prefix, q: Prefix)
    requires IsMasked(p) && IsMasked(q) && Covers(p, q) && p.len == q.len
    ensures p == q
  {
  }

  /** Masking changes neither what a prefix contains nor what contains it. */
  lemma MaskedCovers(p: Prefix)
    ensures IsMasked(Masked(p))
    ensures Covers(p, Masked(p)) && Covers(Masked(p), p)
  {
    var k := HostBits(p);
    ShrUnique(First(p), k, Shr(p.addr, k));
  }

  /** Containment of prefixes is inclusion of their address intervals. */
  lemma CoversIsInterval(p: Prefix, q: Prefix)
    ensures Covers(p, q) <==>
            p.family == q.family && First(p) <= First(q) && Last(q) <= Last(p)
  {
    var k := HostBits(p);
    FirstClearsHostBits(q);
    if p.family == q.family && First(p) <= First(q) && Last(q) <= Last(p) {
      if q.len < p.len {
        Pow2Increases(k, HostBits(q));
        assert false;
      }
      ShrUnique(q.addr, k, Shr(p.addr, k));
    }
    if Covers(p, q) {
      ShrBounds(q.addr, k);
      assert First(p) <= q.addr <= Last(p);
      BlocksNest(Shr(q.addr, k), k, Shr(q.addr, HostBits(q)), HostBits(q), q.addr);
    }
  }

  /** Prefixes are laminar: they nest or share no address, never both. */
  lemma Laminar(p: Prefix, q: Prefix)
    ensures Disjoint(p, q) <==> !Covers(p, q) && !Covers(q, p)
  {
    CoversIsInterval(p, q);
    CoversIsInterval(q, p);
    FirstClearsHostBits(p);
    FirstClearsHostBits(q);
    if p.family == q.family && !Disjoint(p, q) {
      // an address in both: the larger of the two first addresses
      var a := if First(p) <= First(q) then First(q) else First(p);
      var r := Host(p.family, a);
      HostCovered(p, a);
      HostCovered(q, a);
      AncestorsComparable(p, q, r);
    }
  }

  /** An address in the interval of a prefix is a host of that prefix. */
  lemma HostCovered(p: Prefix, a: nat)
    requires First(p) <= a <= Last(p)
    ensures Covers(p, Host(p.family, a))
  {
    ShrUnique(a, HostBits(p), Shr(p.addr, HostBits(p)));
  }

  /** Host prefixes are masked and cover only themselves. */
  lemma HostFacts(f: Family, a: nat)
    ensures IsMasked(Host(f, a))
    ensures First(Host(f, a)) == a == Last(Host(f, a))
  {
  }

  /** Disjointness is inherited by what lies inside. */
  lemma DisjointInherited(p: Prefix, q: Prefix, r: Prefix)
    requires Covers(p, r) && Disjoint(p, q)
    ensures Disjoint(r, q)
  {
    CoversIsInterval(p, r);
  }

  // ---------------------------------------------------------------------
  // Table order
  // ---------------------------------------------------------------------

  /** Address first, then length; IPv4 before IPv6. */
  predicate Before(p: Prefix, q: Prefix) {
    if p.family != q.family then p.family.IPv4?
    else p.addr < q.addr || (p.addr == q.addr && p.len < q.len)
  }

  /** In table order a prefix comes before everything strictly inside it. */
  lemma AncestorFirst(p: Prefix, q: Prefix)
    requires IsMasked(p) && Inside(q, p)
    ensures Before(p, q)
  {
    ShrBounds(q.addr, HostBits(p));
  }
}
