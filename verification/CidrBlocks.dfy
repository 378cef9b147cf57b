/** CIDR blocks of one address family (section 3.1 of RFC 4632). The family enters as the
    address width `bits`: 32 for IPv4 and 128 for IPv6. */
module CidrBlocks {
  import opened Options

  function Pow2(n: nat): (p: nat)
    ensures p >= 1
  {
    if n == 0 then 1 else 2 * Pow2(n - 1)
  }

  /** The stored text of a prefix: an address and a length, or text that is not of that form. */
  datatype Cidr = Cidr(address: nat, length: nat) | Malformed

  datatype Block = Block(base: nat, length: nat)

  function Size(bits: nat, b: Block): (s: nat)
    requires b.length <= bits
    ensures s >= 1
  {
    Pow2(bits - b.length)
  }

  /** The low `k` bits of an address are zero. */
  predicate LowBitsClear(n: nat, k: nat)
    decreases k
  {
    k == 0 || (n % 2 == 0 && LowBitsClear(n / 2, k - 1))
  }

  predicate WellFormed(bits: nat, b: Block) {
    && b.length <= bits
    && LowBitsClear(b.base, bits - b.length)
    && b.base + Size(bits, b) <= Pow2(bits)
  }

  /** The last address of a block. */
  function Last(bits: nat, b: Block): nat
    requires b.length <= bits
  {
    b.base + Size(bits, b) - 1
  }

  predicate Contains(bits: nat, b: Block, a: int)
    requires b.length <= bits
  {
    b.base <= a <= Last(bits, b)
  }

  /** `ip_network(text, strict=True)`: host bits must be clear. */
  function ParseStrict(bits: nat, c: Cidr): (r: Option<Block>)
    ensures r.Some? ==> WellFormed(bits, r.value)
  {
    match c
    case Malformed => None
    case Cidr(address, length) =>
      var b := Block(address, length);
      if WellFormed(bits, b) then Some(b) else None
  }

  /** `overlaps` compares end points only. */
  predicate Overlaps(bits: nat, a: Block, b: Block)
    requires a.length <= bits && b.length <= bits
  {
    || Contains(bits, b, a.base)
    || Contains(bits, b, Last(bits, a))
    || Contains(bits, a, b.base)
    || Contains(bits, a, Last(bits, b))
  }

  /** `subnet_of` compares end points only. */
  predicate SubnetOf(bits: nat, a: Block, b: Block)
    requires a.length <= bits && b.length <= bits
  {
    b.base <= a.base && Last(bits, b) >= Last(bits, a)
  }

  predicate StrictlyInside(bits: nat, a: Block, b: Block)
    requires a.length <= bits && b.length <= bits
  {
    SubnetOf(bits, a, b) && a != b
  }

  lemma {:induction false} Pow2Add(m: nat, n: nat)
    ensures Pow2(m + n) == Pow2(m) * Pow2(n)
  {
    if m > 0 {
      Pow2Add(m - 1, n);
      assert Pow2(m + n) == 2 * Pow2((m - 1) + n);
    }
  }

  lemma Pow2Monotone(m: nat, n: nat)
    requires m < n
    ensures Pow2(m) < Pow2(n)
  {
    if m + 1 < n {
      Pow2Monotone(m, n - 1);
    }
  }

  lemma MulMonotone(s: int, p: int, q: int)
    requires s > 0 && p <= q
    ensures s * p <= s * q
  {
    assert s * (q - p) >= 0;
  }

  lemma MulCancelLess(s: int, p: int, q: int)
    requires s > 0 && s * p < s * q
    ensures p < q
  {
    if p >= q {
      MulMonotone(s, q, p);
    }
  }

  /** Two half-open ranges, one of `m` times the other's length and both aligned to their own
      length: if they meet, the smaller lies inside the larger. */
  lemma AlignedRangesNest(s: int, m: int, large: int, p: int, q: int, x: int)
    requires s > 0 && m > 0 && large == s * m
    requires s * p <= x < s * p + s
    requires large * q <= x < large * q + large
    ensures large * q <= s * p && s * p + s <= large * q + large
  {
    var t := m * q;
    assert large * q == s * t;
    assert s * (t + m) == s * t + s * m;
    assert s * (p + 1) == s * p + s;
    MulCancelLess(s, p, t + m);
    MulCancelLess(s, t, p + 1);
    MulMonotone(s, t, p);
    MulMonotone(s, p + 1, t + m);
  }

  lemma {:induction false} AlignedIsMultiple(n: nat, k: nat) returns (q: nat)
    requires LowBitsClear(n, k)
    ensures n == Pow2(k) * q
    decreases k
  {
    if k == 0 {
      q := n;
    } else {
      q := AlignedIsMultiple(n / 2, k - 1);
      assert n == 2 * (Pow2(k - 1) * q);
    }
  }

  lemma {:induction false} LowBitsOfMultiple(q: nat, k: nat)
    ensures Pow2(k) * q >= 0 && LowBitsClear(Pow2(k) * q, k)
    decreases k
  {
    assert Pow2(k) * q >= 0;
    if k > 0 {
      LowBitsOfMultiple(q, k - 1);
      assert Pow2(k) * q == 2 * (Pow2(k - 1) * q);
    }
  }

  lemma RemainderOfMultiple(s: int, q: int)
    requires s > 0 && q >= 0
    ensures (s * q) % s == 0
  {
    var d := (s * q) / s;
    assert s * q == s * d + (s * q) % s;
    assert s * (d + 1) == s * d + s && s * (q + 1) == s * q + s;
    MulCancelLess(s, q, d + 1);
    MulCancelLess(s, d, q + 1);
    assert d == q;
  }

  lemma ClearBitsAreRemainder(n: nat, k: nat)
    ensures LowBitsClear(n, k) <==> n % Pow2(k) == 0
  {
    if LowBitsClear(n, k) {
      var q := AlignedIsMultiple(n, k);
      RemainderOfMultiple(Pow2(k), q);
    }
    if n % Pow2(k) == 0 {
      var q := n / Pow2(k);
      assert n == Pow2(k) * q;
      LowBitsOfMultiple(q, k);
    }
  }

  /** An aligned block that starts inside the address space ends inside it. */
  lemma AlignedBlockFits(bits: nat, b: Block)
    requires b.length <= bits && b.base < Pow2(bits) && LowBitsClear(b.base, bits - b.length)
    ensures b.base + Size(bits, b) <= Pow2(bits)
  {
    hide Pow2, LowBitsClear;
    var s := Size(bits, b);
    var q := AlignedIsMultiple(b.base, bits - b.length);
    Pow2Add(bits - b.length, b.length);
    assert bits - b.length + b.length == bits;
    MulCancelLess(s, q, Pow2(b.length));
    MulMonotone(s, q + 1, Pow2(b.length));
    assert s * (q + 1) == s * q + s;
  }

  /** Strict parsing accepts exactly an address of the family that is a multiple of the block size, and
      keeps address and length. */
  lemma ParseStrictExactly(bits: nat, c: Cidr)
    ensures ParseStrict(bits, c).Some? <==>
              c.Cidr? && c.length <= bits && c.address < Pow2(bits) && c.address % Pow2(bits - c.length) == 0
    ensures ParseStrict(bits, c).Some? ==> ParseStrict(bits, c) == Some(Block(c.address, c.length))
  {
    hide Pow2, LowBitsClear;
    if c.Cidr? && c.length <= bits {
      ClearBitsAreRemainder(c.address, bits - c.length);
      if c.address < Pow2(bits) && LowBitsClear(c.address, bits - c.length) {
        AlignedBlockFits(bits, Block(c.address, c.length));
      }
    }
  }

  /** A block that shares an address with a block at least as large lies inside it. */
  lemma SharedMeansInside(bits: nat, a: Block, b: Block, x: int)
    requires WellFormed(bits, a) && WellFormed(bits, b) && b.length <= a.length
    requires Contains(bits, a, x) && Contains(bits, b, x)
    ensures SubnetOf(bits, a, b)
  {
    hide Pow2, LowBitsClear;
    var s, m := Size(bits, a), Pow2(a.length - b.length);
    Pow2Add(a.length - b.length, bits - a.length);
    var p := AlignedIsMultiple(a.base, bits - a.length);
    var q := AlignedIsMultiple(b.base, bits - b.length);
    var large := Size(bits, b);
    assert large == s * m && a.base == s * p && b.base == large * q;
    AlignedRangesNest(s, m, large, p, q, x);
  }

  /** Two strictly parsed blocks of one family are nested or share no address. */
  lemma Laminar(bits: nat, a: Block, b: Block)
    requires WellFormed(bits, a) && WellFormed(bits, b)
    ensures SubnetOf(bits, a, b) || SubnetOf(bits, b, a) || forall x :: !(Contains(bits, a, x) && Contains(bits, b, x))
  {
    if x :| Contains(bits, a, x) && Contains(bits, b, x) {
      if b.length <= a.length {
        SharedMeansInside(bits, a, b, x);
      } else {
        SharedMeansInside(bits, b, a, x);
      }
    }
  }

  /** The end-point test of `overlaps` finds every shared address, and overlap is always nesting:
      the branch for a partial overlap is dead. */
  lemma OverlapIsNesting(bits: nat, a: Block, b: Block)
    requires WellFormed(bits, a) && WellFormed(bits, b)
    ensures Overlaps(bits, a, b) <==> exists x :: Contains(bits, a, x) && Contains(bits, b, x)
    ensures Overlaps(bits, a, b) <==> SubnetOf(bits, a, b) || SubnetOf(bits, b, a)
  {
    Laminar(bits, a, b);
    assert Contains(bits, a, a.base) && Contains(bits, a, Last(bits, a));
    assert Contains(bits, b, b.base) && Contains(bits, b, Last(bits, b));
    if x :| Contains(bits, a, x) && Contains(bits, b, x) {
      if !SubnetOf(bits, a, b) {
        assert SubnetOf(bits, b, a);
      }
    }
  }

  /** Every address of `a` is one of `b`. */
  ghost predicate Within(bits: nat, a: Block, b: Block)
    requires a.length <= bits && b.length <= bits
  {
    forall x :: Contains(bits, a, x) ==> Contains(bits, b, x)
  }

  /** The end-point test of `subnet_of` is inclusion of addresses, and blocks with the same addresses are the
      same. */
  lemma SameAddresses(bits: nat, a: Block, b: Block)
    requires WellFormed(bits, a) && WellFormed(bits, b)
    ensures SubnetOf(bits, a, b) <==> Within(bits, a, b)
    ensures a == b <==> Within(bits, a, b) && Within(bits, b, a)
  {
    assert Contains(bits, a, a.base) && Contains(bits, a, Last(bits, a));
    assert Contains(bits, b, b.base) && Contains(bits, b, Last(bits, b));
    if SubnetOf(bits, a, b) && SubnetOf(bits, b, a) {
      InsideIsLonger(bits, a, b);
      InsideIsLonger(bits, b, a);
    }
  }

  /** Strict nesting is exactly nesting with a longer prefix. */
  lemma InsideIsLonger(bits: nat, a: Block, b: Block)
    requires WellFormed(bits, a) && WellFormed(bits, b) && SubnetOf(bits, a, b)
    ensures a.length >= b.length
    ensures a.length == b.length <==> a == b
  {
    if a.length < b.length {
      Pow2Monotone(bits - b.length, bits - a.length);
      assert false;
    }
  }

  // ----------------------------------------------------------------------------- usable hosts

  datatype Family = IPv4 | IPv6

  function Bits(f: Family): nat {
    if f == IPv4 then 32 else 128
  }

  /** `hosts()`: both addresses of a two-address block (section 2.1 of RFC 3021 for IPv4), the single
      address of a host block, otherwise all but the first and, for IPv4 only, the last. */
  function FirstHost(f: Family, b: Block): nat
    requires b.length <= Bits(f)
  {
    if b.length + 1 >= Bits(f) then b.base else b.base + 1
  }

  function HostEnd(f: Family, b: Block): nat
    requires b.length <= Bits(f)
  {
    if b.length + 1 >= Bits(f) || f == IPv6 then Last(Bits(f), b) + 1 else Last(Bits(f), b)
  }

  predicate Usable(f: Family, b: Block, a: int)
    requires b.length <= Bits(f)
  {
    FirstHost(f, b) <= a < HostEnd(f, b)
  }

  /** Exactly the first and last address of an IPv4 block of four or more are not usable. */
  lemma UsableHosts(f: Family, b: Block, a: int)
    requires b.length <= Bits(f)
    ensures FirstHost(f, b) < HostEnd(f, b)
    ensures Usable(f, b, a) <==>
              && Contains(Bits(f), b, a)
              && (Size(Bits(f), b) >= 4 ==> a != b.base && (f == IPv4 ==> a != Last(Bits(f), b)))
  {
    var free := Bits(f) - b.length;
    assert Pow2(0) == 1 && Pow2(1) == 2 && Pow2(2) == 4;
    if free > 2 {
      Pow2Monotone(2, free);
    }
  }
}
