/** Choosing the next address of a prefix. */
module IpAllocation {
  import opened Options
  import opened CidrBlocks

  datatype Status = Active | Dhcp | Reserved | Deprecated

  datatype AddressRow = AddressRow(address: nat, prefix: nat, status: Status)

  datatype Allocation = Allocated(address: nat) | InvalidNetwork | Exhausted

  /** The addresses of a prefix that are taken: a deprecated row does not hold its address. */
  function Used(rows: seq<AddressRow>, prefix: nat): set<nat> {
    set i | 0 <= i < |rows| && rows[i].prefix == prefix && rows[i].status != Deprecated :: rows[i].address
  }

  /** The first address of lo..hi that is not used. */
  function FirstFree(lo: nat, hi: nat, used: set<nat>): (r: Option<nat>)
    ensures r.None? ==> forall a :: lo <= a < hi ==> a in used
    ensures r.Some? ==> lo <= r.value < hi && r.value !in used && forall a :: lo <= a < r.value ==> a in used
    decreases hi - lo
  {
    if lo >= hi then None
    else if lo !in used then Some(lo)
    else FirstFree(lo + 1, hi, used)
  }

  function NextAvailableIp(f: Family, prefix: nat, cidr: Cidr, rows: seq<AddressRow>): (r: Allocation)
    ensures r.InvalidNetwork? <==> ParseStrict(Bits(f), cidr).None?
    ensures r.Exhausted? ==>
              forall a: nat :: Usable(f, ParseStrict(Bits(f), cidr).value, a) ==> a in Used(rows, prefix)
    ensures r.Allocated? ==>
              && Usable(f, ParseStrict(Bits(f), cidr).value, r.address)
              && r.address !in Used(rows, prefix)
              && forall a: nat :: Usable(f, ParseStrict(Bits(f), cidr).value, a) && a < r.address ==>
                  a in Used(rows, prefix)
  {
    match ParseStrict(Bits(f), cidr)
    case None => InvalidNetwork
    case Some(b) =>
      match FirstFree(FirstHost(f, b), HostEnd(f, b), Used(rows, prefix))
      case None => Exhausted
      case Some(a) => Allocated(a)
  }

  /** Some row of the prefix holds the address: any but a deprecated one. */
  ghost predicate Held(rows: seq<AddressRow>, prefix: nat, a: nat) {
    exists i :: 0 <= i < |rows| && rows[i] == AddressRow(a, prefix, rows[i].status)
                && rows[i].status in {Active, Dhcp, Reserved}
  }

  lemma UsedIsHeld(rows: seq<AddressRow>, prefix: nat, a: nat)
    ensures a in Used(rows, prefix) <==> Held(rows, prefix, a)
  {
  }

  /** On the rows: the address given is usable and held by none, and every lower usable one is held; there is
      none exactly when every usable address is held. */
  lemma AllocationByRows(f: Family, prefix: nat, cidr: Cidr, rows: seq<AddressRow>)
    requires ParseStrict(Bits(f), cidr).Some?
    ensures var r, b := NextAvailableIp(f, prefix, cidr, rows), ParseStrict(Bits(f), cidr).value;
            && (r.Allocated? ==>
                  && Usable(f, b, r.address) && !Held(rows, prefix, r.address)
                  && forall a: nat :: Usable(f, b, a) && a < r.address ==> Held(rows, prefix, a))
            && (r == Exhausted <==> forall a: nat :: Usable(f, b, a) ==> Held(rows, prefix, a))
  {
    hide Used, Held, Usable;
    forall a: nat
      ensures a in Used(rows, prefix) <==> Held(rows, prefix, a)
    {
      UsedIsHeld(rows, prefix, a);
    }
  }

  // ------------------------------------------------------------------------- repeated allocation

  /** `n` times: allocate, then store the address as active. The result is None when one fails. */
  function AllocateAndStore(f: Family, prefix: nat, cidr: Cidr, rows: seq<AddressRow>, n: nat): Option<seq<nat>>
    decreases n
  {
    if n == 0 then Some([]) else
    match NextAvailableIp(f, prefix, cidr, rows)
    case Allocated(a) =>
      (match AllocateAndStore(f, prefix, cidr, rows + [AddressRow(a, prefix, Active)], n - 1)
       case Some(rest) => Some([a] + rest)
       case None => None)
    case _ => None
  }

  /** The free addresses of lo..hi, in ascending order. */
  function FreeHosts(lo: nat, hi: nat, used: set<nat>): seq<nat>
    decreases hi - lo
  {
    if lo >= hi then []
    else if lo in used then FreeHosts(lo + 1, hi, used)
    else [lo] + FreeHosts(lo + 1, hi, used)
  }

  lemma {:induction false} FreeHostsAscend(lo: nat, hi: nat, used: set<nat>)
    ensures var s := FreeHosts(lo, hi, used);
            && (forall i, j :: 0 <= i < j < |s| ==> s[i] < s[j])
            && (forall a :: a in s <==> lo <= a < hi && a !in used)
    decreases hi - lo
  {
    if lo < hi {
      FreeHostsAscend(lo + 1, hi, used);
      var t := FreeHosts(lo + 1, hi, used);
      assert forall j :: 0 <= j < |t| ==> t[j] in t;
    }
  }

  lemma {:induction false} UsedBelowIsIrrelevant(lo: nat, hi: nat, used: set<nat>, a: nat)
    requires a < lo
    ensures FreeHosts(lo, hi, used + {a}) == FreeHosts(lo, hi, used)
    decreases hi - lo
  {
    if lo < hi {
      UsedBelowIsIrrelevant(lo + 1, hi, used, a);
    }
  }

  /** The first free host heads the list, and using it leaves the rest of the list. */
  lemma {:induction false} TakeFirstFree(lo: nat, hi: nat, used: set<nat>)
    ensures FirstFree(lo, hi, used).None? <==> FreeHosts(lo, hi, used) == []
    ensures var s := FreeHosts(lo, hi, used);
            s != [] ==> FirstFree(lo, hi, used) == Some(s[0]) && FreeHosts(lo, hi, used + {s[0]}) == s[1..]
    decreases hi - lo
  {
    if lo < hi {
      if lo in used {
        TakeFirstFree(lo + 1, hi, used);
      } else {
        UsedBelowIsIrrelevant(lo + 1, hi, used, lo);
      }
    }
  }

  lemma StoreUses(rows: seq<AddressRow>, prefix: nat, a: nat)
    ensures Used(rows + [AddressRow(a, prefix, Active)], prefix) == Used(rows, prefix) + {a}
  {
    var after := rows + [AddressRow(a, prefix, Active)];
    assert after[|rows|].address == a;
    forall x | x in Used(rows, prefix) + {a}
      ensures x in Used(after, prefix)
    {
      if x in Used(rows, prefix) {
        var i :| 0 <= i < |rows| && rows[i].prefix == prefix && rows[i].status != Deprecated && rows[i].address == x;
        assert after[i] == rows[i];
      }
    }
  }

  function FreeOf(f: Family, prefix: nat, cidr: Cidr, rows: seq<AddressRow>): seq<nat>
    requires ParseStrict(Bits(f), cidr).Some?
  {
    var b := ParseStrict(Bits(f), cidr).value;
    FreeHosts(FirstHost(f, b), HostEnd(f, b), Used(rows, prefix))
  }

  lemma OneAllocation(f: Family, prefix: nat, cidr: Cidr, rows: seq<AddressRow>)
    requires ParseStrict(Bits(f), cidr).Some?
    ensures var free := FreeOf(f, prefix, cidr, rows);
            && NextAvailableIp(f, prefix, cidr, rows) == (if free == [] then Exhausted else Allocated(free[0]))
            && (free != [] ==> FreeOf(f, prefix, cidr, rows + [AddressRow(free[0], prefix, Active)]) == free[1..])
  {
    var b := ParseStrict(Bits(f), cidr).value;
    TakeFirstFree(FirstHost(f, b), HostEnd(f, b), Used(rows, prefix));
    var free := FreeOf(f, prefix, cidr, rows);
    if free != [] {
      StoreUses(rows, prefix, free[0]);
    }
  }

  /** Repeated allocation hands out exactly the free hosts, in ascending order and without repeats,
      and fails exactly when they run out. */
  lemma {:induction false} AllocationsInOrder(f: Family, prefix: nat, cidr: Cidr, rows: seq<AddressRow>, n: nat)
    requires ParseStrict(Bits(f), cidr).Some?
    ensures var free := FreeOf(f, prefix, cidr, rows);
            AllocateAndStore(f, prefix, cidr, rows, n) == if n <= |free| then Some(free[..n]) else None
    decreases n
  {
    var free := FreeOf(f, prefix, cidr, rows);
    OneAllocation(f, prefix, cidr, rows);
    if n > 0 && free != [] {
      var after := rows + [AddressRow(free[0], prefix, Active)];
      AllocationsInOrder(f, prefix, cidr, after, n - 1);
      if n <= |free| {
        assert [free[0]] + free[1..][..n - 1] == free[..n];
      }
    }
  }

  lemma {:induction false} AllFree(lo: nat, hi: nat)
    requires lo <= hi
    ensures FreeHosts(lo, hi, {}) == seq(hi - lo, i requires 0 <= i < hi - lo => lo + i)
    decreases hi - lo
  {
    if lo < hi {
      AllFree(lo + 1, hi);
    }
  }

  /** From an empty prefix every usable host is handed out once, in order; the next request fails. */
  lemma EmptyPrefixFillsUp(f: Family, prefix: nat, b: Block, rows: seq<AddressRow>)
    requires WellFormed(Bits(f), b) && Used(rows, prefix) == {}
    ensures var n := HostEnd(f, b) - FirstHost(f, b);
            && n > 0
            && AllocateAndStore(f, prefix, Cidr(b.base, b.length), rows, n)
               == Some(seq(n, i requires 0 <= i < n => FirstHost(f, b) + i))
            && AllocateAndStore(f, prefix, Cidr(b.base, b.length), rows, n + 1) == None
  {
    var cidr := Cidr(b.base, b.length);
    assert ParseStrict(Bits(f), cidr) == Some(b);
    var lo, hi := FirstHost(f, b), HostEnd(f, b);
    assert lo < hi by { UsableHosts(f, b, b.base); }
    assert FreeOf(f, prefix, cidr, rows) == FreeHosts(lo, hi, {});
    FillRange(f, prefix, cidr, rows, lo, hi);
  }

  lemma FillRange(f: Family, prefix: nat, cidr: Cidr, rows: seq<AddressRow>, lo: nat, hi: nat)
    requires ParseStrict(Bits(f), cidr).Some? && lo <= hi
    requires FreeOf(f, prefix, cidr, rows) == FreeHosts(lo, hi, {})
    ensures AllocateAndStore(f, prefix, cidr, rows, hi - lo)
            == Some(seq(hi - lo, i requires 0 <= i < hi - lo => lo + i))
    ensures AllocateAndStore(f, prefix, cidr, rows, hi - lo + 1) == None
  {
    AllFree(lo, hi);
    AllocationsInOrder(f, prefix, cidr, rows, hi - lo);
    AllocationsInOrder(f, prefix, cidr, rows, hi - lo + 1);
    var free := FreeHosts(lo, hi, {});
    assert free[..hi - lo] == free;
  }
}
