/** Planning and running the scan of an address range: the interval is cut into aligned blocks,
    and the usable hosts of each block are probed. */
module RangeScan {
  import opened CidrBlocks

  /** Zero bits at the right end; all of them for zero. */
  function TrailingZeros(n: nat, bits: nat): (z: nat)
    ensures z <= bits && LowBitsClear(n, z)
    ensures z < bits ==> !LowBitsClear(n, z + 1)
    decreases bits
  {
    if bits == 0 || n % 2 == 1 then 0 else 1 + TrailingZeros(n / 2, bits - 1)
  }

  /** `bit_length() - 1` of a positive number. */
  function FloorLog2(n: nat): (l: nat)
    requires n > 0
    ensures Pow2(l) <= n < Pow2(l + 1)
  {
    if n == 1 then 0 else 1 + FloorLog2(n / 2)
  }

  function Min(a: nat, b: nat): nat {
    if a <= b then a else b
  }

  /** Blocks that follow one another from `first` and end just before `end`. */
  predicate Tiles(bits: nat, blocks: seq<Block>, first: nat, end: nat) {
    if blocks == [] then first == end else
    && WellFormed(bits, blocks[0])
    && blocks[0].base == first
    && Tiles(bits, blocks[1..], first + Size(bits, blocks[0]), end)
  }

  lemma {:induction false} TilesAppend(bits: nat, blocks: seq<Block>, first: nat, end: nat, b: Block)
    requires Tiles(bits, blocks, first, end) && WellFormed(bits, b) && b.base == end
    ensures Tiles(bits, blocks + [b], first, end + Size(bits, b))
  {
    if blocks == [] {
      assert ([b])[1..] == [];
      assert blocks + [b] == [b];
    } else {
      assert (blocks + [b])[1..] == blocks[1..] + [b];
      TilesAppend(bits, blocks[1..], first + Size(bits, blocks[0]), end, b);
    }
  }

  /** Bound on the blocks of a range, from the alignment of its start and the size of its length. */
  function Phase(z: nat, l: nat): (p: int)
    ensures p >= 1
  {
    if z >= l then l + 1 else 2 * l - z + 1
  }

  /** Bound on the blocks still to come: the block size first grows with the alignment of the start,
      then shrinks with the length that is left. */
  function StepsLeft(bits: nat, first: nat, end: nat): int
    requires first <= end
  {
    if first == end then 0 else
    Phase(TrailingZeros(first, bits), FloorLog2(end - first))
  }

  lemma {:induction false} LowBitsOfSum(n: nat, k: nat, m: nat)
    requires LowBitsClear(n, k) && m >= k
    ensures LowBitsClear(n + Pow2(m), k)
    ensures m == k && !LowBitsClear(n, k + 1) ==> LowBitsClear(n + Pow2(k), k + 1)
    decreases k
  {
    if k > 0 {
      LowBitsOfSum(n / 2, k - 1, m - 1);
      assert (n + Pow2(m)) / 2 == n / 2 + Pow2(m - 1);
      assert (n + Pow2(m)) % 2 == 0;
    }
  }

  lemma {:induction false} FewerLowBits(n: nat, j: nat, k: nat)
    requires j <= k && LowBitsClear(n, k)
    ensures LowBitsClear(n, j)
    decreases j
  {
    if j > 0 {
      FewerLowBits(n / 2, j - 1, k - 1);
    }
  }

  lemma TrailingZerosAtLeast(n: nat, bits: nat, k: nat)
    requires k <= bits && LowBitsClear(n, k)
    ensures TrailingZeros(n, bits) >= k
  {
    var z := TrailingZeros(n, bits);
    if z < k {
      FewerLowBits(n, z + 1, k);
    }
  }

  lemma {:induction false} Log2Monotone(m: nat, n: nat)
    requires 0 < m <= n
    ensures FloorLog2(m) <= FloorLog2(n)
  {
    if m > 1 {
      Log2Monotone(m / 2, n / 2);
    }
  }

  lemma Log2Below(m: nat, k: nat)
    requires 0 < m < Pow2(k)
    ensures FloorLog2(m) < k
  {
    var l := FloorLog2(m);
    if l > k {
      Pow2Monotone(k, l);
    }
  }

  /** When the length limits the block, the rest is shorter than the block and stays aligned to it. */
  lemma LengthLimitedStep(bits: nat, first: nat, end: nat, l: nat)
    requires first < end && l == FloorLog2(end - first) && l <= TrailingZeros(first, bits)
    ensures first + Pow2(l) <= end
    ensures first + Pow2(l) < end ==>
              FloorLog2(end - (first + Pow2(l))) < l && TrailingZeros(first + Pow2(l), bits) >= l
  {
    var next := first + Pow2(l);
    assert Pow2(l + 1) == 2 * Pow2(l);
    if next < end {
      FewerLowBits(first, l, TrailingZeros(first, bits));
      Log2Below(end - next, l);
      LowBitsOfSum(first, l, l);
      TrailingZerosAtLeast(next, bits, l);
    }
  }

  /** When the alignment limits the block, the next start is aligned to more bits. */
  lemma AlignmentLimitedStep(bits: nat, first: nat, end: nat, z: nat)
    requires first < end && z == TrailingZeros(first, bits) && z < FloorLog2(end - first) && z < bits
    ensures first + Pow2(z) < end
    ensures FloorLog2(end - (first + Pow2(z))) <= FloorLog2(end - first)
    ensures TrailingZeros(first + Pow2(z), bits) >= z + 1
  {
    var next := first + Pow2(z);
    hide TrailingZeros;
    Pow2Monotone(z, FloorLog2(end - first));
    Log2Monotone(end - next, end - first);
    LowBitsOfSum(first, z, z);
    TrailingZerosAtLeast(next, bits, z + 1);
  }

  /** A block that ends before `end`, and no larger one aligned at its start does. */
  predicate Largest(bits: nat, b: Block, end: nat) {
    && WellFormed(bits, b) && b.base + Size(bits, b) <= end
    && forall l: nat :: l < b.length && WellFormed(bits, Block(b.base, l)) ==>
        end < b.base + Size(bits, Block(b.base, l))
  }

  lemma LargerDoesNotFit(bits: nat, first: nat, end: nat, n: nat, l: nat)
    requires first < end && n == Min(TrailingZeros(first, bits), FloorLog2(end - first)) && n <= bits
    requires l < bits - n && WellFormed(bits, Block(first, l))
    ensures end < first + Pow2(bits - l)
  {
    TrailingZerosAtLeast(first, bits, bits - l);
    if n + 1 < bits - l {
      Pow2Monotone(n + 1, bits - l);
    }
  }

  /** The largest block that starts at `first`, is aligned there and ends before `end`. */
  function NextBlock(bits: nat, first: nat, end: nat): (b: Block)
    requires first < end <= Pow2(bits)
    ensures Largest(bits, b, end) && b.base == first
    ensures bits - b.length == Min(TrailingZeros(first, bits), FloorLog2(end - first))
  {
    var n := Min(TrailingZeros(first, bits), FloorLog2(end - first));
    NextBlockFits(bits, first, end);
    assert forall l: nat :: l < bits - n && WellFormed(bits, Block(first, l)) ==>
        end < first + Size(bits, Block(first, l))
    by {
      forall l: nat | l < bits - n && WellFormed(bits, Block(first, l))
        ensures end < first + Size(bits, Block(first, l))
      {
        LargerDoesNotFit(bits, first, end, n, l);
      }
    }
    Block(first, bits - n)
  }

  lemma NextBlockFits(bits: nat, first: nat, end: nat)
    requires first < end <= Pow2(bits)
    ensures var n := Min(TrailingZeros(first, bits), FloorLog2(end - first));
            n <= bits && first + Pow2(n) <= end && LowBitsClear(first, n)
  {
    var z, l := TrailingZeros(first, bits), FloorLog2(end - first);
    if l <= z {
      FewerLowBits(first, l, z);
    } else {
      Pow2Monotone(z, l);
    }
  }

  lemma PhaseDrops(z: nat, l: nat, z': nat, l': nat)
    requires if l <= z then l' < l <= z' else l' <= l && z < z'
    ensures Phase(z', l') < Phase(z, l)
  {
  }

  /** One block takes at least one step off the bound. */
  lemma StepsDecrease(bits: nat, first: nat, end: nat)
    requires first < end <= Pow2(bits)
    ensures var next := first + Size(bits, NextBlock(bits, first, end));
            StepsLeft(bits, next, end) < StepsLeft(bits, first, end)
  {
    hide Pow2, FloorLog2, TrailingZeros, LowBitsClear;
    var z, l := TrailingZeros(first, bits), FloorLog2(end - first);
    var next := first + Size(bits, NextBlock(bits, first, end));
    if next < end {
      if l <= z {
        LengthLimitedStep(bits, first, end, l);
      } else {
        Log2AtMost(end - first, bits);
        AlignmentLimitedStep(bits, first, end, z);
      }
      PhaseDrops(z, l, TrailingZeros(next, bits), FloorLog2(end - next));
    }
  }

  lemma Log2AtMost(m: nat, k: nat)
    requires 0 < m <= Pow2(k)
    ensures FloorLog2(m) <= k
  {
    Log2Below(m, k + 1);
  }

  /** Never more than two blocks a bit: 64 for IPv4. */
  lemma StepsBound(bits: nat, first: nat, end: nat)
    requires first < end <= Pow2(bits) && bits > 0
    ensures StepsLeft(bits, first, end) <= 2 * bits
  {
    hide LowBitsClear, FloorLog2, TrailingZeros, Pow2;
    var l := FloorLog2(end - first);
    if end - first < Pow2(bits) {
      Log2Below(end - first, bits);
    } else {
      assert first == 0;
      ZeroIsAligned(bits);
      TrailingZerosAtLeast(0, bits, bits);
      Log2AtMost(end - first, bits);
    }
  }

  lemma {:induction false} ZeroIsAligned(k: nat)
    ensures LowBitsClear(0, k)
    decreases k
  {
    if k > 0 {
      ZeroIsAligned(k - 1);
    }
  }

  /** `summarize_address_range`: aligned, consecutive blocks that cover first..last exactly. */
  method Summarize(bits: nat, first: nat, last: nat) returns (blocks: seq<Block>)
    requires bits > 0 && first <= last < Pow2(bits)
    ensures Tiles(bits, blocks, first, last + 1)
    ensures forall k :: 0 <= k < |blocks| ==> Largest(bits, blocks[k], last + 1)
    ensures |blocks| <= 2 * bits
  {
    hide Pow2, FloorLog2, TrailingZeros, LowBitsClear;
    blocks := [];
    var at := first;
    StepsBound(bits, first, last + 1);
    while at <= last
      invariant first <= at <= last + 1
      invariant Tiles(bits, blocks, first, at)
      invariant forall k :: 0 <= k < |blocks| ==> Largest(bits, blocks[k], last + 1)
      invariant |blocks| + StepsLeft(bits, at, last + 1) <= 2 * bits
    {
      var b := NextBlock(bits, at, last + 1);
      TilesAppend(bits, blocks, first, at, b);
      StepsDecrease(bits, at, last + 1);
      blocks := blocks + [b];
      at := at + Size(bits, b);
    }
  }

  // ------------------------------------------------------------------------- the scanned hosts

  predicate Ascending(s: seq<nat>) {
    forall i, j :: 0 <= i < j < |s| ==> s[i] < s[j]
  }

  /** The address lies in a block and is one of its usable hosts. */
  predicate Scanned(f: Family, blocks: seq<Block>, a: int) {
    exists i :: 0 <= i < |blocks| && blocks[i].length <= Bits(f) && Usable(f, blocks[i], a)
  }

  lemma {:induction false} BlocksAreOrdered(bits: nat, blocks: seq<Block>, first: nat, end: nat, i: nat)
    requires Tiles(bits, blocks, first, end) && i < |blocks|
    ensures blocks[i].length <= bits && first <= blocks[i].base && Last(bits, blocks[i]) < end
    ensures forall j :: i < j < |blocks| ==> blocks[j].length <= bits && Last(bits, blocks[i]) < blocks[j].base
    decreases |blocks|
  {
    EndNotBeforeStart(bits, blocks[1..], first + Size(bits, blocks[0]), end);
    if i > 0 {
      BlocksAreOrdered(bits, blocks[1..], first + Size(bits, blocks[0]), end, i - 1);
      assert forall j :: i < j < |blocks| ==> blocks[j] == blocks[1..][j - 1];
    } else {
      forall j | 0 < j < |blocks|
        ensures blocks[j].length <= bits && Last(bits, blocks[0]) < blocks[j].base
      {
        BlocksAreOrdered(bits, blocks[1..], first + Size(bits, blocks[0]), end, j - 1);
        assert blocks[j] == blocks[1..][j - 1];
      }
    }
  }

  lemma {:induction false} EndNotBeforeStart(bits: nat, blocks: seq<Block>, first: nat, end: nat)
    requires Tiles(bits, blocks, first, end)
    ensures first <= end
    decreases |blocks|
  {
    if blocks != [] {
      EndNotBeforeStart(bits, blocks[1..], first + Size(bits, blocks[0]), end);
    }
  }

  /** Every address of the range lies in exactly one block. */
  lemma {:induction false} BlockOfAddress(bits: nat, blocks: seq<Block>, first: nat, end: nat, a: nat) returns (i: nat)
    requires Tiles(bits, blocks, first, end) && first <= a < end
    ensures i < |blocks| && blocks[i].length <= bits && Contains(bits, blocks[i], a)
    ensures forall j :: 0 <= j < |blocks| && j != i ==> blocks[j].length <= bits && !Contains(bits, blocks[j], a)
    decreases |blocks|
  {
    var next := first + Size(bits, blocks[0]);
    if a < next {
      i := 0;
    } else {
      i := BlockOfAddress(bits, blocks[1..], next, end, a);
      assert blocks[i + 1] == blocks[1..][i];
      i := i + 1;
    }
    forall j | 0 <= j < |blocks| && j != i
      ensures blocks[j].length <= bits && !Contains(bits, blocks[j], a)
    {
      if j < i {
        BlocksAreOrdered(bits, blocks, first, end, j);
      } else {
        BlocksAreOrdered(bits, blocks, first, end, i);
      }
    }
  }

  /** Inside the range, exactly the first and last address of a block of four or more are left out. */
  lemma OmittedAddresses(f: Family, blocks: seq<Block>, first: nat, end: nat, a: nat)
    requires Tiles(Bits(f), blocks, first, end)
    ensures Scanned(f, blocks, a) <==>
              && first <= a < end
              && forall i :: 0 <= i < |blocks| && blocks[i].length <= Bits(f) && Size(Bits(f), blocks[i]) >= 4 ==>
                   a != blocks[i].base && (f == IPv4 ==> a != Last(Bits(f), blocks[i]))
  {
    if Scanned(f, blocks, a) {
      var i :| 0 <= i < |blocks| && blocks[i].length <= Bits(f) && Usable(f, blocks[i], a);
      UsableHosts(f, blocks[i], a);
      BlocksAreOrdered(Bits(f), blocks, first, end, i);
    }
    if first <= a < end {
      var i := BlockOfAddress(Bits(f), blocks, first, end, a);
      UsableHosts(f, blocks[i], a);
      forall j | 0 <= j < |blocks| && j != i && blocks[j].length <= Bits(f)
        ensures !Usable(f, blocks[j], a) && a != blocks[j].base && a != Last(Bits(f), blocks[j])
      {
        UsableHosts(f, blocks[j], a);
      }
    }
  }

  lemma ScannedMore(f: Family, blocks: seq<Block>, k: nat, x: nat)
    requires k < |blocks| && blocks[k].length <= Bits(f)
    ensures Scanned(f, blocks[..k + 1], x) <==> Scanned(f, blocks[..k], x) || Usable(f, blocks[k], x)
  {
    hide Usable;
    assert blocks[..k + 1][k] == blocks[k];
    assert forall i :: 0 <= i < k ==> blocks[..k + 1][i] == blocks[..k][i];
    if Scanned(f, blocks[..k], x) {
      var i :| 0 <= i < k && blocks[..k][i].length <= Bits(f) && Usable(f, blocks[..k][i], x);
      assert Usable(f, blocks[..k + 1][i], x);
    }
    if Usable(f, blocks[k], x) {
      assert Usable(f, blocks[..k + 1][k], x);
    }
  }

  /** The probes of one job, block after block. */
  method PlanScan(f: Family, blocks: seq<Block>, ghost first: nat, ghost end: nat) returns (ips: seq<nat>)
    requires Tiles(Bits(f), blocks, first, end)
    ensures Ascending(ips)
    ensures forall a :: a in ips <==> Scanned(f, blocks, a)
  {
    ips := [];
    var k := 0;
    while k < |blocks|
      invariant 0 <= k <= |blocks|
      invariant Ascending(ips)
      invariant forall a :: a in ips <==> Scanned(f, blocks[..k], a)
      invariant forall a :: a in ips && k < |blocks| ==> a < blocks[k].base
    {
      BlocksAreOrdered(Bits(f), blocks, first, end, k);
      ghost var before := ips;
      var a := FirstHost(f, blocks[k]);
      UsableHosts(f, blocks[k], a);
      while a < HostEnd(f, blocks[k])
        invariant FirstHost(f, blocks[k]) <= a <= HostEnd(f, blocks[k])
        invariant Ascending(ips)
        invariant forall x :: x in ips <==> x in before || FirstHost(f, blocks[k]) <= x < a
      {
        assert forall i :: 0 <= i < |ips| ==> ips[i] in ips;
        ips := ips + [a];
        a := a + 1;
      }
      forall x: nat
        ensures x in ips <==> Scanned(f, blocks[..k + 1], x)
      {
        ScannedMore(f, blocks, k, x);
      }
      k := k + 1;
    }
    assert blocks[..k] == blocks;
  }

  /** The addresses of the job that answer and pass the hostname filters. */
  ghost function Found(f: Family, blocks: seq<Block>, answers: set<nat>): set<nat> {
    set a | a in answers && Scanned(f, blocks, a)
  }

  function HitsIn(f: Family, b: Block, answers: set<nat>): set<nat>
    requires b.length <= Bits(f)
  {
    set a | a in answers && Usable(f, b, a)
  }

  /** `update_or_create` of the candidates at `found`. */
  function Refreshed(candidates: map<nat, int>, found: set<nat>, now: int): map<nat, int> {
    map a | a in candidates.Keys + found :: if a in found then now else candidates[a]
  }

  lemma RefreshTwice(candidates: map<nat, int>, a: set<nat>, b: set<nat>, now: int)
    ensures Refreshed(Refreshed(candidates, a, now), b, now) == Refreshed(candidates, a + b, now)
  {
    var twice, once := Refreshed(Refreshed(candidates, a, now), b, now), Refreshed(candidates, a + b, now);
    assert twice.Keys == once.Keys;
    forall k | k in twice
      ensures twice[k] == once[k]
    {
    }
  }

  /** The progress loop of a job. `answers` are the addresses that answer and pass the filters;
      `candidates` maps an address to the time it was last seen. No address is counted twice. */
  method RunJob(f: Family, blocks: seq<Block>, answers: set<nat>, candidates: map<nat, int>, now: int,
                ghost first: nat, ghost end: nat)
    returns (processed: nat, alive: nat, after: map<nat, int>)
    requires Tiles(Bits(f), blocks, first, end)
    ensures processed == |blocks|
    ensures alive == |Found(f, blocks, answers)|
    ensures after == Refreshed(candidates, Found(f, blocks, answers), now)
    ensures forall a :: a in after <==> a in candidates || (a in answers && Scanned(f, blocks, a))
    ensures forall a :: a in after ==> after[a] == if a in answers && Scanned(f, blocks, a) then now else candidates[a]
  {
    assert Found(f, blocks[..0], answers) == {};
    assert candidates == Refreshed(candidates, {}, now);
    hide Found, Tiles, HitsIn, Refreshed, Scanned;
    processed, alive, after := 0, 0, candidates;
    ghost var found := {};
    while processed < |blocks|
      invariant processed <= |blocks|
      invariant found == Found(f, blocks[..processed], answers)
      invariant alive == |found|
      invariant after == Refreshed(candidates, found, now)
    {
      assert blocks[processed].length <= Bits(f) by {
        BlocksAreOrdered(Bits(f), blocks, first, end, processed);
      }
      var hits := HitsIn(f, blocks[processed], answers);
      FoundGrows(f, blocks, answers, first, end, processed);
      alive := alive + |hits|;
      after := Refreshed(after, hits, now);
      RefreshTwice(candidates, found, hits, now);
      found := found + hits;
      processed := processed + 1;
    }
    assert blocks[..processed] == blocks;
    FoundAreRefreshed(f, blocks, answers, candidates, now);
  }

  /** A found candidate has the new time, any other keeps its own. */
  lemma FoundAreRefreshed(f: Family, blocks: seq<Block>, answers: set<nat>, candidates: map<nat, int>, now: int)
    ensures var after := Refreshed(candidates, Found(f, blocks, answers), now);
            && (forall a :: a in after <==> a in candidates || (a in answers && Scanned(f, blocks, a)))
            && (forall a :: a in after ==>
                  after[a] == if a in answers && Scanned(f, blocks, a) then now else candidates[a])
  {
    hide Scanned;
  }

  lemma FoundGrows(f: Family, blocks: seq<Block>, answers: set<nat>, first: nat, end: nat, k: nat)
    requires Tiles(Bits(f), blocks, first, end) && k < |blocks| && blocks[k].length <= Bits(f)
    ensures var hits := HitsIn(f, blocks[k], answers);
            && Found(f, blocks[..k + 1], answers) == Found(f, blocks[..k], answers) + hits
            && Found(f, blocks[..k], answers) !! hits
  {
    forall a: nat
      ensures Scanned(f, blocks[..k + 1], a) <==> Scanned(f, blocks[..k], a) || Usable(f, blocks[k], a)
      ensures !(Scanned(f, blocks[..k], a) && Usable(f, blocks[k], a))
    {
      if Scanned(f, blocks[..k], a) {
        var i :| 0 <= i < k && blocks[..k][i].length <= Bits(f) && Usable(f, blocks[..k][i], a);
        assert blocks[..k + 1][i] == blocks[i];
        UsableHosts(f, blocks[i], a);
        UsableHosts(f, blocks[k], a);
        BlocksAreOrdered(Bits(f), blocks, first, end, i);
      }
      assert blocks[..k + 1][k] == blocks[k];
      assert forall i :: 0 <= i < k ==> blocks[..k + 1][i] == blocks[..k][i];
    }
  }
}
