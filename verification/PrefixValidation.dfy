/** Validation and life cycle of IPAM prefixes: which CIDR blocks may join the hierarchy of a
    site and VRF, and what every accepted change keeps. */
module PrefixValidation {
  import opened Options
  import opened CidrBlocks

  datatype Row = Row(cidr: Cidr, site: nat, vrf: Option<nat>, parent: Option<nat>)

  type Rows = map<nat, Row>

  /** A prefix being created; its key is fresh, so no stored row is excluded from the queries. */
  datatype Draft = Draft(cidr: Cidr, site: Option<nat>, vrf: Option<nat>, parent: Option<nat>)

  datatype Field = SiteField | CidrField | VrfField | ParentField

  datatype Problem =
    | MissingSite | InvalidNetwork | VrfOfOtherSite
    | ParentOfOtherSite | ParentOfOtherVrf | InvalidParentNetwork | OutsideParent | SameAsParent
    | AlreadyExists | NeedsParent

  /** The foreign keys of a draft name stored rows. */
  predicate Resolves(rows: Rows, vrfSite: map<nat, nat>, d: Draft) {
    && (d.parent.Some? ==> d.parent.value in rows)
    && (d.vrf.Some? ==> d.vrf.value in vrfSite)
  }

  function BlockOf(bits: nat, row: Row): (r: Option<Block>)
    ensures r.Some? ==> WellFormed(bits, r.value)
  {
    ParseStrict(bits, row.cidr)
  }

  /** `id` is a stored row of the site and VRF whose text parses. */
  predicate Peer(bits: nat, rows: Rows, id: nat, site: nat, vrf: Option<nat>) {
    id in rows && rows[id].site == site && rows[id].vrf == vrf && BlockOf(bits, rows[id]).Some?
  }

  predicate Covers(bits: nat, rows: Rows, id: nat, site: nat, vrf: Option<nat>, b: Block)
    requires b.length <= bits
  {
    Peer(bits, rows, id, site, vrf) && SubnetOf(bits, b, BlockOf(bits, rows[id]).value)
  }

  /** The rules of the hierarchy, stated without the order in which they are checked. */
  ghost predicate Acceptable(bits: nat, rows: Rows, vrfSite: map<nat, nat>, d: Draft)
    requires Resolves(rows, vrfSite, d)
  {
    && d.site.Some?
    && ParseStrict(bits, d.cidr).Some?
    && (d.vrf.Some? ==> vrfSite[d.vrf.value] == d.site.value)
    && var b := ParseStrict(bits, d.cidr).value;
    && (d.parent.Some? ==>
          && Covers(bits, rows, d.parent.value, d.site.value, d.vrf, b)
          && BlockOf(bits, rows[d.parent.value]).value != b)
    && (forall id :: Peer(bits, rows, id, d.site.value, d.vrf) ==> BlockOf(bits, rows[id]).value != b)
    && (d.parent.Some? || forall id :: !Covers(bits, rows, id, d.site.value, d.vrf, b))
  }

  ghost predicate Stored(bits: nat, rows: Rows, d: Draft, b: Block)
    requires d.site.Some?
  {
    exists id :: Peer(bits, rows, id, d.site.value, d.vrf) && BlockOf(bits, rows[id]).value == b
  }

  ghost predicate Covered(bits: nat, rows: Rows, d: Draft, b: Block)
    requires d.site.Some? && b.length <= bits
  {
    exists id :: Covers(bits, rows, id, d.site.value, d.vrf, b)
  }

  /** The problems of the draft on its own. */
  predicate DraftReports(bits: nat, d: Draft, f: Field, p: Problem) {
    || (f == SiteField && p == MissingSite && d.site.None?)
    || (f == CidrField && p == InvalidNetwork && ParseStrict(bits, d.cidr).None?)
  }

  predicate VrfReports(vrfSite: map<nat, nat>, d: Draft, f: Field, p: Problem)
    requires d.vrf.Some? ==> d.vrf.value in vrfSite
  {
    f == VrfField && p == VrfOfOtherSite && d.vrf.Some? && d.site != Some(vrfSite[d.vrf.value])
  }

  /** The problems with the parent: of several, the first of site, VRF and text; its block is looked at only when
      nothing else is wrong (`alone`). */
  predicate ParentReports(bits: nat, rows: Rows, d: Draft, b: Block, alone: bool, f: Field, p: Problem)
    requires d.site.Some? && d.parent.Some? && d.parent.value in rows && b.length <= bits
  {
    var parent := rows[d.parent.value];
    match p
    case ParentOfOtherSite => f == ParentField && parent.site != d.site.value
    case ParentOfOtherVrf => f == ParentField && parent.site == d.site.value && parent.vrf != d.vrf
    case InvalidParentNetwork =>
      f == ParentField && parent.site == d.site.value && parent.vrf == d.vrf && BlockOf(bits, parent).None?
    case OutsideParent =>
      && f == CidrField && alone && Peer(bits, rows, d.parent.value, d.site.value, d.vrf)
      && !SubnetOf(bits, b, BlockOf(bits, parent).value)
    case SameAsParent =>
      && f == CidrField && alone && Peer(bits, rows, d.parent.value, d.site.value, d.vrf)
      && BlockOf(bits, parent).value == b
    case _ => false
  }

  /** The problems with the other prefixes of the site and VRF. */
  ghost predicate OverlapReports(bits: nat, rows: Rows, d: Draft, b: Block, f: Field, p: Problem)
    requires d.site.Some? && b.length <= bits
  {
    || (f == CidrField && p == AlreadyExists && Stored(bits, rows, d, b))
    || (f == ParentField && p == NeedsParent && !Stored(bits, rows, d, b) && d.parent.None?
        && Covered(bits, rows, d, b))
  }

  ghost predicate Misplaced(bits: nat, rows: Rows, vrfSite: map<nat, nat>, d: Draft)
    requires Resolves(rows, vrfSite, d) && d.site.Some? && ParseStrict(bits, d.cidr).Some?
  {
    var b := ParseStrict(bits, d.cidr).value;
    || (d.vrf.Some? && vrfSite[d.vrf.value] != d.site.value)
    || (d.parent.Some? && !Covers(bits, rows, d.parent.value, d.site.value, d.vrf, b))
    || (d.parent.Some? && BlockOf(bits, rows[d.parent.value]) == Some(b))
  }

  /** The report on a draft: `p` stands at field `f`. */
  ghost predicate Reported(bits: nat, rows: Rows, vrfSite: map<nat, nat>, d: Draft, f: Field, p: Problem)
    requires Resolves(rows, vrfSite, d)
  {
    var net := ParseStrict(bits, d.cidr);
    if d.site.None? || net.None? then
      DraftReports(bits, d, f, p)
    else if Misplaced(bits, rows, vrfSite, d) then
      var alone := d.vrf.None? || vrfSite[d.vrf.value] == d.site.value;
      || VrfReports(vrfSite, d, f, p)
      || (d.parent.Some? && ParentReports(bits, rows, d, net.value, alone, f, p))
    else
      OverlapReports(bits, rows, d, net.value, f, p)
  }

  predicate Lists(errors: map<Field, Problem>, f: Field, p: Problem) {
    f in errors && errors[f] == p
  }

  // ---------------------------------------------------------------- walking up the parent links

  /** The row reached from `start` by following `n` parent links. */
  function Up(rows: Rows, start: Option<nat>, n: nat): Option<nat>
    decreases n
  {
    if n == 0 || start.None? || start.value !in rows then
      if n == 0 then start else None
    else
      Up(rows, rows[start.value].parent, n - 1)
  }

  predicate Hits(rows: Rows, start: Option<nat>, candidates: set<nat>, n: nat) {
    Up(rows, start, n).Some? && Up(rows, start, n).value in candidates
  }

  /** The walk from `start` finds a candidate or runs out of parents within `n` links. */
  predicate WalkStops(rows: Rows, start: Option<nat>, candidates: set<nat>, n: nat)
    decreases n
  {
    start.None? || start.value in candidates
    || (n > 0 && start.value in rows && WalkStops(rows, rows[start.value].parent, candidates, n - 1))
  }

  class PrefixStore {
    const bits: nat
    const vrfSite: map<nat, nat>
    var rows: Rows

    constructor (bits: nat, vrfSite: map<nat, nat>)
      ensures this.bits == bits && this.vrfSite == vrfSite && rows == map[]
    {
      this.bits, this.vrfSite, rows := bits, vrfSite, map[];
    }

    method HasAncestor(candidates: set<nat>, start: Option<nat>, ghost limit: nat) returns (found: bool)
      requires WalkStops(rows, start, candidates, limit)
      ensures found <==> exists n: nat :: Hits(rows, start, candidates, n)
    {
      var parent := start;
      ghost var left := limit;
      while parent.Some?
        invariant WalkStops(rows, parent, candidates, left)
        invariant (exists n: nat :: Hits(rows, start, candidates, n)) <==>
            (exists n: nat :: Hits(rows, parent, candidates, n))
        decreases left, parent.Some?
      {
        if parent.value in candidates {
          assert Hits(rows, parent, candidates, 0);
          return true;
        }
        var next := rows[parent.value].parent;
        if n: nat :| Hits(rows, parent, candidates, n) {
          assert Hits(rows, next, candidates, n - 1);
        }
        if n: nat :| Hits(rows, next, candidates, n) {
          assert Hits(rows, parent, candidates, n + 1);
        }
        parent, left := next, left - 1;
      }
      return false;
    }

    method ValidateParent(net: Block, d: Draft, found: map<Field, Problem>) returns (errors: map<Field, Problem>)
      requires Resolves(rows, vrfSite, d) && d.parent.Some? && d.site.Some?
      requires ParseStrict(bits, d.cidr) == Some(net)
      requires found.Keys <= {VrfField}
      ensures forall f, p :: Lists(errors, f, p) <==>
                Lists(found, f, p) || ParentReports(bits, rows, d, net, found == map[], f, p)
      ensures errors == map[] <==>
                && found == map[] && Covers(bits, rows, d.parent.value, d.site.value, d.vrf, net)
                && BlockOf(bits, rows[d.parent.value]).value != net
    {
      errors := found;
      var parent := rows[d.parent.value];
      if parent.site != d.site.value {
        errors := errors[ParentField := ParentOfOtherSite];
        assert ParentField in errors;
        return;
      }
      if parent.vrf != d.vrf {
        errors := errors[ParentField := ParentOfOtherVrf];
        assert ParentField in errors;
        return;
      }
      var parentNet := ParseStrict(bits, parent.cidr);
      if parentNet.None? {
        errors := errors[ParentField := InvalidParentNetwork];
        assert ParentField in errors;
      }
      if errors != map[] {
        return;
      }
      if !SubnetOf(bits, net, parentNet.value) {
        errors := errors[CidrField := OutsideParent];
        assert CidrField in errors;
        return;
      }
      if net == parentNet.value {
        errors := errors[CidrField := SameAsParent];
        assert CidrField in errors;
      }
    }

    /** The overlap check. A block that overlaps without nesting would be reported as well; no two
        parsed blocks do that, so that branch is dead. */
    method ValidateOverlaps(net: Block, d: Draft) returns (errors: map<Field, Problem>)
      requires Resolves(rows, vrfSite, d) && d.site.Some?
      requires ParseStrict(bits, d.cidr) == Some(net)
      requires d.parent.Some? ==> Covers(bits, rows, d.parent.value, d.site.value, d.vrf, net)
      ensures forall f, p :: Lists(errors, f, p) <==> OverlapReports(bits, rows, d, net, f, p)
      ensures errors == map[] <==>
                && (forall id :: Peer(bits, rows, id, d.site.value, d.vrf) ==> BlockOf(bits, rows[id]).value != net)
                && (d.parent.Some? || forall id :: !Covers(bits, rows, id, d.site.value, d.vrf, net))
    {
      errors := map[];
      var containing := [];
      var rest := set id | id in rows && rows[id].site == d.site.value && rows[id].vrf == d.vrf;
      while rest != {}
        invariant errors == map[]
        invariant rest <= rows.Keys
        invariant forall id :: id in rest ==> rows[id].site == d.site.value && rows[id].vrf == d.vrf
        invariant forall id :: id in containing ==> Covers(bits, rows, id, d.site.value, d.vrf, net)
        invariant forall id :: Covers(bits, rows, id, d.site.value, d.vrf, net) ==> id in rest || id in containing
        invariant forall id :: Peer(bits, rows, id, d.site.value, d.vrf) && id !in rest ==>
            BlockOf(bits, rows[id]).value != net
        decreases rest
      {
        var id :| id in rest;
        rest := rest - {id};
        var other := ParseStrict(bits, rows[id].cidr);
        if other.Some? {
          OverlapIsNesting(bits, net, other.value);
          if Overlaps(bits, net, other.value) {
            if net == other.value {
              assert Peer(bits, rows, id, d.site.value, d.vrf);
              errors := errors[CidrField := AlreadyExists];
              assert CidrField in errors;
              return;
            }
            if SubnetOf(bits, net, other.value) {
              containing := containing + [id];
            } else if !SubnetOf(bits, other.value, net) {
              assert false;
            }
          }
        }
      }
      if containing != [] {
        var candidates := set id | id in containing;
        var under := HasAncestor(candidates, d.parent, 0);
        if !under {
          assert d.parent.Some? ==> Hits(rows, d.parent, candidates, 0);
          assert Covers(bits, rows, containing[0], d.site.value, d.vrf, net);
          errors := errors[ParentField := NeedsParent];
          assert ParentField in errors;
        }
      }
    }

    /** The whole validation, with the points at which collected errors are raised. */
    method Validate(d: Draft) returns (errors: map<Field, Problem>)
      requires Resolves(rows, vrfSite, d)
      ensures errors == map[] <==> Acceptable(bits, rows, vrfSite, d)
      ensures forall f, p :: Lists(errors, f, p) <==> Reported(bits, rows, vrfSite, d, f, p)
    {
      errors := map[];
      if d.site.None? {
        errors := errors[SiteField := MissingSite];
        assert SiteField in errors;
      }
      var net := ParseStrict(bits, d.cidr);
      if net.None? {
        errors := errors[CidrField := InvalidNetwork];
        assert CidrField in errors;
      }
      if errors != map[] {
        return;
      }
      if d.vrf.Some? && vrfSite[d.vrf.value] != d.site.value {
        errors := errors[VrfField := VrfOfOtherSite];
        assert VrfField in errors;
      }
      if d.parent.Some? {
        errors := ValidateParent(net.value, d, errors);
      }
      if errors != map[] {
        return;
      }
      errors := ValidateOverlaps(net.value, d);
    }

    method Create(id: nat, d: Draft) returns (accepted: bool)
      requires id !in rows && Resolves(rows, vrfSite, d)
      modifies this`rows
      ensures accepted <==> Acceptable(bits, old(rows), vrfSite, d)
      ensures rows == Apply(bits, old(rows), vrfSite, Op.Create(id, d))
      ensures accepted ==> d.site.Some? && rows == old(rows)[id := Row(d.cidr, d.site.value, d.vrf, d.parent)]
      ensures !accepted ==> rows == old(rows)
    {
      var errors := Validate(d);
      accepted := errors == map[];
      if accepted {
        rows := rows[id := Row(d.cidr, d.site.value, d.vrf, d.parent)];
      }
    }

    /** Deleting a prefix clears the parent link of its children. */
    method Delete(id: nat)
      modifies this`rows
      ensures rows == Apply(bits, old(rows), vrfSite, Op.Delete(id))
      ensures forall k :: k in rows <==> k in old(rows) && k != id
      ensures forall k :: k in rows ==>
                rows[k] == if old(rows)[k].parent == Some(id) then old(rows)[k].(parent := None) else old(rows)[k]
    {
      rows := map k | k in rows && k != id ::
        if rows[k].parent == Some(id) then rows[k].(parent := None) else rows[k];
    }
  }

  // ------------------------------------------------------------------------------ whole runs

  datatype Op = Create(id: nat, draft: Draft) | Delete(id: nat)

  /** One step. A creation that is refused, or whose key or references are not usable, changes nothing. */
  ghost function Apply(bits: nat, rows: Rows, vrfSite: map<nat, nat>, op: Op): Rows {
    match op
    case Create(id, d) =>
      if id !in rows && Resolves(rows, vrfSite, d) && Acceptable(bits, rows, vrfSite, d) then
        rows[id := Row(d.cidr, d.site.value, d.vrf, d.parent)]
      else
        rows
    case Delete(id) =>
      map k | k in rows && k != id ::
        if rows[k].parent == Some(id) then rows[k].(parent := None) else rows[k]
  }

  ghost function Run(bits: nat, vrfSite: map<nat, nat>, ops: seq<Op>): Rows {
    if ops == [] then map[]
    else Apply(bits, Run(bits, vrfSite, ops[..|ops| - 1]), vrfSite, ops[|ops| - 1])
  }

  /** Each row's VRF belongs to its site. */
  predicate VrfsOfSite(rows: Rows, vrfSite: map<nat, nat>) {
    forall id :: id in rows && rows[id].vrf.Some? ==>
      rows[id].vrf.value in vrfSite && vrfSite[rows[id].vrf.value] == rows[id].site
  }

  /** Over every run of creates and deletes each prefix has a VRF of its own site, or none. */
  lemma {:induction false} RunKeepsVrfs(bits: nat, vrfSite: map<nat, nat>, ops: seq<Op>)
    ensures VrfsOfSite(Run(bits, vrfSite, ops), vrfSite)
  {
    if ops != [] {
      RunKeepsVrfs(bits, vrfSite, ops[..|ops| - 1]);
    }
  }

  /** On the rows: of two prefixes of one site and VRF, the one has all addresses of the other. */
  ghost predicate Encloses(bits: nat, rows: Rows, id: nat, site: nat, vrf: Option<nat>, b: Block)
    requires b.length <= bits
  {
    && id in rows && rows[id].site == site && rows[id].vrf == vrf
    && ParseStrict(bits, rows[id].cidr).Some? && Within(bits, b, ParseStrict(bits, rows[id].cidr).value)
  }

  ghost predicate EnclosedBy(bits: nat, rows: Rows, id: nat, site: nat, vrf: Option<nat>, b: Block)
    requires b.length <= bits
  {
    && id in rows && rows[id].site == site && rows[id].vrf == vrf
    && ParseStrict(bits, rows[id].cidr).Some? && Within(bits, ParseStrict(bits, rows[id].cidr).value, b)
  }

  /** The rules in terms of addresses: the block lies strictly within its parent, no other block of the site and
      VRF has the same addresses, and without a parent none contains it. */
  lemma AcceptableByAddresses(bits: nat, rows: Rows, vrfSite: map<nat, nat>, d: Draft)
    requires Resolves(rows, vrfSite, d) && d.site.Some? && ParseStrict(bits, d.cidr).Some?
    requires d.vrf.Some? ==> vrfSite[d.vrf.value] == d.site.value
    ensures var b, site := ParseStrict(bits, d.cidr).value, d.site.value;
            Acceptable(bits, rows, vrfSite, d) <==>
              && (d.parent.Some? ==>
                    && Encloses(bits, rows, d.parent.value, site, d.vrf, b)
                    && !EnclosedBy(bits, rows, d.parent.value, site, d.vrf, b))
              && (forall id :: Encloses(bits, rows, id, site, d.vrf, b) ==> !EnclosedBy(bits, rows, id, site, d.vrf, b))
              && (d.parent.None? ==> forall id :: !Encloses(bits, rows, id, site, d.vrf, b))
  {
    hide LowBitsClear, SubnetOf, Within;
    var b, site := ParseStrict(bits, d.cidr).value, d.site.value;
    forall id
      ensures Covers(bits, rows, id, site, d.vrf, b) <==> Encloses(bits, rows, id, site, d.vrf, b)
      ensures Peer(bits, rows, id, site, d.vrf) && BlockOf(bits, rows[id]).value == b <==>
              Encloses(bits, rows, id, site, d.vrf, b) && EnclosedBy(bits, rows, id, site, d.vrf, b)
    {
      if Peer(bits, rows, id, site, d.vrf) {
        SameAddresses(bits, b, BlockOf(bits, rows[id]).value);
      }
    }
  }

  /** Each link goes to a strictly larger block of the same site and VRF, and no block is stored
      twice in a site and VRF. */
  ghost predicate Forest(bits: nat, rows: Rows) {
    && (forall id :: id in rows ==> BlockOf(bits, rows[id]).Some?)
    && (forall id :: id in rows && rows[id].parent.Some? ==>
          && Peer(bits, rows, rows[id].parent.value, rows[id].site, rows[id].vrf)
          && StrictlyInside(bits, BlockOf(bits, rows[id]).value, BlockOf(bits, rows[rows[id].parent.value]).value))
    && (forall i, j :: i in rows && j in rows && i != j && rows[i].site == rows[j].site && rows[i].vrf == rows[j].vrf
          ==> BlockOf(bits, rows[i]) != BlockOf(bits, rows[j]))
  }

  lemma DeleteKeepsForest(bits: nat, rows: Rows, vrfSite: map<nat, nat>, id: nat)
    requires Forest(bits, rows)
    ensures Forest(bits, Apply(bits, rows, vrfSite, Op.Delete(id)))
  {
    hide StrictlyInside, ParseStrict;
    var after := Apply(bits, rows, vrfSite, Op.Delete(id));
    forall k | k in after
      ensures k in rows && after[k].(parent := rows[k].parent) == rows[k]
      ensures BlockOf(bits, after[k]) == BlockOf(bits, rows[k])
    {
    }
    forall k | k in after && after[k].parent.Some?
      ensures Peer(bits, after, after[k].parent.value, after[k].site, after[k].vrf)
    {
      assert Peer(bits, rows, rows[k].parent.value, rows[k].site, rows[k].vrf);
    }
  }

  lemma CreateKeepsForest(bits: nat, rows: Rows, vrfSite: map<nat, nat>, id: nat, d: Draft)
    requires Forest(bits, rows) && id !in rows && Resolves(rows, vrfSite, d) && Acceptable(bits, rows, vrfSite, d)
    ensures Forest(bits, rows[id := Row(d.cidr, d.site.value, d.vrf, d.parent)])
  {
    hide ParseStrict, SubnetOf;
    var after := rows[id := Row(d.cidr, d.site.value, d.vrf, d.parent)];
    assert forall k :: k in rows ==> after[k] == rows[k];
    forall k | k in rows && after[k].site == after[id].site && after[k].vrf == after[id].vrf
      ensures BlockOf(bits, after[k]) != BlockOf(bits, after[id])
    {
      assert Peer(bits, rows, k, d.site.value, d.vrf);
    }
  }

  lemma ApplyKeepsForest(bits: nat, rows: Rows, vrfSite: map<nat, nat>, op: Op)
    requires Forest(bits, rows)
    ensures Forest(bits, Apply(bits, rows, vrfSite, op))
  {
    if op.Delete? {
      DeleteKeepsForest(bits, rows, vrfSite, op.id);
    } else if Apply(bits, rows, vrfSite, op) != rows {
      CreateKeepsForest(bits, rows, vrfSite, op.id, op.draft);
    }
  }

  /** Over every run of creations and deletions the parent links form a forest. */
  lemma {:induction false} RunKeepsForest(bits: nat, vrfSite: map<nat, nat>, ops: seq<Op>)
    ensures Forest(bits, Run(bits, vrfSite, ops))
  {
    if ops != [] {
      RunKeepsForest(bits, vrfSite, ops[..|ops| - 1]);
      ApplyKeepsForest(bits, Run(bits, vrfSite, ops[..|ops| - 1]), vrfSite, ops[|ops| - 1]);
    }
  }

  ghost predicate Wider(bits: nat, rows: Rows, id: nat, above: nat, links: nat) {
    && id in rows && BlockOf(bits, rows[id]).Some?
    && Peer(bits, rows, above, rows[id].site, rows[id].vrf)
    && var a, b := BlockOf(bits, rows[above]).value, BlockOf(bits, rows[id]).value;
    && a.length + links <= b.length && SubnetOf(bits, b, a)
  }

  lemma ParentIsWider(bits: nat, rows: Rows, id: nat)
    requires Forest(bits, rows) && id in rows && rows[id].parent.Some?
    ensures Wider(bits, rows, id, rows[id].parent.value, 1)
  {
    InsideIsLonger(bits, BlockOf(bits, rows[id]).value, BlockOf(bits, rows[rows[id].parent.value]).value);
  }

  lemma WiderTransitive(bits: nat, rows: Rows, id: nat, p: nat, a: nat, m: nat, n: nat)
    requires Wider(bits, rows, id, p, m) && Wider(bits, rows, p, a, n)
    ensures Wider(bits, rows, id, a, m + n)
  {
  }

  /** Each parent link shortens the prefix length, so `n` links up lies a prefix at least `n` bits
      shorter, of the same site and VRF, that contains the starting one. */
  lemma {:induction false} AncestorsAreWider(bits: nat, rows: Rows, id: nat, n: nat)
    requires Forest(bits, rows) && id in rows && Up(rows, Some(id), n).Some?
    ensures Wider(bits, rows, id, Up(rows, Some(id), n).value, n)
    decreases n
  {
    if n > 0 {
      var p := rows[id].parent.value;
      ParentIsWider(bits, rows, id);
      AncestorsAreWider(bits, rows, p, n - 1);
      WiderTransitive(bits, rows, id, p, Up(rows, Some(id), n).value, 1, n - 1);
    }
  }

  /** No prefix is its own ancestor, and a walk from a prefix of length `l` ends within `l` links. */
  lemma ParentsAreAcyclic(bits: nat, vrfSite: map<nat, nat>, ops: seq<Op>, id: nat, n: nat)
    requires id in Run(bits, vrfSite, ops)
    ensures var rows := Run(bits, vrfSite, ops);
            && BlockOf(bits, rows[id]).Some?
            && (n > 0 ==> Up(rows, Some(id), n) != Some(id))
            && (n > BlockOf(bits, rows[id]).value.length ==> Up(rows, Some(id), n) == None)
  {
    var rows := Run(bits, vrfSite, ops);
    RunKeepsForest(bits, vrfSite, ops);
    if Up(rows, Some(id), n).Some? {
      AncestorsAreWider(bits, rows, id, n);
    }
  }

  /** In such a store the ancestor walk ends, whatever it looks for. */
  lemma {:induction false} WalkEnds(bits: nat, rows: Rows, id: nat, candidates: set<nat>)
    requires Forest(bits, rows) && id in rows
    ensures WalkStops(rows, Some(id), candidates, BlockOf(bits, rows[id]).value.length + 1)
    decreases BlockOf(bits, rows[id]).value.length
  {
    if rows[id].parent.Some? {
      var p := rows[id].parent.value;
      ParentIsWider(bits, rows, id);
      WalkEnds(bits, rows, p, candidates);
      MoreLinks(rows, Some(p), candidates, BlockOf(bits, rows[p]).value.length + 1,
          BlockOf(bits, rows[id]).value.length);
    }
  }

  lemma MoreLinks(rows: Rows, start: Option<nat>, candidates: set<nat>, m: nat, n: nat)
    requires m <= n && WalkStops(rows, start, candidates, m)
    ensures WalkStops(rows, start, candidates, n)
    decreases m
  {
    if start.Some? && start.value !in candidates {
      MoreLinks(rows, rows[start.value].parent, candidates, m - 1, n - 1);
    }
  }
}
