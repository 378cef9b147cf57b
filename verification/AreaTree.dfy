/** The nested tree of areas built from a flat list with parent links. */
module AreaTree {
  import opened Options

  datatype Area = Area(id: nat, name: string, parent: Option<nat>)

  datatype Tree = Node(area: Area, children: seq<Tree>, open: bool)

  ghost predicate Distinct(areas: seq<Area>) {
    forall a, b :: a in areas && b in areas && a.id == b.id ==> a == b
  }

  function Ids(areas: seq<Area>): set<nat> {
    set i | 0 <= i < |areas| :: areas[i].id
  }

  // ------------------------------------------------------------------------------ the parent chain

  /** The parent chain of the area reaches a root after `d` links inside the list. */
  ghost predicate DepthIs(areas: seq<Area>, a: Area, d: nat)
    decreases d
  {
    && a in areas
    && if d == 0 then a.parent.None?
       else a.parent.Some? && exists p :: p in areas && p.id == a.parent.value && DepthIs(areas, p, d - 1)
  }

  /** `a` is the ancestor of `x`, `k` links up. */
  ghost predicate Under(areas: seq<Area>, x: Area, a: Area, k: nat)
    decreases k
  {
    && x in areas
    && if k == 0 then x == a
       else x.parent.Some? && exists p :: p in areas && p.id == x.parent.value && Under(areas, p, a, k - 1)
  }

  /** The parent chain of the area reaches a root inside the list. */
  ghost predicate Rooted(areas: seq<Area>, a: Area) {
    exists d: nat :: DepthIs(areas, a, d)
  }

  ghost predicate Descends(areas: seq<Area>, x: Area, a: Area) {
    exists k: nat :: Under(areas, x, a, k)
  }

  lemma {:induction false} DepthIsUnique(areas: seq<Area>, a: Area, d: nat, e: nat)
    requires Distinct(areas) && DepthIs(areas, a, d) && DepthIs(areas, a, e)
    ensures d == e
    decreases d
  {
    if d > 0 && e > 0 {
      var p :| p in areas && p.id == a.parent.value && DepthIs(areas, p, d - 1);
      var q :| q in areas && q.id == a.parent.value && DepthIs(areas, q, e - 1);
      assert p == q;
      DepthIsUnique(areas, p, d - 1, e - 1);
    }
  }

  lemma {:induction false} UnderAddsDepth(areas: seq<Area>, x: Area, a: Area, k: nat, d: nat)
    requires DepthIs(areas, a, d) && Under(areas, x, a, k)
    ensures DepthIs(areas, x, d + k)
    decreases k
  {
    if k > 0 {
      var p :| p in areas && p.id == x.parent.value && Under(areas, p, a, k - 1);
      UnderAddsDepth(areas, p, a, k - 1, d);
    }
  }

  lemma {:induction false} AncestorIsUnique(areas: seq<Area>, x: Area, a: Area, b: Area, k: nat)
    requires Distinct(areas) && Under(areas, x, a, k) && Under(areas, x, b, k)
    ensures a == b
    decreases k
  {
    if k > 0 {
      var p :| p in areas && p.id == x.parent.value && Under(areas, p, a, k - 1);
      var q :| q in areas && q.id == x.parent.value && Under(areas, q, b, k - 1);
      assert p == q;
      AncestorIsUnique(areas, p, a, b, k - 1);
    }
  }

  /** A longer chain passes through a child of the ancestor. */
  lemma {:induction false} UnderChild(areas: seq<Area>, x: Area, a: Area, k: nat) returns (c: Area)
    requires k > 0 && Under(areas, x, a, k)
    ensures c in areas && c.parent == Some(a.id) && Under(areas, x, c, k - 1)
    decreases k
  {
    var p :| p in areas && p.id == x.parent.value && Under(areas, p, a, k - 1);
    if k == 1 {
      c := x;
    } else {
      c := UnderChild(areas, p, a, k - 1);
    }
  }

  lemma {:induction false} ChildUnder(areas: seq<Area>, x: Area, c: Area, a: Area, k: nat)
    requires a in areas && c.parent == Some(a.id) && Under(areas, x, c, k)
    ensures Under(areas, x, a, k + 1)
    decreases k
  {
    if k == 0 {
      assert Under(areas, a, a, 0);
    } else {
      var p :| p in areas && p.id == x.parent.value && Under(areas, p, c, k - 1);
      ChildUnder(areas, p, c, a, k - 1);
    }
  }

  lemma {:induction false} DepthIsUnderRoot(areas: seq<Area>, x: Area, d: nat)
    ensures DepthIs(areas, x, d) <==> exists r :: r in areas && r.parent.None? && Under(areas, x, r, d)
    decreases d
  {
    if DepthIs(areas, x, d) {
      if d == 0 {
        assert Under(areas, x, x, 0);
      } else {
        var p :| p in areas && p.id == x.parent.value && DepthIs(areas, p, d - 1);
        DepthIsUnderRoot(areas, p, d - 1);
        var r :| r in areas && r.parent.None? && Under(areas, p, r, d - 1);
        assert Under(areas, x, r, d);
      }
    }
    if r :| r in areas && r.parent.None? && Under(areas, x, r, d) {
      assert DepthIs(areas, r, 0);
      UnderAddsDepth(areas, x, r, d, 0);
    }
  }

  // ------------------------------------------------------------------------------ sorting by name

  predicate LexLe(s: string, t: string) {
    s == "" || (t != "" && (s[0] < t[0] || (s[0] == t[0] && LexLe(s[1..], t[1..]))))
  }

  lemma LexLeTotal(s: string, t: string)
    ensures LexLe(s, t) || LexLe(t, s)
  {
  }

  lemma LexLeTransitive(s: string, t: string, u: string)
    requires LexLe(s, t) && LexLe(t, u)
    ensures LexLe(s, u)
  {
  }

  /** The order of names is that of their first different characters; a beginning comes first. */
  lemma {:induction false} FirstDifferenceDecides(p: string, s: string, t: string)
    ensures s == "" ==> LexLe(p + s, p + t)
    ensures s != "" && t == "" ==> !LexLe(p + s, p + t)
    ensures s != "" && t != "" && s[0] < t[0] ==> LexLe(p + s, p + t) && !LexLe(p + t, p + s)
  {
    if p == "" {
      assert p + s == s && p + t == t;
    } else {
      FirstDifferenceDecides(p[1..], s, t);
      assert (p + s)[1..] == p[1..] + s && (p + t)[1..] == p[1..] + t;
    }
  }

  predicate ByName(areas: seq<Area>) {
    forall i, j :: 0 <= i < j < |areas| ==> LexLe(areas[i].name, areas[j].name)
  }

  function Insert(a: Area, s: seq<Area>): seq<Area> {
    if s == [] || LexLe(a.name, s[0].name) then [a] + s else [s[0]] + Insert(a, s[1..])
  }

  /** `sorted(key=name)`; of equal names the earlier stays first. */
  function SortByName(s: seq<Area>): seq<Area> {
    if s == [] then [] else Insert(s[0], SortByName(s[1..]))
  }

  lemma {:induction false} InsertKeepsOrder(a: Area, s: seq<Area>)
    requires ByName(s)
    ensures multiset(Insert(a, s)) == multiset(s) + multiset{a} && ByName(Insert(a, s))
  {
    hide LexLe;
    if s != [] {
      assert s == [s[0]] + s[1..];
      if LexLe(a.name, s[0].name) {
        forall j | 0 < j < |s|
          ensures LexLe(a.name, s[j].name)
        {
          LexLeTransitive(a.name, s[0].name, s[j].name);
        }
      } else {
        LexLeTotal(a.name, s[0].name);
        InsertKeepsOrder(a, s[1..]);
        var t := Insert(a, s[1..]);
        forall j | 0 <= j < |t|
          ensures LexLe(s[0].name, t[j].name)
        {
          assert t[j] in multiset(t);
          assert t[j] == a || t[j] in s[1..];
        }
      }
    }
  }

  lemma {:induction false} SortIsSorted(s: seq<Area>)
    ensures multiset(SortByName(s)) == multiset(s) && ByName(SortByName(s))
  {
    if s != [] {
      assert s == [s[0]] + s[1..];
      SortIsSorted(s[1..]);
      InsertKeepsOrder(s[0], SortByName(s[1..]));
    }
  }

  /** The areas of the list with one name, in order. */
  function Named(s: seq<Area>, name: string): seq<Area> {
    if s == [] then [] else (if s[0].name == name then [s[0]] else []) + Named(s[1..], name)
  }

  lemma {:induction false} InsertIsStable(a: Area, s: seq<Area>, name: string)
    ensures Named(Insert(a, s), name) == (if a.name == name then [a] else []) + Named(s, name)
  {
    if s != [] && !LexLe(a.name, s[0].name) {
      var first := s[0];
      LexLeReflexive(a.name);
      assert a.name != first.name;
      InsertIsStable(a, s[1..], name);
      assert Insert(a, s)[1..] == Insert(a, s[1..]);
    } else {
      assert ([a] + s)[1..] == s;
    }
  }

  lemma LexLeReflexive(s: string)
    ensures LexLe(s, s)
  {
  }

  /** Sorting keeps areas of the same name in the order of the list. */
  lemma {:induction false} SortIsStable(s: seq<Area>, name: string)
    ensures Named(SortByName(s), name) == Named(s, name)
  {
    if s != [] {
      SortIsStable(s[1..], name);
      InsertIsStable(s[0], SortByName(s[1..]), name);
    }
  }

  // ------------------------------------------------------------------------------ building the tree

  function WithParent(areas: seq<Area>, parent: Option<nat>): seq<Area> {
    if areas == [] then []
    else
      var init, last := areas[..|areas| - 1], areas[|areas| - 1];
      WithParent(init, parent) + if last.parent == parent then [last] else []
  }

  lemma {:induction false} WithParentMembers(areas: seq<Area>, parent: Option<nat>, a: Area)
    ensures a in WithParent(areas, parent) <==> a in areas && a.parent == parent
    ensures multiset(WithParent(areas, parent)) <= multiset(areas)
  {
    if areas != [] {
      var init, last := areas[..|areas| - 1], areas[|areas| - 1];
      WithParentMembers(init, parent, a);
      assert areas == init + [last];
    }
  }

  /** The children map, by parent; a missing key has no children. */
  predicate Groups(areas: seq<Area>, children: map<Option<nat>, seq<Area>>) {
    && (forall a :: a in areas ==> a.parent in children)
    && (forall key :: key in children ==> children[key] == WithParent(areas, key))
  }

  function ChildrenOf(children: map<Option<nat>, seq<Area>>, a: Area): seq<Area> {
    SortByName(if Some(a.id) in children then children[Some(a.id)] else [])
  }

  /** Every listed row has its own key. */
  ghost predicate NoRepeats(areas: seq<Area>) {
    forall a :: multiset(areas)[a] <= 1
  }

  /** The siblings of a level: all at depth `d`, none listed twice. */
  ghost predicate Level(areas: seq<Area>, siblings: seq<Area>, d: nat) {
    && NoRepeats(siblings)
    && (forall a :: a in siblings ==> DepthIs(areas, a, d))
  }

  /** The areas on the path from the root are less deep, so the recursion never meets one again. */
  ghost predicate OnPath(areas: seq<Area>, above: set<nat>, d: nat) {
    forall i :: i in above ==> exists a: Area, k: nat :: a.id == i && k < d && DepthIs(areas, a, k)
  }

  lemma NotOnPath(areas: seq<Area>, above: set<nat>, a: Area, d: nat)
    requires Distinct(areas) && OnPath(areas, above, d) && DepthIs(areas, a, d)
    ensures a.id in Ids(areas) - above
    ensures OnPath(areas, above + {a.id}, d + 1)
  {
    if a.id in above {
      var b: Area, k: nat :| b.id == a.id && k < d && DepthIs(areas, b, k);
      assert a == b;
      DepthIsUnique(areas, a, d, k);
    }
  }

  lemma ChildIsDeeper(areas: seq<Area>, a: Area, c: Area, d: nat)
    requires DepthIs(areas, a, d)
    ensures c in areas && c.parent == Some(a.id) ==> DepthIs(areas, c, d + 1)
  {
  }

  lemma ChildrenAreLevel(areas: seq<Area>, children: map<Option<nat>, seq<Area>>, a: Area, d: nat)
    requires NoRepeats(areas) && Groups(areas, children) && DepthIs(areas, a, d)
    ensures Level(areas, ChildrenOf(children, a), d + 1)
    ensures forall c :: c in ChildrenOf(children, a) <==> c in areas && c.parent == Some(a.id)
  {
    var kids := if Some(a.id) in children then children[Some(a.id)] else [];
    var sorted := ChildrenOf(children, a);
    SortIsSorted(kids);
    hide DepthIs, SortByName, Distinct, WithParent;
    forall c
      ensures c in sorted <==> c in areas && c.parent == Some(a.id)
      ensures multiset(sorted)[c] <= 1
      ensures c in sorted ==> DepthIs(areas, c, d + 1)
    {
      WithParentMembers(areas, Some(a.id), c);
      ChildIsDeeper(areas, a, c, d);
      assert c in sorted <==> c in multiset(sorted);
      assert c in kids <==> c in multiset(kids);
      assert multiset(areas)[c] <= 1;
    }
  }

  /** The recursion. It ends for any parent relation, cyclic ones included, since it starts at roots:
      `above`, the path walked so far, grows within the list. */
  function Build(areas: seq<Area>, children: map<Option<nat>, seq<Area>>, selected: Option<nat>, a: Area,
                 ghost d: nat, ghost above: set<nat>): Tree
    requires Distinct(areas) && NoRepeats(areas) && Groups(areas, children)
    requires DepthIs(areas, a, d) && OnPath(areas, above, d)
    decreases Ids(areas) - above, 1, 0
  {
    NotOnPath(areas, above, a, d);
    ChildrenAreLevel(areas, children, a, d);
    var nodes := BuildAll(areas, children, selected, ChildrenOf(children, a), d + 1, above + {a.id});
    Node(a, nodes, Some(a.id) == selected || exists i :: 0 <= i < |nodes| && nodes[i].open)
  }

  function BuildAll(areas: seq<Area>, children: map<Option<nat>, seq<Area>>, selected: Option<nat>, siblings: seq<Area>,
                    ghost d: nat, ghost above: set<nat>): (trees: seq<Tree>)
    requires Distinct(areas) && NoRepeats(areas) && Groups(areas, children)
    requires OnPath(areas, above, d) && forall a :: a in siblings ==> DepthIs(areas, a, d)
    ensures |trees| == |siblings| && forall i :: 0 <= i < |trees| ==> trees[i].area == siblings[i]
    decreases Ids(areas) - above, 2, |siblings|
  {
    if siblings == [] then []
    else [Build(areas, children, selected, siblings[0], d, above)]
         + BuildAll(areas, children, selected, siblings[1..], d, above)
  }

  lemma RootsAreLevel(areas: seq<Area>)
    requires NoRepeats(areas)
    ensures Level(areas, SortByName(WithParent(areas, None)), 0)
    ensures forall a :: a in SortByName(WithParent(areas, None)) <==> a in areas && a.parent.None?
  {
    var roots := WithParent(areas, None);
    var sorted := SortByName(roots);
    SortIsSorted(roots);
    forall a
      ensures a in sorted <==> a in areas && a.parent.None?
      ensures multiset(sorted)[a] <= 1
    {
      WithParentMembers(areas, None, a);
      assert a in sorted <==> a in multiset(sorted);
      assert a in roots <==> a in multiset(roots);
      assert multiset(areas)[a] <= 1;
    }
  }

  // ------------------------------------------------------------------------------ what is in the tree

  function Flat(t: Tree): seq<Area>
    decreases t, 0
  {
    [t.area] + FlatAll(t.children)
  }

  function FlatAll(ts: seq<Tree>): seq<Area>
    decreases ts, 1
  {
    if ts == [] then [] else Flat(ts[0]) + FlatAll(ts[1..])
  }

  ghost predicate UnderSome(areas: seq<Area>, x: Area, siblings: seq<Area>) {
    exists a :: a in siblings && Descends(areas, x, a)
  }

  /** The descendants of an area are itself and, apart from it, those of its children. */
  lemma DescendantsSplit(areas: seq<Area>, kids: seq<Area>, a: Area, d: nat, x: Area)
    requires Distinct(areas) && DepthIs(areas, a, d)
    requires forall c :: c in kids <==> c in areas && c.parent == Some(a.id)
    requires forall c :: c in kids ==> DepthIs(areas, c, d + 1)
    ensures Descends(areas, x, a) <==> x == a || UnderSome(areas, x, kids)
    ensures !(x == a && UnderSome(areas, x, kids))
  {
    if c :| c in kids && Descends(areas, x, c) {
      var k: nat :| Under(areas, x, c, k);
      ChildUnder(areas, x, c, a, k);
      UnderAddsDepth(areas, x, c, k, d + 1);
      if x == a {
        DepthIsUnique(areas, a, d, d + 1 + k);
      }
    }
    if Descends(areas, x, a) {
      var k: nat :| Under(areas, x, a, k);
      if k > 0 {
        var c := UnderChild(areas, x, a, k);
        assert c in kids && Descends(areas, x, c);
      }
    }
    if x == a {
      var n: nat := 0;
      assert Under(areas, x, a, n);
    }
  }

  /** A subtree contains each descendant exactly once and nothing else. */
  lemma {:induction false} SubtreeCounts(areas: seq<Area>, children: map<Option<nat>, seq<Area>>, selected: Option<nat>,
      a: Area,
                                         d: nat, above: set<nat>, x: Area)
    requires Distinct(areas) && NoRepeats(areas) && Groups(areas, children)
    requires DepthIs(areas, a, d) && OnPath(areas, above, d)
    ensures multiset(Flat(Build(areas, children, selected, a, d, above)))[x] == if Descends(areas, x, a) then 1 else 0
    decreases Ids(areas) - above, 1, 0
  {
    hide DepthIs, Under, Groups, OnPath, ChildrenOf, Ids, UnderSome, FlatAll;
    NotOnPath(areas, above, a, d);
    ChildrenAreLevel(areas, children, a, d);
    var kids := ChildrenOf(children, a);
    LevelCounts(areas, children, selected, kids, d + 1, above + {a.id}, x);
    DescendantsSplit(areas, kids, a, d, x);
  }

  /** No area lies under two siblings. */
  lemma SiblingsAreApart(areas: seq<Area>, a: Area, rest: seq<Area>, d: nat, x: Area)
    requires Distinct(areas) && DepthIs(areas, a, d) && a !in rest
    requires forall b :: b in rest ==> DepthIs(areas, b, d)
    ensures UnderSome(areas, x, [a] + rest) <==> Descends(areas, x, a) || UnderSome(areas, x, rest)
    ensures !(Descends(areas, x, a) && UnderSome(areas, x, rest))
  {
    if Descends(areas, x, a) {
      assert a in [a] + rest;
      if b :| b in rest && Descends(areas, x, b) {
        var k: nat :| Under(areas, x, a, k);
        var j: nat :| Under(areas, x, b, j);
        UnderAddsDepth(areas, x, a, k, d);
        UnderAddsDepth(areas, x, b, j, d);
        DepthIsUnique(areas, x, d + k, d + j);
        AncestorIsUnique(areas, x, a, b, k);
      }
    }
    if b :| b in rest && Descends(areas, x, b) {
      assert b in [a] + rest;
    }
  }

  lemma LevelWithoutFirst(areas: seq<Area>, siblings: seq<Area>, d: nat)
    requires Level(areas, siblings, d) && siblings != []
    ensures Level(areas, siblings[1..], d) && siblings[0] !in siblings[1..]
  {
    var a, rest := siblings[0], siblings[1..];
    assert siblings == [a] + rest;
    forall b
      ensures multiset(rest)[b] <= 1 && (b == a ==> b !in rest)
    {
      assert multiset(siblings)[b] <= 1;
      assert b in rest <==> b in multiset(rest);
    }
  }

  lemma {:induction false} LevelCounts(areas: seq<Area>, children: map<Option<nat>, seq<Area>>, selected: Option<nat>,
      siblings: seq<Area>,
                                       d: nat, above: set<nat>, x: Area)
    requires Distinct(areas) && NoRepeats(areas) && Groups(areas, children)
    requires OnPath(areas, above, d) && Level(areas, siblings, d)
    ensures multiset(FlatAll(BuildAll(areas, children, selected, siblings, d, above)))[x]
        == if UnderSome(areas, x, siblings) then 1 else 0
    decreases Ids(areas) - above, 2, |siblings|
  {
    if siblings != [] {
      var a, rest := siblings[0], siblings[1..];
      LevelWithoutFirst(areas, siblings, d);
      assert DepthIs(areas, a, d) && siblings == [a] + rest;
      SiblingsAreApart(areas, a, rest, d, x);
      hide DepthIs, Under, Groups, OnPath, ChildrenOf, Ids, UnderSome, Build, Distinct, NoRepeats, Level;
      SubtreeCounts(areas, children, selected, a, d, above, x);
      LevelCounts(areas, children, selected, rest, d, above, x);
    }
  }

  // ------------------------------------------------------------------------------ open marks and order

  ghost predicate Selects(areas: seq<Area>, selected: Option<nat>) {
    exists a :: a in areas && Some(a.id) == selected
  }

  /** `open` marks exactly the nodes whose subtree holds the selected area. */
  ghost predicate OpenMarks(t: Tree, selected: Option<nat>) {
    && (t.open <==> Selects(Flat(t), selected))
    && forall i :: 0 <= i < |t.children| ==> OpenMarks(t.children[i], selected)
  }

  function Roots(ts: seq<Tree>): seq<Area> {
    seq(|ts|, i requires 0 <= i < |ts| => ts[i].area)
  }

  ghost predicate SiblingsByName(t: Tree) {
    ByName(Roots(t.children)) && forall i :: 0 <= i < |t.children| ==> SiblingsByName(t.children[i])
  }

  /** Every tree of the list, at every level, has the marks and the order. */
  ghost predicate WellMarked(ts: seq<Tree>, selected: Option<nat>) {
    forall i :: 0 <= i < |ts| ==> OpenMarks(ts[i], selected) && SiblingsByName(ts[i])
  }

  lemma MarkedCons(t: Tree, ts: seq<Tree>, selected: Option<nat>)
    requires OpenMarks(t, selected) && SiblingsByName(t) && WellMarked(ts, selected)
    ensures WellMarked([t] + ts, selected)
  {
  }

  lemma {:induction false} SelectsAll(ts: seq<Tree>, selected: Option<nat>)
    requires forall i :: 0 <= i < |ts| ==> OpenMarks(ts[i], selected)
    ensures Selects(FlatAll(ts), selected) <==> exists i :: 0 <= i < |ts| && ts[i].open
  {
    if ts != [] {
      SelectsAll(ts[1..], selected);
      assert forall i :: 0 < i < |ts| ==> ts[i] == ts[1..][i - 1];
      assert forall a :: a in FlatAll(ts) <==> a in Flat(ts[0]) || a in FlatAll(ts[1..]);
      if i :| 0 <= i < |ts[1..]| && ts[1..][i].open {
        assert ts[i + 1].open;
      }
    }
  }

  lemma {:induction false} BuildMarks(areas: seq<Area>, children: map<Option<nat>, seq<Area>>, selected: Option<nat>,
      a: Area,
                                      d: nat, above: set<nat>)
    requires Distinct(areas) && NoRepeats(areas) && Groups(areas, children)
    requires DepthIs(areas, a, d) && OnPath(areas, above, d)
    ensures OpenMarks(Build(areas, children, selected, a, d, above), selected)
    ensures SiblingsByName(Build(areas, children, selected, a, d, above))
    decreases Ids(areas) - above, 1, 0
  {
    hide DepthIs, Groups, OnPath, ChildrenOf, Ids;
    NotOnPath(areas, above, a, d);
    ChildrenAreLevel(areas, children, a, d);
    var kids := ChildrenOf(children, a);
    var nodes := BuildAll(areas, children, selected, kids, d + 1, above + {a.id});
    BuildAllMarks(areas, children, selected, kids, d + 1, above + {a.id});
    ChildrenByName(children, a);
    NodeMarks(a, nodes, selected);
  }

  lemma ChildrenByName(children: map<Option<nat>, seq<Area>>, a: Area)
    ensures ByName(ChildrenOf(children, a))
  {
    SortIsSorted(if Some(a.id) in children then children[Some(a.id)] else []);
  }

  lemma NodeMarks(a: Area, nodes: seq<Tree>, selected: Option<nat>)
    requires ByName(Roots(nodes))
    requires WellMarked(nodes, selected)
    ensures var t := Node(a, nodes, Some(a.id) == selected || exists i :: 0 <= i < |nodes| && nodes[i].open);
            OpenMarks(t, selected) && SiblingsByName(t)
  {
    var t := Node(a, nodes, Some(a.id) == selected || exists i :: 0 <= i < |nodes| && nodes[i].open);
    SelectsAll(nodes, selected);
    assert forall b :: b in Flat(t) <==> b == a || b in FlatAll(nodes);
  }

  lemma {:induction false} BuildAllMarks(areas: seq<Area>, children: map<Option<nat>, seq<Area>>, selected: Option<nat>,
      siblings: seq<Area>,
                                         d: nat, above: set<nat>)
    requires Distinct(areas) && NoRepeats(areas) && Groups(areas, children)
    requires OnPath(areas, above, d) && forall a :: a in siblings ==> DepthIs(areas, a, d)
    ensures WellMarked(BuildAll(areas, children, selected, siblings, d, above), selected)
    decreases Ids(areas) - above, 2, |siblings|
  {
    if siblings != [] {
      hide DepthIs, Groups, OnPath, Build, OpenMarks, SiblingsByName, WellMarked;
      BuildMarks(areas, children, selected, siblings[0], d, above);
      BuildAllMarks(areas, children, selected, siblings[1..], d, above);
      MarkedCons(Build(areas, children, selected, siblings[0], d, above),
                 BuildAll(areas, children, selected, siblings[1..], d, above), selected);
    } else {
      assert BuildAll(areas, children, selected, siblings, d, above) == [];
    }
  }

  // ------------------------------------------------------------------------------ who is whose child

  lemma {:induction false} WithParentOfConcat(a: seq<Area>, b: seq<Area>, parent: Option<nat>)
    ensures WithParent(a + b, parent) == WithParent(a, parent) + WithParent(b, parent)
    ensures b == [] || |b| > 1 || WithParent(b, parent) == if b[0].parent == parent then b else []
  {
    if b == [] {
      assert a + b == a;
    } else {
      assert (a + b)[..|a + b| - 1] == a + b[..|b| - 1];
      WithParentOfConcat(a, b[..|b| - 1], parent);
    }
  }

  /** The nodes under each node are the areas whose parent it is, by name, equal names in list order. */
  ghost predicate HasItsChildren(areas: seq<Area>, t: Tree) {
    && Roots(t.children) == SortByName(WithParent(areas, Some(t.area.id)))
    && forall i :: 0 <= i < |t.children| ==> HasItsChildren(areas, t.children[i])
  }

  ghost predicate AllHaveTheirChildren(areas: seq<Area>, ts: seq<Tree>) {
    forall i :: 0 <= i < |ts| ==> HasItsChildren(areas, ts[i])
  }

  lemma ChildrenOfIs(areas: seq<Area>, children: map<Option<nat>, seq<Area>>, a: Area)
    requires Groups(areas, children)
    ensures ChildrenOf(children, a) == SortByName(WithParent(areas, Some(a.id)))
  {
    if Some(a.id) !in children {
      NoneWithParent(areas, Some(a.id));
    }
  }

  lemma {:induction false} BuildHasChildren(areas: seq<Area>, children: map<Option<nat>, seq<Area>>,
                                            selected: Option<nat>, a: Area, d: nat, above: set<nat>)
    requires Distinct(areas) && NoRepeats(areas) && Groups(areas, children)
    requires DepthIs(areas, a, d) && OnPath(areas, above, d)
    ensures HasItsChildren(areas, Build(areas, children, selected, a, d, above))
    decreases Ids(areas) - above, 1, 0
  {
    hide DepthIs, Groups, OnPath, ChildrenOf, Ids, SortByName, WithParent;
    NotOnPath(areas, above, a, d);
    ChildrenAreLevel(areas, children, a, d);
    ChildrenOfIs(areas, children, a);
    var kids := ChildrenOf(children, a);
    var nodes := BuildAll(areas, children, selected, kids, d + 1, above + {a.id});
    BuildAllHaveChildren(areas, children, selected, kids, d + 1, above + {a.id});
    assert Roots(nodes) == kids;
  }

  lemma {:induction false} BuildAllHaveChildren(areas: seq<Area>, children: map<Option<nat>, seq<Area>>,
                                                selected: Option<nat>, siblings: seq<Area>, d: nat, above: set<nat>)
    requires Distinct(areas) && NoRepeats(areas) && Groups(areas, children)
    requires OnPath(areas, above, d) && forall a :: a in siblings ==> DepthIs(areas, a, d)
    ensures AllHaveTheirChildren(areas, BuildAll(areas, children, selected, siblings, d, above))
    decreases Ids(areas) - above, 2, |siblings|
  {
    if siblings != [] {
      hide DepthIs, Groups, OnPath, Build, HasItsChildren, AllHaveTheirChildren;
      BuildHasChildren(areas, children, selected, siblings[0], d, above);
      BuildAllHaveChildren(areas, children, selected, siblings[1..], d, above);
      ChildrenCons(areas, Build(areas, children, selected, siblings[0], d, above),
                   BuildAll(areas, children, selected, siblings[1..], d, above));
    } else {
      assert BuildAll(areas, children, selected, siblings, d, above) == [];
    }
  }

  lemma ChildrenCons(areas: seq<Area>, t: Tree, ts: seq<Tree>)
    requires HasItsChildren(areas, t) && AllHaveTheirChildren(areas, ts)
    ensures AllHaveTheirChildren(areas, [t] + ts)
  {
  }

  // ------------------------------------------------------------------------------ the view function

  /** `_build_area_tree`, for any parent relation. The forest holds each area whose parent chain
      reaches a root inside the list exactly once, and no other. */
  method BuildAreaTree(areas: seq<Area>, selected: Option<nat>) returns (forest: seq<Tree>)
    requires Distinct(areas) && NoRepeats(areas)
    ensures forall x :: multiset(FlatAll(forest))[x] == if Rooted(areas, x) then 1 else 0
    ensures WellMarked(forest, selected) && AllHaveTheirChildren(areas, forest)
    ensures Roots(forest) == SortByName(WithParent(areas, None))
  {
    hide Groups, OnPath, Level, UnderSome, Build, DepthIs, WellMarked, AllHaveTheirChildren, Rooted, LexLe;
    var children := GroupByParent(areas);
    var roots := FindRoots(areas);
    RootsAreLevel(areas);
    assert OnPath(areas, {}, 0) by { NothingAbove(areas); }
    assert forall a :: a in SortByName(roots) ==> DepthIs(areas, a, 0) by { RootsHaveDepth(areas, SortByName(roots)); }
    forest := BuildAll(areas, children, selected, SortByName(roots), 0, {});
    forall x
      ensures multiset(FlatAll(forest))[x] == if Rooted(areas, x) then 1 else 0
    {
      LevelCounts(areas, children, selected, SortByName(roots), 0, {}, x);
      ReachesRoot(areas, x, SortByName(roots));
    }
    BuildAllMarks(areas, children, selected, SortByName(roots), 0, {});
    BuildAllHaveChildren(areas, children, selected, SortByName(roots), 0, {});
  }

  lemma NothingAbove(areas: seq<Area>)
    ensures OnPath(areas, {}, 0)
  {
  }

  lemma RootsHaveDepth(areas: seq<Area>, roots: seq<Area>)
    requires Level(areas, roots, 0)
    ensures forall a :: a in roots ==> DepthIs(areas, a, 0)
  {
  }

  /** The first loop: children by parent. */
  method GroupByParent(areas: seq<Area>) returns (children: map<Option<nat>, seq<Area>>)
    ensures Groups(areas, children)
  {
    children := map[];
    for i := 0 to |areas|
      invariant Groups(areas[..i], children)
    {
      var a := areas[i];
      assert areas[..i + 1][..i] == areas[..i];
      if a.parent !in children {
        NoneWithParent(areas[..i], a.parent);
      }
      children := children[a.parent := (if a.parent in children then children[a.parent] else []) + [a]];
    }
    assert areas[..|areas|] == areas;
  }

  /** The second loop: the areas without parent. */
  method FindRoots(areas: seq<Area>) returns (roots: seq<Area>)
    ensures roots == WithParent(areas, None)
  {
    roots := [];
    for i := 0 to |areas|
      invariant roots == WithParent(areas[..i], None)
    {
      assert areas[..i + 1][..i] == areas[..i];
      if areas[i].parent == None {
        roots := roots + [areas[i]];
      }
    }
    assert areas[..|areas|] == areas;
  }

  lemma ReachesRoot(areas: seq<Area>, x: Area, roots: seq<Area>)
    requires forall a :: a in roots <==> a in areas && a.parent.None?
    ensures UnderSome(areas, x, roots) <==> Rooted(areas, x)
  {
    if Rooted(areas, x) {
      var d: nat :| DepthIs(areas, x, d);
      DepthIsUnderRoot(areas, x, d);
      var r :| r in areas && r.parent.None? && Under(areas, x, r, d);
      assert r in roots && Descends(areas, x, r);
    }
    if a :| a in roots && Descends(areas, x, a) {
      var k: nat :| Under(areas, x, a, k);
      DepthIsUnderRoot(areas, x, k);
    }
  }

  lemma {:induction false} NoneWithParent(areas: seq<Area>, parent: Option<nat>)
    requires forall a :: a in areas ==> a.parent != parent
    ensures WithParent(areas, parent) == []
  {
    if areas != [] {
      NoneWithParent(areas[..|areas| - 1], parent);
    }
  }
}
