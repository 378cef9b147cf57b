/** The elevation view of a rack computes occupancy a second time, from the devices. */
module RackElevation {
  import opened Options
  import opened RackOccupancy

  /** A device of the list, with the size of its stack. */
  datatype Entry = Entry(name: string, position: Option<Tenths>, height: Option<Tenths>, stacked: bool, members: nat)

  /** A row: the device that it heads, with the drawn height and the size of the stack, or none. */
  datatype Unit = Unit(unit: int, head: Option<Entry>, height: int, stack: int, occupied: bool)

  function Start(e: Entry): int
    requires e.position.Some?
  {
    Whole(e.position.value)
  }

  function StackFactor(e: Entry): (n: int)
    ensures n >= 1
  {
    Max(1, if e.stacked then e.members else 1)
  }

  /** The view's height: a type of less than one unit has none. */
  function ViewHeight(e: Entry): int
    requires e.height.Some?
  {
    (if e.height.value == 0 then 1 else Whole(e.height.value)) * StackFactor(e)
  }

  /** The view skips devices without position or type, and those that start outside the rack. */
  predicate InView(e: Entry, top: int) {
    e.position.Some? && e.height.Some? && 1 <= Start(e) <= top
  }

  function Head(e: Entry, top: int): int
    requires InView(e, top)
  {
    if Start(e) + ViewHeight(e) - 1 <= top then Start(e) + ViewHeight(e) - 1 else top
  }

  predicate Draws(e: Entry, top: int, u: int) {
    InView(e, top) && Start(e) <= u <= Head(e, top)
  }

  /** The last device of the list that draws a unit: later devices overwrite earlier ones. */
  function LastDrawing(entries: seq<Entry>, top: int, u: int): (r: Option<nat>)
    ensures r.None? ==> forall i :: 0 <= i < |entries| ==> !Draws(entries[i], top, u)
    ensures r.Some? ==> r.value < |entries| && Draws(entries[r.value], top, u)
                        && forall i :: r.value < i < |entries| ==> !Draws(entries[i], top, u)
  {
    if entries == [] then None
    else if Draws(entries[|entries| - 1], top, u) then Some(|entries| - 1)
    else LastDrawing(entries[..|entries| - 1], top, u)
  }

  /** The row of a unit. */
  function RowOf(entries: seq<Entry>, top: int, u: int): Unit {
    match LastDrawing(entries, top, u)
    case None => Unit(u, None, 0, 0, false)
    case Some(i) =>
      var e := entries[i];
      if Head(e, top) == u then Unit(u, Some(e), Head(e, top) - Start(e) + 1, StackFactor(e), true)
      else Unit(u, None, 0, 0, true)
  }

  /** Entry `i` is the last of the list that draws the unit. */
  ghost predicate IsLast(entries: seq<Entry>, top: int, u: int, i: int) {
    0 <= i < |entries| && Draws(entries[i], top, u) && forall j :: i < j < |entries| ==> !Draws(entries[j], top, u)
  }

  /** The highest unit that the device draws. */
  predicate Ends(e: Entry, top: int, u: int) {
    Draws(e, top, u) && (u == top || !Draws(e, top, u + 1))
  }

  /** A row of the elevation: occupied when a device draws the unit. When the last such device ends there, the
      row shows this device, its units from the start up to here, and its stack; every other row shows none. */
  ghost predicate RowFits(row: Unit, entries: seq<Entry>, top: int, u: int) {
    && row.unit == u
    && (row.occupied <==> exists i :: 0 <= i < |entries| && Draws(entries[i], top, u))
    && (forall i :: IsLast(entries, top, u, i) && Ends(entries[i], top, u) ==>
          && row.head == Some(entries[i])
          && (entries[i].position.Some? ==> row.height == u - Whole(entries[i].position.value) + 1)
          && row.stack == if entries[i].stacked && entries[i].members > 1 then entries[i].members else 1)
    && ((forall i :: IsLast(entries, top, u, i) ==> !Ends(entries[i], top, u)) ==>
          row.head == None && row.height == 0 && row.stack == 0)
  }

  /** The rows height..1, one for each unit. */
  ghost predicate LaidOut(units: seq<Unit>, entries: seq<Entry>, top: nat) {
    |units| == top && forall k :: 0 <= k < top ==> RowFits(units[k], entries, top, top - k)
  }

  /** The occupancy dictionary points each unit to the device drawn there. */
  ghost predicate PointsToDrawn(occupancy: map<int, nat>, entries: seq<Entry>, top: int) {
    forall u :: LastDrawing(entries, top, u) == if u in occupancy then Some(occupancy[u]) else None
  }

  /** The inner loop: mark the units start..head. */
  method MarkUnits(occupancy: map<int, nat>, start: int, head: int, i: nat) returns (marked: map<int, nat>)
    ensures forall u :: u in marked <==> u in occupancy || start <= u <= head
    ensures forall u :: u in marked ==> marked[u] == if start <= u <= head then i else occupancy[u]
  {
    marked := occupancy;
    var unit := start;
    while unit <= head
      invariant start <= unit && (unit == start || unit <= head + 1)
      invariant forall u :: u in marked <==> u in occupancy || start <= u < unit
      invariant forall u :: u in marked ==> marked[u] == if start <= u < unit then i else occupancy[u]
    {
      marked := marked[unit := i];
      unit := unit + 1;
    }
  }

  /** `_build_layout`: first every device marks its units, then the rows are listed from the top. */
  method BuildLayout(top: nat, entries: seq<Entry>) returns (units: seq<Unit>)
    ensures top == 0 || entries == [] ==> units == []
    ensures top > 0 && entries != [] ==>
              |units| == top && forall k :: 0 <= k < top ==> units[k] == RowOf(entries, top, top - k)
    ensures top > 0 && entries != [] ==> LaidOut(units, entries, top)
  {
    if top == 0 || entries == [] {
      return [];
    }
    var occupancy: map<int, nat> := map[];
    var i := 0;
    while i < |entries|
      invariant 0 <= i <= |entries|
      invariant PointsToDrawn(occupancy, entries[..i], top)
    {
      var e := entries[i];
      assert entries[..i + 1][..i] == entries[..i];
      if InView(e, top) {
        occupancy := MarkUnits(occupancy, Start(e), Head(e, top), i);
      }
      i := i + 1;
    }
    assert entries[..i] == entries;
    units := [];
    var unit := top;
    while unit > 0
      invariant 0 <= unit <= top && |units| == top - unit
      invariant PointsToDrawn(occupancy, entries, top)
      invariant forall k :: 0 <= k < |units| ==> units[k] == RowOf(entries, top, top - k)
    {
      var row := Unit(unit, None, 0, 0, false);
      if unit in occupancy {
        var e := entries[occupancy[unit]];
        if Head(e, top) == unit {
          row := Unit(unit, Some(e), Head(e, top) - Start(e) + 1, StackFactor(e), true);
        } else {
          row := Unit(unit, None, 0, 0, true);
        }
      }
      units := units + [row];
      unit := unit - 1;
    }
    RowsAreLaidOut(units, entries, top);
  }

  lemma RowsAreLaidOut(units: seq<Unit>, entries: seq<Entry>, top: nat)
    requires |units| == top && forall k :: 0 <= k < top ==> units[k] == RowOf(entries, top, top - k)
    ensures LaidOut(units, entries, top)
  {
    hide Draws, Head;
    forall k | 0 <= k < top
      ensures RowFits(units[k], entries, top, top - k)
    {
      RowOfFits(entries, top, top - k);
    }
  }

  lemma RowOfFits(entries: seq<Entry>, top: nat, u: int)
    ensures RowFits(RowOf(entries, top, u), entries, top, u)
  {
  }

  // ------------------------------------------------------------------- agreement with the index

  /** What the index counts for the device. */
  predicate Indexes(e: Entry, u: int) {
    && e.position.Some?
    && Start(e) <= u < Start(e) + Max(1,
        (if e.height.Some? && e.height.value != 0 then Max(1, Whole(e.height.value)) else 1)
                                         * StackFactor(e))
  }

  lemma ProductAtLeastOne(h: int, n: int)
    requires h >= 1 && n >= 1
    ensures h * n >= 1
  {
  }

  /** The view draws what the index counts, except for devices without a type, that start below
      unit 1, or whose type is lower than one whole unit. */
  predicate Drawable(e: Entry) {
    e.position.Some? && e.height.Some? && Start(e) >= 1 && (e.height.value == 0 || Whole(e.height.value) >= 1)
  }

  lemma ViewOfOne(e: Entry, top: int, u: int)
    requires 1 <= u <= top
    ensures Draws(e, top, u) <==> Indexes(e, u) && Drawable(e)
  {
    if e.position.Some? && e.height.Some? {
      var h := if e.height.value == 0 then 1 else Whole(e.height.value);
      if h >= 1 {
        ProductAtLeastOne(h, StackFactor(e));
      } else {
        assert h * StackFactor(e) <= 0 by { assert -h * StackFactor(e) >= 0; }
      }
    }
  }

  /** The list entry of a stored device. */
  function EntryOf(t: Tables, id: nat): Entry
    requires id in t.devices
  {
    var d := t.devices[id];
    Entry("", d.position, if d.kind.Some? && d.kind.value in t.heights then Some(t.heights[d.kind.value]) else None,
          d.stacked, StackSize(t.members, id))
  }

  lemma SameUnits(t: Tables, id: nat, u: int)
    requires id in t.devices
    ensures Occupies(t, id, u) <==> Indexes(EntryOf(t, id), u)
  {
  }

  /** The list holds the devices of the rack, as the view reads them. */
  ghost predicate Lists(t: Tables, rack: nat, ids: seq<nat>, entries: seq<Entry>) {
    && |entries| == |ids|
    && (forall id :: id in ids <==> id in Mounted(t, rack))
    && (forall i :: 0 <= i < |ids| ==> ids[i] in t.devices && entries[i] == EntryOf(t, ids[i]))
  }

  ghost predicate SomeIndexes(entries: seq<Entry>, u: int) {
    exists i :: 0 <= i < |entries| && Indexes(entries[i], u)
  }

  ghost predicate SomeDrawableIndexes(entries: seq<Entry>, u: int) {
    exists i :: 0 <= i < |entries| && Indexes(entries[i], u) && Drawable(entries[i])
  }

  /** Every unit of the rack that some device takes is taken by a drawable one. */
  ghost predicate DrawablesSuffice(entries: seq<Entry>, top: int) {
    forall u :: 1 <= u <= top && SomeIndexes(entries, u) ==> SomeDrawableIndexes(entries, u)
  }

  /** The elevation marks exactly the indexed units of the rack. */
  ghost predicate Agrees(t: Tables, rack: nat, entries: seq<Entry>)
    requires rack in t.racks
  {
    forall u :: 1 <= u <= t.racks[rack].height ==>
        (RowOf(entries, t.racks[rack].height, u).occupied <==> u in t.racks[rack].occupied)
  }

  lemma ListedUnits(t: Tables, rack: nat, ids: seq<nat>, entries: seq<Entry>, u: int)
    requires rack in t.racks && Indexed(t, rack) && Lists(t, rack, ids, entries) && 1 <= u <= t.racks[rack].height
    ensures u in t.racks[rack].occupied <==> SomeIndexes(entries, u)
    ensures RowOf(entries, t.racks[rack].height, u).occupied <==> SomeDrawableIndexes(entries, u)
  {
    hide Indexes, Occupies, Drawable, Draws, Indexed, EntryOf, Mounted;
    var top := t.racks[rack].height;
    IndexedUnits(t, rack, u);
    forall i | 0 <= i < |ids|
      ensures Draws(entries[i], top, u) <==> Indexes(entries[i], u) && Drawable(entries[i])
      ensures Indexes(entries[i], u) <==> Occupies(t, ids[i], u)
    {
      ViewOfOne(entries[i], top, u);
      SameUnits(t, ids[i], u);
    }
    if id :| id in Mounted(t, rack) && Occupies(t, id, u) {
      var i :| 0 <= i < |ids| && ids[i] == id;
      assert Indexes(entries[i], u);
    }
    if i :| 0 <= i < |entries| && Indexes(entries[i], u) {
      assert ids[i] in Mounted(t, rack) && Occupies(t, ids[i], u);
    }
  }

  /** The elevation and the cached index agree on the whole rack exactly when every unit that some device
      takes is taken by a drawable one. */
  lemma ElevationAgreesExactly(t: Tables, rack: nat, ids: seq<nat>, entries: seq<Entry>)
    requires rack in t.racks && Indexed(t, rack) && Lists(t, rack, ids, entries)
    ensures Agrees(t, rack, entries) <==> DrawablesSuffice(entries, t.racks[rack].height)
  {
    hide SomeIndexes, SomeDrawableIndexes, Indexed, Lists, RowOf;
    var top := t.racks[rack].height;
    forall u | 1 <= u <= top
      ensures u in t.racks[rack].occupied <==> SomeIndexes(entries, u)
      ensures RowOf(entries, top, u).occupied <==> SomeDrawableIndexes(entries, u)
    {
      ListedUnits(t, rack, ids, entries, u);
    }
    forall u
      ensures SomeDrawableIndexes(entries, u) ==> SomeIndexes(entries, u)
    {
      DrawableIsIndexed(entries, u);
    }
  }

  lemma DrawableIsIndexed(entries: seq<Entry>, u: int)
    ensures SomeDrawableIndexes(entries, u) ==> SomeIndexes(entries, u)
  {
    hide Indexes, Drawable;
  }

  /** In particular they agree when every positioned device is drawable. */
  lemma ElevationMatchesIndex(t: Tables, rack: nat, ids: seq<nat>, entries: seq<Entry>)
    requires rack in t.racks && Indexed(t, rack) && Lists(t, rack, ids, entries)
    requires forall i :: 0 <= i < |entries| && entries[i].position.Some? ==> Drawable(entries[i])
    ensures Agrees(t, rack, entries)
    ensures forall u :: RowOf(entries, t.racks[rack].height, u).unit == u
  {
    hide Indexed, Lists, Agrees, Drawable;
    assert DrawablesSuffice(entries, t.racks[rack].height) by {
      forall u | SomeIndexes(entries, u)
        ensures SomeDrawableIndexes(entries, u)
      {
        var i :| 0 <= i < |entries| && Indexes(entries[i], u);
        assert Drawable(entries[i]);
      }
    }
    ElevationAgreesExactly(t, rack, ids, entries);
  }

  /** The failing case: a rack with one shelf of half a unit at unit 3. */
  const SHELF := Device(Some(0), Some(30), Some(7), false)
  const SHELF_TABLES := Tables(map[7 := 5], map[0 := SHELF], {}, map[0 := Rack(42, [3])])

  lemma ShelfIsIndexed()
    ensures Indexed(SHELF_TABLES, 0) && Lists(SHELF_TABLES, 0, [0], [EntryOf(SHELF_TABLES, 0)])
  {
    assert Mounted(SHELF_TABLES, 0) == {0};
    forall u
      ensures multiset(SHELF_TABLES.racks[0].occupied)[u] == |HoldersAmong(SHELF_TABLES, {0}, u)|
    {
      assert HoldersAmong(SHELF_TABLES, {0}, u) == if u == 3 then {0} else {};
    }
    assert forall id :: id in [0] <==> id == 0;
  }

  /** The cached index lists unit 3 and the elevation shows it free. */
  lemma HalfUnitIsNotDrawn()
    ensures Indexed(SHELF_TABLES, 0) && 3 in SHELF_TABLES.racks[0].occupied
    ensures !RowOf([EntryOf(SHELF_TABLES, 0)], 42, 3).occupied && !Agrees(SHELF_TABLES, 0, [EntryOf(SHELF_TABLES, 0)])
  {
    ShelfIsIndexed();
    var e := EntryOf(SHELF_TABLES, 0);
    assert e.height == Some(5) && !Drawable(e);
    ViewOfOne(e, 42, 3);
    assert LastDrawing([e], 42, 3).None?;
  }

  // --------------------------------------------------------------------------- disjoint devices

  ghost predicate DrawnApart(entries: seq<Entry>, top: int) {
    forall i, j, u ::
      0 <= i < |entries| && 0 <= j < |entries| && Draws(entries[i], top, u) && Draws(entries[j], top, u) ==> i == j
  }

  /** In a rack whose devices take no unit twice, each listed once, the view draws no unit twice. */
  lemma ExclusiveIsDrawnApart(t: Tables, rack: nat, ids: seq<nat>, entries: seq<Entry>, top: int)
    requires Exclusive(t, rack) && Lists(t, rack, ids, entries)
    requires forall i, j :: 0 <= i < j < |ids| ==> ids[i] != ids[j]
    ensures DrawnApart(entries, top)
  {
    hide Indexes, Occupies, Drawable, EntryOf, Mounted;
    forall i, j, u | 0 <= i < |entries| && 0 <= j < |entries| && Draws(entries[i], top, u) && Draws(entries[j], top, u)
      ensures i == j
    {
      ViewOfOne(entries[i], top, u);
      ViewOfOne(entries[j], top, u);
      SameUnits(t, ids[i], u);
      SameUnits(t, ids[j], u);
      assert ids[i] in ids && ids[j] in ids;
      assert ids[i] == ids[j];
    }
  }

  /** Sum of the head heights of units u..top. */
  ghost function HeadHeights(entries: seq<Entry>, top: nat, u: nat): int
    decreases top + 1 - u
  {
    if u > top then 0 else RowOf(entries, top, u).height + HeadHeights(entries, top, u + 1)
  }

  /** Number of occupied units in u..top. */
  ghost function OccupiedRows(entries: seq<Entry>, top: nat, u: nat): int
    decreases top + 1 - u
  {
    if u > top then 0 else (if RowOf(entries, top, u).occupied then 1 else 0) + OccupiedRows(entries, top, u + 1)
  }

  /** A drawn device heads the row of its highest unit, and no other. */
  lemma HeadsOneRow(entries: seq<Entry>, top: nat, i: nat, u: int)
    requires i < |entries| && InView(entries[i], top) && ViewHeight(entries[i]) >= 1 && DrawnApart(entries, top)
    ensures 1 <= Head(entries[i], top) <= top
    ensures LastDrawing(entries, top, u) == Some(i) && RowOf(entries, top, u).head.Some? <==> u == Head(entries[i], top)
    ensures RowOf(entries, top, Head(entries[i], top)).height == Head(entries[i], top) - Start(entries[i]) + 1
  {
    assert Draws(entries[i], top, Head(entries[i], top));
  }

  /** In a rack drawn apart the elevation shows each drawn device in the row of its highest unit and nowhere
      else, and a row that is no device's highest unit shows none. */
  lemma ShowsEachDeviceOnce(units: seq<Unit>, entries: seq<Entry>, top: nat, u: int)
    requires LaidOut(units, entries, top) && DrawnApart(entries, top) && 1 <= u <= top
    ensures forall i :: 0 <= i < |entries| ==> (units[top - u].head == Some(entries[i]) <==> Ends(entries[i], top, u))
    ensures units[top - u].head.Some? ==> exists i :: 0 <= i < |entries| && units[top - u].head == Some(entries[i])
  {
    hide Draws;
    var row := units[top - u];
    assert RowFits(row, entries, top, u);
    if i :| IsLast(entries, top, u, i) && Ends(entries[i], top, u) {
      assert row.head == Some(entries[i]);
    }
    forall i | 0 <= i < |entries|
      ensures row.head == Some(entries[i]) <==> Ends(entries[i], top, u)
    {
      if Ends(entries[i], top, u) {
        assert forall j :: i < j < |entries| ==> !Draws(entries[j], top, u);
        assert IsLast(entries, top, u, i);
      }
    }
  }

  /** What the rows above `u` have announced but not yet listed. */
  ghost function Pending(entries: seq<Entry>, top: nat, u: nat): int {
    match LastDrawing(entries, top, u + 1)
    case None => 0
    case Some(i) => u - Start(entries[i]) + 1
  }

  lemma {:induction false} HeightsFromUnit(entries: seq<Entry>, top: nat, u: nat)
    requires DrawnApart(entries, top) && u <= top
    ensures HeadHeights(entries, top, u + 1) == OccupiedRows(entries, top, u + 1) + Pending(entries, top, u)
    decreases top - u
  {
    if u < top {
      HeightsFromUnit(entries, top, u + 1);
      var here, above := LastDrawing(entries, top, u + 1), LastDrawing(entries, top, u + 2);
      if above.Some? {
        var e := entries[above.value];
        assert Start(e) <= u + 1 ==> Draws(e, top, u + 1);
      }
      if here.Some? {
        var e := entries[here.value];
        assert Head(e, top) >= u + 2 ==> Draws(e, top, u + 2);
      }
    } else {
      assert LastDrawing(entries, top, top + 1).None? by {
        assert forall i :: 0 <= i < |entries| ==> !Draws(entries[i], top, top + 1);
      }
    }
  }

  /** The head heights of the elevation add up to its occupied rows. */
  lemma HeadHeightsSumToOccupied(entries: seq<Entry>, top: nat)
    requires DrawnApart(entries, top)
    ensures HeadHeights(entries, top, 1) == OccupiedRows(entries, top, 1)
  {
    HeightsFromUnit(entries, top, 0);
  }
}
