/** The cached index of occupied rack units: every writer of devices and stack members must leave
    it equal, as a multiset, to what the devices occupy. The auto-assignment allocator reads it. */
module RackOccupancy {
  import opened Options

  /** A decimal with one fractional digit, counted in tenths: positions and heights. */
  type Tenths = int

  /** `int()` of a decimal: toward zero. */
  function Whole(x: Tenths): (w: int)
    ensures x >= 0 ==> 10 * w <= x < 10 * w + 10
    ensures x <= 0 ==> 10 * w - 10 < x <= 10 * w
  {
    if x >= 0 then x / 10 else -((-x) / 10)
  }

  function Max(a: int, b: int): int {
    if a >= b then a else b
  }

  datatype Device = Device(rack: Option<nat>, position: Option<Tenths>, kind: Option<nat>, stacked: bool)

  datatype Rack = Rack(height: nat, occupied: seq<int>)

  /** The tables. A stack member row is its key: the device and the switch number. The heights of the
      device types are fixed. */
  datatype Tables = Tables(heights: map<nat, Tenths>, devices: map<nat, Device>,
                           members: set<(nat, int)>, racks: map<nat, Rack>)

  function StackSize(members: set<(nat, int)>, id: nat): nat {
    |set m | m in members && m.0 == id|
  }

  function TypeHeight(heights: map<nat, Tenths>, kind: Option<nat>): (h: int)
    ensures h >= 1
  {
    if kind.Some? && kind.value in heights && heights[kind.value] != 0 then Max(1, Whole(heights[kind.value])) else 1
  }

  /** How many units a device takes: its height, once per stack member. */
  function UnitsOf(heights: map<nat, Tenths>, members: set<(nat, int)>, id: nat, d: Device): (n: int)
    ensures n >= 1
  {
    var factor := if d.stacked then StackSize(members, id) else 1;
    Max(1, TypeHeight(heights, d.kind) * Max(1, factor))
  }

  predicate Occupies(t: Tables, id: nat, u: int) {
    && id in t.devices && t.devices[id].position.Some?
    && var start := Whole(t.devices[id].position.value);
    start <= u < start + UnitsOf(t.heights, t.members, id, t.devices[id])
  }

  /** The devices of `among` that take unit `u`. */
  ghost function HoldersAmong(t: Tables, among: set<nat>, u: int): set<nat> {
    set id | id in among && Occupies(t, id, u)
  }

  function Mounted(t: Tables, rack: nat): set<nat> {
    set id | id in t.devices && t.devices[id].rack == Some(rack)
  }

  /** The index of a rack counts, for each unit, the devices that take it. */
  ghost predicate Indexed(t: Tables, rack: nat)
    requires rack in t.racks
  {
    forall u :: multiset(t.racks[rack].occupied)[u] == |HoldersAmong(t, Mounted(t, rack), u)|
  }

  ghost predicate AllIndexed(t: Tables) {
    forall r :: r in t.racks ==> Indexed(t, r)
  }

  /** `count` units from `from` on are not in the index. */
  predicate Clear(occupied: seq<int>, from: int, count: int) {
    forall u :: from <= u < from + count ==> u !in occupied
  }

  /** No two devices of a rack take the same unit. */
  ghost predicate Exclusive(t: Tables, rack: nat) {
    forall i, j, u :: i in Mounted(t, rack) && j in Mounted(t, rack) && Occupies(t, i, u) && Occupies(t, j, u) ==>
        i == j
  }

  // -------------------------------------------------------------------- the effect of each writer

  /** Only the indexes of `racks` changed, and they were recomputed. */
  ghost predicate Reindexed(before: map<nat, Rack>, after: Tables, racks: set<nat>) {
    && after.racks.Keys == before.Keys
    && (forall r :: r in before ==> after.racks[r].height == before[r].height)
    && (forall r :: r in before && r !in racks ==> after.racks[r] == before[r])
    && (forall r :: r in before && r in racks ==> Indexed(after, r))
  }

  function RackOf(devices: map<nat, Device>, id: nat): set<nat> {
    if id in devices && devices[id].rack.Some? then {devices[id].rack.value} else {}
  }

  ghost predicate Saved(s: Tables, t: Tables, id: nat, d: Device) {
    && t.heights == s.heights && t.members == s.members
    && t.devices == s.devices[id := d]
    && Reindexed(s.racks, t, RackOf(s.devices, id) + RackOf(t.devices, id))
  }

  ghost predicate Deleted(s: Tables, t: Tables, id: nat) {
    && t.heights == s.heights && t.members == (set m | m in s.members && m.0 != id)
    && t.devices == s.devices - {id}
    && Reindexed(s.racks, t, RackOf(s.devices, id))
  }

  /** The member rows of one device become `numbers`, the others stay. */
  function WithMembers(members: set<(nat, int)>, id: nat, numbers: seq<int>): set<(nat, int)> {
    (set m | m in members && m.0 != id) + (set i | 0 <= i < |numbers| :: (id, numbers[i]))
  }

  ghost predicate StackSynced(s: Tables, t: Tables, id: nat, numbers: seq<int>) {
    && id in s.devices && t.heights == s.heights
    && t.devices == s.devices[id := s.devices[id].(stacked := |numbers| > 1)]
    && t.members == (if numbers == [] then s.members else WithMembers(s.members, id, numbers))
    && Reindexed(s.racks, t, RackOf(s.devices, id))
  }

  /** Every stack member belongs to a stored device. */
  ghost predicate MembersKnown(t: Tables) {
    forall m :: m in t.members ==> m.0 in t.devices
  }

  predicate NoRepeats(numbers: seq<int>) {
    forall i, j :: 0 <= i < j < |numbers| ==> numbers[i] != numbers[j]
  }

  ghost predicate Assigned(s: Tables, t: Tables, id: nat, d: Device, numbers: seq<int>) {
    && id !in s.devices && d.rack.Some? && d.stacked == (|numbers| > 1)
    && MembersKnown(s) && NoRepeats(numbers)
    && t.heights == s.heights && t.devices == s.devices[id := d]
    && t.members == WithMembers(s.members, id, numbers)
    && Reindexed(s.racks, t, {d.rack.value})
  }

  datatype Op =
    | Save(id: nat, device: Device)
    | Delete(id: nat)
    | SyncStack(id: nat, numbers: seq<int>)
    | Assign(id: nat, device: Device, numbers: seq<int>, requested: Option<Tenths>)

  /** One step: its effect, or none when it fails and is rolled back. */
  ghost predicate Step(s: Tables, op: Op, t: Tables) {
    || t == s
    || match op
       case Save(id, d) => Saved(s, t, id, d)
       case Delete(id) => Deleted(s, t, id)
       case SyncStack(id, numbers) => StackSynced(s, t, id, numbers)
       case Assign(id, d, numbers, _) => Assigned(s, t, id, d, numbers)
  }

  // -------------------------------------------------------------------------------- invariants

  /** A rack none of whose devices changed keeps a correct index. */
  lemma UntouchedStaysIndexed(s: Tables, t: Tables, rack: nat, id: nat)
    requires rack in s.racks && rack in t.racks && t.racks[rack] == s.racks[rack] && Indexed(s, rack)
    requires t.heights == s.heights
    requires rack !in RackOf(s.devices, id) && rack !in RackOf(t.devices, id)
    requires forall k :: k != id ==> (k in s.devices <==> k in t.devices)
    requires forall k :: k != id && k in s.devices ==> t.devices[k] == s.devices[k]
    requires forall m: (nat, int) :: m.0 != id ==> (m in s.members <==> m in t.members)
    ensures Indexed(t, rack)
  {
    assert Mounted(s, rack) == Mounted(t, rack);
    forall u
      ensures HoldersAmong(s, Mounted(s, rack), u) == HoldersAmong(t, Mounted(t, rack), u)
    {
      forall k | k in Mounted(s, rack)
        ensures Occupies(s, k, u) <==> Occupies(t, k, u)
      {
        assert k != id;
        SameHolding(s, t, k, u);
      }
    }
  }

  /** A device with the same row and the same members takes the same units. */
  lemma SameHolding(s: Tables, t: Tables, k: nat, u: int)
    requires t.heights == s.heights && k in s.devices && k in t.devices && t.devices[k] == s.devices[k]
    requires forall m: (nat, int) :: m.0 == k ==> (m in s.members <==> m in t.members)
    ensures Occupies(s, k, u) <==> Occupies(t, k, u)
  {
    hide TypeHeight, Whole;
    assert (set m | m in s.members && m.0 == k) == (set m | m in t.members && m.0 == k);
  }

  lemma StepKeepsIndex(s: Tables, op: Op, t: Tables)
    requires AllIndexed(s) && Step(s, op, t)
    ensures AllIndexed(t)
  {
    forall r | r in t.racks && t != s
      ensures Indexed(t, r)
    {
      if r !in RackOf(s.devices, op.id) + RackOf(t.devices, op.id) {
        UntouchedStaysIndexed(s, t, r, op.id);
      }
    }
  }

  /** Over every run of saves, deletes, stack synchronisations and auto-assignments, each index
      equals the recomputed occupancy. */
  lemma {:induction false} RunKeepsIndex(run: seq<Tables>, ops: seq<Op>, n: nat)
    requires |run| == |ops| + 1 && n < |run| && AllIndexed(run[0])
    requires forall i :: 0 <= i < |ops| ==> Step(run[i], ops[i], run[i + 1])
    ensures AllIndexed(run[n])
  {
    if n > 0 {
      RunKeepsIndex(run, ops, n - 1);
      StepKeepsIndex(run[n - 1], ops[n - 1], run[n]);
    }
  }

  /** Over every such run the stack members keep to stored devices. */
  lemma {:induction false} RunKeepsMembers(run: seq<Tables>, ops: seq<Op>, n: nat)
    requires |run| == |ops| + 1 && n < |run| && MembersKnown(run[0])
    requires forall i :: 0 <= i < |ops| ==> Step(run[i], ops[i], run[i + 1])
    ensures MembersKnown(run[n])
  {
    hide Reindexed;
    if n > 0 {
      RunKeepsMembers(run, ops, n - 1);
      StepKeepsMembers(run[n - 1], ops[n - 1], run[n]);
    }
  }

  lemma StepKeepsMembers(s: Tables, op: Op, t: Tables)
    requires MembersKnown(s) && Step(s, op, t)
    ensures MembersKnown(t)
  {
    hide Reindexed;
  }

  /** A unit is in the index exactly when a device of the rack takes it. */
  lemma IndexedUnits(t: Tables, rack: nat, u: int)
    requires rack in t.racks && Indexed(t, rack)
    ensures u in t.racks[rack].occupied <==> exists id :: id in Mounted(t, rack) && Occupies(t, id, u)
  {
    var holders := HoldersAmong(t, Mounted(t, rack), u);
    assert u in t.racks[rack].occupied <==> multiset(t.racks[rack].occupied)[u] > 0;
    if holders != {} {
      var id :| id in holders;
    }
    if id :| id in Mounted(t, rack) && Occupies(t, id, u) {
      assert id in holders;
    }
  }

  lemma {:induction false} DistinctCount(id: nat, numbers: seq<int>)
    requires NoRepeats(numbers)
    ensures |set i | 0 <= i < |numbers| :: (id, numbers[i])| == |numbers|
  {
    if numbers != [] {
      var init := numbers[..|numbers| - 1];
      DistinctCount(id, init);
      var s := set i | 0 <= i < |init| :: (id, init[i]);
      assert (set i | 0 <= i < |numbers| :: (id, numbers[i])) == s + {(id, numbers[|numbers| - 1])};
    }
  }

  lemma ProductAtLeast(h: int, n: int)
    requires h >= 1 && n >= 1
    ensures h * n >= n
  {
    assert (h - 1) * n >= 0;
  }

  /** What a new stack takes: its members times the height of its type. */
  lemma AssignedUnits(s: Tables, t: Tables, id: nat, d: Device, numbers: seq<int>)
    requires Assigned(s, t, id, d, numbers)
    ensures UnitsOf(t.heights, t.members, id, d) == TypeHeight(t.heights, d.kind) * Max(1, |numbers|)
  {
    var rows := set m | m in t.members && m.0 == id;
    assert rows == (set i | 0 <= i < |numbers| :: (id, numbers[i]));
    DistinctCount(id, numbers);
    ProductAtLeast(TypeHeight(t.heights, d.kind), Max(1, |numbers|));
  }

  /** The units of a device by its columns: from the whole part of its position on, the whole part of its
      type's height but at least one, once per stack member of a stacked device. */
  lemma UnitsByColumns(t: Tables, id: nat, u: int, height: int, members: set<(nat, int)>)
    requires id in t.devices && members == set m | m in t.members && m.0 == id
    requires var kind := t.devices[id].kind;
             if kind.Some? && kind.value in t.heights && t.heights[kind.value] >= 10 then
               10 * height <= t.heights[kind.value] < 10 * height + 10
             else height == 1
    ensures Occupies(t, id, u) <==>
              && t.devices[id].position.Some?
              && var start := Whole(t.devices[id].position.value);
              start <= u < start + if t.devices[id].stacked && |members| > 1 then height * |members| else height
  {
    var factor := Max(1, if t.devices[id].stacked then |members| else 1);
    assert TypeHeight(t.heights, t.devices[id].kind) == height;
    ProductAtLeast(height, factor);
    hide Whole;
  }

  /** A new device changes nothing for the devices that are there. */
  lemma AssignmentLeavesOthers(s: Tables, t: Tables, id: nat, d: Device, numbers: seq<int>, k: nat, u: int)
    requires Assigned(s, t, id, d, numbers) && k in s.devices
    ensures Occupies(s, k, u) <==> Occupies(t, k, u)
  {
    SameHolding(s, t, k, u);
  }

  /** The new device disturbs nobody exactly when its whole interval was clear. */
  lemma NewDeviceFits(s: Tables, t: Tables, id: nat, d: Device, numbers: seq<int>)
    requires Assigned(s, t, id, d, numbers) && d.position.Some? && d.rack.value in s.racks
    requires Indexed(s, d.rack.value) && Exclusive(s, d.rack.value)
    ensures var start := Whole(d.position.value);
            Exclusive(t, d.rack.value) <==>
              Clear(s.racks[d.rack.value].occupied, start, UnitsOf(t.heights, t.members, id, d))
  {
    hide UnitsOf, Reindexed, Indexed, WithMembers;
    var r, start, total := d.rack.value, Whole(d.position.value), UnitsOf(t.heights, t.members, id, d);
    assert Mounted(t, r) == Mounted(s, r) + {id};
    if u :| start <= u < start + total && u in s.racks[r].occupied {
      IndexedUnits(s, r, u);
      var k :| k in Mounted(s, r) && Occupies(s, k, u);
      AssignmentLeavesOthers(s, t, id, d, numbers, k, u);
      assert Occupies(t, id, u) && k in Mounted(t, r) && k != id;
    }
    if i, j, u :| i in Mounted(t, r) && j in Mounted(t, r) && Occupies(t, i, u) && Occupies(t, j, u) && i != j {
      if i != id {
        AssignmentLeavesOthers(s, t, id, d, numbers, i, u);
      }
      if j != id {
        AssignmentLeavesOthers(s, t, id, d, numbers, j, u);
      }
      IndexedUnits(s, r, u);
      assert start <= u < start + total && u in s.racks[r].occupied;
    }
  }

  /** The allocator checks one unit per stack member; the type's height is not known to it. So the
      intervals of the rack stay disjoint exactly when the units beyond those are clear as well. */
  lemma AssignmentIsExclusive(s: Tables, t: Tables, id: nat, d: Device, numbers: seq<int>)
    requires Assigned(s, t, id, d, numbers) && d.position.Some? && d.rack.value in s.racks
    requires Indexed(s, d.rack.value) && Exclusive(s, d.rack.value)
    requires Clear(s.racks[d.rack.value].occupied, Whole(d.position.value), Max(1, |numbers|))
    ensures var checked := Max(1, |numbers|);
            Exclusive(t, d.rack.value) <==>
              Clear(s.racks[d.rack.value].occupied, Whole(d.position.value) + checked,
                    TypeHeight(s.heights, d.kind) * checked - checked)
  {
    AssignedUnits(s, t, id, d, numbers);
    ProductAtLeast(TypeHeight(s.heights, d.kind), Max(1, |numbers|));
    NewDeviceFits(s, t, id, d, numbers);
  }

  /** With types of at most one unit nothing is left unchecked: the intervals stay disjoint. */
  lemma AssignmentKeepsDisjoint(s: Tables, t: Tables, id: nat, d: Device, numbers: seq<int>)
    requires Assigned(s, t, id, d, numbers) && d.position.Some? && d.rack.value in s.racks
    requires Indexed(s, d.rack.value) && Exclusive(s, d.rack.value)
    requires Clear(s.racks[d.rack.value].occupied, Whole(d.position.value), Max(1, |numbers|))
    requires TypeHeight(s.heights, d.kind) == 1
    ensures Exclusive(t, d.rack.value)
  {
    AssignmentIsExclusive(s, t, id, d, numbers);
  }

  lemma OtherRacksStayExclusive(s: Tables, t: Tables, id: nat, d: Device, numbers: seq<int>, r: nat)
    requires Assigned(s, t, id, d, numbers) && r != d.rack.value && Exclusive(s, r)
    ensures Exclusive(t, r)
  {
    assert Mounted(t, r) == Mounted(s, r);
    forall i, j, u | i in Mounted(t, r) && j in Mounted(t, r) && Occupies(t, i, u) && Occupies(t, j, u)
      ensures i == j
    {
      AssignmentLeavesOthers(s, t, id, d, numbers, i, u);
      AssignmentLeavesOthers(s, t, id, d, numbers, j, u);
    }
  }

  // ------------------------------------------------------------------------- what may be chosen

  /** The height that the allocator assumes. */
  function TopUnit(rack: Rack): int {
    if rack.height == 0 then 42 else rack.height
  }

  /** A unit was requested and its window is free. */
  predicate Granted(rack: Rack, requested: Option<Tenths>, required: int) {
    requested.Some? && requested.value != 0 && Clear(rack.occupied, Whole(requested.value), required)
  }

  /** The positions that `_select_position` may return: the requested one when it is granted, else any
      free window of the rack. */
  predicate MayChoose(rack: Rack, requested: Option<Tenths>, required: int, p: Tenths) {
    if Granted(rack, requested, required) then requested == Some(p)
    else p % 10 == 0 && 1 <= p / 10 <= TopUnit(rack) - required + 1 && Clear(rack.occupied, p / 10, required)
  }

  lemma ChosenIsClear(rack: Rack, requested: Option<Tenths>, required: int, p: Tenths)
    requires MayChoose(rack, requested, required, p)
    ensures Clear(rack.occupied, Whole(p), required)
  {
  }

  function NewDevice(rack: nat, p: Tenths, kind: Option<nat>, numbers: seq<int>): Device {
    Device(Some(rack), Some(p), kind, |numbers| > 1)
  }

  /** `count` units from `start` on. */
  function Window(start: int, count: nat): seq<int> {
    if count == 0 then [] else Window(start, count - 1) + [start + count - 1]
  }

  lemma {:induction false} WindowCounts(start: int, count: nat, u: int)
    ensures multiset(Window(start, count))[u] == if start <= u < start + count then 1 else 0
  {
    if count > 0 {
      WindowCounts(start, count - 1, u);
    }
  }

  /** The tables after a new device is stored, with the index extended by its units. */
  function AfterAssign(s: Tables, id: nat, d: Device, numbers: seq<int>): Tables
    requires d.rack.Some? && d.position.Some? && d.rack.value in s.racks
  {
    var members := WithMembers(s.members, id, numbers);
    var r := s.racks[d.rack.value];
    var window := Window(Whole(d.position.value), UnitsOf(s.heights, members, id, d));
    Tables(s.heights, s.devices[id := d], members, s.racks[d.rack.value := r.(occupied := r.occupied + window)])
  }

  lemma OneMoreHolder(s: Tables, t: Tables, id: nat, rack: nat, u: int)
    requires id !in s.devices && MembersKnown(s) && t.heights == s.heights
    requires id in t.devices && t.devices == s.devices[id := t.devices[id]] && t.devices[id].rack == Some(rack)
    requires forall m: (nat, int) :: m.0 != id ==> (m in s.members <==> m in t.members)
    ensures |HoldersAmong(t, Mounted(t, rack), u)|
        == |HoldersAmong(s, Mounted(s, rack), u)| + if Occupies(t, id, u) then 1 else 0
  {
    hide Occupies;
    forall k | k in s.devices
      ensures Occupies(s, k, u) <==> Occupies(t, k, u)
    {
      SameHolding(s, t, k, u);
    }
    assert Mounted(t, rack) == Mounted(s, rack) + {id};
    assert HoldersAmong(t, Mounted(t, rack), u) == HoldersAmong(s, Mounted(s, rack), u) + if Occupies(t, id, u) then
        {id} else {};
  }

  /** From tables in order every device can be stored: the assigned tables exist. */
  lemma AfterAssignIsAssigned(s: Tables, id: nat, d: Device, numbers: seq<int>)
    requires d.rack.Some? && d.position.Some? && d.rack.value in s.racks && Indexed(s, d.rack.value)
    requires id !in s.devices && MembersKnown(s) && NoRepeats(numbers) && d.stacked == (|numbers| > 1)
    ensures Assigned(s, AfterAssign(s, id, d, numbers), id, d, numbers)
  {
    hide UnitsOf, HoldersAmong, Mounted;
    var t, r := AfterAssign(s, id, d, numbers), d.rack.value;
    var start, total := Whole(d.position.value), UnitsOf(s.heights, t.members, id, d);
    forall u
      ensures multiset(t.racks[r].occupied)[u] == |HoldersAmong(t, Mounted(t, r), u)|
    {
      OneMoreHolder(s, t, id, r, u);
      WindowCounts(start, total, u);
      assert multiset(s.racks[r].occupied + Window(start, total))
          == multiset(s.racks[r].occupied) + multiset(Window(start, total));
    }
  }

  /** Whatever the allocator chooses, the devices of the rack stay apart. */
  ghost predicate ChoicesStayExclusive(s: Tables, id: nat, rack: nat, kind: Option<nat>, requested: Option<Tenths>,
      numbers: seq<int>)
    requires rack in s.racks
  {
    forall p, t ::
      && MayChoose(s.racks[rack], requested, Max(1, |numbers|), p)
      && Assigned(s, t, id, NewDevice(rack, p, kind, numbers), numbers)
      ==> Exclusive(t, rack)
  }

  /** Every position that may be chosen has the units beyond the checked ones clear as well. */
  predicate ChoicesLeaveRoom(rack: Rack, requested: Option<Tenths>, checked: int, height: int) {
    if Granted(rack, requested, checked) then
      Clear(rack.occupied, Whole(requested.value) + checked, height * checked - checked)
    else
      forall start :: 1 <= start <= TopUnit(rack) - checked + 1 && Clear(rack.occupied, start, checked) ==>
        Clear(rack.occupied, start + checked, height * checked - checked)
  }

  lemma RoomForChoice(rack: Rack, requested: Option<Tenths>, checked: int, height: int)
    ensures ChoicesLeaveRoom(rack, requested, checked, height) <==>
              forall p :: MayChoose(rack, requested, checked, p) ==>
                  Clear(rack.occupied, Whole(p) + checked, height * checked - checked)
  {
    hide Clear;
    var beyond := height * checked - checked;
    if forall p :: MayChoose(rack, requested, checked, p) ==> Clear(rack.occupied, Whole(p) + checked, beyond) {
      if Granted(rack, requested, checked) {
        assert MayChoose(rack, requested, checked, requested.value);
      } else {
        forall start | 1 <= start <= TopUnit(rack) - checked + 1 && Clear(rack.occupied, start, checked)
          ensures Clear(rack.occupied, start + checked, beyond)
        {
          assert MayChoose(rack, requested, checked, 10 * start) && Whole(10 * start) == start;
        }
      }
    }
  }

  /** Before the call: every choice keeps the rack exclusive exactly when each window that may be chosen
      has room for the height of the type. */
  lemma ChoicesStayExclusiveExactly(s: Tables, id: nat, rack: nat, kind: Option<nat>, requested: Option<Tenths>,
      numbers: seq<int>)
    requires rack in s.racks && Indexed(s, rack) && Exclusive(s, rack)
    requires id !in s.devices && MembersKnown(s) && NoRepeats(numbers)
    ensures ChoicesStayExclusive(s, id, rack, kind, requested, numbers) <==>
              ChoicesLeaveRoom(s.racks[rack], requested, Max(1, |numbers|), TypeHeight(s.heights, kind))
  {
    hide Clear, Indexed, Exclusive, Assigned, MayChoose, ChoicesLeaveRoom, TypeHeight, AfterAssign, MembersKnown,
        NoRepeats;
    var r, checked := s.racks[rack], Max(1, |numbers|);
    RoomForChoice(r, requested, checked, TypeHeight(s.heights, kind));
    forall p, t | MayChoose(r, requested, checked, p) && Assigned(s, t, id, NewDevice(rack, p, kind, numbers), numbers)
      ensures Exclusive(t, rack) <==>
          Clear(r.occupied, Whole(p) + checked, TypeHeight(s.heights, kind) * checked - checked)
    {
      ChosenIsClear(r, requested, checked, p);
      AssignmentIsExclusive(s, t, id, NewDevice(rack, p, kind, numbers), numbers);
    }
    if ChoicesStayExclusive(s, id, rack, kind, requested, numbers) {
      forall p | MayChoose(r, requested, checked, p)
        ensures Clear(r.occupied, Whole(p) + checked, TypeHeight(s.heights, kind) * checked - checked)
      {
        var d := NewDevice(rack, p, kind, numbers);
        AfterAssignIsAssigned(s, id, d, numbers);
        assert Exclusive(AfterAssign(s, id, d, numbers), rack);
      }
    }
  }

  // ------------------------------------------------------------------------- runs of the allocator

  /** What one auto-assignment or deletion does; the position is one that may be chosen. */
  ghost predicate Placed(s: Tables, op: Op, t: Tables) {
    || t == s
    || (op.Delete? && Deleted(s, t, op.id))
    || (&& op.Assign? && Assigned(s, t, op.id, op.device, op.numbers)
        && op.device.position.Some? && op.device.rack.value in s.racks
        && MayChoose(s.racks[op.device.rack.value], op.requested, Max(1, |op.numbers|), op.device.position.value))
  }

  /** Without a device there is less to overlap. */
  lemma DeletionStaysExclusive(s: Tables, t: Tables, id: nat, rack: nat)
    requires Deleted(s, t, id) && Exclusive(s, rack)
    ensures Exclusive(t, rack)
  {
    hide Reindexed, Occupies;
    forall i, j, u | i in Mounted(t, rack) && j in Mounted(t, rack) && Occupies(t, i, u) && Occupies(t, j, u)
      ensures i == j
    {
      SameHolding(s, t, i, u);
      SameHolding(s, t, j, u);
    }
  }

  /** Over every run of auto-assignments of types of at most one unit and deletions, the device intervals
      of each rack stay pairwise disjoint. */
  lemma {:induction false} AssignmentRunStaysDisjoint(run: seq<Tables>, ops: seq<Op>, n: nat)
    requires |run| == |ops| + 1 && n < |run| && AllIndexed(run[0])
    requires forall r :: r in run[0].racks ==> Exclusive(run[0], r)
    requires forall i :: 0 <= i < |ops| ==> Placed(run[i], ops[i], run[i + 1])
    requires forall i :: 0 <= i < |ops| && ops[i].Assign? ==> TypeHeight(run[i].heights, ops[i].device.kind) == 1
    ensures AllIndexed(run[n]) && forall r :: r in run[n].racks ==> Exclusive(run[n], r)
  {
    if n > 0 {
      AssignmentRunStaysDisjoint(run, ops, n - 1);
      var s, op, t := run[n - 1], ops[n - 1], run[n];
      StepKeepsIndex(s, op, t);
      forall r | r in t.racks && t != s
        ensures Exclusive(t, r)
      {
        if op.Delete? {
          DeletionStaysExclusive(s, t, op.id, r);
        } else if r == op.device.rack.value {
          ChosenIsClear(s.racks[r], op.requested, Max(1, |op.numbers|), op.device.position.value);
          AssignmentKeepsDisjoint(s, t, op.id, op.device, op.numbers);
        } else {
          OtherRacksStayExclusive(s, t, op.id, op.device, op.numbers, r);
        }
      }
    }
  }

  /** A rack whose unit 2 is taken, and what it becomes when a two-unit type is put at unit 1. */
  const LOW := Device(Some(0), Some(20), None, false)
  const TALL := Device(Some(0), Some(10), Some(7), false)
  const BEFORE := Tables(map[7 := 20], map[0 := LOW], {}, map[0 := Rack(42, [2])])
  const AFTER := Tables(map[7 := 20], map[0 := LOW, 1 := TALL], {}, map[0 := Rack(42, [2, 1, 2])])

  lemma TallTypeIndexes()
    ensures AllIndexed(BEFORE) && AllIndexed(AFTER)
  {
    assert Mounted(BEFORE, 0) == {0} && Mounted(AFTER, 0) == {0, 1};
    forall u
      ensures multiset(BEFORE.racks[0].occupied)[u] == |HoldersAmong(BEFORE, {0}, u)|
      ensures multiset(AFTER.racks[0].occupied)[u] == |HoldersAmong(AFTER, {0, 1}, u)|
    {
      assert HoldersAmong(BEFORE, {0}, u) == if u == 2 then {0} else {};
      assert HoldersAmong(AFTER, {0, 1}, u) == if u == 2 then {0, 1} else if u == 1 then {1} else {};
    }
  }

  /** Unit 1 is requested and free, so it is the only choice, and the two-unit device placed there overlaps
      its neighbour. */
  lemma TallTypesMayOverlap()
    ensures AllIndexed(BEFORE) && Exclusive(BEFORE, 0) && TypeHeight(BEFORE.heights, TALL.kind) == 2
    ensures forall p :: MayChoose(BEFORE.racks[0], Some(10), 1, p) <==> TALL.position == Some(p)
    ensures Placed(BEFORE, Op.Assign(1, TALL, [], Some(10)), AFTER) && AFTER != BEFORE
    ensures !Exclusive(AFTER, 0) && !ChoicesStayExclusive(BEFORE, 1, 0, Some(7), Some(10), [])
  {
    TallTypeIndexes();
    assert WithMembers({}, 1, []) == {};
    assert AFTER.devices == BEFORE.devices[1 := TALL];
    assert Occupies(AFTER, 0, 2) && Occupies(AFTER, 1, 2) && 0 in Mounted(AFTER, 0) && 1 in Mounted(AFTER, 0);
    assert Granted(BEFORE.racks[0], Some(10), 1);
    assert NewDevice(0, 10, Some(7), []) == TALL && Assigned(BEFORE, AFTER, 1, NewDevice(0, 10, Some(7), []), []);
  }

  // ----------------------------------------------------------------------------- the operations

  lemma CountOneMore(t: Tables, done: set<nat>, id: nat, u: int)
    requires id !in done
    ensures |HoldersAmong(t, done + {id}, u)| == |HoldersAmong(t, done, u)| + if Occupies(t, id, u) then 1 else 0
  {
    assert HoldersAmong(t, done + {id}, u) == HoldersAmong(t, done, u) + if Occupies(t, id, u) then {id} else {};
  }

  /** The list has each unit once per device of `among` that takes it. */
  ghost predicate Counts(occupied: seq<int>, t: Tables, among: set<nat>) {
    forall u :: multiset(occupied)[u] == |HoldersAmong(t, among, u)|
  }

  lemma CountMore(was: seq<int>, now: seq<int>, t: Tables, done: set<nat>, id: nat)
    requires Counts(was, t, done) && id !in done
    requires forall u :: multiset(now)[u] == multiset(was)[u] + if Occupies(t, id, u) then 1 else 0
    ensures Counts(now, t, done + {id})
  {
    hide Occupies, HoldersAmong;
    forall u
      ensures multiset(now)[u] == |HoldersAmong(t, done + {id}, u)|
    {
      CountOneMore(t, done, id, u);
    }
  }

  /** Storing the device, then its stack members, and recomputing after each. */
  lemma AssignedBySaving(s: Tables, mid: Tables, t: Tables, id: nat, d: Device, numbers: seq<int>)
    requires id !in s.devices && d.rack.Some? && d.stacked == (|numbers| > 1)
    requires MembersKnown(s) && NoRepeats(numbers)
    requires Saved(s, mid, id, d)
    requires if numbers == [] then t == mid else
               && t.heights == mid.heights && t.devices == mid.devices
                   && t.members == WithMembers(mid.members, id, numbers)
               && Reindexed(mid.racks, t, {d.rack.value})
    ensures Assigned(s, t, id, d, numbers)
  {
    hide Indexed;
    if numbers == [] {
      assert WithMembers(s.members, id, []) == s.members;
    }
  }

  lemma NothingCounted(t: Tables)
    ensures Counts([], t, {})
  {
    assert forall u :: HoldersAmong(t, {}, u) == {};
  }

  lemma TakesItsUnits(t: Tables, id: nat)
    requires id in t.devices
    ensures var d := t.devices[id];
            forall u :: Occupies(t, id, u) <==>
                d.position.Some? && Whole(d.position.value) <= u < Whole(d.position.value) + UnitsOf(t.heights,
                    t.members, id, d)
  {
    hide UnitsOf;
  }

  lemma RecountedIsReindexed(s: Tables, t: Tables, rack: nat, occupied: seq<int>)
    requires t == if rack in s.racks then s.(racks := s.racks[rack := s.racks[rack].(occupied := occupied)]) else s
    requires Counts(occupied, s, Mounted(s, rack))
    ensures Reindexed(s.racks, t, {rack})
  {
    assert Mounted(s, rack) == Mounted(t, rack);
    forall u
      ensures HoldersAmong(s, Mounted(s, rack), u) == HoldersAmong(t, Mounted(t, rack), u)
    {
    }
  }

  lemma ReindexedMore(before: map<nat, Rack>, s: Tables, t: Tables, done: set<nat>, rack: nat)
    requires Reindexed(before, s, done) && Reindexed(s.racks, t, {rack}) && t == s.(racks := t.racks)
    ensures Reindexed(before, t, done + {rack})
  {
    hide UnitsOf;
    forall k | k in s.racks && k in done && k != rack
      ensures Indexed(t, k)
    {
      assert Mounted(s, k) == Mounted(t, k);
      forall u
        ensures HoldersAmong(s, Mounted(s, k), u) == HoldersAmong(t, Mounted(t, k), u)
      {
      }
    }
  }

  class RackStore {
    const heights: map<nat, Tenths>
    var devices: map<nat, Device>
    var members: set<(nat, int)>
    var racks: map<nat, Rack>

    constructor (heights: map<nat, Tenths>, racks: map<nat, Rack>)
      requires forall r :: r in racks ==> racks[r].occupied == []
      ensures Now() == Tables(heights, map[], {}, racks) && AllIndexed(Now()) && MembersKnown(Now())
    {
      this.heights, devices, members, this.racks := heights, map[], {}, racks;
    }

    ghost function Now(): Tables
      reads this
    {
      Tables(heights, devices, members, racks)
    }

    /** The inner loop: one entry per unit of a device. */
    static method AppendUnits(occupied: seq<int>, start: int, total: int) returns (longer: seq<int>)
      requires total >= 0
      ensures forall u :: multiset(longer)[u] == multiset(occupied)[u] + if start <= u < start + total then 1 else 0
    {
      longer := occupied;
      var offset := 0;
      while offset < total
        invariant 0 <= offset <= total
        invariant forall u ::
                    multiset(longer)[u] == multiset(occupied)[u] + if start <= u < start + offset then 1 else 0
      {
        longer := longer + [start + offset];
        offset := offset + 1;
      }
    }

    /** `update_rack_occupied_units`: recompute one rack, reading its devices in any order. */
    method UpdateRack(rack: nat)
      modifies this`racks
      ensures Reindexed(old(racks), Now(), {rack})
    {
      hide Reindexed, HoldersAmong, Counts, UnitsOf, Occupies;
      var occupied := [];
      var rest := Mounted(Tables(heights, devices, members, racks), rack);
      ghost var t := Now();
      ghost var done := {};
      NothingCounted(t);
      while rest != {}
        invariant racks == old(racks)
        invariant done !! rest && done + rest == Mounted(t, rack)
        invariant Counts(occupied, t, done)
        decreases rest
      {
        ghost var was := occupied;
        var id :| id in rest;
        rest := rest - {id};
        var d := devices[id];
        if d.position.Some? {
          occupied := AppendUnits(occupied, Whole(d.position.value), UnitsOf(heights, members, id, d));
        }
        TakesItsUnits(t, id);
        CountMore(was, occupied, t, done, id);
        done := done + {id};
      }
      if rack in racks {
        racks := racks[rack := racks[rack].(occupied := occupied)];
      }
      RecountedIsReindexed(t, Now(), rack, occupied);
    }

    /** Recompute the racks that a write touched. */
    method UpdateRacks(touched: set<nat>)
      modifies this`racks
      ensures Reindexed(old(racks), Now(), touched)
    {
      assert Reindexed(racks, Now(), touched - touched);
      hide Reindexed;
      var rest := touched;
      while rest != {}
        invariant rest <= touched
        invariant Reindexed(old(racks), Now(), touched - rest)
        decreases rest
      {
        var r :| r in rest;
        ghost var t := Now();
        UpdateRack(r);
        ReindexedMore(old(racks), t, Now(), touched - rest, r);
        assert touched - rest + {r} == touched - (rest - {r});
        rest := rest - {r};
      }
    }

    /** `Device.save`: the rack stored before the write and the rack written. */
    method Save(id: nat, d: Device)
      modifies this`devices, this`racks
      ensures Saved(old(Now()), Now(), id, d)
    {
      var previous := RackOf(devices, id);
      devices := devices[id := d];
      UpdateRacks(previous + RackOf(devices, id));
    }

    /** `Device.delete`, with the cascade to the stack members. */
    method Delete(id: nat)
      modifies this
      ensures Deleted(old(Now()), Now(), id)
    {
      var previous := RackOf(devices, id);
      devices := devices - {id};
      members := set m | m in members && m.0 != id;
      UpdateRacks(previous);
    }

    /** `_apply_stack_members`: a number reported twice counts twice for the stacked flag. */
    method ApplyStackMembers(id: nat, numbers: seq<int>)
      requires id in devices
      modifies this
      ensures StackSynced(old(Now()), Now(), id, numbers)
      ensures numbers != [] ==> forall n :: (id, n) in members <==> n in numbers
      ensures numbers == [] ==> members == old(members)
      ensures forall k, n :: k != id ==> ((k, n) in members <==> (k, n) in old(members))
      ensures devices == old(devices)[id := old(devices)[id].(stacked := |numbers| > 1)]
    {
      var seen := 0;
      while seen < |numbers|
        invariant 0 <= seen <= |numbers|
        invariant devices == old(devices) && racks == old(racks)
        invariant members == old(members) + set i | 0 <= i < seen :: (id, numbers[i])
      {
        members := members + {(id, numbers[seen])};
        seen := seen + 1;
      }
      if seen > 0 {
        members := set m | m in members && (m.0 != id || m.1 in numbers);
        assert members == WithMembers(old(members), id, numbers);
      } else {
        assert members == old(members);
      }
      var stacked := seen > 1;
      if devices[id].stacked != stacked {
        Save(id, devices[id].(stacked := stacked));
      }
      assert devices == old(devices)[id := old(devices[id]).(stacked := stacked)];
      ghost var t := Now();
      UpdateRacks(RackOf(devices, id));
      assert RackOf(devices, id) == RackOf(old(devices), id);
    }

    /** `_select_position`. A free requested unit is taken as it is, without a range check. */
    method SelectPosition(rack: nat, requested: Option<Tenths>, required: int) returns (position: Option<Tenths>)
      requires rack in racks && required >= 1
      ensures var occupied := racks[rack].occupied;
              var top := if racks[rack].height == 0 then 42 else racks[rack].height;
              var asked := requested.Some? && requested.value != 0
                  && Clear(occupied, Whole(requested.value), required);
              && (asked ==> position == requested)
              && (position.Some? ==> Clear(occupied, Whole(position.value), required))
              && (position.Some? && !asked ==>
                    position.value % 10 == 0 && 1 <= position.value / 10 <= top - required + 1)
              && (position.None? <==>
                    !asked && forall start :: 1 <= start <= top - required + 1 ==> !Clear(occupied, start, required))
      ensures position.Some? ==> MayChoose(racks[rack], requested, required, position.value)
      ensures position.None? <==> forall p :: !MayChoose(racks[rack], requested, required, p)
    {
      var occupied := racks[rack].occupied;
      if requested.Some? && requested.value != 0 {
        if Clear(occupied, Whole(requested.value), required) {
          assert MayChoose(racks[rack], requested, required, requested.value);
          return requested;
        }
      }
      var top := TopUnit(racks[rack]);
      var candidates := [];
      var start := 1;
      while start < top - required + 2
        invariant 1 <= start && (start <= top - required + 2 || start == 1)
        invariant forall c :: c in candidates ==> 1 <= c < start && Clear(occupied, c, required)
        invariant forall c :: 1 <= c < start && Clear(occupied, c, required) ==> c in candidates
      {
        if Clear(occupied, start, required) {
          candidates := candidates + [start];
        }
        start := start + 1;
      }
      if candidates == [] {
        return None;
      }
      assert candidates[0] in candidates;
      assert MayChoose(racks[rack], requested, required, 10 * candidates[0]);
      var k :| 0 <= k < |candidates|;
      var choice := candidates[k];
      assert Whole(10 * choice) == choice;
      return Some(10 * choice);
    }

    /** The transaction of `assign` from the choice of a position on. `number`s are the reported stack
        members; `fails` stands for the lookups and constraints that may raise before the device is
        stored. A repeated switch number violates the key of the stack members: everything is undone. */
    method Assign(id: nat, rack: nat, kind: Option<nat>, requested: Option<Tenths>, numbers: seq<int>, fails: bool)
      returns (placed: Option<Tenths>)
      requires id !in devices && rack in racks
      requires MembersKnown(Now())
      modifies this
      ensures placed.Some? <==>
                !fails && NoRepeats(numbers) && exists p :: MayChoose(old(racks)[rack], requested, Max(1, |numbers|), p)
      ensures placed.None? ==> Now() == old(Now())
      ensures placed.Some? ==>
                var d := NewDevice(rack, placed.value, kind, numbers);
                && Assigned(old(Now()), Now(), id, d, numbers)
                && Placed(old(Now()), Op.Assign(id, d, numbers, requested), Now())
      ensures placed.Some? ==>
                && devices == old(devices)[id := Device(Some(rack), placed, kind, |numbers| > 1)]
                && forall k, n :: (k, n) in members <==> if k == id then n in numbers else (k, n) in old(members)
      ensures old(AllIndexed(Now())) ==> AllIndexed(Now())
      ensures MembersKnown(Now())
    {
      var position := SelectPosition(rack, requested, Max(1, |numbers|));
      if position.None? || fails {
        return None;
      }
      ghost var s := Now();
      var saved := (devices, members, racks);
      var d := Device(Some(rack), position, kind, |numbers| > 1);
      Save(id, d);
      ghost var mid := Now();
      if numbers != [] {
        if !NoRepeats(numbers) {
          devices, members, racks := saved.0, saved.1, saved.2;
          return None;
        }
        members := WithMembers(members, id, numbers);
        UpdateRacks({rack});
      }
      AssignedBySaving(s, mid, Now(), id, d, numbers);
      if AllIndexed(s) {
        StepKeepsIndex(s, Op.Assign(id, d, numbers, requested), Now());
      }
      StepKeepsMembers(s, Op.Assign(id, d, numbers, requested), Now());
      return position;
    }
  }
}
