/** Decommissioning a device, and whole runs of the steps that move serial numbers. */
module SerialRuns {
  import opened Options
  import opened Text
  import opened SerialModel
  import opened InventorySync
  import opened InventoryOwnership
  import opened SerialProtocol

  // --------------------------------------------------------------------------- decommissioning

  datatype SourceKey = DeviceKey(id: nat) | ModuleKey(id: nat)

  datatype Source = Source(serial: Option<string>, model: string)

  function OrEmpty(v: Option<string>): string {
    if v.Some? then v.value else ""
  }

  /** A source item of the device: the device itself or one of its modules. */
  function SourceOf(db: Db, dev: nat, key: SourceKey): Option<Source> {
    match key
    case DeviceKey(id) =>
      if id != dev || id !in db.devices then None else
      var d := db.devices[id];
      Some(Source(Cell(OrEmpty(d.serial)), if OrEmpty(d.model) != "" then OrEmpty(d.model) else d.name))
    case ModuleKey(id) =>
      if id !in db.modules || db.modules[id].device != dev then None else
      var m := db.modules[id];
      var descr := Strip(OrEmpty(m.description));
      Some(Source(NormalizeSerial(m.serial), if descr != "" then descr else Strip(m.name)))
  }

  /** A row of the form. `fieldsOk` stands for the column checks that do not concern ownership. */
  datatype FormRow = FormRow(key: SourceKey, store: bool, inventory: string, details: Details, fieldsOk: bool)

  datatype Plan = Plan(numbers: set<string>, serials: set<string>, failed: bool, pending: seq<(Item, bool)>) {
    function Failed(): Plan {
      this.(failed := true)
    }
  }

  function PlanRow(db: Db, dev: nat, p: Plan, f: FormRow): Plan {
    match SourceOf(db, dev, f.key)
    case None => p.Failed()
    case Some(source) =>
      if !f.store then p
      else if source.model == "" then p.Failed()
      else if Repeats(p.numbers, Cell(f.inventory)) then p.Failed()
      else
        var p1 := p.(numbers := Noted(p.numbers, Cell(f.inventory)));
        if Repeats(p1.serials, source.serial) then p1.Failed()
        else
          p1.(serials := Noted(p1.serials, source.serial),
              pending := p1.pending + [(PlannedItem(db, dev, f), f.fieldsOk)])
  }

  function PlanRows(db: Db, dev: nat, forms: seq<FormRow>): Plan {
    if forms == [] then Plan({}, {}, false, [])
    else PlanRow(db, dev, PlanRows(db, dev, forms[..|forms| - 1]), forms[|forms| - 1])
  }

  /** `Device.delete` with the cascade to its modules. */
  function DropDevice(db: Db, dev: nat): Db {
    db.(devices := db.devices - {dev},
        modules := map id | id in db.modules && db.modules[id].device != dev :: db.modules[id])
  }

  function SaveAll(db: Db, pending: seq<(Item, bool)>): Option<Db> {
    if pending == [] then Some(db) else
    match SaveAll(db, pending[..|pending| - 1])
    case None => None
    case Some(d) => SaveItem(d, None, pending[|pending| - 1].0, pending[|pending| - 1].1)
  }

  /** `_process_decommission_storage`: the new tables and the number of stored items, or None. */
  function DecommissionDevice(db: Db, dev: nat, forms: seq<FormRow>): Option<(Db, nat)> {
    var p := PlanRows(db, dev, forms);
    if p.failed then None else
    match SaveAll(DropDevice(db, dev), p.pending)
    case None => None
    case Some(d) => Some((d, |p.pending|))
  }

  function StoreRows(forms: seq<FormRow>): seq<FormRow> {
    if forms == [] then [] else
    var init, f := forms[..|forms| - 1], forms[|forms| - 1];
    StoreRows(init) + if f.store then [f] else []
  }

  /** What a STORE row puts into storage, before its number is normalised. */
  function PlannedItem(db: Db, dev: nat, f: FormRow): Item
    requires SourceOf(db, dev, f.key).Some?
  {
    var source := SourceOf(db, dev, f.key).value;
    var site := if dev in db.devices then db.devices[dev].site else f.details.site;
    Item(Cell(f.inventory), source.serial, source.model, f.details.(site := site))
  }

  ghost predicate Plans(db: Db, dev: nat, f: FormRow, entry: (Item, bool)) {
    SourceOf(db, dev, f.key).Some? && entry == (PlannedItem(db, dev, f), f.fieldsOk)
  }

  ghost predicate PlansAll(db: Db, dev: nat, rows: seq<FormRow>, pending: seq<(Item, bool)>) {
    |pending| == |rows| && forall i :: 0 <= i < |rows| ==> Plans(db, dev, rows[i], pending[i])
  }

  lemma PlannedRow(db: Db, dev: nat, p: Plan, f: FormRow)
    requires !PlanRow(db, dev, p, f).failed
    ensures !p.failed && SourceOf(db, dev, f.key).Some?
    ensures PlanRow(db, dev, p, f).pending
            == p.pending + if f.store then [(PlannedItem(db, dev, f), f.fieldsOk)] else []
  {
    hide Cell, SourceOf, Repeats, Noted;
  }

  lemma PlansMore(db: Db, dev: nat, rows: seq<FormRow>, pending: seq<(Item, bool)>, f: FormRow, entry: (Item, bool))
    requires PlansAll(db, dev, rows, pending) && Plans(db, dev, f, entry)
    ensures PlansAll(db, dev, rows + [f], pending + [entry])
  {
    hide Plans;
  }

  lemma {:induction false} PlanListsStoreRows(db: Db, dev: nat, forms: seq<FormRow>)
    requires !PlanRows(db, dev, forms).failed
    ensures PlansAll(db, dev, StoreRows(forms), PlanRows(db, dev, forms).pending)
  {
    if forms != [] {
      hide PlanRow, PlannedItem, SourceOf, PlansAll;
      var init, f := forms[..|forms| - 1], forms[|forms| - 1];
      var p := PlanRows(db, dev, init);
      PlannedRow(db, dev, p, f);
      PlanListsStoreRows(db, dev, init);
      if f.store {
        PlansMore(db, dev, StoreRows(init), p.pending, f, (PlannedItem(db, dev, f), f.fieldsOk));
      }
    }
  }

  function Stored(entry: (Item, bool)): Item {
    entry.0.(serial := NormalizeSerial(entry.0.serial))
  }

  /** The pending items follow one another under unused keys; nothing else changed. */
  ghost predicate Appended(db: Db, after: Db, pending: seq<(Item, bool)>) {
    && after.devices == db.devices && after.modules == db.modules && after.next == db.next + |pending|
    && (forall id :: id in after.items <==> id in db.items || db.next <= id < db.next + |pending|)
    && (forall id :: id in db.items ==> after.items[id] == db.items[id])
    && (forall id :: db.next <= id < after.next ==> after.items[id] == Stored(pending[id - db.next]))
  }

  lemma AppendOne(db: Db, d: Db, pending: seq<(Item, bool)>, entry: (Item, bool))
    requires TablesOk(db) && Appended(db, d, pending)
    ensures Appended(db, PutItem(d, None, Stored(entry)), pending + [entry])
  {
    hide Stored;
    assert forall id :: id in db.items ==> id < db.next;
    var all := pending + [entry];
    assert forall i :: 0 <= i < |pending| ==> all[i] == pending[i];
  }

  lemma {:induction false} SaveAllAppends(db: Db, pending: seq<(Item, bool)>)
    requires SerialsOk(db) && TablesOk(db) && SaveAll(db, pending).Some?
    ensures var after := SaveAll(db, pending).value;
            SerialsOk(after) && TablesOk(after) && Appended(db, after, pending)
  {
    if pending != [] {
      hide SerialsOk, TablesOk, Appended, NormalizeSerial, ItemValid;
      var init, entry := pending[..|pending| - 1], pending[|pending| - 1];
      assert init + [entry] == pending;
      SaveAllAppends(db, init);
      var d := SaveAll(db, init).value;
      SaveItemKeepsSerials(d, None, entry.0, entry.1);
      AppendOne(db, d, init, entry);
    }
  }

  lemma DropKeepsSerials(db: Db, dev: nat)
    requires SerialsOk(db) && TablesOk(db)
    ensures SerialsOk(DropDevice(db, dev)) && TablesOk(DropDevice(db, dev))
  {
    FewerModules(db, DropDevice(db, dev));
  }

  lemma DecommissionAppends(db: Db, dev: nat, forms: seq<FormRow>)
    requires SerialsOk(db) && TablesOk(db) && DecommissionDevice(db, dev, forms).Some?
    ensures var (after, count) := DecommissionDevice(db, dev, forms).value;
            var pending := PlanRows(db, dev, forms).pending;
            && SerialsOk(after) && TablesOk(after) && count == |pending|
            && PlansAll(db, dev, StoreRows(forms), pending) && Appended(DropDevice(db, dev), after, pending)
  {
    hide SerialsOk, TablesOk, SaveAll, PlansAll, Appended, PlanRows, StoreRows, DropDevice;
    PlanListsStoreRows(db, dev, forms);
    DropKeepsSerials(db, dev);
    SaveAllAppends(DropDevice(db, dev), PlanRows(db, dev, forms).pending);
  }

  /** The storage item of a STORE row, with the normalised serial number of its source. */
  function StoredItem(db: Db, dev: nat, f: FormRow): Item
    requires SourceOf(db, dev, f.key).Some?
  {
    PlannedItem(db, dev, f).(serial := NormalizeSerial(SourceOf(db, dev, f.key).value.serial))
  }

  lemma PlannedIsStored(db: Db, dev: nat, f: FormRow, entry: (Item, bool))
    requires Plans(db, dev, f, entry)
    ensures SourceOf(db, dev, f.key).Some? && Stored(entry) == StoredItem(db, dev, f)
  {
    hide SourceOf, NormalizeSerial, Cell;
  }

  // ------------------------------------------------------------------- the stored items, by columns

  /** The serial number and the model of the row's source: of a module its own number and its description,
      or its name when that is blank; of the device its own number and the model of its type, or its name. */
  ghost predicate ComesFromSource(item: Item, db: Db, dev: nat, key: SourceKey) {
    match key
    case ModuleKey(id) =>
      && id in db.modules && db.modules[id].device == dev
      && item.serial == NormalizeSerial(db.modules[id].serial)
      && (db.modules[id].description.Some? && Strip(db.modules[id].description.value) != "" ==>
            item.model == Strip(db.modules[id].description.value))
      && (db.modules[id].description.None? || Strip(db.modules[id].description.value) == "" ==>
            item.model == Strip(db.modules[id].name))
    case DeviceKey(id) =>
      && id == dev && dev in db.devices
      && item.serial == NormalizeSerial(db.devices[dev].serial)
      && (db.devices[dev].model.Some? && db.devices[dev].model.value != "" ==>
          item.model == db.devices[dev].model.value)
      && (db.devices[dev].model.None? || db.devices[dev].model.value == "" ==> item.model == db.devices[dev].name)
  }

  /** The item holds what the row says: its source, the inventory number and the other columns of the form,
      and the site of the device. */
  ghost predicate HoldsForm(item: Item, db: Db, dev: nat, f: FormRow) {
    && ComesFromSource(item, db, dev, f.key)
    && (Strip(f.inventory) != "" ==> item.inventory == Some(Strip(f.inventory)))
    && (Strip(f.inventory) == "" ==> item.inventory == None)
    && item.details.(site := f.details.site) == f.details
    && (dev in db.devices ==> item.details.site == db.devices[dev].site)
  }

  lemma TrimmedNumber(v: Option<string>)
    ensures NormalizeSerial(Cell(OrEmpty(v))) == NormalizeSerial(v)
  {
    NormalizeSerialIdempotent(v);
    if v.Some? {
      StripTrims(v.value);
    } else {
      StripTrims("");
    }
  }

  lemma SourceColumns(db: Db, dev: nat, f: FormRow)
    requires SourceOf(db, dev, f.key).Some?
    ensures ComesFromSource(StoredItem(db, dev, f), db, dev, f.key)
  {
    hide NormalizeSerial, Cell, Strip;
    match f.key {
      case DeviceKey(id) =>
        TrimmedNumber(db.devices[id].serial);
      case ModuleKey(id) =>
        assert Strip("") == "" by { StripTrims(""); }
        NormalizeSerialIdempotent(db.modules[id].serial);
    }
  }

  lemma StoredItemHoldsForm(db: Db, dev: nat, f: FormRow)
    requires SourceOf(db, dev, f.key).Some?
    ensures HoldsForm(StoredItem(db, dev, f), db, dev, f)
  {
    SourceColumns(db, dev, f);
    hide ComesFromSource, SourceOf, NormalizeSerial, Strip;
  }

  /** `picks` are the STORE rows of the form, in order. */
  ghost predicate Picks(forms: seq<FormRow>, picks: seq<nat>) {
    && (forall k :: 0 <= k < |picks| ==> picks[k] < |forms| && forms[picks[k]].store)
    && (forall j, k :: 0 <= j < k < |picks| ==> picks[j] < picks[k])
    && (forall i :: 0 <= i < |forms| && forms[i].store ==> i in picks)
  }

  lemma {:induction false} StoreRowsArePicked(forms: seq<FormRow>) returns (picks: seq<nat>)
    ensures Picks(forms, picks) && |picks| == |StoreRows(forms)|
    ensures forall k :: 0 <= k < |picks| ==> picks[k] < |forms| && StoreRows(forms)[k] == forms[picks[k]]
  {
    if forms == [] {
      picks := [];
    } else {
      var last := |forms| - 1;
      var earlier := StoreRowsArePicked(forms[..last]);
      if forms[last].store {
        picks := earlier + [last];
        assert picks[|earlier|] == last;
        forall i | 0 <= i < |forms| && forms[i].store
          ensures i in picks
        {
          if i < last {
            assert forms[..last][i].store && i in earlier;
          }
        }
      } else {
        picks := earlier;
        forall i | 0 <= i < |forms| && forms[i].store
          ensures i in picks
        {
          assert forms[..last][i].store;
        }
      }
    }
  }

  ghost predicate StoredAt(db: Db, dev: nat, f: FormRow, items: map<nat, Item>, id: nat) {
    id in items && HoldsForm(items[id], db, dev, f)
  }

  /** The device and all its modules are gone, exactly one storage item per STORE row is new, in order and
      under unused keys, and nothing else changed. */
  ghost predicate MovedToStorage(db: Db, dev: nat, forms: seq<FormRow>, picks: seq<nat>, after: Db)
    requires Picks(forms, picks)
  {
    && after.devices == db.devices - {dev}
    && (forall id :: id in after.modules <==> id in db.modules && db.modules[id].device != dev)
    && (forall id :: id in after.modules ==> after.modules[id] == db.modules[id])
    && (forall id :: id in after.items <==> id in db.items || db.next <= id < db.next + |picks|)
    && (forall id :: id in db.items ==> after.items[id] == db.items[id])
    && (forall k :: 0 <= k < |picks| ==> StoredAt(db, dev, forms[picks[k]], after.items, db.next + k))
  }

  /** The tables are those of the moved device, and `count` is the number of STORE rows. */
  ghost predicate Moved(db: Db, dev: nat, forms: seq<FormRow>, after: Db, count: nat) {
    exists picks :: Picks(forms, picks) && |picks| == count && MovedToStorage(db, dev, forms, picks, after)
  }

  lemma RowIsStored(db: Db, dev: nat, rows: seq<FormRow>, pending: seq<(Item, bool)>, after: Db, i: nat)
    requires PlansAll(db, dev, rows, pending) && Appended(DropDevice(db, dev), after, pending) && i < |rows|
    ensures StoredAt(db, dev, rows[i], after.items, db.next + i)
  {
    hide SourceOf, Stored, StoredItem, Plans, HoldsForm;
    var id := db.next + i;
    assert id - db.next == i;
    PlannedIsStored(db, dev, rows[i], pending[i]);
    StoredItemHoldsForm(db, dev, rows[i]);
  }

  lemma AppendedIsMoved(db: Db, dev: nat, forms: seq<FormRow>, pending: seq<(Item, bool)>, after: Db)
    requires PlansAll(db, dev, StoreRows(forms), pending) && Appended(DropDevice(db, dev), after, pending)
    ensures Moved(db, dev, forms, after, |pending|)
  {
    hide Plans, Stored, StoredAt, Picks, StoreRows;
    var picks := StoreRowsArePicked(forms);
    forall k | 0 <= k < |picks|
      ensures StoredAt(db, dev, forms[picks[k]], after.items, db.next + k)
    {
      RowIsStored(db, dev, StoreRows(forms), pending, after, k);
    }
    assert MovedToStorage(db, dev, forms, picks, after);
  }

  /** A decommission that succeeds moves the device to storage. */
  lemma DecommissionMovesToStorage(db: Db, dev: nat, forms: seq<FormRow>)
    requires SerialsOk(db) && TablesOk(db) && DecommissionDevice(db, dev, forms).Some?
    ensures var (after, count) := DecommissionDevice(db, dev, forms).value;
            SerialsOk(after) && TablesOk(after) && Moved(db, dev, forms, after, count)
  {
    hide SerialsOk, TablesOk, PlanRows, StoreRows, SaveAll, Plans, Moved, Appended, DropDevice;
    DecommissionAppends(db, dev, forms);
    AppendedIsMoved(db, dev, forms, PlanRows(db, dev, forms).pending, DecommissionDevice(db, dev, forms).value.0);
  }

  // --------------------------------------------------------------------------------- whole runs

  datatype Op =
    | WriteModule(moduleId: Option<nat>, moduleRow: Module, viaApi: bool)
    | WriteItem(itemId: Option<nat>, itemRow: Item, fieldsOk: bool)
    | WriteDevice(deviceId: nat, deviceRow: Device)
    | RemoveModule(id: nat)
    | RemoveItem(id: nat)
    | RemoveDevice(dev: nat)
    | Import(rows: seq<SheetRow>)
    | Decommission(dev: nat, forms: seq<FormRow>)
    | Sync(dev: nat, version: Option<string>, inventory: seq<Entry>, transceivers: Option<seq<Transceiver>>)

  /** The tables a step reaches, or None when it is refused, fails or raises. */
  ghost function Outcome(db: Db, op: Op): Option<Db> {
    match op
    case WriteModule(id, row, viaApi) =>
      if id.Some? && id.value !in db.modules then None else SaveModule(db, id, row, viaApi)
    case WriteItem(id, row, ok) => if id.Some? && id.value !in db.items then None else SaveItem(db, id, row, ok)
    case WriteDevice(id, row) => Some(db.(devices := db.devices[id := row]))
    case RemoveModule(id) => Some(db.(modules := db.modules - {id}))
    case RemoveItem(id) => Some(db.(items := db.items - {id}))
    case RemoveDevice(dev) => Some(DropDevice(db, dev))
    case Import(rows) => (match ImportSheet(db, rows) case None => None case Some(r) => Some(r.0))
    case Decommission(dev, forms) =>
      (match DecommissionDevice(db, dev, forms) case None => None case Some(r) => Some(r.0))
    case Sync(dev, version, inventory, transceivers) => SyncDevice(db, dev, version, inventory, transceivers)
  }

  /** A step that does not succeed is rolled back. */
  ghost function Step(db: Db, op: Op): Db {
    if Outcome(db, op).Some? then Outcome(db, op).value else db
  }

  ghost function Run(db: Db, ops: seq<Op>): Db {
    if ops == [] then db else Step(Run(db, ops[..|ops| - 1]), ops[|ops| - 1])
  }

  /** No line of the reported inventory is itself named like a transceiver module. */
  ghost predicate PlainReport(op: Op) {
    op.Sync? ==> forall e :: e in op.inventory ==> !IsTransceiver(EntryName(e))
  }

  lemma RemovalKeepsSerials(db: Db, after: Db)
    requires SerialsOk(db) && TablesOk(db)
        && after == db.(modules := after.modules, items := after.items, devices := after.devices)
    requires forall id :: id in after.modules ==> id in db.modules && after.modules[id] == db.modules[id]
    requires forall id :: id in after.items ==> id in db.items && after.items[id] == db.items[id]
    ensures SerialsOk(after) && TablesOk(after)
  {
    hide Unique;
    FewerSerials(db, after);
  }

  lemma StepKeepsSerials(db: Db, op: Op)
    requires SerialsOk(db) && TablesOk(db) && PlainReport(op)
    ensures SerialsOk(Step(db, op)) && TablesOk(Step(db, op))
  {
    hide SerialsOk, TablesOk, SaveModule, SaveItem, ImportRows, DecommissionDevice, SyncDevice, IsTransceiver,
        EntryName;
    if Outcome(db, op).Some? {
      match op {
        case WriteModule(id, row, viaApi) =>
          SaveModuleKeepsSerials(db, id, row, viaApi);
        case WriteItem(id, row, ok) =>
          SaveItemKeepsSerials(db, id, row, ok);
        case WriteDevice(id, row) =>
          DevicesDoNotCount(db, Step(db, op), id, []);
        case RemoveModule(id) =>
          RemovalKeepsSerials(db, Step(db, op));
        case RemoveItem(id) =>
          RemovalKeepsSerials(db, Step(db, op));
        case RemoveDevice(dev) =>
          DropKeepsSerials(db, dev);
        case Import(rows) =>
          ImportKeepsSerials(db, rows);
        case Decommission(dev, forms) =>
          DecommissionMovesToStorage(db, dev, forms);
        case Sync(dev, version, inventory, transceivers) =>
          PlainNamesHaveNoTwin(db, dev, inventory);
          SyncKeepsSerials(db, dev, version, inventory, transceivers);
      }
    }
  }

  /** Over every run of validated writes, device writes, deletions, imports, decommissions and synchronisations, in any
      order and with any failures, no valid serial number is held by two rows of modules and storage. */
  lemma {:induction false} RunKeepsSerialsUnique(db: Db, ops: seq<Op>)
    requires SerialsOk(db) && TablesOk(db) && forall op :: op in ops ==> PlainReport(op)
    ensures SerialsOk(Run(db, ops)) && TablesOk(Run(db, ops))
  {
    hide SerialsOk, TablesOk, PlainReport, Step;
    if ops != [] {
      RunKeepsSerialsUnique(db, ops[..|ops| - 1]);
      StepKeepsSerials(Run(db, ops[..|ops| - 1]), ops[|ops| - 1]);
    }
  }
}
