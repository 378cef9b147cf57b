/** Every step that moves serial numbers between production modules and storage, and whole runs of
    such steps. */
module SerialProtocol {
  import opened Options
  import opened Sets
  import opened Text
  import opened SerialModel
  import opened InventorySync
  import opened InventoryOwnership

  // ------------------------------------------------------------------------------ transceivers

  datatype Transceiver = Transceiver(name: Option<string>, description: Option<string>, serial: Option<string>)

  predicate Named(e: Transceiver) {
    e.name.Some? && e.name.value != ""
  }

  function NameIds(db: Db, dev: nat, name: string): set<nat> {
    set id | id in db.modules && db.modules[id].device == dev && db.modules[id].name == name
  }

  /** `update_or_create` by device and name. None: the lookup finds several rows. */
  function UpsertNamed(db: Db, dev: nat, name: string, descr: Option<string>, serial: Option<string>): Option<Db> {
    var ids := NameIds(db, dev, name);
    if |ids| > 1 then None
    else if ids == {} then Some(PutModule(db, None, Module(dev, name, None, descr, None, serial)))
    else
      Some(db.(modules := map id | id in db.modules ::
                 if id !in ids then db.modules[id]
                 else db.modules[id].(description := descr, vendor := None, serial := serial)))
  }

  function ApplyTransceiver(db: Db, dev: nat, e: Transceiver): Option<Db> {
    if !Named(e) then Some(db) else
    var s := NormalizeSerial(e.serial);
    UpsertNamed(if s.Some? then Reconcile(db, dev, e.name.value, s.value) else db, dev, e.name.value, e.description, s)
  }

  function ApplyEach(db: Db, dev: nat, es: seq<Transceiver>): Option<Db> {
    if es == [] then Some(db) else
    match ApplyEach(db, dev, es[..|es| - 1])
    case None => None
    case Some(d) => ApplyTransceiver(d, dev, es[|es| - 1])
  }

  function SeenNames(es: seq<Transceiver>): set<string> {
    set i | 0 <= i < |es| && Named(es[i]) :: es[i].name.value
  }

  function DropUnseen(db: Db, dev: nat, names: set<string>): Db {
    if names == {} then db else
    db.(modules := map id | id in db.modules
                            && !(db.modules[id].device == dev && IsTransceiver(db.modules[id].name)
                                && db.modules[id].name !in names)
                     :: db.modules[id])
  }

  /** `_apply_transceivers`. */
  function ApplyTransceivers(db: Db, dev: nat, es: seq<Transceiver>): Option<Db> {
    match ApplyEach(db, dev, es)
    case None => None
    case Some(d) => Some(DropUnseen(d, dev, SeenNames(es)))
  }

  lemma ReconcileFrees(db: Db, dev: nat, name: string, s: string)
    requires SerialsOk(db) && TablesOk(db) && Normal(s)
    ensures var r := Reconcile(db, dev, name, s);
            && SerialsOk(r) && TablesOk(r)
            && forall h :: KeyAt(SerialOf(r, h)) == Some(Upper(s)) ==> h.InModule? && h.id in NameIds(r, dev, name)
  {
    hide KeyAt, CleanAt, IExact, Normal, Upper, Unique;
    var r := Reconcile(db, dev, name, s);
    NoKeyForNone();
    FewerSerials(db, r);
    forall h | KeyAt(SerialOf(r, h)) == Some(Upper(s))
      ensures h.InModule? && h.id in NameIds(r, dev, name)
    {
      assert CleanAt(SerialOf(r, h));
      LookupFindsKey(SerialOf(r, h), s);
    }
  }

  lemma UpsertNamedKeeps(db: Db, dev: nat, name: string, descr: Option<string>, serial: Option<string>)
    requires SerialsOk(db) && TablesOk(db) && CleanAt(serial) && UpsertNamed(db, dev, name, descr, serial).Some?
    requires forall h :: SameKey(serial, SerialOf(db, h)) ==> h.InModule? && h.id in NameIds(db, dev, name)
    ensures SerialsOk(UpsertNamed(db, dev, name, descr, serial).value)
    ensures TablesOk(UpsertNamed(db, dev, name, descr, serial).value)
  {
    hide KeyAt, CleanAt, Unique;
    var after := UpsertNamed(db, dev, name, descr, serial).value;
    NoKeyForNone();
    var ids := NameIds(db, dev, name);
    if ids == {} {
      OneNewSerial(db, after, InModule(db.next));
    } else {
      var id :| id in ids;
      OnlyMember(ids, id);
      OneNewSerial(db, after, InModule(id));
    }
  }

  lemma ApplyTransceiverKeeps(db: Db, dev: nat, e: Transceiver)
    requires SerialsOk(db) && TablesOk(db) && ApplyTransceiver(db, dev, e).Some?
    ensures SerialsOk(ApplyTransceiver(db, dev, e).value) && TablesOk(ApplyTransceiver(db, dev, e).value)
  {
    hide CleanAt, NormalizeSerial, Normal, UpsertNamed, SerialsOk, TablesOk, NameIds, Reconcile;
    if Named(e) {
      var s := NormalizeSerial(e.serial);
      NormalizeSerialIdempotent(e.serial);
      NoKeyForNone();
      if s.Some? {
        ReconcileFrees(db, dev, e.name.value, s.value);
        NormalKey(s.value);
        UpsertNamedKeeps(Reconcile(db, dev, e.name.value, s.value), dev, e.name.value, e.description, s);
      } else {
        UpsertNamedKeeps(db, dev, e.name.value, e.description, s);
      }
    }
  }

  lemma {:induction false} ApplyEachKeeps(db: Db, dev: nat, es: seq<Transceiver>)
    requires SerialsOk(db) && TablesOk(db) && ApplyEach(db, dev, es).Some?
    ensures SerialsOk(ApplyEach(db, dev, es).value) && TablesOk(ApplyEach(db, dev, es).value)
  {
    hide SerialsOk, TablesOk, ApplyTransceiver;
    if es != [] {
      ApplyEachKeeps(db, dev, es[..|es| - 1]);
      ApplyTransceiverKeeps(ApplyEach(db, dev, es[..|es| - 1]).value, dev, es[|es| - 1]);
    }
  }

  /** Removing module rows. */
  lemma FewerModules(db: Db, after: Db)
    requires SerialsOk(db) && TablesOk(db)
    requires after == db.(modules := after.modules, devices := after.devices)
    requires forall id :: id in after.modules ==> id in db.modules && after.modules[id] == db.modules[id]
    ensures SerialsOk(after) && TablesOk(after)
  {
    hide Unique;
    FewerSerials(db, after);
  }

  /** The transceiver step keeps every number unique, whatever is reported. */
  lemma TransceiversKeepSerials(db: Db, dev: nat, es: seq<Transceiver>)
    requires SerialsOk(db) && TablesOk(db) && ApplyTransceivers(db, dev, es).Some?
    ensures SerialsOk(ApplyTransceivers(db, dev, es).value) && TablesOk(ApplyTransceivers(db, dev, es).value)
  {
    hide SerialsOk, TablesOk, IsTransceiver, ApplyEach, SeenNames;
    ApplyEachKeeps(db, dev, es);
    FewerModules(ApplyEach(db, dev, es).value, ApplyTransceivers(db, dev, es).value);
  }

  // ---------------------------------------------------------------------------- synchronisation

  /** `_apply_version`, as far as serial numbers go: a valid reported number becomes the device's. */
  function ApplyVersion(db: Db, dev: nat, reported: Option<string>): Db {
    if dev in db.devices && NormalizeSerial(reported).Some? then
      db.(devices := db.devices[dev := db.devices[dev].(serial := NormalizeSerial(reported))])
    else
      db
  }

  /** The serial-moving part of `sync_device`; transceivers are reported by one platform only. */
  function SyncDevice(db: Db, dev: nat, version: Option<string>, inventory: seq<Entry>,
      transceivers: Option<seq<Transceiver>>): Option<Db> {
    match ApplyInventory(ApplyVersion(db, dev, version), dev, inventory)
    case None => None
    case Some(d) => if transceivers.Some? then ApplyTransceivers(d, dev, transceivers.value) else Some(d)
  }

  /** Device rows hold no serial number that counts here. */
  lemma DevicesDoNotCount(db: Db, after: Db, dev: nat, ws: seq<Winner>)
    requires after == db.(devices := after.devices)
    ensures SerialsOk(db) ==> SerialsOk(after)
    ensures TablesOk(db) ==> TablesOk(after)
    ensures StaleTwin(db, dev, ws) <==> StaleTwin(after, dev, ws)
  {
    hide IsTwin;
    if SerialsOk(db) {
      FewerSerials(db, after);
    }
  }

  lemma SyncKeepsSerials(db: Db, dev: nat, version: Option<string>, inventory: seq<Entry>,
      transceivers: Option<seq<Transceiver>>)
    requires SerialsOk(db) && TablesOk(db) && SyncDevice(db, dev, version, inventory, transceivers).Some?
    requires !StaleTwin(db, dev, Winners(inventory))
    ensures SerialsOk(SyncDevice(db, dev, version, inventory, transceivers).value)
    ensures TablesOk(SyncDevice(db, dev, version, inventory, transceivers).value)
  {
    hide SerialsOk, TablesOk, ApplyInventory, ApplyTransceivers, StaleTwin, Winners, NormalizeSerial;
    var named := ApplyVersion(db, dev, version);
    DevicesDoNotCount(db, named, dev, Winners(inventory));
    InventoryKeepsSerialsUnique(named, dev, inventory);
    if transceivers.Some? {
      TransceiversKeepSerials(ApplyInventory(named, dev, inventory).value, dev, transceivers.value);
    }
  }

  // -------------------------------------------------------------------------- spreadsheet import

  /** A cell as `_clean_cell` leaves it; empty means absent. */
  function Cell(raw: string): Option<string> {
    if Strip(raw) == "" then None else Some(Strip(raw))
  }

  /** A row of the sheet. `details` is None when a choice, site, area or vendor does not resolve;
      `fieldsOk` stands for the column checks of `full_clean` that do not concern ownership. */
  datatype SheetRow = SheetRow(blank: bool, designation: string, model: string, inventory: string, serial: string,
                               details: Option<Details>, fieldsOk: bool)

  datatype ImportState = ImportState(db: Db, numbers: set<string>, serials: set<string>, errors: nat, saved: nat) {
    function Failed(): ImportState {
      this.(errors := errors + 1)
    }
  }

  predicate HasInventory(db: Db, id: nat, number: Option<string>) {
    id in db.items && number.Some? && db.items[id].inventory == number
  }

  predicate HasSerial(db: Db, id: nat, serial: Option<string>) {
    id in db.items && serial.Some? && db.items[id].serial == serial
  }

  ghost function FindInventory(db: Db, number: Option<string>): (r: Option<nat>)
    ensures r.Some? ==> HasInventory(db, r.value, number)
    ensures r.None? ==> forall id :: !HasInventory(db, id, number)
  {
    if exists id :: HasInventory(db, id, number) then var id :| HasInventory(db, id, number); Some(id) else None
  }

  ghost function FindSerial(db: Db, serial: Option<string>): (r: Option<nat>)
    ensures r.Some? ==> HasSerial(db, r.value, serial)
    ensures r.None? ==> forall id :: !HasSerial(db, id, serial)
  {
    if exists id :: HasSerial(db, id, serial) then var id :| HasSerial(db, id, serial); Some(id) else None
  }

  function SheetItem(row: SheetRow): Item
    requires row.details.Some?
  {
    Item(Cell(row.inventory), Cell(row.serial), Strip(row.model), row.details.value)
  }

  function Noted(seen: set<string>, v: Option<string>): set<string> {
    if v.Some? then seen + {v.value} else seen
  }

  predicate Repeats(seen: set<string>, v: Option<string>) {
    v.Some? && v.value in seen
  }

  ghost function ImportRow(st: ImportState, row: SheetRow): ImportState {
    if row.blank then st
    else if Strip(row.designation) == "" || Strip(row.model) == "" then st.Failed()
    else if Repeats(st.numbers, Cell(row.inventory)) then st.Failed()
    else
      var st1 := st.(numbers := Noted(st.numbers, Cell(row.inventory)));
      if Repeats(st1.serials, Cell(row.serial)) then st1.Failed()
      else
        var st2 := st1.(serials := Noted(st1.serials, Cell(row.serial)));
        if row.details.None? then st2.Failed()
        else
          var a, b := FindInventory(st.db, Cell(row.inventory)), FindSerial(st.db, Cell(row.serial));
          if a.Some? && b.Some? && a != b then st2.Failed()
          else
            match SaveItem(st.db, if a.Some? then a else b, SheetItem(row), row.fieldsOk)
            case None => st2.Failed()
            case Some(d) => st2.(db := d, saved := st2.saved + 1)
  }

  ghost function ImportRows(db: Db, rows: seq<SheetRow>): ImportState {
    if rows == [] then ImportState(db, {}, {}, 0, 0)
    else ImportRow(ImportRows(db, rows[..|rows| - 1]), rows[|rows| - 1])
  }

  /** The import: the tables and the number of rows saved, or None when any row has an error. */
  ghost function ImportSheet(db: Db, rows: seq<SheetRow>): Option<(Db, nat)> {
    var st := ImportRows(db, rows);
    if st.errors > 0 then None else Some((st.db, st.saved))
  }

  lemma {:induction false} ImportKeepsSerials(db: Db, rows: seq<SheetRow>)
    requires SerialsOk(db) && TablesOk(db)
    ensures SerialsOk(ImportRows(db, rows).db) && TablesOk(ImportRows(db, rows).db)
  {
    hide SerialsOk, TablesOk, SaveItem, Repeats, Noted, Cell, Strip;
    if rows != [] {
      ImportKeepsSerials(db, rows[..|rows| - 1]);
      var st, row := ImportRows(db, rows[..|rows| - 1]), rows[|rows| - 1];
      if row.details.Some? {
        var a, b := FindInventory(st.db, Cell(row.inventory)), FindSerial(st.db, Cell(row.serial));
        if SaveItem(st.db, if a.Some? then a else b, SheetItem(row), row.fieldsOk).Some? {
          SaveItemKeepsSerials(st.db, if a.Some? then a else b, SheetItem(row), row.fieldsOk);
        }
      }
    }
  }

  function Filled(rows: seq<SheetRow>): nat {
    if rows == [] then 0 else Filled(rows[..|rows| - 1]) + if rows[|rows| - 1].blank then 0 else 1
  }

  lemma RowCounts(st: ImportState, row: SheetRow)
    ensures ImportRow(st, row).saved + ImportRow(st, row).errors == st.saved + st.errors + if row.blank then 0 else 1
  {
    hide SaveItem, Repeats, Noted, Cell, Strip, FindInventory, FindSerial, SheetItem;
  }

  /** Each filled row is counted once, as saved or as an error. */
  lemma {:induction false} ImportCounts(db: Db, rows: seq<SheetRow>)
    ensures ImportRows(db, rows).saved + ImportRows(db, rows).errors == Filled(rows)
  {
    if rows != [] {
      hide ImportRow;
      ImportCounts(db, rows[..|rows| - 1]);
      RowCounts(ImportRows(db, rows[..|rows| - 1]), rows[|rows| - 1]);
    }
  }

  /** The item of a sheet row, with its number normalised. */
  ghost predicate PlacedAt(db: Db, row: SheetRow, id: nat) {
    && row.details.Some? && id in db.items
    && db.items[id] == SheetItem(row).(serial := NormalizeSerial(Cell(row.serial)))
  }

  /** Each row of the sheet is stored under its own key. */
  ghost predicate Placed(db: Db, rows: seq<SheetRow>, ids: seq<nat>) {
    && |ids| == |rows|
    && (forall i :: 0 <= i < |rows| && !rows[i].blank ==> PlacedAt(db, rows[i], ids[i]))
    && (forall i, j :: 0 <= i < j < |rows| && !rows[i].blank && !rows[j].blank ==> ids[i] != ids[j])
  }

  ghost predicate SeenAll(st: ImportState, rows: seq<SheetRow>) {
    forall i :: 0 <= i < |rows| && !rows[i].blank ==>
      && (Cell(rows[i].inventory).Some? ==> Cell(rows[i].inventory).value in st.numbers)
      && (Cell(rows[i].serial).Some? ==> Cell(rows[i].serial).value in st.serials)
  }

  lemma CellIsStripped(raw: string)
    ensures NormalizeSerial(Cell(raw)).Some? ==> NormalizeSerial(Cell(raw)) == Cell(raw)
  {
    StripTrims(raw);
    StripTrims(Strip(raw));
  }

  /** A later row never lands on the item of an earlier one: its number or serial would repeat. */
  lemma FreshTarget(st: ImportState, rows: seq<SheetRow>, ids: seq<nat>, row: SheetRow, t: nat, i: nat)
    requires Placed(st.db, rows, ids) && SeenAll(st, rows) && i < |rows| && !rows[i].blank
    requires !Repeats(st.numbers, Cell(row.inventory)) && !Repeats(st.serials, Cell(row.serial))
    requires HasInventory(st.db, t, Cell(row.inventory)) || HasSerial(st.db, t, Cell(row.serial))
    ensures ids[i] != t
  {
    hide Cell, NormalizeSerial;
    CellIsStripped(rows[i].serial);
  }

  /** What a row does that is saved. */
  lemma RowIsSaved(st: ImportState, row: SheetRow)
    requires !row.blank && ImportRow(st, row).errors == 0
    ensures st.errors == 0 && row.details.Some?
    ensures !Repeats(st.numbers, Cell(row.inventory)) && !Repeats(st.serials, Cell(row.serial))
    ensures ImportRow(st, row).numbers == Noted(st.numbers, Cell(row.inventory))
    ensures ImportRow(st, row).serials == Noted(st.serials, Cell(row.serial))
    ensures var a, b := FindInventory(st.db, Cell(row.inventory)), FindSerial(st.db, Cell(row.serial));
            ImportRow(st, row).db
              == PutItem(st.db, if a.Some? then a else b, SheetItem(row).(serial := NormalizeSerial(Cell(row.serial))))
  {
    hide Repeats, Noted, Cell, Strip, FindInventory, FindSerial, ItemValid, NormalizeSerial;
  }

  lemma SeenMore(st: ImportState, rows: seq<SheetRow>, row: SheetRow)
    requires SeenAll(st, rows) && (ImportRow(st, row).errors == 0 || row.blank)
    ensures SeenAll(ImportRow(st, row), rows + [row])
  {
    hide Cell, Strip, SaveItem, Repeats;
    if !row.blank {
      RowIsSaved(st, row);
    }
  }

  lemma PlacedAtStays(db: Db, after: Db, row: SheetRow, id: nat)
    requires PlacedAt(db, row, id) && id in after.items && after.items[id] == db.items[id]
    ensures PlacedAt(after, row, id)
  {
    hide Cell, NormalizeSerial, SheetItem;
  }

  lemma PlacedIsKnown(db: Db, row: SheetRow, id: nat)
    requires PlacedAt(db, row, id)
    ensures id in db.items
  {
  }

  /** Storing `item` under `t`, where no earlier row is, keeps every earlier row in its place. */
  lemma PlacedMore(db: Db, after: Db, rows: seq<SheetRow>, ids: seq<nat>, row: SheetRow, t: nat, item: Item)
    requires Placed(db, rows, ids) && after.items == db.items[t := item] && PlacedAt(after, row, t)
    requires forall i :: 0 <= i < |rows| && !rows[i].blank ==> ids[i] != t
    ensures Placed(after, rows + [row], ids + [t])
  {
    hide PlacedAt;
    var all, keys := rows + [row], ids + [t];
    forall i | 0 <= i < |all| && !all[i].blank
      ensures PlacedAt(after, all[i], keys[i]) && (i < |rows| ==> keys[i] != t)
    {
      if i < |rows| {
        assert all[i] == rows[i] && keys[i] == ids[i];
        PlacedIsKnown(db, rows[i], ids[i]);
        PlacedAtStays(db, after, rows[i], ids[i]);
      }
    }
  }

  lemma SavedIsPlaced(db: Db, row: SheetRow, target: Option<nat>)
    requires row.details.Some?
    ensures PlacedAt(PutItem(db, target, SheetItem(row).(serial := NormalizeSerial(Cell(row.serial)))), row,
                     if target.Some? then target.value else db.next)
  {
    hide Cell, NormalizeSerial, SheetItem;
  }

  lemma UnusedKey(db: Db, rows: seq<SheetRow>, ids: seq<nat>, i: nat)
    requires TablesOk(db) && Placed(db, rows, ids) && i < |rows| && !rows[i].blank
    ensures ids[i] != db.next
  {
    PlacedIsKnown(db, rows[i], ids[i]);
  }

  /** Only the item under `t` may have changed. */
  ghost predicate OthersKept(db: Db, after: Db, t: nat) {
    && after.devices == db.devices && after.modules == db.modules && t in after.items
    && forall id :: id != t ==>
        (id in after.items <==> id in db.items) && (id in db.items ==> after.items[id] == db.items[id])
  }

  /** `id` is where a filled row went. */
  ghost predicate Target(rows: seq<SheetRow>, ids: seq<nat>, id: nat) {
    exists i :: 0 <= i < |rows| && i < |ids| && !rows[i].blank && ids[i] == id
  }

  /** Items that no row went to are as they were. */
  ghost predicate OnlyRows(db: Db, after: Db, rows: seq<SheetRow>, ids: seq<nat>) {
    && after.devices == db.devices && after.modules == db.modules
    && (forall id :: id in db.items ==> id in after.items)
    && (forall id :: id in after.items && !Target(rows, ids, id) ==> id in db.items && after.items[id] == db.items[id])
  }

  lemma TargetsGrow(rows: seq<SheetRow>, ids: seq<nat>, row: SheetRow, t: nat)
    requires |ids| == |rows|
    ensures forall id :: Target(rows, ids, id) ==> Target(rows + [row], ids + [t], id)
    ensures !row.blank ==> Target(rows + [row], ids + [t], t)
  {
    var all, keys := rows + [row], ids + [t];
    assert all[|rows|] == row && keys[|ids|] == t;
    forall id | Target(rows, ids, id)
      ensures Target(all, keys, id)
    {
      var i :| 0 <= i < |rows| && i < |ids| && !rows[i].blank && ids[i] == id;
      assert !all[i].blank && keys[i] == id;
    }
  }

  lemma OnlyRowsMore(db: Db, mid: Db, after: Db, rows: seq<SheetRow>, ids: seq<nat>, row: SheetRow, t: nat)
    requires OnlyRows(db, mid, rows, ids) && |ids| == |rows|
        && (if row.blank then after == mid else OthersKept(mid, after, t))
    ensures OnlyRows(db, after, rows + [row], ids + [t])
  {
    hide Target;
    TargetsGrow(rows, ids, row, t);
  }

  lemma SavedRowIsPlaced(st: ImportState, rows: seq<SheetRow>, ids: seq<nat>, row: SheetRow) returns (t: nat)
    requires TablesOk(st.db) && Placed(st.db, rows, ids) && SeenAll(st, rows)
    requires !row.blank && ImportRow(st, row).errors == 0
    ensures Placed(ImportRow(st, row).db, rows + [row], ids + [t])
    ensures OthersKept(st.db, ImportRow(st, row).db, t)
    ensures var a, b := FindInventory(st.db, Cell(row.inventory)), FindSerial(st.db, Cell(row.serial));
            t == if a.Some? then a.value else if b.Some? then b.value else st.db.next
  {
    hide Cell, TablesOk, ImportRow, Placed, SeenAll, PlacedAt, SheetItem, NormalizeSerial, HasInventory, HasSerial,
        Repeats;
    RowIsSaved(st, row);
    var a, b := FindInventory(st.db, Cell(row.inventory)), FindSerial(st.db, Cell(row.serial));
    var target := if a.Some? then a else b;
    t := if target.Some? then target.value else st.db.next;
    PlacedLength(st.db, rows, ids);
    forall i | 0 <= i < |rows| && !rows[i].blank
      ensures ids[i] != t
    {
      if target.Some? {
        FreshTarget(st, rows, ids, row, t, i);
      } else {
        UnusedKey(st.db, rows, ids, i);
      }
    }
    SavedIsPlaced(st.db, row, target);
    PlacedMore(st.db, ImportRow(st, row).db, rows, ids, row, t,
        SheetItem(row).(serial := NormalizeSerial(Cell(row.serial))));
  }

  /** After an import without errors every filled row has an item of its own that holds its data, and
      nothing else changed. */
  lemma {:induction false} ImportLosesNoRow(db: Db, rows: seq<SheetRow>) returns (ids: seq<nat>)
    requires TablesOk(db) && SerialsOk(db) && ImportRows(db, rows).errors == 0
    ensures Placed(ImportRows(db, rows).db, rows, ids) && SeenAll(ImportRows(db, rows), rows)
    ensures OnlyRows(db, ImportRows(db, rows).db, rows, ids)
  {
    hide SerialsOk, TablesOk, ImportRow, Placed, SeenAll, OnlyRows, OthersKept;
    if rows == [] {
      ids := [];
      NothingPlaced(db);
    } else {
      var init, row := rows[..|rows| - 1], rows[|rows| - 1];
      assert init + [row] == rows;
      var st := ImportRows(db, init);
      NoErrorsBefore(st, row);
      var earlier := ImportLosesNoRow(db, init);
      ImportKeepsSerials(db, init);
      SeenMore(st, init, row);
      PlacedLength(st.db, init, earlier);
      if row.blank {
        BlankRow(st, init, earlier, row);
        OnlyRowsMore(db, st.db, st.db, init, earlier, row, 0);
        ids := earlier + [0];
      } else {
        var t := SavedRowIsPlaced(st, init, earlier, row);
        OnlyRowsMore(db, st.db, ImportRow(st, row).db, init, earlier, row, t);
        ids := earlier + [t];
      }
    }
  }

  lemma NothingPlaced(db: Db)
    ensures Placed(db, [], []) && SeenAll(ImportState(db, {}, {}, 0, 0), []) && OnlyRows(db, db, [], [])
  {
  }

  lemma PlacedLength(db: Db, rows: seq<SheetRow>, ids: seq<nat>)
    requires Placed(db, rows, ids)
    ensures |ids| == |rows|
  {
  }

  lemma NoErrorsBefore(st: ImportState, row: SheetRow)
    ensures ImportRow(st, row).errors == 0 ==> st.errors == 0
  {
    hide SaveItem, Repeats, Noted, Cell, Strip, FindInventory, FindSerial;
  }

  lemma BlankRow(st: ImportState, rows: seq<SheetRow>, ids: seq<nat>, row: SheetRow)
    requires Placed(st.db, rows, ids) && row.blank
    ensures ImportRow(st, row) == st && Placed(st.db, rows + [row], ids + [0])
  {
    hide Cell, NormalizeSerial, SheetItem;
  }
}
