/** The services themselves: methods that update the tables in place, each proved against its step. */
module SerialStore {
  import opened Options
  import opened Text
  import opened SerialModel
  import opened InventorySync
  import opened InventoryOwnership
  import opened SerialProtocol
  import opened SerialRuns
  import opened TransceiverOwnership
  import opened ImportOutcome
  import opened DecommissionOutcome

  /** The loop over the report: one entry per serial number, and the names without one. */
  method CollectEntries(entries: seq<Entry>) returns (found: seq<Winner>, blanks: set<string>)
    ensures found == Winners(entries) && blanks == SerialLess(entries)
  {
    found, blanks := [], {};
    for i := 0 to |entries|
      invariant found == Winners(entries[..i]) && blanks == SerialLess(entries[..i])
    {
      hide EntryName, EntrySerial, Priority, Position;
      assert entries[..i + 1][..i] == entries[..i];
      SerialLessGrows(entries, i);
      var e := entries[i];
      var name := EntryName(e);
      var serial := EntrySerial(e);
      if serial.None? {
        blanks := blanks + {name};
      } else {
        var at := Position(found, Upper(serial.value));
        var entry := Winner(name, e.descr, serial.value);
        if at.None? {
          found := found + [entry];
        } else if Better(Priority(name, e.descr), Priority(found[at.value].name, found[at.value].descr)) {
          found := found[at.value := entry];
        }
      }
    }
    assert entries[..|entries|] == entries;
  }

  lemma SerialLessGrows(entries: seq<Entry>, i: nat)
    requires i < |entries|
    ensures SerialLess(entries[..i + 1]) == SerialLess(entries[..i]) + if EntrySerial(entries[i]).None? then
        {EntryName(entries[i])} else {}
  {
    hide EntryName, EntrySerial;
    var longer, shorter := entries[..i + 1], entries[..i];
    assert longer[i] == entries[i] && forall k :: 0 <= k < i ==> longer[k] == shorter[k];
    forall name | name in SerialLess(shorter)
      ensures name in SerialLess(longer)
    {
      var k :| 0 <= k < i && EntrySerial(shorter[k]).None? && EntryName(shorter[k]) == name;
      assert longer[k] == shorter[k];
    }
  }

  /** A report without lines changes nothing. */
  lemma EmptyReport(db: Db, dev: nat)
    ensures ApplyInventory(db, dev, []) == Some(db)
  {
    assert Winners([]) == [] && SerialLess([]) == {} && ApplyWinners(db, dev, []) == Some(db);
    assert Sweep(db, dev, [], {}).modules == db.modules;
  }

  lemma NothingObsolete(full: Db, mid: Db, dev: nat, ws: seq<Winner>)
    requires mid == full.(modules := mid.modules)
    requires mid.modules == if ws == [] then full.modules
                            else map id | id in full.modules && !Obsolete(full.modules[id], dev, ws) :: full.modules[id]
    ensures mid == full.(modules := map id | id in full.modules && !Obsolete(full.modules[id], dev, ws) ::
        full.modules[id])
  {
    assert mid.modules == map id | id in full.modules && !Obsolete(full.modules[id], dev, ws) :: full.modules[id];
  }

  lemma NothingBlank(mid: Db, after: Db, dev: nat, names: set<string>)
    requires after == mid.(modules := after.modules)
    requires after.modules == if names == {} then mid.modules
                              else map id | id in mid.modules && !Blank(mid.modules[id], dev, names) :: mid.modules[id]
    ensures after == mid.(modules := map id | id in mid.modules && !Blank(mid.modules[id], dev, names) ::
        mid.modules[id])
  {
    assert after.modules == map id | id in mid.modules && !Blank(mid.modules[id], dev, names) :: mid.modules[id];
  }

  lemma SweepInTwo(db: Db, mid: Db, after: Db, dev: nat, ws: seq<Winner>, names: set<string>)
    requires mid == db.(modules := map id | id in db.modules && !Obsolete(db.modules[id], dev, ws) :: db.modules[id])
    requires after == mid.(modules := map id | id in mid.modules && !Blank(mid.modules[id], dev, names) ::
        mid.modules[id])
    ensures after == Sweep(db, dev, ws, names)
  {
    hide Obsolete, Blank;
    assert after.modules == Sweep(db, dev, ws, names).modules;
  }

  /** The number is gone from storage and from every module but the named one; all other rows are as before. */
  ghost predicate NumberLeaves(db: Db, after: Db, dev: nat, name: string, serial: string) {
    && after == db.(items := after.items, modules := after.modules)
    && (forall id :: id in after.items <==> id in db.items && !IExact(db.items[id].serial, serial))
    && (forall id :: id in after.items ==> after.items[id] == db.items[id])
    && (forall id :: id in after.modules <==>
          id in db.modules && (IExact(db.modules[id].serial, serial) ==>
              db.modules[id].device == dev && db.modules[id].name == name))
    && (forall id :: id in after.modules ==> after.modules[id] == db.modules[id])
  }

  lemma LeavingIsReconcile(db: Db, after: Db, dev: nat, name: string, serial: string)
    requires NumberLeaves(db, after, dev, name, serial)
    ensures after == Reconcile(db, dev, name, serial)
  {
    hide IExact;
    assert after.items == Reconcile(db, dev, name, serial).items
        && after.modules == Reconcile(db, dev, name, serial).modules;
  }

  /** The winner has a row with its description and no vendor: its rows from before, or a new one when there
      was none. Every other row is as before. */
  ghost predicate RowWritten(db: Db, after: Db, dev: nat, w: Winner) {
    && after.items == db.items && after.devices == db.devices
    && (forall id :: id in db.modules && IsRow(db.modules[id], dev, w) ==>
          id in after.modules && after.modules[id] == Refreshed(db.modules[id], w))
    && (forall id ::
          id in db.modules && !IsRow(db.modules[id], dev, w) && (id != db.next || RowIds(db, dev, w) != {}) ==>
          id in after.modules && after.modules[id] == db.modules[id])
    && if RowIds(db, dev, w) == {} then
         after.modules.Keys == db.modules.Keys + {db.next} && after.next == db.next + 1
         && IsRow(after.modules[db.next], dev, w) && after.modules[db.next] == Refreshed(after.modules[db.next], w)
         && after.modules[db.next].inventory == None
       else
         after.modules.Keys == db.modules.Keys && after.next == db.next
  }

  lemma WritingIsUpsert(db: Db, after: Db, dev: nat, w: Winner)
    requires |RowIds(db, dev, w)| <= 1 && RowWritten(db, after, dev, w)
    ensures Upsert(db, dev, w) == Some(after)
  {
    var ids := RowIds(db, dev, w);
    assert forall id :: id in ids <==> id in db.modules && IsRow(db.modules[id], dev, w);
    hide IsRow;
    assert after.modules == Upsert(db, dev, w).value.modules by {
      if ids == {} {
        var m := after.modules[db.next];
        NewRowIs(m, dev, w);
      }
    }
  }

  lemma NewRowIs(m: Module, dev: nat, w: Winner)
    requires IsRow(m, dev, w) && m == Refreshed(m, w) && m.inventory == None
    ensures m == NewRow(dev, w)
  {
  }

  /** The lookup holds the source items of the device, by their keys. */
  ghost predicate Lists(lookup: map<SourceKey, Source>, db: Db, dev: nat) {
    && (forall key :: key in lookup <==> SourceOf(db, dev, key).Some?)
    && (forall key :: key in lookup ==> Some(lookup[key]) == SourceOf(db, dev, key))
  }

  lemma ListedSource(lookup: map<SourceKey, Source>, db: Db, dev: nat, key: SourceKey)
    requires Lists(lookup, db, dev)
    ensures SourceOf(db, dev, key) == if key in lookup then Some(lookup[key]) else None
  {
    hide SourceOf;
  }

  class Tables {
    var devices: map<nat, Device>
    var modules: map<nat, Module>
    var items: map<nat, Item>
    var next: nat

    constructor ()
      ensures Now() == Db(map[], map[], map[], 0)
    {
      devices, modules, items, next := map[], map[], map[], 0;
    }

    ghost function Now(): Db
      reads this
    {
      Db(devices, modules, items, next)
    }

    // -------------------------------------------------------------------------- synchronisation

    method RemoveStorageDuplicates(serial: string)
      modifies this`items
      ensures forall id :: id in items <==> id in old(items) && !IExact(old(items)[id].serial, serial)
      ensures forall id :: id in items ==> items[id] == old(items)[id]
    {
      items := map id | id in items && !IExact(items[id].serial, serial) :: items[id];
    }

    method ReconcileModuleSerial(dev: nat, name: string, serial: string)
      modifies this`items, this`modules
      ensures NumberLeaves(old(Now()), Now(), dev, name, serial)
    {
      hide IExact;
      RemoveStorageDuplicates(serial);
      modules := map id | id in modules && (!IExact(modules[id].serial, serial)
                                            || (modules[id].device == dev && modules[id].name == name)) :: modules[id];
    }

    method UpdateOrCreateModule(dev: nat, w: Winner) returns (ok: bool)
      modifies this`modules, this`next
      ensures ok <==> |RowIds(old(Now()), dev, w)| <= 1
      ensures if ok then RowWritten(old(Now()), Now(), dev, w) else Now() == old(Now())
    {
      var ids := set id | id in modules && IsRow(modules[id], dev, w);
      assert ids == RowIds(Now(), dev, w);
      assert forall id :: id in modules && IsRow(modules[id], dev, w) ==> id in ids;
      if |ids| > 1 {
        return false;
      }
      if ids == {} {
        modules := modules[next := Module(dev, w.name, None, Some(w.descr), None, Some(w.serial))];
        next := next + 1;
      } else {
        modules := map id | id in modules ::
            if id in ids then modules[id].(description := Some(w.descr), vendor := None) else modules[id];
      }
      return true;
    }

    /** The loop over the collected serial numbers. */
    method TakeSerials(dev: nat, found: seq<Winner>) returns (ok: bool)
      modifies this`items, this`modules, this`next
      ensures ok <==> ApplyWinners(old(Now()), dev, found).Some?
      ensures ok ==> ApplyWinners(old(Now()), dev, found) == Some(Now())
    {
      ghost var before := Now();
      for i := 0 to |found|
        invariant ApplyWinners(before, dev, found[..i]) == Some(Now())
      {
        hide Upsert, Reconcile, NumberLeaves, RowWritten, RowIds;
        ghost var d := Now();
        ReconcileModuleSerial(dev, found[i].name, found[i].serial);
        ghost var r := Now();
        LeavingIsReconcile(d, r, dev, found[i].name, found[i].serial);
        var stored := UpdateOrCreateModule(dev, found[i]);
        OneMoreWinner(before, d, dev, found, i);
        if stored {
          WritingIsUpsert(r, Now(), dev, found[i]);
        } else {
          SeveralRows(r, dev, found[i]);
        }
        if !stored {
          NoneStays(before, dev, found, i + 1);
          return false;
        }
      }
      assert found[..|found|] == found;
      return true;
    }

    /** The two deletions after it. */
    method SweepModules(dev: nat, found: seq<Winner>, blanks: set<string>)
      modifies this`modules
      ensures Now() == Sweep(old(Now()), dev, found, blanks)
    {
      hide Obsolete, Blank;
      ghost var full := Now();
      if found != [] {
        modules := map id | id in modules && !Obsolete(modules[id], dev, found) :: modules[id];
      }
      NothingObsolete(full, Now(), dev, found);
      ghost var mid := Now();
      if blanks != {} {
        modules := map id | id in modules && !Blank(modules[id], dev, blanks) :: modules[id];
      }
      NothingBlank(mid, Now(), dev, blanks);
      SweepInTwo(full, mid, Now(), dev, found, blanks);
    }

    /** `_apply_inventory`. When it is left by an exception the changes so far remain for the caller to
        roll back. */
    method ApplyInventoryReport(dev: nat, entries: seq<Entry>) returns (ok: bool)
      modifies this
      ensures ok <==> ApplyInventory(old(Now()), dev, entries).Some?
      ensures ok ==> Now() == ApplyInventory(old(Now()), dev, entries).value
      ensures old(SerialsOk(Now()) && TablesOk(Now())) ==>
                ok && InventoryDone(old(Now()), dev, entries, Now())
    {
      hide Consider, SerialLess, Upsert, Sweep, ApplyWinners, ApplyInventory, SerialsOk, TablesOk, InventoryDone;
      if SerialsOk(Now()) && TablesOk(Now()) {
        InventoryIsDone(Now(), dev, entries);
      }
      InventoryInSteps(Now(), dev, entries);
      if entries == [] {
        EmptyReport(Now(), dev);
        return true;
      }
      var found, blanks := CollectEntries(entries);
      ok := TakeSerials(dev, found);
      if ok {
        SweepModules(dev, found, blanks);
      }
    }

    method UpdateOrCreateNamed(dev: nat, name: string, descr: Option<string>, serial: Option<string>) returns (ok: bool)
      modifies this`modules, this`next
      ensures ok <==> UpsertNamed(old(Now()), dev, name, descr, serial).Some?
      ensures Now() == if ok then UpsertNamed(old(Now()), dev, name, descr, serial).value else old(Now())
    {
      var ids := set id | id in modules && modules[id].device == dev && modules[id].name == name;
      assert ids == NameIds(Now(), dev, name);
      if |ids| > 1 {
        return false;
      }
      if ids == {} {
        modules := modules[next := Module(dev, name, None, descr, None, serial)];
        next := next + 1;
      } else {
        modules := map id | id in modules ::
          if id in ids then modules[id].(description := descr, vendor := None, serial := serial) else modules[id];
      }
      return true;
    }

    /** `_apply_transceivers`. */
    method ApplyTransceiverReport(dev: nat, reported: seq<Transceiver>) returns (ok: bool)
      modifies this
      ensures ok <==> ApplyTransceivers(old(Now()), dev, reported).Some?
      ensures ok ==> Now() == ApplyTransceivers(old(Now()), dev, reported).value
      ensures old(SerialsOk(Now()) && TablesOk(Now())) ==>
                && (ok <==> !Raises(old(Now()), dev, reported))
                && (ok ==> DeviceHas(old(Now()), Now(), dev, reported) && OthersLose(old(Now()), Now(), dev, reported))
    {
      hide Raises, DeviceHas, OthersLose, SerialsOk, TablesOk;
      if SerialsOk(Now()) && TablesOk(Now()) {
        TransceiversRaiseExactly(Now(), dev, reported);
        if ApplyTransceivers(Now(), dev, reported).Some? {
          TransceiversTakeOver(Now(), dev, reported);
        }
      }
      ghost var before := Now();
      var seen: set<string> := {};
      for i := 0 to |reported|
        invariant ApplyEach(before, dev, reported[..i]) == Some(Now())
        invariant seen == SeenNames(reported[..i])
      {
        hide UpsertNamed, Reconcile, NormalizeSerial, NumberLeaves;
        assert reported[..i + 1][..i] == reported[..i];
        SeenNamesGrow(reported, i);
        var e := reported[i];
        if e.name.Some? && e.name.value != "" {
          var serial := NormalizeSerial(e.serial);
          if serial.Some? {
            ghost var d := Now();
            ReconcileModuleSerial(dev, e.name.value, serial.value);
            LeavingIsReconcile(d, Now(), dev, e.name.value, serial.value);
          }
          seen := seen + {e.name.value};
          var stored := UpdateOrCreateNamed(dev, e.name.value, e.description, serial);
          if !stored {
            NoTransceiverStays(before, dev, reported, i + 1);
            return false;
          }
        }
      }
      assert reported[..|reported|] == reported;
      if seen != {} {
        modules := map id | id in modules
                            && !(modules[id].device == dev && IsTransceiver(modules[id].name)
                                && modules[id].name !in seen) :: modules[id];
      }
      return true;
    }

    /** `_apply_version`, as far as serial numbers go. */
    method ApplyVersionReport(dev: nat, reported: Option<string>)
      modifies this`devices
      ensures Now() == ApplyVersion(old(Now()), dev, reported)
    {
      var serial := NormalizeSerial(reported);
      if dev in devices && serial.Some? {
        devices := devices[dev := devices[dev].(serial := serial)];
      }
    }

    /** The transaction of a synchronisation, as far as serial numbers go. */
    method SyncModules(dev: nat, version: Option<string>, inventory: seq<Entry>, transceivers: Option<seq<Transceiver>>)
      returns (ok: bool)
      modifies this
      ensures Now() == SerialRuns.Step(old(Now()), Op.Sync(dev, version, inventory, transceivers))
      ensures ok <==> SyncDevice(old(Now()), dev, version, inventory, transceivers).Some?
      ensures old(SerialsOk(Now()) && TablesOk(Now())) && !StaleTwin(old(Now()), dev, Winners(inventory)) ==>
                && SerialsOk(Now()) && TablesOk(Now())
                && (ok <==> SyncCompletes(old(Now()), dev, version, inventory, transceivers))
                && (ok ==> DeviceNamed(old(Now()), Now(), dev, version))
                && (ok ==> BothDone(old(Now()), Now(), dev, inventory, transceivers))
      ensures !ok ==> Now() == old(Now())
    {
      hide ApplyInventory, ApplyTransceivers, ApplyVersion, SerialsOk, TablesOk, StaleTwin, Winners, SyncCompletes,
          DeviceNamed,
          BothDone, InventoryDone, Raises, DeviceHas, OthersLose;
      if SerialsOk(Now()) && TablesOk(Now()) && !StaleTwin(Now(), dev, Winners(inventory)) {
        SyncOutcome(Now(), dev, version, inventory, transceivers);
      }
      var saved := (devices, modules, items, next);
      ApplyVersionReport(dev, version);
      ok := ApplyInventoryReport(dev, inventory);
      if ok && transceivers.Some? {
        ok := ApplyTransceiverReport(dev, transceivers.value);
      }
      if !ok {
        devices, modules, items, next := saved.0, saved.1, saved.2, saved.3;
      }
    }

    // -------------------------------------------------------------------------- validated writes

    /** `validate_device_module_serial_uniqueness`. */
    method CleanModule(id: Option<nat>, serial: Option<string>) returns (ok: bool)
      ensures ok <==> ModuleValid(Now(), id, serial)
    {
      hide IExact, NormalizeSerial;
      var s := NormalizeSerial(serial);
      if s.Some? {
        if exists k :: k in modules && Some(k) != id && IExact(modules[k].serial, s.value) {
          assert ModuleTaken(Now(), id, s.value);
          return false;
        }
        if exists k :: k in items && IExact(items[k].serial, s.value) {
          assert ItemTaken(Now(), None, s.value);
          return false;
        }
      }
      return true;
    }

    /** A device row as a form, the API or discovery stores it: no other row is looked at. */
    method WriteDeviceRow(id: nat, row: Device)
      modifies this`devices
      ensures Now() == SerialRuns.Step(old(Now()), Op.WriteDevice(id, row))
    {
      devices := devices[id := row];
    }

    method WriteModuleRow(id: Option<nat>, row: Module, viaApi: bool) returns (ok: bool)
      requires id.Some? ==> id.value in modules
      modifies this
      ensures Now() == SerialRuns.Step(old(Now()), Op.WriteModule(id, row, viaApi))
      ensures ok <==> ModuleValid(old(Now()), id, row.serial)
      ensures ok ==> ModuleWritten(old(Now()), Now(), id, row, viaApi)
      ensures old(SerialsOk(Now()) && TablesOk(Now())) ==>
                (ok <==> NumberFree(old(Now()), row.serial, ModuleHolder(old(Now()), id)))
      ensures old(SerialsOk(Now()) && TablesOk(Now())) ==> SerialsOk(Now()) && TablesOk(Now())
    {
      hide NormalizeSerial, ModuleValid, Strip, SerialsOk, TablesOk;
      if SerialsOk(Now()) && TablesOk(Now()) {
        StepKeepsSerials(Now(), Op.WriteModule(id, row, viaApi));
        ModuleOutcome(Now(), id, row, viaApi);
      }
      ghost var before := Now();
      ok := CleanModule(id, row.serial);
      if ok {
        var stored := if !viaApi then NormalizeSerial(row.serial)
            else if row.serial.Some? then Some(Strip(row.serial.value)) else None;
        if id.Some? {
          modules := modules[id.value := row.(serial := stored)];
        } else {
          modules := modules[next := row.(serial := stored)];
          next := next + 1;
        }
        SaveModuleWrites(before, id, row, viaApi);
      }
    }

    /** `full_clean` and `save` of a storage item. */
    method CleanAndSaveItem(id: Option<nat>, row: Item, fieldsOk: bool) returns (ok: bool)
      modifies this`items, this`next
      ensures ok <==> SaveItem(old(Now()), id, row, fieldsOk).Some?
      ensures Now() == if ok then SaveItem(old(Now()), id, row, fieldsOk).value else old(Now())
    {
      hide IExact, NormalizeSerial;
      var serial := NormalizeSerial(row.serial);
      ok := CleanItem(id, row, fieldsOk);
      if ok {
        if id.Some? {
          items := items[id.value := row.(serial := serial)];
        } else {
          items := items[next := row.(serial := serial)];
          next := next + 1;
        }
      }
    }

    method CleanItem(id: Option<nat>, row: Item, fieldsOk: bool) returns (ok: bool)
      ensures ok <==> ItemValid(Now(), id, row, fieldsOk)
    {
      hide IExact, NormalizeSerial;
      var serial := NormalizeSerial(row.serial);
      if !fieldsOk {
        return false;
      }
      if serial.Some? {
        if exists k :: k in modules && IExact(modules[k].serial, serial.value) {
          assert ModuleTaken(Now(), None, serial.value);
          return false;
        }
        if exists k :: k in items && Some(k) != id && IExact(items[k].serial, serial.value) {
          assert ItemTaken(Now(), id, serial.value);
          return false;
        }
      }
      if row.inventory.Some? && exists k :: k in items && Some(k) != id && items[k].inventory == row.inventory {
        assert InventoryTaken(Now(), id, row.inventory.value);
        return false;
      }
      return true;
    }

    method WriteItemRow(id: Option<nat>, row: Item, fieldsOk: bool) returns (ok: bool)
      requires id.Some? ==> id.value in items
      modifies this
      ensures Now() == SerialRuns.Step(old(Now()), Op.WriteItem(id, row, fieldsOk))
      ensures ok <==> ItemValid(old(Now()), id, row, fieldsOk)
      ensures ok ==> ItemWritten(old(Now()), Now(), id, row)
      ensures old(SerialsOk(Now()) && TablesOk(Now())) ==>
                (ok <==> ItemMayBeWritten(old(Now()), id, row, fieldsOk))
      ensures old(SerialsOk(Now()) && TablesOk(Now())) ==> SerialsOk(Now()) && TablesOk(Now())
    {
      hide NormalizeSerial, ItemValid, SerialsOk, TablesOk;
      if SerialsOk(Now()) && TablesOk(Now()) {
        StepKeepsSerials(Now(), Op.WriteItem(id, row, fieldsOk));
        ItemOutcome(Now(), id, row, fieldsOk);
      }
      ghost var before := Now();
      ok := CleanAndSaveItem(id, row, fieldsOk);
      if ok {
        SaveItemWrites(before, id, row, fieldsOk);
      }
    }

    // ------------------------------------------------------------------------------------ import

    method FirstByInventory(number: Option<string>) returns (id: Option<nat>)
      requires TablesOk(Now())
      ensures id == FindInventory(Now(), number)
    {
      ghost var spec := FindInventory(Now(), number);
      if number.Some? && exists k :: k in items && items[k].inventory == number {
        var k :| k in items && items[k].inventory == number;
        assert HasInventory(Now(), k, number);
        return Some(k);
      }
      assert forall k :: !HasInventory(Now(), k, number);
      return None;
    }

    method FirstBySerial(serial: Option<string>) returns (id: Option<nat>)
      requires TablesOk(Now())
      ensures id == FindSerial(Now(), serial)
    {
      ghost var spec := FindSerial(Now(), serial);
      if serial.Some? && exists k :: k in items && items[k].serial == serial {
        var k :| k in items && items[k].serial == serial;
        assert HasSerial(Now(), k, serial);
        return Some(k);
      }
      assert forall k :: !HasSerial(Now(), k, serial);
      return None;
    }

    /** One row of the import loop. */
    method ImportOne(row: SheetRow, numbers: set<string>, serials: set<string>, errors: nat, saved: nat)
      returns (numbers': set<string>, serials': set<string>, errors': nat, saved': nat)
      requires TablesOk(Now())
      modifies this`items, this`next
      ensures ImportState(Now(), numbers', serials', errors', saved')
              == ImportRow(ImportState(old(Now()), numbers, serials, errors, saved), row)
      ensures TablesOk(Now())
    {
      hide TablesOk, SaveItem, Cell, Strip;
      numbers', serials', errors', saved' := numbers, serials, errors, saved;
      if row.blank {
        return;
      }
      if Strip(row.designation) == "" || Strip(row.model) == "" {
        errors' := errors + 1;
        return;
      }
      var number, serial := Cell(row.inventory), Cell(row.serial);
      if number.Some? {
        if number.value in numbers {
          errors' := errors + 1;
          return;
        }
        numbers' := numbers + {number.value};
      }
      if serial.Some? {
        if serial.value in serials {
          errors' := errors + 1;
          return;
        }
        serials' := serials + {serial.value};
      }
      if row.details.None? {
        errors' := errors + 1;
        return;
      }
      var byNumber := FirstByInventory(number);
      var bySerial := FirstBySerial(serial);
      if byNumber.Some? && bySerial.Some? && byNumber != bySerial {
        errors' := errors + 1;
        return;
      }
      var target := if byNumber.Some? then byNumber else bySerial;
      ghost var before := Now();
      var ok := CleanAndSaveItem(target, SheetItem(row), row.fieldsOk);
      if ok {
        SaveItemKeepsTables(before, target, SheetItem(row), row.fieldsOk);
        saved' := saved + 1;
      } else {
        errors' := errors + 1;
      }
    }

    /** `storage_inventory_import`: all rows or none. `count` is None when the import is aborted. */
    method ImportRowsOfSheet(rows: seq<SheetRow>) returns (count: Option<nat>)
      requires TablesOk(Now())
      modifies this
      ensures Now() == SerialRuns.Step(old(Now()), Op.Import(rows))
      ensures count == match ImportSheet(old(Now()), rows) case None => None case Some(r) => Some(r.1)
      ensures count.Some? ==> count.value == Filled(rows)
      ensures old(SerialsOk(Now())) ==>
                && SerialsOk(Now()) && TablesOk(Now())
                && (count.Some? <==> Importable(old(Now()), rows))
                && (count.Some? ==> exists ids :: Imported(old(Now()), Now(), rows, ids))
      ensures count.None? ==> Now() == old(Now())
    {
      ghost var before := Now();
      hide SerialsOk, Importable, ImportSheet, Imported;
      SheetOutcome(before, rows);
      var backup := (devices, modules, items, next);
      var numbers: set<string>, serials: set<string>, errors: nat, saved: nat := {}, {}, 0, 0;
      for i := 0 to |rows|
        invariant ImportState(Now(), numbers, serials, errors, saved) == ImportRows(before, rows[..i])
        invariant TablesOk(Now())
      {
        hide ImportRow, TablesOk;
        assert rows[..i + 1][..i] == rows[..i];
        numbers, serials, errors, saved := ImportOne(rows[i], numbers, serials, errors, saved);
      }
      assert rows[..|rows|] == rows;
      if errors > 0 {
        devices, modules, items, next := backup.0, backup.1, backup.2, backup.3;
        return None;
      }
      return Some(saved);
    }

    // ----------------------------------------------------------------------------- decommissioning

    /** `_decommission_source_items`: the device, then its modules in any order, as a lookup. */
    method SourceItems(dev: nat) returns (lookup: map<SourceKey, Source>)
      requires dev in devices
      ensures Lists(lookup, Now(), dev)
    {
      hide Cell, NormalizeSerial, Strip;
      var d := devices[dev];
      lookup := map[DeviceKey(dev) :=
          Source(Cell(OrEmpty(d.serial)), if OrEmpty(d.model) != "" then OrEmpty(d.model) else d.name)];
      var rest := set id | id in modules && modules[id].device == dev;
      while rest != {}
        invariant forall id :: id in rest ==> id in modules && modules[id].device == dev
        invariant forall key :: key in lookup <==>
            SourceOf(Now(), dev, key).Some? && (key.ModuleKey? ==> key.id !in rest)
        invariant forall key :: key in lookup ==> Some(lookup[key]) == SourceOf(Now(), dev, key)
        decreases rest
      {
        var id :| id in rest;
        rest := rest - {id};
        var m := modules[id];
        var descr := Strip(OrEmpty(m.description));
        lookup := lookup[ModuleKey(id) :=
            Source(NormalizeSerial(m.serial), if descr != "" then descr else Strip(m.name))];
      }
    }

    /** One row of the form: check it and prepare its item. */
    method PrepareItem(dev: nat, f: FormRow, lookup: map<SourceKey, Source>, numbers: set<string>, serials: set<string>,
                       failed: bool, pending: seq<(Item, bool)>)
      returns (numbers': set<string>, serials': set<string>, failed': bool, pending': seq<(Item, bool)>)
      requires Lists(lookup, Now(), dev) && dev in devices
      ensures Plan(numbers', serials', failed', pending')
          == PlanRow(Now(), dev, Plan(numbers, serials, failed, pending), f)
    {
      hide SourceOf, Cell, Lists;
      numbers', serials', failed', pending' := numbers, serials, true, pending;
      ListedSource(lookup, Now(), dev, f.key);
      if f.key !in lookup {
        return;
      }
      var source := lookup[f.key];
      if !f.store {
        failed' := failed;
        return;
      }
      if source.model == "" {
        return;
      }
      var number := Cell(f.inventory);
      if number.Some? {
        if number.value in numbers {
          return;
        }
        numbers' := numbers + {number.value};
      }
      if source.serial.Some? {
        if source.serial.value in serials {
          return;
        }
        serials' := serials + {source.serial.value};
      }
      failed' := failed;
      var details := f.details.(site := devices[dev].site);
      pending' := pending + [(Item(number, source.serial, source.model, details), f.fieldsOk)];
    }

    /** The first loop of `_process_decommission_storage`. */
    method PrepareItems(dev: nat, forms: seq<FormRow>, lookup: map<SourceKey, Source>)
        returns (failed: bool, pending: seq<(Item, bool)>)
      requires Lists(lookup, Now(), dev) && dev in devices
      ensures failed == PlanRows(Now(), dev, forms).failed && pending == PlanRows(Now(), dev, forms).pending
    {
      var numbers: set<string>, serials: set<string> := {}, {};
      failed, pending := false, [];
      for i := 0 to |forms|
        invariant Plan(numbers, serials, failed, pending) == PlanRows(Now(), dev, forms[..i])
      {
        hide PlanRow, Lists;
        assert forms[..i + 1][..i] == forms[..i];
        numbers, serials, failed, pending := PrepareItem(dev, forms[i], lookup, numbers, serials, failed, pending);
      }
      assert forms[..|forms|] == forms;
    }

    /** The loop that saves the prepared items. */
    method SavePending(pending: seq<(Item, bool)>) returns (ok: bool)
      modifies this`items, this`next
      ensures ok <==> SaveAll(old(Now()), pending).Some?
      ensures ok ==> SaveAll(old(Now()), pending) == Some(Now())
    {
      ghost var before := Now();
      for i := 0 to |pending|
        invariant SaveAll(before, pending[..i]) == Some(Now())
      {
        hide SaveItem;
        assert pending[..i + 1][..i] == pending[..i];
        var stored := CleanAndSaveItem(None, pending[i].0, pending[i].1);
        if !stored {
          NoSaveStays(before, pending, i + 1);
          return false;
        }
      }
      assert pending[..|pending|] == pending;
      return true;
    }

    /** `_process_decommission_storage`: the number of stored items, or None with everything undone. */
    method ProcessDecommission(dev: nat, forms: seq<FormRow>) returns (count: Option<nat>)
      requires dev in devices
      modifies this
      ensures Now() == SerialRuns.Step(old(Now()), Op.Decommission(dev, forms))
      ensures count == match DecommissionDevice(old(Now()), dev, forms) case None => None case Some(r) => Some(r.1)
      ensures old(SerialsOk(Now()) && TablesOk(Now())) ==>
                && SerialsOk(Now()) && TablesOk(Now())
                && (count.Some? <==> StorableByColumns(old(Now()), dev, forms))
                && (count.Some? ==> Moved(old(Now()), dev, forms, Now(), count.value))
      ensures count.None? ==> Now() == old(Now())
    {
      hide SourceOf, PlanRows, SaveAll, Lists, SerialsOk, TablesOk, StorableByColumns, Moved, StoreRows;
      ghost var before := Now();
      if SerialsOk(before) && TablesOk(before) {
        DecommissionSucceedsByColumns(before, dev, forms);
        if DecommissionDevice(before, dev, forms).Some? {
          DecommissionMovesToStorage(before, dev, forms);
        }
      }
      var lookup := SourceItems(dev);
      var failed, pending := PrepareItems(dev, forms, lookup);
      if failed {
        return None;
      }
      var backup := (devices, modules, items, next);
      devices := devices - {dev};
      modules := map id | id in modules && modules[id].device != dev :: modules[id];
      assert Now() == DropDevice(before, dev);
      var ok := SavePending(pending);
      if !ok {
        devices, modules, items, next := backup.0, backup.1, backup.2, backup.3;
        return None;
      }
      return Some(|pending|);
    }
  }

  lemma SyncOutcome(db: Db, dev: nat, version: Option<string>, inventory: seq<Entry>,
                    transceivers: Option<seq<Transceiver>>)
    requires SerialsOk(db) && TablesOk(db) && !StaleTwin(db, dev, Winners(inventory))
    ensures var after := SyncDevice(db, dev, version, inventory, transceivers);
            && (after.Some? <==> SyncCompletes(db, dev, version, inventory, transceivers))
            && (after.Some? ==>
                  && SerialsOk(after.value) && TablesOk(after.value)
                  && DeviceNamed(db, after.value, dev, version)
                  && BothDone(db, after.value, dev, inventory, transceivers))
  {
    hide SyncDevice, SerialsOk, TablesOk, StaleTwin, Winners, SyncCompletes, DeviceNamed, BothDone;
    SyncSucceedsExactly(db, dev, version, inventory, transceivers);
    if SyncDevice(db, dev, version, inventory, transceivers).Some? {
      SyncKeepsSerials(db, dev, version, inventory, transceivers);
      SyncNamesDevice(db, dev, version, inventory, transceivers);
      SyncTakesBoth(db, dev, version, inventory, transceivers);
    }
  }

  lemma InventoryInSteps(db: Db, dev: nat, entries: seq<Entry>)
    ensures ApplyInventory(db, dev, entries)
            == match ApplyWinners(db, dev, Winners(entries))
               case None => None
               case Some(d) => Some(Sweep(d, dev, Winners(entries), SerialLess(entries)))
  {
  }

  lemma ModuleOutcome(db: Db, id: Option<nat>, row: Module, viaApi: bool)
    requires SerialsOk(db) && TablesOk(db)
    ensures ModuleValid(db, id, row.serial) <==> NumberFree(db, row.serial, ModuleHolder(db, id))
  {
    hide ModuleValid, TablesOk, Clean, Unique, NumberFree;
    ModuleWriteAcceptedExactly(db, id, row, viaApi);
  }

  /** No holder but the row itself has the number, no other item the inventory number. */
  ghost predicate ItemMayBeWritten(db: Db, id: Option<nat>, row: Item, fieldsOk: bool) {
    && fieldsOk && NumberFree(db, row.serial, ItemHolder(db, id))
    && (row.inventory.Some? ==> forall k :: k in db.items && db.items[k].inventory == row.inventory ==> Some(k) == id)
  }

  lemma ItemOutcome(db: Db, id: Option<nat>, row: Item, fieldsOk: bool)
    requires SerialsOk(db) && TablesOk(db)
    ensures ItemValid(db, id, row, fieldsOk) <==> ItemMayBeWritten(db, id, row, fieldsOk)
  {
    hide ItemValid, TablesOk, Clean, Unique, NumberFree;
    ItemWriteAcceptedExactly(db, id, row, fieldsOk);
  }

  lemma SheetOutcome(db: Db, rows: seq<SheetRow>)
    requires TablesOk(db)
    ensures ImportSheet(db, rows)
            == if ImportRows(db, rows).errors > 0 then None
                else Some((ImportRows(db, rows).db, ImportRows(db, rows).saved))
    ensures ImportSheet(db, rows).Some? ==> ImportSheet(db, rows).value.1 == Filled(rows)
    ensures SerialsOk(db) ==>
              && (ImportSheet(db, rows).Some? <==> Importable(db, rows))
              && (ImportSheet(db, rows).Some? ==> exists ids :: Imported(db, ImportSheet(db, rows).value.0, rows, ids))
              && (ImportSheet(db, rows).Some? ==>
                  SerialsOk(ImportSheet(db, rows).value.0) && TablesOk(ImportSheet(db, rows).value.0))
  {
    hide ImportRows, SerialsOk, TablesOk, Importable, Filled, Imported;
    ImportCounts(db, rows);
    if SerialsOk(db) {
      if ImportSheet(db, rows).Some? {
        var ids := ImportStoresRows(db, rows);
      }
      ImportSucceedsExactly(db, rows);
      ImportKeepsSerials(db, rows);
    }
  }

  lemma SeveralRows(db: Db, dev: nat, w: Winner)
    requires |RowIds(db, dev, w)| > 1
    ensures Upsert(db, dev, w).None?
  {
  }

  lemma OneMoreWinner(before: Db, d: Db, dev: nat, found: seq<Winner>, i: nat)
    requires i < |found| && ApplyWinners(before, dev, found[..i]) == Some(d)
    ensures ApplyWinners(before, dev, found[..i + 1])
        == Upsert(Reconcile(d, dev, found[i].name, found[i].serial), dev, found[i])
  {
    hide Upsert, Reconcile;
    assert found[..i + 1][..i] == found[..i];
  }

  // ------------------------------------------------------------------------ failures are final

  lemma {:induction false} NoneStays(db: Db, dev: nat, ws: seq<Winner>, n: nat)
    requires n <= |ws| && ApplyWinners(db, dev, ws[..n]).None?
    ensures ApplyWinners(db, dev, ws).None?
    decreases |ws| - n
  {
    if n < |ws| {
      assert ws[..n + 1][..n] == ws[..n];
      NoneStays(db, dev, ws, n + 1);
    } else {
      assert ws[..n] == ws;
    }
  }

  lemma {:induction false} NoTransceiverStays(db: Db, dev: nat, es: seq<Transceiver>, n: nat)
    requires n <= |es| && ApplyEach(db, dev, es[..n]).None?
    ensures ApplyEach(db, dev, es).None?
    decreases |es| - n
  {
    if n < |es| {
      assert es[..n + 1][..n] == es[..n];
      NoTransceiverStays(db, dev, es, n + 1);
    } else {
      assert es[..n] == es;
    }
  }

  lemma {:induction false} NoSaveStays(db: Db, pending: seq<(Item, bool)>, n: nat)
    requires n <= |pending| && SaveAll(db, pending[..n]).None?
    ensures SaveAll(db, pending).None?
    decreases |pending| - n
  {
    if n < |pending| {
      assert pending[..n + 1][..n] == pending[..n];
      NoSaveStays(db, pending, n + 1);
    } else {
      assert pending[..n] == pending;
    }
  }

  lemma SeenNamesGrow(es: seq<Transceiver>, i: nat)
    requires i < |es|
    ensures SeenNames(es[..i + 1]) == SeenNames(es[..i]) + if Named(es[i]) then {es[i].name.value} else {}
  {
    var longer, shorter := es[..i + 1], es[..i];
    assert longer[i] == es[i] && forall k :: 0 <= k < i ==> longer[k] == shorter[k];
    forall name | name in SeenNames(shorter)
      ensures name in SeenNames(longer)
    {
      var k :| 0 <= k < i && Named(shorter[k]) && shorter[k].name.value == name;
      assert longer[k] == shorter[k];
    }
  }
}
