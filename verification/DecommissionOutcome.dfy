/** When a decommission goes through: a condition on the form and the tables before it, checked here
    against the two loops and the transaction. */
module DecommissionOutcome {
  import opened Options
  import opened Text
  import opened SerialModel
  import opened SerialProtocol
  import opened SerialRuns

  /** What the first loop refuses: the same inventory number or the very same serial number twice. */
  predicate Repeating(a: Item, b: Item) {
    (a.inventory.Some? && a.inventory == b.inventory) || (a.serial.Some? && a.serial == b.serial)
  }

  /** What the second save of two refuses: the same inventory number, or the same valid serial number in
      any case. */
  predicate Taking(a: Item, b: Item) {
    (a.inventory.Some? && a.inventory == b.inventory) || SameKey(a.serial, b.serial)
  }

  // ------------------------------------------------------------------------------- the first loop

  /** A row names a source item, and a STORE row one with a model. */
  predicate RowPlans(db: Db, dev: nat, f: FormRow) {
    SourceOf(db, dev, f.key).Some? && (f.store ==> SourceOf(db, dev, f.key).value.model != "")
  }

  /** The sets of the loop hold the numbers of the prepared items. */
  ghost predicate Tracks(p: Plan) {
    && (forall n :: n in p.numbers <==> ListsInventory(p.pending, n))
    && (forall s :: s in p.serials <==> ListsSerial(p.pending, s))
  }

  ghost predicate ListsInventory(pending: seq<(Item, bool)>, n: string) {
    exists k :: 0 <= k < |pending| && pending[k].0.inventory == Some(n)
  }

  ghost predicate ListsSerial(pending: seq<(Item, bool)>, s: string) {
    exists k :: 0 <= k < |pending| && pending[k].0.serial == Some(s)
  }

  ghost predicate RepeatsEarlier(pending: seq<(Item, bool)>, item: Item) {
    exists k :: 0 <= k < |pending| && Repeating(pending[k].0, item)
  }

  lemma RepeatsAreTracked(p: Plan, item: Item)
    requires Tracks(p)
    ensures RepeatsEarlier(p.pending, item) <==> Repeats(p.numbers, item.inventory) || Repeats(p.serials, item.serial)
  {
    if item.inventory.Some? && ListsInventory(p.pending, item.inventory.value) {
      var k :| 0 <= k < |p.pending| && p.pending[k].0.inventory == item.inventory;
      assert Repeating(p.pending[k].0, item);
    }
    if item.serial.Some? && ListsSerial(p.pending, item.serial.value) {
      var k :| 0 <= k < |p.pending| && p.pending[k].0.serial == item.serial;
      assert Repeating(p.pending[k].0, item);
    }
  }

  lemma TracksMore(p: Plan, entry: (Item, bool))
    requires Tracks(p)
    ensures Tracks(p.(numbers := Noted(p.numbers, entry.0.inventory), serials := Noted(p.serials, entry.0.serial),
                      pending := p.pending + [entry]))
  {
    var all := p.pending + [entry];
    assert all[|p.pending|] == entry && forall k :: 0 <= k < |p.pending| ==> all[k] == p.pending[k];
    forall n
      ensures ListsInventory(all, n) <==> ListsInventory(p.pending, n) || entry.0.inventory == Some(n)
      ensures ListsSerial(all, n) <==> ListsSerial(p.pending, n) || entry.0.serial == Some(n)
    {
      if k :| 0 <= k < |p.pending| && p.pending[k].0.inventory == Some(n) {
        assert all[k].0.inventory == Some(n);
      }
      if k :| 0 <= k < |p.pending| && p.pending[k].0.serial == Some(n) {
        assert all[k].0.serial == Some(n);
      }
    }
  }

  lemma PlanRowExactly(db: Db, dev: nat, p: Plan, f: FormRow)
    requires !p.failed && Tracks(p)
    ensures !PlanRow(db, dev, p, f).failed <==>
              RowPlans(db, dev, f) && (f.store ==> !RepeatsEarlier(p.pending, PlannedItem(db, dev, f)))
    ensures !PlanRow(db, dev, p, f).failed ==> Tracks(PlanRow(db, dev, p, f))
  {
    hide Tracks, SourceOf, Cell, Repeats, Noted, RepeatsEarlier;
    if RowPlans(db, dev, f) && f.store {
      RepeatsAreTracked(p, PlannedItem(db, dev, f));
      TracksMore(p, (PlannedItem(db, dev, f), f.fieldsOk));
    }
  }

  ghost predicate AllPlan(db: Db, dev: nat, forms: seq<FormRow>) {
    forall f :: f in forms ==> RowPlans(db, dev, f)
  }

  ghost predicate NoneRepeats(pending: seq<(Item, bool)>) {
    forall i, j :: 0 <= i < j < |pending| ==> !Repeating(pending[i].0, pending[j].0)
  }

  /** The items of STORE rows in order, as the first loop would prepare them. */
  function Prepared(db: Db, dev: nat, rows: seq<FormRow>): seq<(Item, bool)>
    requires forall f :: f in rows ==> SourceOf(db, dev, f.key).Some?
  {
    seq(|rows|, i requires 0 <= i < |rows| => (PlannedItem(db, dev, rows[i]), rows[i].fieldsOk))
  }

  lemma {:induction false} StoreRowsAreRows(forms: seq<FormRow>)
    ensures forall f :: f in StoreRows(forms) ==> f in forms && f.store
  {
    if forms != [] {
      StoreRowsAreRows(forms[..|forms| - 1]);
    }
  }

  /** The preparation of a form whose rows all have sources. */
  function PreparedForm(db: Db, dev: nat, forms: seq<FormRow>): seq<(Item, bool)>
    requires AllPlan(db, dev, forms)
  {
    StoreRowsAreRows(forms);
    Prepared(db, dev, StoreRows(forms))
  }

  lemma PreparedIsPending(db: Db, dev: nat, forms: seq<FormRow>)
    requires !PlanRows(db, dev, forms).failed && AllPlan(db, dev, forms)
    ensures PlanRows(db, dev, forms).pending == PreparedForm(db, dev, forms)
  {
    hide SourceOf, Cell, PlanRows, PlannedItem;
    PlanListsStoreRows(db, dev, forms);
    StoreRowsAreRows(forms);
    var pending, prepared := PlanRows(db, dev, forms).pending, PreparedForm(db, dev, forms);
    forall i | 0 <= i < |prepared|
      ensures pending[i] == prepared[i]
    {
      assert Plans(db, dev, StoreRows(forms)[i], pending[i]);
    }
  }

  lemma RepeatsLast(pending: seq<(Item, bool)>, entry: (Item, bool))
    ensures NoneRepeats(pending + [entry]) <==> NoneRepeats(pending) && !RepeatsEarlier(pending, entry.0)
  {
    hide Repeating;
    var all := pending + [entry];
    assert all[|pending|] == entry && forall k :: 0 <= k < |pending| ==> all[k] == pending[k];
    if NoneRepeats(all) {
      assert forall k :: 0 <= k < |pending| ==> !Repeating(all[k].0, all[|pending|].0);
    }
  }

  lemma PreparedMore(db: Db, dev: nat, init: seq<FormRow>, f: FormRow)
    requires AllPlan(db, dev, init + [f])
    ensures AllPlan(db, dev, init) && RowPlans(db, dev, f)
    ensures PreparedForm(db, dev, init + [f])
            == PreparedForm(db, dev, init) + if f.store then [(PlannedItem(db, dev, f), f.fieldsOk)] else []
  {
    hide SourceOf, PlannedItem;
    var all := init + [f];
    assert all[..|init|] == init && all[|init|] == f;
    assert forall g :: g in init ==> g in all;
    assert f in all;
    StoreRowsAreRows(init);
    StoreRowsAreRows(all);
  }

  /** The first loop succeeds exactly for rows that plan and do not repeat each other. */
  lemma {:induction false} PlanExactly(db: Db, dev: nat, forms: seq<FormRow>)
    ensures !PlanRows(db, dev, forms).failed <==>
              AllPlan(db, dev, forms) && NoneRepeats(PreparedForm(db, dev, forms))
    ensures !PlanRows(db, dev, forms).failed ==> Tracks(PlanRows(db, dev, forms))
  {
    if forms != [] {
      hide PlanRow, RowPlans, Tracks, NoneRepeats, PreparedForm, RepeatsEarlier;
      var init, f := forms[..|forms| - 1], forms[|forms| - 1];
      assert init + [f] == forms;
      PlanExactly(db, dev, init);
      var p := PlanRows(db, dev, init);
      PlanStep(db, dev, init, f);
    }
  }

  lemma PlanStep(db: Db, dev: nat, init: seq<FormRow>, f: FormRow)
    requires var p := PlanRows(db, dev, init);
             && (!p.failed <==> AllPlan(db, dev, init) && NoneRepeats(PreparedForm(db, dev, init)))
             && (!p.failed ==> Tracks(p))
    ensures var q := PlanRow(db, dev, PlanRows(db, dev, init), f);
            && (!q.failed <==> AllPlan(db, dev, init + [f]) && NoneRepeats(PreparedForm(db, dev, init + [f])))
            && (!q.failed ==> Tracks(q))
  {
    hide PlanRow, Tracks, NoneRepeats, PreparedForm, PlanRows, RepeatsEarlier, RowPlans;
    var p := PlanRows(db, dev, init);
    if !PlanRow(db, dev, p, f).failed {
      PlannedRow(db, dev, p, f);
    }
    assert AllPlan(db, dev, init + [f]) <==> AllPlan(db, dev, init) && RowPlans(db, dev, f) by {
      var all := init + [f];
      assert all[|init|] == f && forall g :: g in all <==> g in init || g == f;
    }
    if AllPlan(db, dev, init + [f]) {
      PreparedMore(db, dev, init, f);
      if f.store {
        RowPlansIsSourced(db, dev, f);
        RepeatsLast(PreparedForm(db, dev, init), (PlannedItem(db, dev, f), f.fieldsOk));
      } else {
        assert PreparedForm(db, dev, init) + [] == PreparedForm(db, dev, init);
      }
    }
    if !p.failed {
      PlanRowExactly(db, dev, p, f);
      PreparedIsPending(db, dev, init);
    }
  }

  lemma RowPlansIsSourced(db: Db, dev: nat, f: FormRow)
    requires RowPlans(db, dev, f)
    ensures SourceOf(db, dev, f.key).Some?
  {
  }

  // ------------------------------------------------------------------------------ the second loop

  ghost predicate AllValid(db: Db, pending: seq<(Item, bool)>) {
    forall i :: 0 <= i < |pending| ==> ItemValid(db, None, pending[i].0, pending[i].1)
  }

  ghost predicate NoneTakes(pending: seq<(Item, bool)>) {
    forall i, j :: 0 <= i < j < |pending| ==> !Taking(pending[i].0, pending[j].0)
  }

  ghost predicate TakesEarlier(pending: seq<(Item, bool)>, item: Item) {
    exists k :: 0 <= k < |pending| && Taking(pending[k].0, item)
  }

  /** Looking up a valid number in a stored column is comparing keys. */
  lemma StoredLookup(v: Option<string>, w: Option<string>)
    requires NormalizeSerial(w).Some?
    ensures IExact(NormalizeSerial(v), NormalizeSerial(w).value) <==> SameKey(v, w)
  {
    hide IExact, Normal, CleanAt, Upper;
    StoredKey(v);
    StoredKey(w);
    NormalizeSerialIdempotent(w);
    hide NormalizeSerial, KeyAt;
    LookupFindsKey(NormalizeSerial(v), NormalizeSerial(w).value);
  }

  lemma ItemsOfAppended(db: Db, d: Db, init: seq<(Item, bool)>, k: nat)
    requires Appended(db, d, init) && k < |init|
    ensures db.next + k in d.items && d.items[db.next + k] == Stored(init[k])
  {
    hide Stored;
    var id := db.next + k;
    assert id - db.next == k;
  }

  /** Validating after some saves is validating before them and not taking what they stored. */
  lemma SerialTakenLater(db: Db, d: Db, init: seq<(Item, bool)>, w: Option<string>)
    requires TablesOk(db) && Appended(db, d, init) && NormalizeSerial(w).Some?
    ensures ItemTaken(d, None, NormalizeSerial(w).value) <==>
              || ItemTaken(db, None, NormalizeSerial(w).value)
              || exists k :: 0 <= k < |init| && SameKey(init[k].0.serial, w)
    ensures ModuleTaken(d, None, NormalizeSerial(w).value) <==> ModuleTaken(db, None, NormalizeSerial(w).value)
  {
    hide IExact, NormalizeSerial, SameKey;
    var s := NormalizeSerial(w).value;
    forall k | 0 <= k < |init|
      ensures IExact(Stored(init[k]).serial, s) <==> SameKey(init[k].0.serial, w)
    {
      StoredLookup(init[k].0.serial, w);
    }
    if id :| id in d.items && IExact(d.items[id].serial, s) {
      if id !in db.items {
        var k: nat := id - db.next;
        assert SameKey(init[k].0.serial, w);
      }
    }
    if k :| 0 <= k < |init| && SameKey(init[k].0.serial, w) {
      ItemsOfAppended(db, d, init, k);
    }
  }

  lemma InventoryTakenLater(db: Db, d: Db, init: seq<(Item, bool)>, n: string)
    requires TablesOk(db) && Appended(db, d, init)
    ensures InventoryTaken(d, None, n) <==> InventoryTaken(db, None, n) || ListsInventory(init, n)
  {
    hide NormalizeSerial;
    if id :| id in d.items && d.items[id].inventory == Some(n) {
      if id !in db.items {
        var k: nat := id - db.next;
        assert init[k].0.inventory == Some(n);
      }
    }
    if k :| 0 <= k < |init| && init[k].0.inventory == Some(n) {
      ItemsOfAppended(db, d, init, k);
    }
  }

  lemma ValidLater(db: Db, d: Db, init: seq<(Item, bool)>, entry: (Item, bool))
    requires TablesOk(db) && Appended(db, d, init)
    ensures ItemValid(d, None, entry.0, entry.1) <==>
              ItemValid(db, None, entry.0, entry.1) && (entry.1 ==> !TakesEarlier(init, entry.0))
  {
    hide NormalizeSerial, KeyAt, ItemTaken, ModuleTaken, InventoryTaken, Appended, TablesOk;
    var item := entry.0;
    StoredKey(item.serial);
    if NormalizeSerial(item.serial).Some? {
      SerialTakenLater(db, d, init, item.serial);
    }
    if item.inventory.Some? {
      InventoryTakenLater(db, d, init, item.inventory.value);
    }
    TakesByNumber(init, item);
  }

  lemma TakesByNumber(init: seq<(Item, bool)>, item: Item)
    ensures TakesEarlier(init, item) <==>
              || (item.inventory.Some? && ListsInventory(init, item.inventory.value))
              || exists k :: 0 <= k < |init| && SameKey(init[k].0.serial, item.serial)
  {
    hide SameKey;
    if item.inventory.Some? && ListsInventory(init, item.inventory.value) {
      var k :| 0 <= k < |init| && init[k].0.inventory == item.inventory;
      assert Taking(init[k].0, item);
    }
    if k :| 0 <= k < |init| && SameKey(init[k].0.serial, item.serial) {
      assert Taking(init[k].0, item);
    }
  }

  lemma TakesLast(db: Db, init: seq<(Item, bool)>, entry: (Item, bool))
    ensures NoneTakes(init + [entry]) <==> NoneTakes(init) && !TakesEarlier(init, entry.0)
    ensures AllValid(db, init + [entry]) <==> AllValid(db, init) && ItemValid(db, None, entry.0, entry.1)
  {
    hide Taking, ItemValid;
    var all := init + [entry];
    assert all[|init|] == entry && forall k :: 0 <= k < |init| ==> all[k] == init[k];
    if NoneTakes(all) {
      assert forall k :: 0 <= k < |init| ==> !Taking(all[k].0, all[|init|].0);
    }
  }

  /** The saves all succeed exactly when each is valid beforehand and none takes an earlier one's number. */
  lemma {:induction false} SaveExactly(db: Db, pending: seq<(Item, bool)>)
    requires SerialsOk(db) && TablesOk(db)
    ensures SaveAll(db, pending).Some? <==> AllValid(db, pending) && NoneTakes(pending)
  {
    if pending != [] {
      hide SerialsOk, TablesOk, ItemValid, NoneTakes, TakesEarlier, AllValid;
      var init, entry := pending[..|pending| - 1], pending[|pending| - 1];
      assert init + [entry] == pending;
      SaveExactly(db, init);
      TakesLast(db, init, entry);
      if SaveAll(db, init).Some? {
        SaveAllAppends(db, init);
        ValidLater(db, SaveAll(db, init).value, init, entry);
      }
      ValidNeedsFields(db, entry);
    }
  }

  lemma ValidNeedsFields(db: Db, entry: (Item, bool))
    ensures ItemValid(db, None, entry.0, entry.1) ==> entry.1
  {
  }

  // -------------------------------------------------------------------------------- both together

  /** What a caller can check beforehand: every row names a source item of the device, every STORE row
      has a model and is valid against the other devices' modules and the storage as it is, and no two
      STORE rows share an inventory number, a serial number, or a valid serial number up to case. */
  ghost predicate Storable(db: Db, dev: nat, forms: seq<FormRow>) {
    && AllPlan(db, dev, forms)
    && var pending := PreparedForm(db, dev, forms);
       NoneRepeats(pending) && AllValid(DropDevice(db, dev), pending) && NoneTakes(pending)
  }

  /** A decommission succeeds exactly for a storable form. */
  lemma DecommissionSucceedsExactly(db: Db, dev: nat, forms: seq<FormRow>)
    requires SerialsOk(db) && TablesOk(db)
    ensures DecommissionDevice(db, dev, forms).Some? <==> Storable(db, dev, forms)
  {
    hide SerialsOk, TablesOk, AllPlan, NoneRepeats, NoneTakes, AllValid, PlanRows, SaveAll, PreparedForm, DropDevice;
    PlanExactly(db, dev, forms);
    if !PlanRows(db, dev, forms).failed {
      PreparedIsPending(db, dev, forms);
      DropKeepsSerials(db, dev);
      SaveExactly(DropDevice(db, dev), PreparedForm(db, dev, forms));
    }
  }

  // ------------------------------------------------------------------------- the condition, by columns

  predicate NamesSource(db: Db, dev: nat, key: SourceKey) {
    match key
    case DeviceKey(id) => id == dev && id in db.devices
    case ModuleKey(id) => id in db.modules && db.modules[id].device == dev
  }

  /** A new item fits: it has a model, its columns are fine, no holder has its number and no item its
      inventory number. */
  ghost predicate FitsStorage(db: Db, item: Item, fieldsOk: bool) {
    && item.model != "" && fieldsOk && NumberFree(db, item.serial, InStorage(db.next))
    && (item.inventory.Some? ==> forall k :: k in db.items ==> db.items[k].inventory != item.inventory)
  }

  ghost predicate RowFitsStorage(db: Db, dev: nat, f: FormRow) {
    exists item :: HoldsForm(item, db, dev, f) && FitsStorage(DropDevice(db, dev), item, f.fieldsOk)
  }

  /** Two items share an inventory number or a valid serial number up to case. */
  predicate ItemsClash(a: Item, b: Item) {
    (a.inventory.Some? && a.inventory == b.inventory) || SameKey(a.serial, b.serial)
  }

  /** Two rows store clashing items, or both store the device itself, which has text in its serial column. */
  ghost predicate RowsClash(db: Db, dev: nat, f: FormRow, g: FormRow) {
    || (exists a, b :: HoldsForm(a, db, dev, f) && HoldsForm(b, db, dev, g) && ItemsClash(a, b))
    || (f.key == g.key == DeviceKey(dev) && dev in db.devices && db.devices[dev].serial.Some?
        && Strip(db.devices[dev].serial.value) != "")
  }

  ghost predicate NoRowsClash(db: Db, dev: nat, forms: seq<FormRow>) {
    forall i, j :: 0 <= i < j < |forms| && forms[i].store && forms[j].store ==> !RowsClash(db, dev, forms[i], forms[j])
  }

  /** Every row names the device or one of its modules, every STORE row puts an item into storage that fits,
      and no two STORE rows clash. */
  ghost predicate StorableByColumns(db: Db, dev: nat, forms: seq<FormRow>) {
    && (forall f :: f in forms ==> NamesSource(db, dev, f.key))
    && (forall f :: f in forms && f.store ==> RowFitsStorage(db, dev, f))
    && NoRowsClash(db, dev, forms)
  }

  lemma SourceIsNamed(db: Db, dev: nat, key: SourceKey)
    ensures SourceOf(db, dev, key).Some? <==> NamesSource(db, dev, key)
  {
    hide Cell, NormalizeSerial, Strip;
  }

  /** All items that hold a row agree with the planned one, up to normalising the number. */
  lemma HeldItem(db: Db, dev: nat, f: FormRow, item: Item)
    requires SourceOf(db, dev, f.key).Some? && HoldsForm(item, db, dev, f)
    ensures var planned := PlannedItem(db, dev, f);
            item.inventory == planned.inventory && item.model == planned.model
            && item.serial == NormalizeSerial(planned.serial)
  {
    StoredItemHoldsForm(db, dev, f);
    hide Strip, NormalizeSerial, SourceOf, Cell;
    var stored := StoredItem(db, dev, f);
    assert item.inventory == stored.inventory && item.model == stored.model && item.serial == stored.serial;
  }

  lemma RowFitsExactly(db: Db, dev: nat, f: FormRow)
    requires SerialsOk(db) && TablesOk(db) && SourceOf(db, dev, f.key).Some?
    ensures RowFitsStorage(db, dev, f) <==>
              && SourceOf(db, dev, f.key).value.model != ""
              && ItemValid(DropDevice(db, dev), None, PlannedItem(db, dev, f), f.fieldsOk)
  {
    var rest, planned, stored := DropDevice(db, dev), PlannedItem(db, dev, f), StoredItem(db, dev, f);
    DropKeepsSerials(db, dev);
    hide SerialsOk, TablesOk, SourceOf, NormalizeSerial, DropDevice, HoldsForm, NumberFree, ItemValid, Cell, Clean;
    assert Clean(rest) by { CleanOf(rest); }
    ItemWriteAcceptedExactly(rest, None, planned, f.fieldsOk);
    StoredItemHoldsForm(db, dev, f);
    HeldItem(db, dev, f, stored);
    SameNumberFree(rest, planned.serial, InStorage(rest.next));
    forall item | HoldsForm(item, db, dev, f)
      ensures FitsStorage(rest, item, f.fieldsOk) <==> FitsStorage(rest, stored, f.fieldsOk)
    {
      HeldItem(db, dev, f, item);
    }
  }

  lemma CleanOf(db: Db)
    requires SerialsOk(db)
    ensures Clean(db)
  {
  }

  lemma SameNumberFree(db: Db, v: Option<string>, mine: Holder)
    ensures NumberFree(db, v, mine) <==> NumberFree(db, NormalizeSerial(v), mine)
  {
    hide NormalizeSerial, KeyAt;
    StoredKey(v);
  }

  lemma NormalKeyOf(v: Option<string>)
    ensures NormalizeSerial(v).Some? ==> SameKey(v, v) && SameKey(v, NormalizeSerial(v))
  {
    NormalizeSerialIdempotent(v);
  }

  /** The items of two rows clash exactly when the planned ones do. */
  lemma HeldItemsClash(db: Db, dev: nat, f: FormRow, g: FormRow)
    requires SourceOf(db, dev, f.key).Some? && SourceOf(db, dev, g.key).Some?
    ensures (exists a, b :: HoldsForm(a, db, dev, f) && HoldsForm(b, db, dev, g) && ItemsClash(a, b)) <==>
              Taking(PlannedItem(db, dev, f), PlannedItem(db, dev, g))
  {
    hide SourceOf, NormalizeSerial, HoldsForm, Cell, KeyAt, PlannedItem, StoredItem;
    var a, b := PlannedItem(db, dev, f), PlannedItem(db, dev, g);
    StoredKey(a.serial);
    StoredKey(b.serial);
    StoredItemHoldsForm(db, dev, f);
    StoredItemHoldsForm(db, dev, g);
    HeldItem(db, dev, f, StoredItem(db, dev, f));
    HeldItem(db, dev, g, StoredItem(db, dev, g));
    assert ItemsClash(StoredItem(db, dev, f), StoredItem(db, dev, g)) <==> Taking(a, b);
    if x, y :| HoldsForm(x, db, dev, f) && HoldsForm(y, db, dev, g) && ItemsClash(x, y) {
      HeldItem(db, dev, f, x);
      HeldItem(db, dev, g, y);
    }
  }

  /** The loop's two ways to refuse a second row, together, are the clash of the rows. */
  lemma RowsClashExactly(db: Db, dev: nat, f: FormRow, g: FormRow)
    requires SourceOf(db, dev, f.key).Some? && SourceOf(db, dev, g.key).Some?
    ensures RowsClash(db, dev, f, g) <==>
              || Repeating(PlannedItem(db, dev, f), PlannedItem(db, dev, g))
              || Taking(PlannedItem(db, dev, f), PlannedItem(db, dev, g))
  {
    hide SourceOf, HoldsForm, Cell, KeyAt, ItemsClash, Strip;
    SameSourceText(db, dev, f, g);
    HeldItemsClash(db, dev, f, g);
  }

  /** Sources with the same text have the same valid number, or are the device itself. */
  lemma SameSourceText(db: Db, dev: nat, f: FormRow, g: FormRow)
    requires SourceOf(db, dev, f.key).Some? && SourceOf(db, dev, g.key).Some?
    ensures var s, t := SourceOf(db, dev, f.key).value.serial, SourceOf(db, dev, g.key).value.serial;
            var twice := f.key == g.key == DeviceKey(dev) && dev in db.devices && db.devices[dev].serial.Some?
                         && Strip(db.devices[dev].serial.value) != "";
            && (s.Some? && s == t ==> SameKey(s, t) || twice)
            && (twice ==> s.Some? && s == t)
  {
    hide NormalizeSerial, Strip, KeyAt;
    StripTrims("");
    var s, t := SourceOf(db, dev, f.key).value.serial, SourceOf(db, dev, g.key).value.serial;
    if f.key.ModuleKey? {
      NormalizeSerialIdempotent(db.modules[f.key.id].serial);
      NormalKeyOf(s);
    }
    if g.key.ModuleKey? {
      NormalizeSerialIdempotent(db.modules[g.key.id].serial);
      NormalKeyOf(t);
    }
  }

  lemma PairOfForm(db: Db, dev: nat, forms: seq<FormRow>, picks: seq<nat>, k: nat, l: nat)
    requires AllPlan(db, dev, forms) && k < l < |picks| == |StoreRows(forms)|
    requires forall n :: 0 <= n < |picks| ==> picks[n] < |forms| && StoreRows(forms)[n] == forms[picks[n]]
    ensures var pending := PreparedForm(db, dev, forms);
            RowsClash(db, dev, forms[picks[k]], forms[picks[l]]) <==>
              Repeating(pending[k].0, pending[l].0) || Taking(pending[k].0, pending[l].0)
  {
    StoreRowsAreRows(forms);
    assert forms[picks[k]] in forms && forms[picks[l]] in forms;
    hide SourceOf, PlannedItem, RowsClash, Repeating, Taking, StoreRows;
    RowsClashExactly(db, dev, forms[picks[k]], forms[picks[l]]);
  }

  /** The prepared items of a form clash pairwise as its STORE rows do. */
  ghost predicate SamePairs(db: Db, dev: nat, forms: seq<FormRow>, picks: seq<nat>, pending: seq<(Item, bool)>)
    requires Picks(forms, picks) && |pending| == |picks|
  {
    forall k, l :: 0 <= k < l < |picks| ==>
      (RowsClash(db, dev, forms[picks[k]], forms[picks[l]]) <==>
         Repeating(pending[k].0, pending[l].0) || Taking(pending[k].0, pending[l].0))
  }

  lemma PairsByPicks(db: Db, dev: nat, forms: seq<FormRow>, picks: seq<nat>, pending: seq<(Item, bool)>)
    requires Picks(forms, picks) && |pending| == |picks| && SamePairs(db, dev, forms, picks, pending)
    ensures NoneRepeats(pending) && NoneTakes(pending) <==> NoRowsClash(db, dev, forms)
  {
    hide RowsClash, Repeating, Taking;
    if NoneRepeats(pending) && NoneTakes(pending) {
      forall i, j | 0 <= i < j < |forms| && forms[i].store && forms[j].store
        ensures !RowsClash(db, dev, forms[i], forms[j])
      {
        assert i in picks && j in picks;
        var k :| 0 <= k < |picks| && picks[k] == i;
        var l :| 0 <= l < |picks| && picks[l] == j;
        assert k < l;
      }
    }
    if NoRowsClash(db, dev, forms) {
      forall k, l | 0 <= k < l < |pending|
        ensures !Repeating(pending[k].0, pending[l].0) && !Taking(pending[k].0, pending[l].0)
      {
        assert !RowsClash(db, dev, forms[picks[k]], forms[picks[l]]);
      }
    }
  }

  /** The STORE rows pairwise, by their places in the form. */
  lemma PairsOfForm(db: Db, dev: nat, forms: seq<FormRow>)
    requires AllPlan(db, dev, forms)
    ensures NoneRepeats(PreparedForm(db, dev, forms)) && NoneTakes(PreparedForm(db, dev, forms)) <==>
              NoRowsClash(db, dev, forms)
  {
    var pending := PreparedForm(db, dev, forms);
    StoreRowsAreRows(forms);
    var picks := StoreRowsArePicked(forms);
    assert |pending| == |picks|;
    hide RowsClash, Repeating, Taking, AllPlan, PreparedForm, Prepared, StoreRows, NoneRepeats, NoneTakes, NoRowsClash;
    assert SamePairs(db, dev, forms, picks, pending) by {
      forall k, l | 0 <= k < l < |picks|
        ensures RowsClash(db, dev, forms[picks[k]], forms[picks[l]]) <==>
                  Repeating(pending[k].0, pending[l].0) || Taking(pending[k].0, pending[l].0)
      {
        PairOfForm(db, dev, forms, picks, k, l);
      }
    }
    PairsByPicks(db, dev, forms, picks, pending);
  }

  lemma AllFit(db: Db, dev: nat, forms: seq<FormRow>)
    requires SerialsOk(db) && TablesOk(db)
    ensures (forall f :: f in forms ==> NamesSource(db, dev, f.key))
            && (forall f :: f in forms && f.store ==> RowFitsStorage(db, dev, f))
            <==> AllPlan(db, dev, forms) && AllValid(DropDevice(db, dev), PreparedForm(db, dev, forms))
  {
    hide SerialsOk, TablesOk, SourceOf, RowFitsStorage, ItemValid, PlannedItem, DropDevice, NamesSource;
    StoreRowsAreRows(forms);
    forall f | f in forms
      ensures SourceOf(db, dev, f.key).Some? <==> NamesSource(db, dev, f.key)
      ensures SourceOf(db, dev, f.key).Some? ==>
                (RowFitsStorage(db, dev, f) <==>
                   && SourceOf(db, dev, f.key).value.model != ""
                   && ItemValid(DropDevice(db, dev), None, PlannedItem(db, dev, f), f.fieldsOk))
    {
      SourceIsNamed(db, dev, f.key);
      if SourceOf(db, dev, f.key).Some? {
        RowFitsExactly(db, dev, f);
      }
    }
    var rows := StoreRows(forms);
    if AllPlan(db, dev, forms) {
      var pending := PreparedForm(db, dev, forms);
      if AllValid(DropDevice(db, dev), pending) {
        forall f | f in forms && f.store
          ensures RowFitsStorage(db, dev, f)
        {
          EveryStoreRowIsPicked(forms, f);
          var k :| 0 <= k < |rows| && rows[k] == f;
          assert pending[k].0 == PlannedItem(db, dev, f);
        }
      }
      if forall f :: f in forms && f.store ==> RowFitsStorage(db, dev, f) {
        forall k | 0 <= k < |pending|
          ensures ItemValid(DropDevice(db, dev), None, pending[k].0, pending[k].1)
        {
          assert rows[k] in forms && rows[k].store;
        }
      }
    }
  }

  lemma EveryStoreRowIsPicked(forms: seq<FormRow>, f: FormRow)
    requires f in forms && f.store
    ensures f in StoreRows(forms)
  {
    var picks := StoreRowsArePicked(forms);
    var i :| 0 <= i < |forms| && forms[i] == f;
    var k :| 0 <= k < |picks| && picks[k] == i;
    assert StoreRows(forms)[k] == f;
  }

  /** A decommission succeeds exactly under the condition on the columns of the form and of the tables. */
  lemma DecommissionSucceedsByColumns(db: Db, dev: nat, forms: seq<FormRow>)
    requires SerialsOk(db) && TablesOk(db)
    ensures DecommissionDevice(db, dev, forms).Some? <==> StorableByColumns(db, dev, forms)
  {
    hide SerialsOk, TablesOk, AllPlan, NoneRepeats, NoneTakes, AllValid, PreparedForm, DropDevice, DecommissionDevice,
        NamesSource, RowFitsStorage, RowsClash;
    DecommissionSucceedsExactly(db, dev, forms);
    AllFit(db, dev, forms);
    if AllPlan(db, dev, forms) {
      PairsOfForm(db, dev, forms);
    }
  }
}
