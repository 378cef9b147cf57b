/** When a spreadsheet import goes through: a condition on the sheet and the tables before it, although
    each row is looked up and validated against what the rows before it stored. */
module ImportOutcome {
  import opened Options
  import opened Text
  import opened SerialModel
  import opened SerialProtocol
  import opened SerialRuns
  import opened DecommissionOutcome

  /** The tables without the items that earlier rows overwrote. */
  function Left(db: Db, gone: set<nat>): Db {
    db.(items := db.items - gone)
  }

  /** The stored item that a row is about: by its inventory number, else by its serial number. */
  ghost function RowTarget(db: Db, row: SheetRow): Option<nat> {
    var a, b := FindInventory(db, Cell(row.inventory)), FindSerial(db, Cell(row.serial));
    if a.Some? then a else b
  }

  /** The stored items that the rows overwrite, in order. */
  ghost function Overwritten(db: Db, rows: seq<SheetRow>): set<nat> {
    if rows == [] then {} else
    var gone, row := Overwritten(db, rows[..|rows| - 1]), rows[|rows| - 1];
    var target := RowTarget(Left(db, gone), row);
    if row.blank || target.None? then gone else gone + {target.value}
  }

  /** Inventory and serial number do not lead to different items. */
  ghost predicate OneTarget(db: Db, row: SheetRow) {
    var a, b := FindInventory(db, Cell(row.inventory)), FindSerial(db, Cell(row.serial));
    a.Some? && b.Some? ==> a == b
  }

  /** The valid serial number of a row is in no module and in no item but the row's own. */
  ghost predicate SerialFree(db: Db, row: SheetRow) {
    var s := NormalizeSerial(Cell(row.serial));
    s.Some? ==> !ModuleTaken(db, None, s.value) && !ItemTaken(db, RowTarget(db, row), s.value)
  }

  /** The row by itself: its cells are filled and resolve, and it fits the items left. */
  ghost predicate RowFits(db: Db, row: SheetRow) {
    && Strip(row.designation) != "" && Strip(row.model) != "" && row.details.Some? && row.fieldsOk
    && OneTarget(db, row) && SerialFree(db, row)
  }

  /** Two rows share an inventory number, a serial number, or a valid serial number up to case. */
  predicate RowsClash(f: SheetRow, g: SheetRow) {
    || (Cell(f.inventory).Some? && Cell(f.inventory) == Cell(g.inventory))
    || (Cell(f.serial).Some? && Cell(f.serial) == Cell(g.serial))
    || SameKey(Cell(f.serial), Cell(g.serial))
  }

  ghost predicate ClashesEarlier(rows: seq<SheetRow>, row: SheetRow) {
    exists i :: 0 <= i < |rows| && !rows[i].blank && RowsClash(rows[i], row)
  }

  /** What can be checked beforehand: each filled row fits the items that no earlier row overwrites, and
      no two filled rows clash. */
  ghost predicate Importable(db: Db, rows: seq<SheetRow>) {
    forall i :: 0 <= i < |rows| && !rows[i].blank ==>
      RowFits(Left(db, Overwritten(db, rows[..i])), rows[i]) && !ClashesEarlier(rows[..i], rows[i])
  }

  // ------------------------------------------------------------------------- the state after some rows

  /** The sets of the loop hold the numbers of the filled rows. */
  ghost predicate Remembers(st: ImportState, rows: seq<SheetRow>) {
    && (forall n :: n in st.numbers <==> InventoryListed(rows, n))
    && (forall s :: s in st.serials <==> SerialListed(rows, s))
  }

  ghost predicate InventoryListed(rows: seq<SheetRow>, n: string) {
    exists i :: 0 <= i < |rows| && !rows[i].blank && Cell(rows[i].inventory) == Some(n)
  }

  ghost predicate SerialListed(rows: seq<SheetRow>, s: string) {
    exists i :: 0 <= i < |rows| && !rows[i].blank && Cell(rows[i].serial) == Some(s)
  }

  /** The overwritten items are those that rows went to. */
  ghost predicate GoneAreTargets(db: Db, rows: seq<SheetRow>, ids: seq<nat>) {
    forall id :: id in db.items ==> (id in Overwritten(db, rows) <==> Target(rows, ids, id))
  }

  ghost predicate Reached(db: Db, st: ImportState, rows: seq<SheetRow>, ids: seq<nat>) {
    && TablesOk(st.db) && Placed(st.db, rows, ids) && OnlyRows(db, st.db, rows, ids)
    && Remembers(st, rows) && GoneAreTargets(db, rows, ids)
  }

  lemma ReachedTables(db: Db, st: ImportState, rows: seq<SheetRow>, ids: seq<nat>)
    requires Reached(db, st, rows, ids)
    ensures TablesOk(st.db) && Remembers(st, rows) && GoneAreTargets(db, rows, ids)
    ensures forall id :: id in db.items ==> id < st.db.next
  {
    hide Remembers, GoneAreTargets, Placed;
  }

  lemma RepeatsAreListed(st: ImportState, rows: seq<SheetRow>, row: SheetRow)
    requires Remembers(st, rows)
    ensures Repeats(st.numbers, Cell(row.inventory)) || Repeats(st.serials, Cell(row.serial)) ==>
        ClashesEarlier(rows, row)
    ensures ClashesEarlier(rows, row) <==>
              || Repeats(st.numbers, Cell(row.inventory)) || Repeats(st.serials, Cell(row.serial))
              || KeyListed(rows, row)
  {
    hide Cell, KeyAt;
    if Repeats(st.numbers, Cell(row.inventory)) {
      var i :| 0 <= i < |rows| && !rows[i].blank && Cell(rows[i].inventory) == Cell(row.inventory);
      assert RowsClash(rows[i], row);
    }
    if Repeats(st.serials, Cell(row.serial)) {
      var i :| 0 <= i < |rows| && !rows[i].blank && Cell(rows[i].serial) == Cell(row.serial);
      assert RowsClash(rows[i], row);
    }
    if i :| 0 <= i < |rows| && !rows[i].blank && SameKey(Cell(rows[i].serial), Cell(row.serial)) {
      assert RowsClash(rows[i], row);
    }
  }

  ghost predicate KeyListed(rows: seq<SheetRow>, row: SheetRow) {
    exists i :: 0 <= i < |rows| && !rows[i].blank && SameKey(Cell(rows[i].serial), Cell(row.serial))
  }

  lemma RemembersMore(st: ImportState, rows: seq<SheetRow>, row: SheetRow)
    requires Remembers(st, rows) && (row.blank || ImportRow(st, row).errors == 0)
    ensures Remembers(ImportRow(st, row), rows + [row])
  {
    hide Cell, Strip, SaveItem, Repeats, ImportRow;
    var all := rows + [row];
    assert all[|rows|] == row && forall k :: 0 <= k < |rows| ==> all[k] == rows[k];
    if row.blank {
      BlankChangesNothing(st, row);
    } else {
      RowIsSaved(st, row);
    }
    forall n
      ensures InventoryListed(all, n) <==> InventoryListed(rows, n) || (!row.blank && Cell(row.inventory) == Some(n))
      ensures SerialListed(all, n) <==> SerialListed(rows, n) || (!row.blank && Cell(row.serial) == Some(n))
    {
      ListedMore(rows, row, n);
    }
  }

  lemma BlankChangesNothing(st: ImportState, row: SheetRow)
    requires row.blank
    ensures ImportRow(st, row) == st
  {
  }

  lemma ListedMore(rows: seq<SheetRow>, row: SheetRow, n: string)
    ensures InventoryListed(rows + [row], n) <==>
        InventoryListed(rows, n) || (!row.blank && Cell(row.inventory) == Some(n))
    ensures SerialListed(rows + [row], n) <==> SerialListed(rows, n) || (!row.blank && Cell(row.serial) == Some(n))
  {
    hide Cell;
    var all := rows + [row];
    assert all[|rows|] == row;
    if i :| 0 <= i < |rows| && !rows[i].blank && Cell(rows[i].inventory) == Some(n) {
      assert all[i] == rows[i];
    }
    if i :| 0 <= i < |rows| && !rows[i].blank && Cell(rows[i].serial) == Some(n) {
      assert all[i] == rows[i];
    }
  }

  // --------------------------------------------------------------------------------- looking up a row

  /** An item that some row went to holds that row's data. */
  lemma TargetHolds(db: Db, st: ImportState, rows: seq<SheetRow>, ids: seq<nat>, id: nat) returns (i: nat)
    requires Reached(db, st, rows, ids) && Target(rows, ids, id)
    ensures i < |rows| && !rows[i].blank && ids[i] == id && PlacedAt(st.db, rows[i], id)
  {
    hide TablesOk, OnlyRows, Remembers, GoneAreTargets, PlacedAt;
    i :| 0 <= i < |rows| && i < |ids| && !rows[i].blank && ids[i] == id;
  }

  lemma LeftIsUntouched(db: Db, st: ImportState, rows: seq<SheetRow>, ids: seq<nat>, id: nat)
    requires Reached(db, st, rows, ids) && !Target(rows, ids, id)
    ensures id in st.db.items <==> id in Left(db, Overwritten(db, rows)).items
    ensures id in st.db.items ==> st.db.items[id] == Left(db, Overwritten(db, rows)).items[id]
  {
    hide TablesOk, Placed, Remembers, Target;
  }

  lemma GoneIsNotLeft(db: Db, st: ImportState, rows: seq<SheetRow>, ids: seq<nat>, id: nat)
    requires Reached(db, st, rows, ids) && Target(rows, ids, id)
    ensures id !in Left(db, Overwritten(db, rows)).items
  {
    hide TablesOk, Placed, Remembers, OnlyRows, Target;
  }

  lemma SameLookup(db: Db, st: ImportState, rows: seq<SheetRow>, ids: seq<nat>, row: SheetRow, id: nat)
    requires Reached(db, st, rows, ids)
    requires !Repeats(st.numbers, Cell(row.inventory)) && !Repeats(st.serials, Cell(row.serial))
    ensures HasInventory(st.db, id, Cell(row.inventory)) <==>
              HasInventory(Left(db, Overwritten(db, rows)), id, Cell(row.inventory))
    ensures HasSerial(st.db, id, Cell(row.serial)) <==> HasSerial(Left(db, Overwritten(db, rows)), id, Cell(row.serial))
  {
    hide Cell, NormalizeSerial, Overwritten, Left, Reached, Target;
    if Target(rows, ids, id) {
      var i := TargetHolds(db, st, rows, ids, id);
      GoneIsNotLeft(db, st, rows, ids, id);
      CellIsStripped(rows[i].serial);
      RememberedRow(db, st, rows, ids, i);
    } else {
      LeftIsUntouched(db, st, rows, ids, id);
    }
  }

  lemma RememberedRow(db: Db, st: ImportState, rows: seq<SheetRow>, ids: seq<nat>, i: nat)
    requires Reached(db, st, rows, ids) && i < |rows| && !rows[i].blank
    ensures Cell(rows[i].inventory).Some? ==> Repeats(st.numbers, Cell(rows[i].inventory))
    ensures Cell(rows[i].serial).Some? ==> Repeats(st.serials, Cell(rows[i].serial))
  {
    hide Cell, TablesOk, Placed, OnlyRows, GoneAreTargets;
  }

  /** Where numbers are unique, lookups that find the same rows have the same result. */
  lemma SameFind(a: Db, b: Db, row: SheetRow)
    requires TablesOk(a)
    requires forall id :: HasInventory(a, id, Cell(row.inventory)) <==> HasInventory(b, id, Cell(row.inventory))
    requires forall id :: HasSerial(a, id, Cell(row.serial)) <==> HasSerial(b, id, Cell(row.serial))
    ensures FindInventory(a, Cell(row.inventory)) == FindInventory(b, Cell(row.inventory))
    ensures FindSerial(a, Cell(row.serial)) == FindSerial(b, Cell(row.serial))
  {
    hide Cell, FindInventory, FindSerial;
  }

  lemma SameLookups(db: Db, st: ImportState, rows: seq<SheetRow>, ids: seq<nat>, row: SheetRow)
    requires Reached(db, st, rows, ids)
    requires !Repeats(st.numbers, Cell(row.inventory)) && !Repeats(st.serials, Cell(row.serial))
    ensures var left := Left(db, Overwritten(db, rows));
            && (forall id :: HasInventory(st.db, id, Cell(row.inventory)) <==>
                HasInventory(left, id, Cell(row.inventory)))
            && (forall id :: HasSerial(st.db, id, Cell(row.serial)) <==> HasSerial(left, id, Cell(row.serial)))
  {
    hide Reached, HasInventory, HasSerial, Cell, Overwritten, Left, Repeats;
    var left := Left(db, Overwritten(db, rows));
    forall id
      ensures HasInventory(st.db, id, Cell(row.inventory)) <==> HasInventory(left, id, Cell(row.inventory))
      ensures HasSerial(st.db, id, Cell(row.serial)) <==> HasSerial(left, id, Cell(row.serial))
    {
      SameLookup(db, st, rows, ids, row, id);
    }
  }

  lemma SameFindings(a: Db, b: Db, row: SheetRow)
    requires FindInventory(a, Cell(row.inventory)) == FindInventory(b, Cell(row.inventory))
    requires FindSerial(a, Cell(row.serial)) == FindSerial(b, Cell(row.serial))
    ensures RowTarget(a, row) == RowTarget(b, row) && (OneTarget(a, row) <==> OneTarget(b, row))
  {
    hide FindInventory, FindSerial, HasInventory, HasSerial, Cell;
  }

  lemma SameTarget(db: Db, st: ImportState, rows: seq<SheetRow>, ids: seq<nat>, row: SheetRow)
    requires Reached(db, st, rows, ids)
    requires !Repeats(st.numbers, Cell(row.inventory)) && !Repeats(st.serials, Cell(row.serial))
    ensures var left := Left(db, Overwritten(db, rows));
            RowTarget(st.db, row) == RowTarget(left, row) && (OneTarget(st.db, row) <==> OneTarget(left, row))
  {
    hide *;
    var left := Left(db, Overwritten(db, rows));
    ReachedTables(db, st, rows, ids);
    SameLookups(db, st, rows, ids, row);
    SameFind(st.db, left, row);
    SameFindings(st.db, left, row);
  }

  // -------------------------------------------------------------------------------- validating a row

  /** The inventory number of a row is never taken by another item: the row would be about that item. */
  lemma InventoryIsFree(db: Db, row: SheetRow)
    requires TablesOk(db)
    ensures Cell(row.inventory).Some? ==> !InventoryTaken(db, RowTarget(db, row), Cell(row.inventory).value)
  {
    hide Cell, FindSerial;
    var number := Cell(row.inventory);
    forall id | number.Some? && id in db.items && db.items[id].inventory == number
      ensures Some(id) == RowTarget(db, row)
    {
      assert HasInventory(db, id, number);
    }
  }

  /** An earlier row's item is not the one this row is about. */
  lemma EarlierIsOther(db: Db, st: ImportState, rows: seq<SheetRow>, ids: seq<nat>, row: SheetRow, i: nat)
    requires Reached(db, st, rows, ids) && i < |rows| && !rows[i].blank && i < |ids|
    requires !Repeats(st.numbers, Cell(row.inventory)) && !Repeats(st.serials, Cell(row.serial))
    ensures Some(ids[i]) != RowTarget(st.db, row)
  {
    hide Cell, TablesOk, OnlyRows, GoneAreTargets, HasInventory, HasSerial, Placed, Repeats;
    RememberedIsSeen(st, rows);
    var target := RowTarget(st.db, row);
    if target.Some? {
      FreshTarget(st, rows, ids, row, target.value, i);
    }
  }

  lemma RememberedIsSeen(st: ImportState, rows: seq<SheetRow>)
    requires Remembers(st, rows)
    ensures SeenAll(st, rows)
  {
    hide Cell;
  }

  lemma SerialTakenBy(db: Db, st: ImportState, rows: seq<SheetRow>, ids: seq<nat>, row: SheetRow)
    requires Reached(db, st, rows, ids) && NormalizeSerial(Cell(row.serial)).Some?
    requires !Repeats(st.numbers, Cell(row.inventory)) && !Repeats(st.serials, Cell(row.serial))
    ensures var left, s := Left(db, Overwritten(db, rows)), NormalizeSerial(Cell(row.serial)).value;
            ItemTaken(st.db, RowTarget(st.db, row), s) <==>
                ItemTaken(left, RowTarget(left, row), s) || KeyListed(rows, row)
  {
    hide Cell, NormalizeSerial, KeyAt, IExact, Overwritten, Left, RowTarget, Reached, SameKey, Repeats, Target;
    var left, s := Left(db, Overwritten(db, rows)), NormalizeSerial(Cell(row.serial)).value;
    var target := RowTarget(st.db, row);
    SameTarget(db, st, rows, ids, row);
    if id :| id in st.db.items && Some(id) != target && IExact(st.db.items[id].serial, s) {
      if Target(rows, ids, id) {
        var i := TargetHolds(db, st, rows, ids, id);
        StoredLookup(Cell(rows[i].serial), Cell(row.serial));
      } else {
        LeftIsUntouched(db, st, rows, ids, id);
      }
    }
    if id :| id in left.items && Some(id) != target && IExact(left.items[id].serial, s) {
      if Target(rows, ids, id) {
        GoneIsNotLeft(db, st, rows, ids, id);
        assert false;
      }
      LeftIsUntouched(db, st, rows, ids, id);
    }
    if i :| 0 <= i < |rows| && !rows[i].blank && SameKey(Cell(rows[i].serial), Cell(row.serial)) {
      StoredLookup(Cell(rows[i].serial), Cell(row.serial));
      RowIsPlaced(db, st, rows, ids, i);
      EarlierIsOther(db, st, rows, ids, row, i);
    }
  }

  lemma RowIsPlaced(db: Db, st: ImportState, rows: seq<SheetRow>, ids: seq<nat>, i: nat)
    requires Reached(db, st, rows, ids) && i < |rows| && !rows[i].blank
    ensures i < |ids| && PlacedAt(st.db, rows[i], ids[i])
  {
    hide TablesOk, OnlyRows, Remembers, GoneAreTargets, PlacedAt;
  }

  lemma SerialFreeLater(db: Db, st: ImportState, rows: seq<SheetRow>, ids: seq<nat>, row: SheetRow)
    requires Reached(db, st, rows, ids)
    requires !Repeats(st.numbers, Cell(row.inventory)) && !Repeats(st.serials, Cell(row.serial))
    ensures SerialFree(st.db, row) <==> SerialFree(Left(db, Overwritten(db, rows)), row) && !KeyListed(rows, row)
  {
    assert st.db.modules == db.modules;
    hide Cell, NormalizeSerial, IExact, Overwritten, RowTarget, Reached, ItemTaken, Repeats;
    var s := NormalizeSerial(Cell(row.serial));
    if s.Some? {
      SerialTakenBy(db, st, rows, ids, row);
      assert ModuleTaken(st.db, None, s.value) <==> ModuleTaken(Left(db, Overwritten(db, rows)), None, s.value);
    } else {
      NoKeyListed(rows, row);
    }
  }

  lemma NoKeyListed(rows: seq<SheetRow>, row: SheetRow)
    requires NormalizeSerial(Cell(row.serial)).None?
    ensures !KeyListed(rows, row)
  {
    hide Cell, NormalizeSerial;
  }

  lemma RowIsValid(db: Db, row: SheetRow)
    requires TablesOk(db) && row.details.Some?
    ensures ItemValid(db, RowTarget(db, row), SheetItem(row), row.fieldsOk) <==> row.fieldsOk && SerialFree(db, row)
  {
    hide Cell, NormalizeSerial, ModuleTaken, ItemTaken, InventoryTaken, TablesOk, RowTarget, Strip;
    InventoryIsFree(db, row);
  }

  /** One row passes exactly when it fits what the loop has at its turn. */
  lemma RowPasses(st: ImportState, row: SheetRow)
    requires st.errors == 0 && TablesOk(st.db) && !row.blank
    ensures ImportRow(st, row).errors == 0 <==>
              && RowFits(st.db, row)
              && !Repeats(st.numbers, Cell(row.inventory)) && !Repeats(st.serials, Cell(row.serial))
  {
    hide Cell, Strip, Repeats, Noted, ItemValid, FindInventory, FindSerial, SerialFree, TablesOk, PutItem, SheetItem;
    if row.details.Some? {
      RowIsValid(st.db, row);
    }
  }

  /** The same, said about the tables before the import. */
  lemma RowPassesExactly(db: Db, st: ImportState, rows: seq<SheetRow>, ids: seq<nat>, row: SheetRow)
    requires Reached(db, st, rows, ids) && st.errors == 0 && !row.blank
    ensures ImportRow(st, row).errors == 0 <==>
        RowFits(Left(db, Overwritten(db, rows)), row) && !ClashesEarlier(rows, row)
  {
    ReachedTables(db, st, rows, ids);
    hide Reached, Remembers, TablesOk, ImportRow, Overwritten, Left, OneTarget, SerialFree, ClashesEarlier, KeyListed,
        Repeats, Cell, Strip;
    RowPasses(st, row);
    RepeatsAreListed(st, rows, row);
    if !Repeats(st.numbers, Cell(row.inventory)) && !Repeats(st.serials, Cell(row.serial)) {
      SameTarget(db, st, rows, ids, row);
      SerialFreeLater(db, st, rows, ids, row);
    }
  }

  // ---------------------------------------------------------------------------------- the whole sheet

  lemma OverwrittenMore(db: Db, rows: seq<SheetRow>, row: SheetRow)
    ensures var gone := Overwritten(db, rows);
            var target := RowTarget(Left(db, gone), row);
            Overwritten(db, rows + [row]) == if row.blank || target.None? then gone else gone + {target.value}
  {
    hide RowTarget, Left;
    assert (rows + [row])[..|rows|] == rows;
  }

  lemma TargetsExactly(rows: seq<SheetRow>, ids: seq<nat>, row: SheetRow, t: nat, id: nat)
    requires |ids| == |rows|
    ensures Target(rows + [row], ids + [t], id) <==> Target(rows, ids, id) || (!row.blank && id == t)
  {
    TargetsGrow(rows, ids, row, t);
    var all, keys := rows + [row], ids + [t];
    if i :| 0 <= i < |all| && i < |keys| && !all[i].blank && keys[i] == id {
      if i < |rows| {
        assert all[i] == rows[i] && keys[i] == ids[i];
      }
    }
  }

  lemma GoneMore(db: Db, st: ImportState, rows: seq<SheetRow>, ids: seq<nat>, row: SheetRow, t: nat)
    requires Reached(db, st, rows, ids) && |ids| == |rows|
    requires !row.blank ==>
               && !Repeats(st.numbers, Cell(row.inventory)) && !Repeats(st.serials, Cell(row.serial))
               && t == if RowTarget(st.db, row).Some? then RowTarget(st.db, row).value else st.db.next
    ensures GoneAreTargets(db, rows + [row], ids + [t])
  {
    hide Reached, Target, Overwritten, RowTarget, Left, Cell, Repeats, Remembers, TablesOk;
    ReachedTables(db, st, rows, ids);
    OverwrittenMore(db, rows, row);
    if !row.blank {
      SameTarget(db, st, rows, ids, row);
    }
    forall id | id in db.items
      ensures id in Overwritten(db, rows + [row]) <==> Target(rows + [row], ids + [t], id)
    {
      TargetsExactly(rows, ids, row, t, id);
    }
  }

  // ------------------------------------------------------------------------ the stored rows, by columns

  /** The item holds what the cells say, trimmed, and what the other cells resolve to. */
  ghost predicate HoldsRow(item: Item, row: SheetRow) {
    && (Strip(row.inventory) != "" ==> item.inventory == Some(Strip(row.inventory)))
    && (Strip(row.inventory) == "" ==> item.inventory == None)
    && StoredNumber(Some(row.serial), item.serial)
    && item.model == Strip(row.model) && row.details == Some(item.details)
  }

  lemma CellNumber(raw: string)
    ensures NormalizeSerial(Cell(raw)) == NormalizeSerial(Some(raw)) && SameKeys(Cell(raw), Some(raw))
  {
    TrimmedNumber(Some(raw));
  }

  predicate SameKeys(v: Option<string>, w: Option<string>) {
    KeyAt(v) == KeyAt(w)
  }

  lemma PlacedHoldsRow(db: Db, row: SheetRow, id: nat)
    requires PlacedAt(db, row, id)
    ensures id in db.items && HoldsRow(db.items[id], row)
  {
    CellNumber(row.serial);
    NormalizeSerialExactly(Some(row.serial));
    hide NormalizeSerial, StandsForNone, Strip, SameKeys;
  }

  /** The item is stored and no earlier row went to it. */
  ghost predicate StillFree(db: Db, earlier: seq<SheetRow>, ids: seq<nat>, id: nat) {
    id in db.items && !Target(earlier, ids, id)
  }

  ghost predicate FreeByInventory(db: Db, earlier: seq<SheetRow>, ids: seq<nat>, row: SheetRow, id: nat) {
    StillFree(db, earlier, ids, id) && Strip(row.inventory) != ""
        && db.items[id].inventory == Some(Strip(row.inventory))
  }

  ghost predicate FreeBySerial(db: Db, earlier: seq<SheetRow>, ids: seq<nat>, row: SheetRow, id: nat) {
    StillFree(db, earlier, ids, id) && Strip(row.serial) != "" && db.items[id].serial == Some(Strip(row.serial))
  }

  /** A row goes to the item with its inventory number, else to the one with its serial number, else to a new
      one; what earlier rows overwrote does not count. */
  ghost predicate GoesTo(db: Db, earlier: seq<SheetRow>, ids: seq<nat>, row: SheetRow, t: nat) {
    && (forall id: nat :: FreeByInventory(db, earlier, ids, row, id) ==> t == id)
    && ((forall id: nat :: !FreeByInventory(db, earlier, ids, row, id)) ==>
          forall id: nat :: FreeBySerial(db, earlier, ids, row, id) ==> t == id)
    && ((forall id: nat :: !FreeByInventory(db, earlier, ids, row, id) && !FreeBySerial(db, earlier, ids, row, id)) ==>
          t !in db.items)
  }

  ghost predicate AllGo(db: Db, rows: seq<SheetRow>, ids: seq<nat>) {
    |ids| == |rows| && forall i :: 0 <= i < |rows| && !rows[i].blank ==>
        GoesTo(db, rows[..i], ids[..i], rows[i], ids[i])
  }

  lemma FreeIsLeft(db: Db, rows: seq<SheetRow>, ids: seq<nat>, row: SheetRow, id: nat)
    requires GoneAreTargets(db, rows, ids)
    ensures var left := Left(db, Overwritten(db, rows));
            && (FreeByInventory(db, rows, ids, row, id) <==> HasInventory(left, id, Cell(row.inventory)))
            && (FreeBySerial(db, rows, ids, row, id) <==> HasSerial(left, id, Cell(row.serial)))
  {
    hide Overwritten, Target, Strip;
  }

  /** The items still free, by number, are what the lookups find. */
  ghost predicate LooksUpFree(db: Db, earlier: seq<SheetRow>, ids: seq<nat>, row: SheetRow, left: Db) {
    forall id: nat ::
      && (FreeByInventory(db, earlier, ids, row, id) <==> HasInventory(left, id, Cell(row.inventory)))
      && (FreeBySerial(db, earlier, ids, row, id) <==> HasSerial(left, id, Cell(row.serial)))
  }

  lemma GoesByLookup(db: Db, rows: seq<SheetRow>, ids: seq<nat>, row: SheetRow, left: Db, t: nat)
    requires LooksUpFree(db, rows, ids, row, left) && UniqueColumns(left)
    requires if RowTarget(left, row).Some? then t == RowTarget(left, row).value else t !in db.items
    ensures GoesTo(db, rows, ids, row, t)
  {
    hide UniqueColumns, Cell, FreeByInventory, FreeBySerial, HasInventory, HasSerial;
    OnlyOneFound(left, row);
  }

  lemma RowGoes(db: Db, st: ImportState, rows: seq<SheetRow>, ids: seq<nat>, row: SheetRow, t: nat)
    requires Reached(db, st, rows, ids) && !row.blank
    requires !Repeats(st.numbers, Cell(row.inventory)) && !Repeats(st.serials, Cell(row.serial))
    requires t == if RowTarget(st.db, row).Some? then RowTarget(st.db, row).value else st.db.next
    ensures GoesTo(db, rows, ids, row, t)
  {
    var left := Left(db, Overwritten(db, rows));
    hide Reached, Left, Overwritten, Remembers, TablesOk, Cell, Strip, Repeats, GoneAreTargets, HasInventory, HasSerial,
        FreeByInventory, FreeBySerial, RowTarget, GoesTo, UniqueColumns, OneTarget;
    ReachedTables(db, st, rows, ids);
    SameTarget(db, st, rows, ids, row);
    LeftIsOk(db, st, rows, ids);
    assert LooksUpFree(db, rows, ids, row, left) by {
      forall id: nat
        ensures FreeByInventory(db, rows, ids, row, id) <==> HasInventory(left, id, Cell(row.inventory))
        ensures FreeBySerial(db, rows, ids, row, id) <==> HasSerial(left, id, Cell(row.serial))
      {
        FreeIsLeft(db, rows, ids, row, id);
      }
    }
    GoesByLookup(db, rows, ids, row, left, t);
  }

  /** Inventory and serial numbers are unique columns of storage. */
  ghost predicate UniqueColumns(db: Db) {
    && (forall i, j :: i in db.items && j in db.items && i != j && db.items[i].inventory.Some? ==>
          db.items[i].inventory != db.items[j].inventory)
    && (forall i, j :: i in db.items && j in db.items && i != j && db.items[i].serial.Some? ==>
          db.items[i].serial != db.items[j].serial)
  }

  lemma OnlyOneFound(db: Db, row: SheetRow)
    requires UniqueColumns(db)
    ensures forall id: nat :: HasInventory(db, id, Cell(row.inventory)) ==>
        FindInventory(db, Cell(row.inventory)) == Some(id)
    ensures forall id: nat :: HasSerial(db, id, Cell(row.serial)) ==> FindSerial(db, Cell(row.serial)) == Some(id)
  {
    hide Cell;
  }

  lemma LeftIsOk(db: Db, st: ImportState, rows: seq<SheetRow>, ids: seq<nat>)
    requires Reached(db, st, rows, ids)
    ensures UniqueColumns(Left(db, Overwritten(db, rows)))
  {
    hide Overwritten, Target, Placed, Remembers, Reached, Left;
    var left := Left(db, Overwritten(db, rows));
    ReachedTables(db, st, rows, ids);
    forall id | id in left.items
      ensures id in st.db.items && st.db.items[id] == left.items[id]
    {
      if Target(rows, ids, id) {
        GoneIsNotLeft(db, st, rows, ids, id);
        assert false;
      }
      LeftIsUntouched(db, st, rows, ids, id);
    }
  }

  lemma GoMore(db: Db, rows: seq<SheetRow>, ids: seq<nat>, row: SheetRow, t: nat)
    requires AllGo(db, rows, ids) && (!row.blank ==> GoesTo(db, rows, ids, row, t))
    ensures AllGo(db, rows + [row], ids + [t])
  {
    hide GoesTo;
    var all, keys := rows + [row], ids + [t];
    assert all[..|rows|] == rows && keys[..|ids|] == ids;
    forall i | 0 <= i < |rows|
      ensures all[..i] == rows[..i] && keys[..i] == ids[..i] && all[i] == rows[i] && keys[i] == ids[i]
    {
    }
  }

  lemma ReachedMore(db: Db, st: ImportState, rows: seq<SheetRow>, ids: seq<nat>, row: SheetRow) returns (t: nat)
    requires Reached(db, st, rows, ids) && SerialsOk(st.db) && st.errors == 0 && ImportRow(st, row).errors == 0
    requires TablesOk(ImportRow(st, row).db)
    ensures Reached(db, ImportRow(st, row), rows + [row], ids + [t])
    ensures AllGo(db, rows, ids) ==> AllGo(db, rows + [row], ids + [t])
  {
    assert TablesOk(st.db) && Placed(st.db, rows, ids) && OnlyRows(db, st.db, rows, ids) && Remembers(st, rows);
    hide TablesOk, SerialsOk, Placed, OnlyRows, Remembers, GoneAreTargets, ImportRow, OthersKept, SeenAll, Cell,
        Repeats;
    PlacedLength(st.db, rows, ids);
    RemembersMore(st, rows, row);
    if row.blank {
      t := 0;
      BlankRow(st, rows, ids, row);
    } else {
      RowIsSaved(st, row);
      RememberedIsSeen(st, rows);
      t := SavedRowIsPlaced(st, rows, ids, row);
    }
    OnlyRowsMore(db, st.db, ImportRow(st, row).db, rows, ids, row, t);
    GoneMore(db, st, rows, ids, row, t);
    hide AllGo, GoesTo, Reached, RowTarget, OneTarget;
    if !row.blank {
      RowGoes(db, st, rows, ids, row, t);
    }
    if AllGo(db, rows, ids) {
      GoMore(db, rows, ids, row, t);
    }
  }

  lemma ImportableMore(db: Db, rows: seq<SheetRow>, row: SheetRow)
    ensures Importable(db, rows + [row]) <==>
              && Importable(db, rows)
              && (row.blank || (RowFits(Left(db, Overwritten(db, rows)), row) && !ClashesEarlier(rows, row)))
  {
    hide RowFits, ClashesEarlier, Overwritten, Left;
    var all := rows + [row];
    assert all[|rows|] == row && all[..|rows|] == rows;
    forall i | 0 <= i < |rows|
      ensures all[i] == rows[i] && all[..i] == rows[..i]
    {
    }
  }

  lemma NothingImported(db: Db)
    requires TablesOk(db)
    ensures Reached(db, ImportRows(db, []), [], []) && ImportRows(db, []).errors == 0 && Importable(db, [])
  {
  }

  lemma {:induction false} RowsPassExactly(db: Db, rows: seq<SheetRow>) returns (ids: seq<nat>)
    requires SerialsOk(db) && TablesOk(db)
    ensures ImportRows(db, rows).errors == 0 <==> Importable(db, rows)
    ensures ImportRows(db, rows).errors == 0 ==> Reached(db, ImportRows(db, rows), rows, ids) && AllGo(db, rows, ids)
  {
    hide SerialsOk, TablesOk, Reached, ImportRow, Importable, RowFits, ClashesEarlier, GoesTo;
    if rows == [] {
      ids := [];
      NothingImported(db);
    } else {
      var init, row := rows[..|rows| - 1], rows[|rows| - 1];
      assert init + [row] == rows;
      var earlier := RowsPassExactly(db, init);
      var st := ImportRows(db, init);
      NoErrorsBefore(st, row);
      ImportableMore(db, init, row);
      ImportKeepsSerials(db, init);
      ImportKeepsSerials(db, rows);
      ids := [];
      if st.errors == 0 {
        if row.blank {
          BlankChangesNothing(st, row);
        } else {
          RowPassesExactly(db, st, init, earlier, row);
        }
        if ImportRow(st, row).errors == 0 {
          var t := ReachedMore(db, st, init, earlier, row);
          ids := earlier + [t];
        }
      }
    }
  }

  /** The import as a change of rows: each filled row has an item of its own that holds its cells, found by
      its numbers or new, and nothing else changed. */
  ghost predicate Imported(db: Db, after: Db, rows: seq<SheetRow>, ids: seq<nat>) {
    && |ids| == |rows| && OnlyRows(db, after, rows, ids) && AllGo(db, rows, ids)
    && (forall i :: 0 <= i < |rows| && !rows[i].blank ==>
        ids[i] in after.items && HoldsRow(after.items[ids[i]], rows[i]))
    && (forall i, j :: 0 <= i < j < |rows| && !rows[i].blank && !rows[j].blank ==> ids[i] != ids[j])
  }

  lemma ReachedIsImported(db: Db, st: ImportState, rows: seq<SheetRow>, ids: seq<nat>)
    requires Reached(db, st, rows, ids) && AllGo(db, rows, ids)
    ensures Imported(db, st.db, rows, ids)
  {
    hide TablesOk, OnlyRows, Remembers, GoneAreTargets, PlacedAt, HoldsRow, GoesTo;
    forall i | 0 <= i < |rows| && !rows[i].blank
      ensures ids[i] in st.db.items && HoldsRow(st.db.items[ids[i]], rows[i])
    {
      PlacedHoldsRow(st.db, rows[i], ids[i]);
    }
  }

  /** What a successful import stores. */
  lemma ImportStoresRows(db: Db, rows: seq<SheetRow>) returns (ids: seq<nat>)
    requires SerialsOk(db) && TablesOk(db) && ImportSheet(db, rows).Some?
    ensures Imported(db, ImportSheet(db, rows).value.0, rows, ids)
  {
    hide SerialsOk, TablesOk, Importable, ImportRows, Reached, AllGo, Imported;
    ids := RowsPassExactly(db, rows);
    ReachedIsImported(db, ImportRows(db, rows), rows, ids);
  }

  /** The serial part of the condition, by holders: nobody but the row's own item has its number. */
  lemma SerialFreeExactly(db: Db, row: SheetRow)
    requires Clean(db) && TablesOk(db)
    ensures SerialFree(db, row) <==> NumberFree(db, Some(row.serial), ItemHolder(db, RowTarget(db, row)))
  {
    hide Clean, TablesOk, RowTarget, NormalizeSerial, Cell, ModuleTaken, ItemTaken, KeyAt, ItemHolder;
    CellNumber(row.serial);
    FreeItemNumber(db, RowTarget(db, row), Some(row.serial));
  }

  /** An import succeeds exactly for an importable sheet. */
  lemma ImportSucceedsExactly(db: Db, rows: seq<SheetRow>)
    requires SerialsOk(db) && TablesOk(db)
    ensures ImportSheet(db, rows).Some? <==> Importable(db, rows)
  {
    hide SerialsOk, TablesOk, Importable, ImportRows, Reached;
    var ids := RowsPassExactly(db, rows);
  }
}
