/** What applying an inventory report does to the tables, and who owns the serial numbers after it. */
module InventoryOwnership {
  import opened Options
  import opened Text
  import opened SerialModel
  import opened InventorySync

  const TRANSCEIVER := "Transceiver "

  /** The name of a module that the transceiver step looks after. */
  predicate IsTransceiver(name: string) {
    StartsWith(name, TRANSCEIVER)
  }

  /** The serial column is neither null nor empty. */
  predicate Bears(m: Module) {
    m.serial.Some? && m.serial.value != ""
  }

  predicate IsRow(m: Module, dev: nat, w: Winner) {
    m.device == dev && m.name == w.name && m.serial == Some(w.serial)
  }

  function NewRow(dev: nat, w: Winner): Module {
    Module(dev, w.name, None, Some(w.descr), None, Some(w.serial))
  }

  function Refreshed(m: Module, w: Winner): Module {
    m.(description := Some(w.descr), vendor := None)
  }

  /** `_reconcile_module_serial`: the number leaves storage and every module but the named one. */
  function Reconcile(db: Db, dev: nat, name: string, serial: string): Db {
    db.(items := map id | id in db.items && !IExact(db.items[id].serial, serial) :: db.items[id],
        modules := map id | id in db.modules
                            && (!IExact(db.modules[id].serial, serial)
                                || (db.modules[id].device == dev && db.modules[id].name == name)) :: db.modules[id])
  }

  function RowIds(db: Db, dev: nat, w: Winner): set<nat> {
    set id | id in db.modules && IsRow(db.modules[id], dev, w)
  }

  /** `update_or_create` by device, name and serial number. None: the lookup finds several rows. */
  function Upsert(db: Db, dev: nat, w: Winner): Option<Db> {
    var ids := RowIds(db, dev, w);
    if |ids| > 1 then None
    else if ids == {} then Some(PutModule(db, None, NewRow(dev, w)))
    else Some(db.(modules := map id | id in db.modules ::
        if id in ids then Refreshed(db.modules[id], w) else db.modules[id]))
  }

  function ApplyWinners(db: Db, dev: nat, ws: seq<Winner>): Option<Db> {
    if ws == [] then Some(db) else
    match ApplyWinners(db, dev, ws[..|ws| - 1])
    case None => None
    case Some(d) => var w := ws[|ws| - 1]; Upsert(Reconcile(d, dev, w.name, w.serial), dev, w)
  }

  predicate Kept(m: Module, ws: seq<Winner>) {
    exists i :: 0 <= i < |ws| && m.name == ws[i].name && m.serial == Some(ws[i].serial)
  }

  /** Modules of the device that bear a serial number the report does not list. */
  predicate Obsolete(m: Module, dev: nat, ws: seq<Winner>) {
    ws != [] && m.device == dev && Bears(m) && !IsTransceiver(m.name) && !Kept(m, ws)
  }

  predicate Blank(m: Module, dev: nat, names: set<string>) {
    m.device == dev && m.name in names && !Bears(m)
  }

  function Sweep(db: Db, dev: nat, ws: seq<Winner>, names: set<string>): Db {
    db.(modules := map id | id in db.modules && !Obsolete(db.modules[id], dev, ws) && !Blank(db.modules[id], dev, names)
                     :: db.modules[id])
  }

  /** `_apply_inventory`. None: an exception leaves it. */
  function ApplyInventory(db: Db, dev: nat, entries: seq<Entry>): Option<Db> {
    match ApplyWinners(db, dev, Winners(entries))
    case None => None
    case Some(d) => Some(Sweep(d, dev, Winners(entries), SerialLess(entries)))
  }

  // ----------------------------------------------------------- the state after the upsert loop

  ghost predicate Claimed(v: Option<string>, ws: seq<Winner>) {
    exists w :: w in ws && IExact(v, w.serial)
  }

  ghost predicate Stays(m: Module, dev: nat, ws: seq<Winner>) {
    forall w :: w in ws && IExact(m.serial, w.serial) ==> m.device == dev && m.name == w.name
  }

  /** A row from before, as the loop leaves it. */
  ghost predicate LeftAs(m: Module, now: Module, dev: nat, ws: seq<Winner>) {
    && (forall w :: w in ws && IsRow(m, dev, w) ==> now == Refreshed(m, w))
    && ((forall w :: w in ws ==> !IsRow(m, dev, w)) ==> now == m)
    && now.device == m.device && now.name == m.name && now.serial == m.serial
  }

  ghost predicate HasRow(db: Db, dev: nat, w: Winner) {
    exists id :: id in db.modules && IsRow(db.modules[id], dev, w)
  }

  ghost predicate OneRow(db: Db, dev: nat, w: Winner) {
    && HasRow(db, dev, w)
    && forall i, j ::
         i in db.modules && j in db.modules && IsRow(db.modules[i], dev, w) && IsRow(db.modules[j], dev, w) ==> i == j
  }

  ghost predicate ItemsTaken(pre: Db, ws: seq<Winner>, mid: Db) {
    && (forall id :: id in mid.items <==> id in pre.items && !Claimed(pre.items[id].serial, ws))
    && (forall id :: id in mid.items ==> mid.items[id] == pre.items[id])
  }

  ghost predicate OldRows(pre: Db, dev: nat, ws: seq<Winner>, mid: Db) {
    && (forall id :: id in pre.modules ==> (id in mid.modules <==> Stays(pre.modules[id], dev, ws)))
    && (forall id :: id in pre.modules && id in mid.modules ==> LeftAs(pre.modules[id], mid.modules[id], dev, ws))
  }

  ghost predicate FromWinner(m: Module, dev: nat, ws: seq<Winner>) {
    exists w :: w in ws && m == NewRow(dev, w)
  }

  ghost predicate NewRows(pre: Db, dev: nat, ws: seq<Winner>, mid: Db) {
    && (forall id :: id in mid.modules && id !in pre.modules ==> FromWinner(mid.modules[id], dev, ws))
    && (forall id :: id in mid.modules ==> id < mid.next)
    && mid.devices == pre.devices && mid.next >= pre.next
  }

  ghost predicate Taken(pre: Db, dev: nat, ws: seq<Winner>, mid: Db) {
    && ItemsTaken(pre, ws, mid) && OldRows(pre, dev, ws, mid) && NewRows(pre, dev, ws, mid)
    && forall w :: w in ws ==> OneRow(mid, dev, w)
  }

  lemma RowMatchesLookup(m: Module, dev: nat, w: Winner)
    ensures IsRow(m, dev, w) ==> IExact(m.serial, w.serial)
    ensures IsRow(NewRow(dev, w), dev, w) && IsRow(Refreshed(m, w), dev, w) == IsRow(m, dev, w)
  {
  }

  /** The keys of the winners before are different from this one's. */
  ghost predicate NewKey(ws: seq<Winner>, w: Winner) {
    forall v :: v in ws ==> !IExact(Some(v.serial), w.serial) && !IExact(Some(w.serial), v.serial)
  }

  /** Two rows with the same valid number are one row. */
  lemma OneHolder(pre: Db, i: nat, j: nat, s: string)
    requires Unique(pre) && Normal(s) && i in pre.modules && j in pre.modules
    requires IExact(pre.modules[i].serial, s) && IExact(pre.modules[j].serial, s)
    ensures i == j
  {
    hide IExact, KeyAt, Normal, CleanAt, Upper;
    LookupFindsKey(pre.modules[i].serial, s);
    LookupFindsKey(pre.modules[j].serial, s);
    assert InModule(i) != InModule(j) ==> !SameKey(SerialOf(pre, InModule(i)), SerialOf(pre, InModule(j)));
  }

  lemma RowIsOld(pre: Db, dev: nat, ws: seq<Winner>, mid: Db, w: Winner, i: nat)
    requires OldRows(pre, dev, ws, mid) && NewRows(pre, dev, ws, mid) && NewKey(ws, w)
    requires i in mid.modules && IsRow(mid.modules[i], dev, w)
    ensures i in pre.modules && IsRow(pre.modules[i], dev, w)
  {
    hide IExact;
    RowMatchesLookup(mid.modules[i], dev, w);
    assert i !in pre.modules ==> FromWinner(mid.modules[i], dev, ws);
  }

  lemma AtMostOneRow(pre: Db, dev: nat, ws: seq<Winner>, mid: Db, w: Winner)
    requires Unique(pre) && Normal(w.serial) && NewKey(ws, w)
    requires OldRows(pre, dev, ws, mid) && NewRows(pre, dev, ws, mid)
    ensures forall i, j ::
      i in mid.modules && j in mid.modules && IsRow(mid.modules[i], dev, w) && IsRow(mid.modules[j], dev, w) ==> i == j
    ensures |RowIds(mid, dev, w)| <= 1
  {
    forall i, j | i in mid.modules && j in mid.modules && IsRow(mid.modules[i], dev, w) && IsRow(mid.modules[j], dev, w)
      ensures i == j
    {
      hide IExact, OldRows, NewRows, NewKey;
      RowIsOld(pre, dev, ws, mid, w, i);
      RowIsOld(pre, dev, ws, mid, w, j);
      RowMatchesLookup(pre.modules[i], dev, w);
      RowMatchesLookup(pre.modules[j], dev, w);
      OneHolder(pre, i, j, w.serial);
    }
    var ids := RowIds(mid, dev, w);
    if ids != {} {
      var i :| i in ids;
      assert ids == {i};
    }
  }

  // --------------------------------------------------------------------------- one more winner

  lemma ReconcileItems(pre: Db, dev: nat, ws: seq<Winner>, mid: Db, w: Winner)
    requires ItemsTaken(pre, ws, mid)
    ensures ItemsTaken(pre, ws + [w], Reconcile(mid, dev, w.name, w.serial))
  {
    hide IExact;
    forall id | id in pre.items
      ensures Claimed(pre.items[id].serial, ws + [w]) <==>
          Claimed(pre.items[id].serial, ws) || IExact(pre.items[id].serial, w.serial)
    {
      assert w in ws + [w];
      if v :| v in ws && IExact(pre.items[id].serial, v.serial) {
        assert v in ws + [w];
      }
    }
  }

  lemma StaysMore(m: Module, dev: nat, ws: seq<Winner>, w: Winner)
    ensures Stays(m, dev, ws + [w]) <==>
        Stays(m, dev, ws) && (IExact(m.serial, w.serial) ==> m.device == dev && m.name == w.name)
  {
    hide IExact;
    assert w in ws + [w] && forall v :: v in ws ==> v in ws + [w];
  }

  lemma ReconcileRows(pre: Db, dev: nat, ws: seq<Winner>, mid: Db, w: Winner)
    requires OldRows(pre, dev, ws, mid)
    ensures var r := Reconcile(mid, dev, w.name, w.serial);
            forall id :: id in pre.modules ==> (id in r.modules <==> Stays(pre.modules[id], dev, ws + [w]))
  {
    hide IExact, Stays;
    forall id | id in pre.modules
      ensures id in Reconcile(mid, dev, w.name, w.serial).modules <==> Stays(pre.modules[id], dev, ws + [w])
    {
      StaysMore(pre.modules[id], dev, ws, w);
    }
  }

  /** The rows of the earlier winners survive. */
  lemma ReconcileKeepsRows(dev: nat, mid: Db, w: Winner, v: Winner)
    requires OneRow(mid, dev, v) && !IExact(Some(v.serial), w.serial)
    ensures OneRow(Reconcile(mid, dev, w.name, w.serial), dev, v)
  {
    hide IExact;
    var r := Reconcile(mid, dev, w.name, w.serial);
    var id :| id in mid.modules && IsRow(mid.modules[id], dev, v);
    assert id in r.modules && IsRow(r.modules[id], dev, v);
  }

  lemma LeftAsMore(m: Module, now: Module, dev: nat, ws: seq<Winner>, w: Winner)
    requires LeftAs(m, now, dev, ws) && NewKey(ws, w)
    ensures LeftAs(m, if IsRow(m, dev, w) then Refreshed(now, w) else now, dev, ws + [w])
  {
    hide IExact;
    assert forall v :: v in ws + [w] <==> v in ws || v == w;
    RowMatchesLookup(m, dev, w);
    forall v | v in ws
      ensures !(IsRow(m, dev, v) && IsRow(m, dev, w))
    {
      RowMatchesLookup(m, dev, v);
    }
  }

  /** What one upsert does to each row. */
  lemma UpsertRows(r: Db, dev: nat, w: Winner)
    requires |RowIds(r, dev, w)| <= 1 && r.next !in r.modules
    ensures var next := Upsert(r, dev, w);
            && next.Some? && next.value.items == r.items && next.value.devices == r.devices && next.value.next >= r.next
            && (forall id :: id in r.modules ==> id in next.value.modules)
            && (forall id :: id in r.modules ==>
                  next.value.modules[id]
                  == if IsRow(r.modules[id], dev, w) then Refreshed(r.modules[id], w) else r.modules[id])
            && (forall id :: id in next.value.modules && id !in r.modules ==>
                  id == r.next < next.value.next && next.value.modules[id] == NewRow(dev, w))
            && (RowIds(r, dev, w) == {} ==> r.next in next.value.modules)
            && (RowIds(r, dev, w) != {} ==> r.next !in next.value.modules)
  {
    var ids := RowIds(r, dev, w);
    forall id | id in r.modules
      ensures IsRow(r.modules[id], dev, w) <==> id in ids
    {
    }
  }

  /** The upsert never finds two rows, and what it leaves is again as described. */
  lemma UpsertStep(pre: Db, dev: nat, ws: seq<Winner>, mid: Db, w: Winner)
    requires Unique(pre) && TablesOk(pre) && Taken(pre, dev, ws, mid) && NewKey(ws, w) && Normal(w.serial)
    ensures var next := Upsert(Reconcile(mid, dev, w.name, w.serial), dev, w);
            next.Some? && Taken(pre, dev, ws + [w], next.value)
  {
    hide IExact, Unique, Stays, LeftAs, FromWinner, Claimed, OneRow, Normal, Upsert, RowIds;
    var r := Reconcile(mid, dev, w.name, w.serial);
    ReconcileItems(pre, dev, ws, mid, w);
    ReconcileRows(pre, dev, ws, mid, w);
    AtMostOneRow(pre, dev, ws, mid, w);
    ReconciledRowIds(dev, mid, w);
    UpsertRows(r, dev, w);
    var next := Upsert(r, dev, w).value;
    forall id | id in pre.modules && id in next.modules
      ensures LeftAs(pre.modules[id], next.modules[id], dev, ws + [w])
    {
      LeftAsMore(pre.modules[id], mid.modules[id], dev, ws, w);
      SameIdentity(pre.modules[id], mid.modules[id], dev, ws, w);
    }
    forall id | id in next.modules && id !in pre.modules
      ensures FromWinner(next.modules[id], dev, ws + [w])
    {
      NewRowStep(pre, dev, ws, mid, w, id);
    }
    forall v | v in ws + [w]
      ensures OneRow(next, dev, v)
    {
      OneRowStep(pre, dev, ws, mid, w, v);
    }
  }

  lemma SameIdentity(m: Module, now: Module, dev: nat, ws: seq<Winner>, w: Winner)
    requires LeftAs(m, now, dev, ws)
    ensures IsRow(m, dev, w) <==> IsRow(now, dev, w)
  {
  }

  /** The row of the winner is not reconciled away. */
  lemma ReconciledRowIds(dev: nat, mid: Db, w: Winner)
    ensures RowIds(Reconcile(mid, dev, w.name, w.serial), dev, w) == RowIds(mid, dev, w)
  {
  }

  lemma NewRowStep(pre: Db, dev: nat, ws: seq<Winner>, mid: Db, w: Winner, id: nat)
    requires OldRows(pre, dev, ws, mid) && NewRows(pre, dev, ws, mid) && NewKey(ws, w)
    requires |RowIds(Reconcile(mid, dev, w.name, w.serial), dev, w)| <= 1
    requires Upsert(Reconcile(mid, dev, w.name, w.serial), dev, w).Some?
    requires id in Upsert(Reconcile(mid, dev, w.name, w.serial), dev, w).value.modules && id !in pre.modules
    ensures FromWinner(Upsert(Reconcile(mid, dev, w.name, w.serial), dev, w).value.modules[id], dev, ws + [w])
  {
    hide IExact, OldRows, NewKey, Upsert, RowIds;
    var r := Reconcile(mid, dev, w.name, w.serial);
    UpsertRows(r, dev, w);
    assert w in ws + [w];
    if id in r.modules {
      if IsRow(mid.modules[id], dev, w) {
        RowIsOld(pre, dev, ws, mid, w, id);
      }
      var v :| v in ws && mid.modules[id] == NewRow(dev, v);
      assert v in ws + [w];
    }
  }

  lemma OneRowStep(pre: Db, dev: nat, ws: seq<Winner>, mid: Db, w: Winner, v: Winner)
    requires NewRows(pre, dev, ws, mid) && (forall u :: u in ws ==> OneRow(mid, dev, u)) && NewKey(ws, w)
        && v in ws + [w]
    requires forall i, j ::
      i in mid.modules && j in mid.modules && IsRow(mid.modules[i], dev, w) && IsRow(mid.modules[j], dev, w) ==> i == j
    requires |RowIds(Reconcile(mid, dev, w.name, w.serial), dev, w)| <= 1
    requires Upsert(Reconcile(mid, dev, w.name, w.serial), dev, w).Some?
    ensures OneRow(Upsert(Reconcile(mid, dev, w.name, w.serial), dev, w).value, dev, v)
  {
    hide IExact, Upsert, FromWinner;
    var r := Reconcile(mid, dev, w.name, w.serial);
    UpsertRows(r, dev, w);
    var next := Upsert(r, dev, w).value;
    if v in ws {
      RowMatchesLookup(NewRow(dev, w), dev, v);
      ReconcileKeepsRows(dev, mid, w, v);
      SameRows(r, next, dev, v);
    } else {
      var ids := RowIds(r, dev, w);
      if ids != {} {
        var id :| id in ids;
        assert IsRow(next.modules[id], dev, w);
      } else {
        assert forall id :: id in r.modules && IsRow(r.modules[id], dev, w) ==> id in ids;
        assert IsRow(next.modules[r.next], dev, w);
      }
    }
  }

  /** Rows that keep their identity, and new rows that are not the winner's, leave it its one row. */
  lemma SameRows(r: Db, next: Db, dev: nat, v: Winner)
    requires OneRow(r, dev, v)
    requires forall id :: id in r.modules ==>
        id in next.modules && (IsRow(next.modules[id], dev, v) <==> IsRow(r.modules[id], dev, v))
    requires forall id :: id in next.modules && id !in r.modules ==> !IsRow(next.modules[id], dev, v)
    ensures OneRow(next, dev, v)
  {
    var id :| id in r.modules && IsRow(r.modules[id], dev, v);
    assert IsRow(next.modules[id], dev, v);
  }

  /** After the loop: the report's numbers are taken from everybody else, each winner has one row. */
  lemma {:induction false} WinnersTaken(pre: Db, dev: nat, ws: seq<Winner>)
    requires Unique(pre) && TablesOk(pre) && DistinctKeys(ws) && NormalWinners(ws)
    ensures ApplyWinners(pre, dev, ws).Some? && Taken(pre, dev, ws, ApplyWinners(pre, dev, ws).value)
    decreases |ws|
  {
    if ws != [] {
      hide Taken, Unique, Normal, IExact;
      var init, w := ws[..|ws| - 1], ws[|ws| - 1];
      assert init + [w] == ws;
      WinnersTaken(pre, dev, init);
      DistinctIsNew(init, w);
      UpsertStep(pre, dev, init, ApplyWinners(pre, dev, init).value, w);
    }
  }

  lemma DistinctIsNew(init: seq<Winner>, w: Winner)
    requires DistinctKeys(init + [w])
    ensures NewKey(init, w)
  {
    var ws := init + [w];
    forall i | 0 <= i < |init|
      ensures Upper(init[i].serial) != Upper(w.serial)
    {
      assert ws[i] == init[i] && ws[|init|] == w;
    }
  }

  // ------------------------------------------------------------------------------ after the sweep

  lemma WinnerRowSurvives(mid: Db, dev: nat, ws: seq<Winner>, names: set<string>, w: Winner)
    requires w in ws && Normal(w.serial) && OneRow(mid, dev, w)
    ensures OneRow(Sweep(mid, dev, ws, names), dev, w)
  {
    var post := Sweep(mid, dev, ws, names);
    var id :| id in mid.modules && IsRow(mid.modules[id], dev, w);
    var i :| 0 <= i < |ws| && ws[i] == w;
    assert Kept(mid.modules[id], ws);
    assert w.serial != "" by { NormalIsTrimmed(w.serial); }
    assert id in post.modules && IsRow(post.modules[id], dev, w);
  }

  /** Who holds what after an inventory report: every module of the device that bears a serial number,
      transceivers apart, is the row of a winner; each winner has exactly one row, with its description
      and no vendor; nobody else holds a reported number; rows of other devices that hold none are
      untouched. */
  ghost predicate Owns(pre: Db, dev: nat, ws: seq<Winner>, post: Db) {
    && (forall id ::
          id in post.modules && post.modules[id].device == dev
          && post.modules[id].serial != None && post.modules[id].serial != Some("")
          && !("Transceiver " <= post.modules[id].name)
          ==> exists w :: w in ws && IsRow(post.modules[id], dev, w))
    && (forall w :: w in ws ==> OneRow(post, dev, w))
    && (forall id, w :: id in post.modules && w in ws && IsRow(post.modules[id], dev, w) ==>
          post.modules[id].description == Some(w.descr) && post.modules[id].vendor == None)
    && (forall id, w :: id in post.modules && w in ws && IExact(post.modules[id].serial, w.serial)
          ==> post.modules[id].device == dev && post.modules[id].name == w.name)
    && ItemsTaken(pre, ws, post)
    && (forall id :: id in pre.modules && pre.modules[id].device != dev ==>
          (id in post.modules <==> !Claimed(pre.modules[id].serial, ws))
              && (id in post.modules ==> post.modules[id] == pre.modules[id]))
  }

  lemma HolderIsNamed(pre: Db, dev: nat, ws: seq<Winner>, mid: Db, id: nat, w: Winner)
    requires OldRows(pre, dev, ws, mid) && NewRows(pre, dev, ws, mid) && DistinctKeys(ws)
    requires id in mid.modules && w in ws && IExact(mid.modules[id].serial, w.serial)
    ensures mid.modules[id].device == dev && mid.modules[id].name == w.name
  {
    if id !in pre.modules {
      var v :| v in ws && mid.modules[id] == NewRow(dev, v);
      SameWinner(ws, v, w);
    }
  }

  lemma SameWinner(ws: seq<Winner>, v: Winner, w: Winner)
    requires DistinctKeys(ws) && v in ws && w in ws && Upper(v.serial) == Upper(w.serial)
    ensures v == w
  {
    var i :| 0 <= i < |ws| && ws[i] == v;
    var j :| 0 <= j < |ws| && ws[j] == w;
  }

  lemma OthersUntouched(pre: Db, dev: nat, ws: seq<Winner>, mid: Db, names: set<string>, id: nat)
    requires OldRows(pre, dev, ws, mid) && id in pre.modules && pre.modules[id].device != dev
    ensures var post := Sweep(mid, dev, ws, names);
            && (id in post.modules <==> !Claimed(pre.modules[id].serial, ws))
            && (id in post.modules ==> post.modules[id] == pre.modules[id])
  {
    hide IExact;
  }

  lemma BearingRowsAreKept(mid: Db, dev: nat, ws: seq<Winner>, names: set<string>, id: nat)
    requires ws != [] && id in Sweep(mid, dev, ws, names).modules
    requires mid.modules[id].device == dev && Bears(mid.modules[id]) && !IsTransceiver(mid.modules[id].name)
    ensures exists w :: w in ws && IsRow(mid.modules[id], dev, w)
  {
    hide Bears, IsTransceiver;
    var m := mid.modules[id];
    assert Kept(m, ws);
    var i :| 0 <= i < |ws| && m.name == ws[i].name && m.serial == Some(ws[i].serial);
    assert ws[i] in ws && IsRow(m, dev, ws[i]);
  }

  lemma StoredAsReported(pre: Db, dev: nat, ws: seq<Winner>, mid: Db, id: nat, w: Winner)
    requires OldRows(pre, dev, ws, mid) && NewRows(pre, dev, ws, mid) && DistinctKeys(ws)
    requires id in mid.modules && w in ws && IsRow(mid.modules[id], dev, w)
    ensures mid.modules[id] == Refreshed(mid.modules[id], w)
  {
    hide IExact, Stays;
    if id !in pre.modules {
      var v :| v in ws && mid.modules[id] == NewRow(dev, v);
      SameWinner(ws, v, w);
    } else {
      SameIdentity(pre.modules[id], mid.modules[id], dev, ws, w);
    }
  }

  lemma OwnsAfterSweep(pre: Db, dev: nat, ws: seq<Winner>, mid: Db, names: set<string>)
    requires Taken(pre, dev, ws, mid) && DistinctKeys(ws) && NormalWinners(ws) && ws != []
    ensures Owns(pre, dev, ws, Sweep(mid, dev, ws, names))
  {
    hide Normal, IExact, OneRow, OldRows, NewRows, Claimed, IsRow, Bears, IsTransceiver, DistinctKeys, Obsolete, Blank;
    var post := Sweep(mid, dev, ws, names);
    forall w | w in ws
      ensures OneRow(post, dev, w)
    {
      WinnerRowSurvives(mid, dev, ws, names, w);
    }
    forall id, w | id in post.modules && w in ws && IExact(post.modules[id].serial, w.serial)
      ensures post.modules[id].device == dev && post.modules[id].name == w.name
    {
      HolderIsNamed(pre, dev, ws, mid, id, w);
    }
    forall id, w | id in post.modules && w in ws && IsRow(post.modules[id], dev, w)
      ensures post.modules[id].description == Some(w.descr) && post.modules[id].vendor == None
    {
      StoredAsReported(pre, dev, ws, mid, id, w);
    }
    forall id | id in post.modules && post.modules[id].device == dev
        && post.modules[id].serial != None && post.modules[id].serial != Some("")
        && !("Transceiver " <= post.modules[id].name)
      ensures exists w :: w in ws && IsRow(post.modules[id], dev, w)
    {
      VanishesByKind(post.modules[id], ws, {});
      BearingRowsAreKept(mid, dev, ws, names, id);
    }
    forall id | id in pre.modules && pre.modules[id].device != dev
      ensures (id in post.modules <==> !Claimed(pre.modules[id].serial, ws))
          && (id in post.modules ==> post.modules[id] == pre.modules[id])
    {
      OthersUntouched(pre, dev, ws, mid, names, id);
    }
  }

  /** A report with at least one serial number takes over the device: see `Owns`. */
  lemma InventoryTakesOver(pre: Db, dev: nat, entries: seq<Entry>)
    requires Unique(pre) && TablesOk(pre) && Winners(entries) != []
    ensures ApplyInventory(pre, dev, entries).Some?
    ensures Owns(pre, dev, Winners(entries), ApplyInventory(pre, dev, entries).value)
  {
    hide Unique, TablesOk, Taken, Owns, Winners, SerialLess, Sweep, DistinctKeys, NormalWinners;
    WinnersAreElected(entries);
    WinnersTaken(pre, dev, Winners(entries));
    OwnsAfterSweep(pre, dev, Winners(entries), ApplyWinners(pre, dev, Winners(entries)).value, SerialLess(entries));
  }

  /** What the report does to a row of the device that bears no reported number. */
  predicate Vanishes(m: Module, ws: seq<Winner>, names: set<string>) {
    if m.serial == None || m.serial == Some("") then m.name in names
    else ws != [] && !("Transceiver " <= m.name)
  }

  lemma VanishesByKind(m: Module, ws: seq<Winner>, names: set<string>)
    ensures Vanishes(m, ws, names) <==> if Bears(m) then ws != [] && !IsTransceiver(m.name) else m.name in names
  {
  }

  ghost predicate OwnUnclaimed(pre: Db, dev: nat, ws: seq<Winner>, names: set<string>, post: Db) {
    forall id :: id in pre.modules && pre.modules[id].device == dev && !Claimed(pre.modules[id].serial, ws) ==>
      && (id in post.modules <==> !Vanishes(pre.modules[id], ws, names))
      && (id in post.modules ==> post.modules[id] == pre.modules[id])
  }

  lemma KeptIsClaimed(m: Module, dev: nat, ws: seq<Winner>)
    ensures Kept(m, ws) ==> Claimed(m.serial, ws)
    ensures (exists w :: w in ws && IsRow(m, dev, w)) ==> Claimed(m.serial, ws)
  {
    if i :| 0 <= i < |ws| && m.name == ws[i].name && m.serial == Some(ws[i].serial) {
      assert ws[i] in ws && IExact(m.serial, ws[i].serial);
    }
  }

  lemma UnclaimedRow(pre: Db, dev: nat, ws: seq<Winner>, mid: Db, names: set<string>, id: nat)
    requires OldRows(pre, dev, ws, mid) && id in pre.modules && pre.modules[id].device == dev
    requires !Claimed(pre.modules[id].serial, ws)
    ensures var post := Sweep(mid, dev, ws, names);
            && (id in post.modules <==> !Vanishes(pre.modules[id], ws, names))
            && (id in post.modules ==> post.modules[id] == pre.modules[id])
  {
    hide IExact, Bears, IsTransceiver, Kept, IsRow, Vanishes;
    VanishesByKind(pre.modules[id], ws, names);
    KeptIsClaimed(pre.modules[id], dev, ws);
    assert Stays(pre.modules[id], dev, ws);
    assert mid.modules[id] == pre.modules[id];
  }

  /** The device's rows that bear no reported number vanish exactly when they bear another number and are
      no transceivers, given that a number was reported at all, or bear none and are named in the report;
      the others are untouched. */
  lemma InventorySparesUnclaimed(pre: Db, dev: nat, entries: seq<Entry>)
    requires Unique(pre) && TablesOk(pre)
    ensures ApplyInventory(pre, dev, entries).Some?
    ensures OwnUnclaimed(pre, dev, Winners(entries), SerialLess(entries), ApplyInventory(pre, dev, entries).value)
  {
    hide Unique, TablesOk, ItemsTaken, OldRows, NewRows, OneRow, Claimed, Vanishes, Winners, SerialLess, Sweep,
        DistinctKeys, NormalWinners;
    var ws, names := Winners(entries), SerialLess(entries);
    WinnersAreElected(entries);
    WinnersTaken(pre, dev, ws);
    var mid := ApplyWinners(pre, dev, ws).value;
    forall id | id in pre.modules && pre.modules[id].device == dev && !Claimed(pre.modules[id].serial, ws)
      ensures id in Sweep(mid, dev, ws, names).modules <==> !Vanishes(pre.modules[id], ws, names)
      ensures id in Sweep(mid, dev, ws, names).modules ==> Sweep(mid, dev, ws, names).modules[id] == pre.modules[id]
    {
      UnclaimedRow(pre, dev, ws, mid, names, id);
    }
  }

  // ------------------------------------------------------------------ when the numbers stay unique

  /** A transceiver row of the device with the reported name and number, in another spelling. The
      clean-up spares it because of its name. */
  ghost predicate StaleTwin(pre: Db, dev: nat, ws: seq<Winner>) {
    exists id, w :: id in pre.modules && w in ws && IsTwin(pre.modules[id], dev, w)
  }

  predicate IsTwin(m: Module, dev: nat, w: Winner) {
    IsTransceiver(w.name) && m.device == dev && m.name == w.name && IExact(m.serial, w.serial)
        && m.serial != Some(w.serial)
  }

  /** An old row with the number of a winner is the winner's row, or a stale twin. */
  lemma OldHolder(pre: Db, dev: nat, ws: seq<Winner>, mid: Db, names: set<string>, h: Holder, w: Winner)
    requires Taken(pre, dev, ws, mid) && DistinctKeys(ws) && NormalWinners(ws) && Clean(pre) && w in ws
    requires h.InModule? ==> h.id in pre.modules && h.id in Sweep(mid, dev, ws, names).modules
    requires h.InStorage? ==> h.id in mid.items
    requires KeyAt(SerialOf(pre, h)) == Some(Upper(w.serial))
    ensures h.InModule? && (IsRow(mid.modules[h.id], dev, w) || IsTwin(pre.modules[h.id], dev, w))
  {
    hide KeyAt, CleanAt, Normal, OneRow, FromWinner, Upper;
    assert CleanAt(SerialOf(pre, h));
    LookupFindsKey(SerialOf(pre, h), w.serial);
    if h.InModule? {
      var m := pre.modules[h.id];
      assert m.device == dev && m.name == w.name;
      BearsNumber(mid.modules[h.id], w);
      if Kept(mid.modules[h.id], ws) {
        KeptIsExact(mid.modules[h.id], ws, w);
      }
    }
  }

  lemma KeptIsExact(m: Module, ws: seq<Winner>, w: Winner)
    requires DistinctKeys(ws) && w in ws && IExact(m.serial, w.serial) && Kept(m, ws)
    ensures m.serial == Some(w.serial)
  {
    var i :| 0 <= i < |ws| && m.name == ws[i].name && m.serial == Some(ws[i].serial);
    SameWinner(ws, ws[i], w);
  }

  lemma BearsNumber(m: Module, w: Winner)
    requires IExact(m.serial, w.serial) && Normal(w.serial)
    ensures Bears(m)
  {
    NormalIsTrimmed(w.serial);
  }

  lemma NormalKey(s: string)
    requires Normal(s)
    ensures KeyAt(Some(s)) == Some(Upper(s)) && CleanAt(Some(s))
  {
  }

  lemma SameHolder(pre: Db, dev: nat, ws: seq<Winner>, mid: Db, names: set<string>, h: Holder, k: Holder)
    requires SerialsOk(pre) && Taken(pre, dev, ws, mid) && DistinctKeys(ws) && NormalWinners(ws)
    requires SameKey(SerialOf(Sweep(mid, dev, ws, names), h), SerialOf(Sweep(mid, dev, ws, names), k))
    ensures h == k || StaleTwin(pre, dev, ws)
  {
    hide KeyAt, CleanAt, Normal, IsTwin, IsTransceiver, Upper, Bears, Kept, IExact;
    NoKeyForNone();
    InPost(pre, dev, ws, mid, names, h);
    InPost(pre, dev, ws, mid, names, k);
    var hNew := h.InModule? && h.id !in pre.modules;
    var kNew := k.InModule? && k.id !in pre.modules;
    if !hNew && !kNew {
      assert h != k ==> !SameKey(SerialOf(pre, h), SerialOf(pre, k));
    } else if hNew && kNew {
      var v :| v in ws && mid.modules[h.id] == NewRow(dev, v);
      var w :| w in ws && mid.modules[k.id] == NewRow(dev, w);
      NormalKey(v.serial);
      NormalKey(w.serial);
      SameWinner(ws, v, w);
      assert OneRow(mid, dev, w);
      assert IsRow(mid.modules[h.id], dev, w) && IsRow(mid.modules[k.id], dev, w);
    } else {
      var old_, new_ := if hNew then k else h, if hNew then h else k;
      var w :| w in ws && mid.modules[new_.id] == NewRow(dev, w);
      NormalKey(w.serial);
      OldHolder(pre, dev, ws, mid, names, old_, w);
      assert OneRow(mid, dev, w);
      assert IsRow(mid.modules[new_.id], dev, w);
    }
  }

  /** A holder of a key is a row, and keeps the serial it had. */
  lemma InPost(pre: Db, dev: nat, ws: seq<Winner>, mid: Db, names: set<string>, h: Holder)
    requires Taken(pre, dev, ws, mid)
    requires SerialOf(Sweep(mid, dev, ws, names), h) != None
    ensures h.InModule? ==> h.id in Sweep(mid, dev, ws, names).modules && h.id in mid.modules
                            && (h.id in pre.modules ==> SerialOf(pre, h) == mid.modules[h.id].serial)
                            && (h.id !in pre.modules ==> FromWinner(mid.modules[h.id], dev, ws))
    ensures h.InStorage? ==> h.id in mid.items && h.id in pre.items && SerialOf(pre, h) == mid.items[h.id].serial
  {
    hide FromWinner, OneRow, Stays, Claimed;
  }

  lemma CleanAfterSweep(pre: Db, dev: nat, ws: seq<Winner>, mid: Db, names: set<string>)
    requires Clean(pre) && Taken(pre, dev, ws, mid) && NormalWinners(ws)
    ensures Clean(Sweep(mid, dev, ws, names))
  {
    hide CleanAt, Normal, OneRow;
    NoKeyForNone();
    forall h
      ensures CleanAt(SerialOf(Sweep(mid, dev, ws, names), h))
    {
      if SerialOf(Sweep(mid, dev, ws, names), h) != None {
        InPost(pre, dev, ws, mid, names, h);
        assert CleanAt(SerialOf(pre, h));
        if h.InModule? && h.id !in pre.modules {
          var w :| w in ws && mid.modules[h.id] == NewRow(dev, w);
          NormalKey(w.serial);
        }
      }
    }
  }

  /** The clean-up spares a stale twin. */
  lemma TwinStays(pre: Db, dev: nat, ws: seq<Winner>, mid: Db, names: set<string>, id: nat, w: Winner)
    requires OldRows(pre, dev, ws, mid) && DistinctKeys(ws) && Normal(w.serial)
    requires id in pre.modules && w in ws && IsTwin(pre.modules[id], dev, w)
    ensures var post := Sweep(mid, dev, ws, names);
            id in post.modules && post.modules[id].serial == pre.modules[id].serial
  {
    hide Normal, IsTransceiver, IExact, DistinctKeys, Bears;
    var m := pre.modules[id];
    forall v | v in ws && IExact(m.serial, v.serial)
      ensures v == w
    {
      SameClaim(ws, m.serial, v, w);
    }
    assert Stays(m, dev, ws);
    BearsNumber(mid.modules[id], w);
  }

  /** A stale twin and the winner's row end up with the same number. */
  lemma TwinIsSecond(pre: Db, dev: nat, ws: seq<Winner>, mid: Db, names: set<string>)
    requires Taken(pre, dev, ws, mid) && DistinctKeys(ws) && NormalWinners(ws) && StaleTwin(pre, dev, ws)
    ensures !Unique(Sweep(mid, dev, ws, names))
  {
    hide KeyAt, CleanAt, Normal, Upper, IsTransceiver, IExact, OldRows, NewRows, ItemsTaken, DistinctKeys, Sweep;
    var post := Sweep(mid, dev, ws, names);
    var id, w :| id in pre.modules && w in ws && IsTwin(pre.modules[id], dev, w);
    TwinStays(pre, dev, ws, mid, names, id, w);
    WinnerRowSurvives(mid, dev, ws, names, w);
    var r :| r in post.modules && IsRow(post.modules[r], dev, w);
    NormalKey(w.serial);
    LookupFindsKey(pre.modules[id].serial, w.serial);
    assert SameKey(SerialOf(post, InModule(id)), SerialOf(post, InModule(r)));
  }

  lemma SameClaim(ws: seq<Winner>, v: Option<string>, a: Winner, b: Winner)
    requires DistinctKeys(ws) && a in ws && b in ws && IExact(v, a.serial) && IExact(v, b.serial)
    ensures a == b
  {
    SameWinner(ws, a, b);
  }

  lemma TakenKeepsTables(pre: Db, dev: nat, ws: seq<Winner>, mid: Db, names: set<string>)
    requires TablesOk(pre) && Taken(pre, dev, ws, mid)
    ensures TablesOk(Sweep(mid, dev, ws, names))
  {
    hide OneRow, FromWinner, OldRows, Claimed;
  }

  /** Applying an inventory report keeps every serial number unique exactly when the device holds no
      stale twin of a reported transceiver name. Without such names it always does. */
  lemma InventoryKeepsSerialsUnique(pre: Db, dev: nat, entries: seq<Entry>)
    requires SerialsOk(pre) && TablesOk(pre)
    ensures ApplyInventory(pre, dev, entries).Some? && TablesOk(ApplyInventory(pre, dev, entries).value)
    ensures SerialsOk(ApplyInventory(pre, dev, entries).value) <==> !StaleTwin(pre, dev, Winners(entries))
  {
    hide TablesOk, Taken, Winners, SerialLess, Sweep, DistinctKeys, NormalWinners, Clean, StaleTwin, SameKey;
    var ws, names := Winners(entries), SerialLess(entries);
    WinnersAreElected(entries);
    WinnersTaken(pre, dev, ws);
    var mid := ApplyWinners(pre, dev, ws).value;
    TakenKeepsTables(pre, dev, ws, mid, names);
    CleanAfterSweep(pre, dev, ws, mid, names);
    if StaleTwin(pre, dev, ws) {
      TwinIsSecond(pre, dev, ws, mid, names);
    } else {
      forall h, k | h != k
        ensures !SameKey(SerialOf(Sweep(mid, dev, ws, names), h), SerialOf(Sweep(mid, dev, ws, names), k))
      {
        if SameKey(SerialOf(Sweep(mid, dev, ws, names), h), SerialOf(Sweep(mid, dev, ws, names), k)) {
          SameHolder(pre, dev, ws, mid, names, h, k);
        }
      }
    }
  }

  /** A report whose lines are not named like transceivers has no stale twin. */
  lemma PlainNamesHaveNoTwin(pre: Db, dev: nat, entries: seq<Entry>)
    requires forall e :: e in entries ==> !IsTransceiver(EntryName(e))
    ensures !StaleTwin(pre, dev, Winners(entries))
  {
    hide EntryName, EntrySerial, Winners, Priority, IsTransceiver;
    WinnersAreElected(entries);
    var ws := Winners(entries);
    forall w | w in ws
      ensures !IsTransceiver(w.name)
    {
      var k :| 0 <= k < |ws| && ws[k] == w;
      assert IsElected(entries, ws[k]);
      var i :| Elected(entries, w, i);
      assert entries[i] in entries;
    }
  }

  /** The failing case: a transceiver module whose number is stored in lower case. */
  const TWIN_DB := Db(map[], map[0 := Module(7, "Transceiver Eth1", None, None, None, Some("fns1"))], map[], 1)
  const TWIN_REPORT := [Entry("Transceiver Eth1", "", "FNS1", "")]

  lemma PlainText(s: string)
    requires s != "" && Trimmed(s)
    ensures Strip(s) == s
    ensures |s| == 4 ==> NormalizeSerial(Some(s)) == Some(s)
  {
    hide LStrip, RStrip, Strip, IsSpace;
    StripTrims(s);
  }

  lemma TwinTexts()
    ensures Trimmed("FNS1") && Trimmed("fns1") && Trimmed("Transceiver Eth1")
  {
  }

  lemma TwinReport()
    ensures EntrySerial(TWIN_REPORT[0]) == Some("FNS1") && EntryName(TWIN_REPORT[0]) == "Transceiver Eth1"
  {
    hide Strip, NormalizeSerial, Trimmed, Placeholder;
    TwinTexts();
    PlainText("FNS1");
    PlainText("Transceiver Eth1");
    assert TWIN_REPORT[0] == Entry("Transceiver Eth1", "", "FNS1", "");
  }

  lemma StoredTwinIsClean()
    ensures CleanAt(Some("fns1"))
  {
    hide NormalizeSerial, Trimmed;
    TwinTexts();
    PlainText("fns1");
  }

  lemma StoredTwinIsOk()
    ensures SerialsOk(TWIN_DB) && TablesOk(TWIN_DB)
  {
    StoredTwinIsClean();
    NoKeyForNone();
    hide KeyAt, CleanAt, NormalizeSerial;
    assert forall h :: h != InModule(0) ==> SerialOf(TWIN_DB, h) == None;
  }

  lemma TwinWinners(w: Winner)
    requires w == Winner("Transceiver Eth1", "", "FNS1")
    ensures Winners(TWIN_REPORT) == [w]
  {
    TwinReport();
    hide EntrySerial, EntryName, Priority, Upper;
    assert TWIN_REPORT[..0] == [] && Winners([]) == [];
    assert Position([], EntryKey(TWIN_REPORT[0])) == None;
  }

  /** From tables in order the report leaves the same number in two modules. */
  lemma TransceiverNameBreaksUniqueness()
    ensures SerialsOk(TWIN_DB) && TablesOk(TWIN_DB)
    ensures ApplyInventory(TWIN_DB, 7, TWIN_REPORT).Some? && !SerialsOk(ApplyInventory(TWIN_DB, 7, TWIN_REPORT).value)
  {
    hide SerialsOk, TablesOk, ApplyInventory, Winners, StaleTwin;
    StoredTwinIsOk();
    InventoryKeepsSerialsUnique(TWIN_DB, 7, TWIN_REPORT);
    var w := Winner("Transceiver Eth1", "", "FNS1");
    TwinWinners(w);
    TwinIsThere(w);
  }

  lemma TwinIsThere(w: Winner)
    requires w == Winner("Transceiver Eth1", "", "FNS1")
    ensures StaleTwin(TWIN_DB, 7, [w])
  {
    assert Upper("fns1") == "FNS1" == Upper("FNS1");
    assert 0 in TWIN_DB.modules && w in [w] && IsTwin(TWIN_DB.modules[0], 7, w);
  }

  // ------------------------------------------------------------------------------- a second report

  /** The tables already are what the winner would make of them. */
  ghost predicate Stable(db: Db, dev: nat, w: Winner) {
    && (forall id :: id in db.items ==> !IExact(db.items[id].serial, w.serial))
    && (forall id :: id in db.modules && IExact(db.modules[id].serial, w.serial) ==>
          db.modules[id].device == dev && db.modules[id].name == w.name)
    && OneRow(db, dev, w)
    && (forall id :: id in db.modules && IsRow(db.modules[id], dev, w) ==>
        db.modules[id] == Refreshed(db.modules[id], w))
  }

  lemma StableIsFixed(db: Db, dev: nat, w: Winner)
    requires Stable(db, dev, w)
    ensures Upsert(Reconcile(db, dev, w.name, w.serial), dev, w) == Some(db)
  {
    hide IExact;
    var r := Reconcile(db, dev, w.name, w.serial);
    assert r.items == db.items && r.modules == db.modules;
    assert r == db;
    var ids := RowIds(db, dev, w);
    var id :| id in db.modules && IsRow(db.modules[id], dev, w);
    assert ids == {id};
    assert |ids| == 1;
    var u := Upsert(r, dev, w).value;
    assert u == db.(modules := u.modules);
    assert u.modules == db.modules;
  }

  lemma {:induction false} StableWinners(db: Db, dev: nat, ws: seq<Winner>)
    requires forall w :: w in ws ==> Stable(db, dev, w)
    ensures ApplyWinners(db, dev, ws) == Some(db)
  {
    if ws != [] {
      StableWinners(db, dev, ws[..|ws| - 1]);
      StableIsFixed(db, dev, ws[|ws| - 1]);
    }
  }

  lemma WinnersAreStable(pre: Db, dev: nat, ws: seq<Winner>, mid: Db, names: set<string>, w: Winner)
    requires Taken(pre, dev, ws, mid) && DistinctKeys(ws) && NormalWinners(ws) && w in ws
    ensures Stable(Sweep(mid, dev, ws, names), dev, w)
  {
    hide IExact, Normal, DistinctKeys, OneRow, Claimed, Obsolete, Blank;
    var post := Sweep(mid, dev, ws, names);
    WinnerRowSurvives(mid, dev, ws, names, w);
    forall id | id in post.modules && IExact(post.modules[id].serial, w.serial)
      ensures post.modules[id].device == dev && post.modules[id].name == w.name
    {
      HolderIsNamed(pre, dev, ws, mid, id, w);
    }
    forall id | id in post.items
      ensures !IExact(post.items[id].serial, w.serial)
    {
      NotClaimed(pre.items[id].serial, ws, w);
    }
    forall id | id in post.modules && IsRow(post.modules[id], dev, w)
      ensures post.modules[id] == Refreshed(post.modules[id], w)
    {
      StoredAsReported(pre, dev, ws, mid, id, w);
    }
  }

  lemma NotClaimed(v: Option<string>, ws: seq<Winner>, w: Winner)
    requires !Claimed(v, ws) && w in ws
    ensures !IExact(v, w.serial)
  {
  }

  /** Applying the same report again changes nothing. */
  lemma InventoryIsIdempotent(pre: Db, dev: nat, entries: seq<Entry>)
    requires Unique(pre) && TablesOk(pre)
    ensures ApplyInventory(pre, dev, entries).Some?
    ensures ApplyInventory(ApplyInventory(pre, dev, entries).value, dev, entries) == ApplyInventory(pre, dev, entries)
  {
    hide Unique, TablesOk, Taken, Winners, SerialLess, DistinctKeys, NormalWinners, Stable, Obsolete, Blank;
    var ws, names := Winners(entries), SerialLess(entries);
    WinnersAreElected(entries);
    WinnersTaken(pre, dev, ws);
    var mid := ApplyWinners(pre, dev, ws).value;
    var post := Sweep(mid, dev, ws, names);
    forall w | w in ws
      ensures Stable(post, dev, w)
    {
      WinnersAreStable(pre, dev, ws, mid, names, w);
    }
    StableWinners(post, dev, ws);
    assert Sweep(post, dev, ws, names).modules == post.modules;
  }

  // --------------------------------------------------------------------------- reports without numbers

  lemma NoWinners(entries: seq<Entry>)
    requires forall j, w :: 0 <= j < |entries| ==> !Reports(entries[j], w)
    ensures Winners(entries) == []
  {
    hide Winners, Reports;
    var ws := Winners(entries);
    assert |ws| > 0 ==> ws[0] in ws;
    forall w
      ensures w in ws ==> exists j :: 0 <= j < |entries| && Reports(entries[j], w)
    {
      WinnerIsReported(entries, w);
    }
  }

  lemma WinnerIsReported(entries: seq<Entry>, w: Winner)
    ensures w in Winners(entries) ==> exists j :: 0 <= j < |entries| && Reports(entries[j], w)
  {
    hide Winners, Reports, ComesAfter;
    WinnersAreBest(entries);
    if w in Winners(entries) {
      var i :| IsBest(entries, w, i);
    }
  }

  /** A report whose lines have no valid number, placeholders included, takes no number from anybody: only
      rows of the device without a number go, those that the report names. */
  lemma PlaceholdersTakeNothing(pre: Db, dev: nat, entries: seq<Entry>)
    requires forall j, w :: 0 <= j < |entries| ==> !Reports(entries[j], w)
    ensures ApplyInventory(pre, dev, entries).Some?
    ensures var post := ApplyInventory(pre, dev, entries).value;
            && post.items == pre.items && post.devices == pre.devices && post.next == pre.next
            && (forall id :: id in post.modules ==> id in pre.modules && post.modules[id] == pre.modules[id])
            && (forall id :: id in pre.modules ==>
                  (id in post.modules <==>
                     !(&& pre.modules[id].device == dev
                       && (pre.modules[id].serial == None || pre.modules[id].serial == Some(""))
                       && exists j :: 0 <= j < |entries| && ReportsNone(entries[j], pre.modules[id].name))))
  {
    NoWinners(entries);
    WinnersAreBest(entries);
    hide Winners, Reports, ReportsNone, SerialLess;
    assert ApplyWinners(pre, dev, []) == Some(pre);
  }

  /** The rows after a report. With no number reported only rows of the device may have gone. */
  ghost predicate InventoryDone(pre: Db, dev: nat, entries: seq<Entry>, post: Db) {
    && OwnUnclaimed(pre, dev, Winners(entries), SerialLess(entries), post)
    && (Winners(entries) != [] ==> Owns(pre, dev, Winners(entries), post))
    && (Winners(entries) == [] ==> OnlyOwnGo(pre, dev, post))
  }

  ghost predicate OnlyOwnGo(pre: Db, dev: nat, post: Db) {
    && post.items == pre.items
    && (forall id :: id in post.modules ==> id in pre.modules && post.modules[id] == pre.modules[id])
    && (forall id :: id in pre.modules && pre.modules[id].device != dev ==> id in post.modules)
  }

  lemma InventoryIsDone(pre: Db, dev: nat, entries: seq<Entry>)
    requires SerialsOk(pre) && TablesOk(pre)
    ensures ApplyInventory(pre, dev, entries).Some?
    ensures InventoryDone(pre, dev, entries, ApplyInventory(pre, dev, entries).value)
  {
    hide Unique, Clean, TablesOk, Winners, SerialLess, ApplyInventory, Owns, OwnUnclaimed, OnlyOwnGo;
    InventorySparesUnclaimed(pre, dev, entries);
    if Winners(entries) != [] {
      InventoryTakesOver(pre, dev, entries);
    } else {
      SweepTakesOwn(pre, dev, entries);
    }
  }

  lemma SweepTakesOwn(pre: Db, dev: nat, entries: seq<Entry>)
    requires Winners(entries) == []
    ensures ApplyInventory(pre, dev, entries).Some?
    ensures OnlyOwnGo(pre, dev, ApplyInventory(pre, dev, entries).value)
  {
    hide Winners, SerialLess;
  }
}
