/** What the transceiver step of a synchronisation leaves behind, said without its loop. */
module TransceiverOwnership {
  import opened Options
  import opened Sets
  import opened Text
  import opened SerialModel
  import opened InventorySync
  import opened InventoryOwnership
  import opened SerialProtocol

  /** The row is what the entry reports. */
  predicate Reflects(m: Module, e: Transceiver) {
    m.description == e.description && m.vendor == None && m.serial == NormalizeSerial(e.serial)
  }

  /** The device has one module of the reported name, and it is as reported. */
  ghost predicate Holds(db: Db, dev: nat, e: Transceiver)
    requires Named(e)
  {
    exists id :: NameIds(db, dev, e.name.value) == {id} && Reflects(db.modules[id], e)
  }

  /** The entry claims the number in the column. */
  predicate Claims(e: Transceiver, v: Option<string>) {
    Named(e) && NormalizeSerial(e.serial).Some? && IExact(v, NormalizeSerial(e.serial).value)
  }

  ghost predicate ClaimedBy(es: seq<Transceiver>, v: Option<string>) {
    exists i :: 0 <= i < |es| && Claims(es[i], v)
  }

  /** A later entry with the same name or the same number supersedes an earlier one. */
  predicate Supersedes(later: Transceiver, e: Transceiver) {
    Named(later) && (later.name == e.name || Claims(later, NormalizeSerial(e.serial)))
  }

  // ---------------------------------------------------------------------------- the entry's own row

  lemma UpsertNamedHolds(db: Db, dev: nat, e: Transceiver)
    requires TablesOk(db) && Named(e)
    requires UpsertNamed(db, dev, e.name.value, e.description, NormalizeSerial(e.serial)).Some?
    ensures Holds(UpsertNamed(db, dev, e.name.value, e.description, NormalizeSerial(e.serial)).value, dev, e)
  {
    hide NormalizeSerial;
    var name := e.name.value;
    var after := UpsertNamed(db, dev, name, e.description, NormalizeSerial(e.serial)).value;
    var ids := NameIds(db, dev, name);
    if ids == {} {
      assert forall id :: id in db.modules && db.modules[id].device == dev && db.modules[id].name == name ==> id in ids;
      assert NameIds(after, dev, name) == {db.next};
    } else {
      var id :| id in ids;
      OnlyMember(ids, id);
      assert NameIds(after, dev, name) == {id};
    }
  }

  lemma UpsertOtherName(db: Db, dev: nat, name: string, descr: Option<string>, serial: Option<string>, other: string)
    requires TablesOk(db) && name != other && UpsertNamed(db, dev, name, descr, serial).Some?
    ensures var after := UpsertNamed(db, dev, name, descr, serial).value;
            && NameIds(after, dev, other) == NameIds(db, dev, other)
            && forall id :: id in NameIds(db, dev, other) ==> after.modules[id] == db.modules[id]
  {
  }

  lemma ReconcileSpares(db: Db, dev: nat, name: string, serial: string, e: Transceiver)
    requires Named(e) && Holds(db, dev, e) && !IExact(NormalizeSerial(e.serial), serial)
    ensures Holds(Reconcile(db, dev, name, serial), dev, e)
  {
    hide NormalizeSerial, IExact;
    var id :| NameIds(db, dev, e.name.value) == {id} && Reflects(db.modules[id], e);
    assert id in NameIds(db, dev, e.name.value);
    var after := Reconcile(db, dev, name, serial);
    assert id in after.modules;
    forall k | k in NameIds(after, dev, e.name.value)
      ensures k == id
    {
      assert k in NameIds(db, dev, e.name.value);
    }
    assert NameIds(after, dev, e.name.value) == {id};
  }

  lemma ReconcileKeepsTables(db: Db, dev: nat, name: string, serial: string)
    requires TablesOk(db)
    ensures TablesOk(Reconcile(db, dev, name, serial))
  {
    hide IExact;
  }

  lemma OtherEntrySpares(db: Db, dev: nat, e: Transceiver, later: Transceiver)
    requires TablesOk(db) && Named(e) && Holds(db, dev, e) && !Supersedes(later, e)
    requires ApplyTransceiver(db, dev, later).Some?
    ensures Holds(ApplyTransceiver(db, dev, later).value, dev, e)
  {
    hide TablesOk, NormalizeSerial, UpsertNamed, Reconcile, IExact, Holds;
    if Named(later) {
      var s := NormalizeSerial(later.serial);
      var r := if s.Some? then Reconcile(db, dev, later.name.value, s.value) else db;
      if s.Some? {
        ReconcileSpares(db, dev, later.name.value, s.value, e);
        ReconcileKeepsTables(db, dev, later.name.value, s.value);
      }
      UpsertSpares(r, dev, later.name.value, later.description, s, e);
    }
  }

  lemma UpsertSpares(db: Db, dev: nat, name: string, descr: Option<string>, serial: Option<string>, e: Transceiver)
    requires TablesOk(db) && Named(e) && Holds(db, dev, e) && name != e.name.value
    requires UpsertNamed(db, dev, name, descr, serial).Some?
    ensures Holds(UpsertNamed(db, dev, name, descr, serial).value, dev, e)
  {
    hide TablesOk, UpsertNamed, NormalizeSerial;
    UpsertOtherName(db, dev, name, descr, serial, e.name.value);
    var id :| NameIds(db, dev, e.name.value) == {id} && Reflects(db.modules[id], e);
  }

  lemma OwnEntryHolds(db: Db, dev: nat, e: Transceiver)
    requires TablesOk(db) && Named(e) && ApplyTransceiver(db, dev, e).Some?
    ensures Holds(ApplyTransceiver(db, dev, e).value, dev, e)
  {
    hide TablesOk, UpsertNamed, Reconcile, NormalizeSerial, Holds;
    var s := NormalizeSerial(e.serial);
    if s.Some? {
      ReconcileKeepsTables(db, dev, e.name.value, s.value);
    }
    UpsertNamedHolds(if s.Some? then Reconcile(db, dev, e.name.value, s.value) else db, dev, e);
  }

  lemma {:induction false} LoopHolds(db: Db, dev: nat, es: seq<Transceiver>, i: nat)
    requires SerialsOk(db) && TablesOk(db) && ApplyEach(db, dev, es).Some?
    requires i < |es| && Named(es[i]) && forall j :: i < j < |es| ==> !Supersedes(es[j], es[i])
    ensures Holds(ApplyEach(db, dev, es).value, dev, es[i])
  {
    hide SerialsOk, TablesOk, ApplyTransceiver, Holds, Supersedes;
    var n := |es| - 1;
    ApplyEachKeeps(db, dev, es[..n]);
    var d := ApplyEach(db, dev, es[..n]).value;
    if i == n {
      OwnEntryHolds(d, dev, es[n]);
    } else {
      LoopHolds(db, dev, es[..n], i);
      OtherEntrySpares(d, dev, es[i], es[n]);
    }
  }

  lemma DropSpares(db: Db, dev: nat, names: set<string>, e: Transceiver)
    requires Named(e) && Holds(db, dev, e) && e.name.value in names
    ensures Holds(DropUnseen(db, dev, names), dev, e)
  {
    hide NormalizeSerial, IsTransceiver;
    var id :| NameIds(db, dev, e.name.value) == {id} && Reflects(db.modules[id], e);
    var after := DropUnseen(db, dev, names);
    assert id in NameIds(db, dev, e.name.value) && id in after.modules;
    forall k | k in NameIds(after, dev, e.name.value)
      ensures k == id
    {
      assert k in NameIds(db, dev, e.name.value);
    }
    assert NameIds(after, dev, e.name.value) == {id};
  }

  // ------------------------------------------------------------------------------- everybody else

  /** Storage items and other devices' modules lose the claimed rows and nothing else. */
  ghost predicate OthersLose(db: Db, after: Db, dev: nat, es: seq<Transceiver>) {
    && (forall id :: id in after.items <==> id in db.items && !ClaimedBy(es, db.items[id].serial))
    && (forall id :: id in after.items ==> after.items[id] == db.items[id])
    && (forall id :: id in db.modules && db.modules[id].device != dev ==>
          (id in after.modules <==> !ClaimedBy(es, db.modules[id].serial))
          && (id in after.modules ==> after.modules[id] == db.modules[id]))
    && (forall id :: id in after.modules && after.modules[id].device != dev ==>
        id in db.modules && after.modules[id] == db.modules[id])
    && after.devices == db.devices && after.next >= db.next
  }

  lemma ClaimedByMore(es: seq<Transceiver>, e: Transceiver, v: Option<string>)
    ensures ClaimedBy(es + [e], v) <==> ClaimedBy(es, v) || Claims(e, v)
  {
    hide Claims;
    var all := es + [e];
    assert all[|es|] == e;
    if i :| 0 <= i < |es| && Claims(es[i], v) {
      assert Claims(all[i], v);
    }
  }

  /** One entry, as a change of rows. */
  ghost predicate EntryLoses(mid: Db, after: Db, dev: nat, e: Transceiver) {
    && (forall id :: id in after.items <==> id in mid.items && !Claims(e, mid.items[id].serial))
    && (forall id :: id in after.items ==> after.items[id] == mid.items[id])
    && (forall id :: id in mid.modules && mid.modules[id].device != dev ==>
          (id in after.modules <==> !Claims(e, mid.modules[id].serial))
          && (id in after.modules ==> after.modules[id] == mid.modules[id]))
    && (forall id :: id in after.modules && after.modules[id].device != dev ==>
        id in mid.modules && after.modules[id] == mid.modules[id])
    && after.devices == mid.devices && after.next >= mid.next
    && (forall id :: id in after.modules && id !in mid.modules ==> id >= mid.next)
  }

  /** Reconciling an entry: the claimed rows go, all others stay as they are. */
  ghost predicate ClaimedGo(db: Db, r: Db, dev: nat, e: Transceiver) {
    && (forall id :: id in r.items <==> id in db.items && !Claims(e, db.items[id].serial))
    && (forall id :: id in r.items ==> r.items[id] == db.items[id])
    && (forall id :: id in db.modules && db.modules[id].device != dev ==>
        (id in r.modules <==> !Claims(e, db.modules[id].serial)))
    && (forall id :: id in r.modules ==> id in db.modules && r.modules[id] == db.modules[id])
    && r.devices == db.devices && r.next == db.next
  }

  /** Storing an entry: only rows of the device change, and a new row has an unused key. */
  ghost predicate OwnRowsChange(r: Db, after: Db, dev: nat) {
    && after.items == r.items && after.devices == r.devices && after.next >= r.next
    && (forall id :: id in r.modules && r.modules[id].device != dev ==>
        id in after.modules && after.modules[id] == r.modules[id])
    && (forall id :: id in after.modules && after.modules[id].device != dev ==>
        id in r.modules && after.modules[id] == r.modules[id])
    && (forall id :: id in after.modules && id !in r.modules ==> id >= r.next)
  }

  lemma UpsertChangesOwn(r: Db, dev: nat, name: string, descr: Option<string>, serial: Option<string>)
    requires TablesOk(r) && UpsertNamed(r, dev, name, descr, serial).Some?
    ensures OwnRowsChange(r, UpsertNamed(r, dev, name, descr, serial).value, dev)
  {
  }

  lemma ReconcileTakesClaimed(db: Db, dev: nat, e: Transceiver)
    requires Named(e)
    ensures var s := NormalizeSerial(e.serial);
            ClaimedGo(db, if s.Some? then Reconcile(db, dev, e.name.value, s.value) else db, dev, e)
  {
    hide NormalizeSerial, IExact;
  }

  lemma BothLose(db: Db, r: Db, after: Db, dev: nat, e: Transceiver)
    requires TablesOk(db) && ClaimedGo(db, r, dev, e) && OwnRowsChange(r, after, dev)
    ensures EntryLoses(db, after, dev, e)
  {
    hide Claims;
    assert forall id :: id in db.modules ==> id < db.next;
  }

  lemma OneEntryLoses(db: Db, dev: nat, e: Transceiver)
    requires TablesOk(db) && ApplyTransceiver(db, dev, e).Some?
    ensures EntryLoses(db, ApplyTransceiver(db, dev, e).value, dev, e)
  {
    if Named(e) {
      hide TablesOk, UpsertNamed, NormalizeSerial, Reconcile, ClaimedGo, OwnRowsChange, EntryLoses;
      var s := NormalizeSerial(e.serial);
      var r := if s.Some? then Reconcile(db, dev, e.name.value, s.value) else db;
      if s.Some? {
        ReconcileKeepsTables(db, dev, e.name.value, s.value);
      }
      ReconcileTakesClaimed(db, dev, e);
      UpsertChangesOwn(r, dev, e.name.value, e.description, s);
      BothLose(db, r, ApplyTransceiver(db, dev, e).value, dev, e);
    }
  }

  /** A row that is gone does not come back: its key is below the unused ones. */
  lemma LosesMore(db: Db, mid: Db, after: Db, dev: nat, es: seq<Transceiver>, e: Transceiver)
    requires TablesOk(db) && OthersLose(db, mid, dev, es) && EntryLoses(mid, after, dev, e)
    ensures OthersLose(db, after, dev, es + [e])
  {
    hide Claims, ClaimedBy;
    forall v
      ensures ClaimedBy(es + [e], v) <==> ClaimedBy(es, v) || Claims(e, v)
    {
      ClaimedByMore(es, e, v);
    }
    assert forall id :: id in db.modules ==> id < db.next;
  }

  lemma {:induction false} LoopLoses(db: Db, dev: nat, es: seq<Transceiver>)
    requires SerialsOk(db) && TablesOk(db) && ApplyEach(db, dev, es).Some?
    ensures OthersLose(db, ApplyEach(db, dev, es).value, dev, es)
  {
    if es != [] {
      hide SerialsOk, TablesOk, ApplyTransceiver, OthersLose, EntryLoses;
      var init, e := es[..|es| - 1], es[|es| - 1];
      assert init + [e] == es;
      LoopLoses(db, dev, init);
      ApplyEachKeeps(db, dev, init);
      var mid := ApplyEach(db, dev, init).value;
      OneEntryLoses(mid, dev, e);
      LosesMore(db, mid, ApplyTransceiver(mid, dev, e).value, dev, init, e);
    }
  }

  // ------------------------------------------------------------------------------ the device's rows

  /** The rows of a name that no entry reports: those that no entry claims. */
  ghost predicate NameLeft(db: Db, after: Db, dev: nat, es: seq<Transceiver>, name: string) {
    && (forall id :: id in NameIds(after, dev, name) <==>
        id in NameIds(db, dev, name) && !ClaimedBy(es, db.modules[id].serial))
    && (forall id :: id in NameIds(after, dev, name) ==> after.modules[id] == db.modules[id])
  }

  ghost predicate UnseenLeft(db: Db, after: Db, dev: nat, es: seq<Transceiver>) {
    forall name :: name !in SeenNames(es) ==> NameLeft(db, after, dev, es, name)
  }

  ghost predicate SeenOnce(after: Db, dev: nat, es: seq<Transceiver>) {
    forall name :: name in SeenNames(es) ==> |NameIds(after, dev, name)| <= 1
  }

  /** What one entry does to the rows of another name. */
  ghost predicate NameThinned(mid: Db, after: Db, dev: nat, e: Transceiver, name: string) {
    && (forall id :: id in NameIds(after, dev, name) <==>
        id in NameIds(mid, dev, name) && !Claims(e, mid.modules[id].serial))
    && (forall id :: id in NameIds(after, dev, name) ==> after.modules[id] == mid.modules[id])
  }

  lemma ReconciledNames(db: Db, dev: nat, e: Transceiver, name: string)
    requires Named(e)
    ensures var s := NormalizeSerial(e.serial);
            var r := if s.Some? then Reconcile(db, dev, e.name.value, s.value) else db;
            && (name == e.name.value ==> NameIds(r, dev, name) == NameIds(db, dev, name))
            && (name != e.name.value ==> NameThinned(db, r, dev, e, name))
  {
    hide NormalizeSerial, IExact;
  }

  lemma OtherNameThinned(db: Db, dev: nat, e: Transceiver, name: string)
    requires TablesOk(db) && ApplyTransceiver(db, dev, e).Some? && (Named(e) ==> name != e.name.value)
    ensures NameThinned(db, ApplyTransceiver(db, dev, e).value, dev, e, name)
  {
    hide TablesOk, UpsertNamed, Reconcile, NormalizeSerial, NameIds, IExact;
    if Named(e) {
      var s := NormalizeSerial(e.serial);
      var r := if s.Some? then Reconcile(db, dev, e.name.value, s.value) else db;
      if s.Some? {
        ReconcileKeepsTables(db, dev, e.name.value, s.value);
      }
      ReconciledNames(db, dev, e, name);
      UpsertOtherName(r, dev, e.name.value, e.description, s, name);
    }
  }

  /** An entry raises exactly when the device has two rows of its name at its turn. */
  lemma EntryRaises(db: Db, dev: nat, e: Transceiver)
    ensures ApplyTransceiver(db, dev, e).None? <==> Named(e) && |NameIds(db, dev, e.name.value)| > 1
  {
    hide NormalizeSerial, NameIds;
    if Named(e) {
      ReconciledNames(db, dev, e, e.name.value);
    }
  }

  lemma SeenMoreNames(es: seq<Transceiver>, e: Transceiver)
    ensures SeenNames(es + [e]) == SeenNames(es) + if Named(e) then {e.name.value} else {}
  {
    var all := es + [e];
    assert all[|es|] == e && forall k :: 0 <= k < |es| ==> all[k] == es[k];
    forall name | name in SeenNames(es)
      ensures name in SeenNames(all)
    {
      var k :| 0 <= k < |es| && Named(es[k]) && es[k].name.value == name;
      assert all[k].name.value == name;
    }
  }

  lemma NameLeftMore(db: Db, mid: Db, after: Db, dev: nat, es: seq<Transceiver>, e: Transceiver, name: string)
    requires NameLeft(db, mid, dev, es, name) && NameThinned(mid, after, dev, e, name)
    ensures NameLeft(db, after, dev, es + [e], name)
  {
    hide Claims, ClaimedBy;
    forall id
      ensures id in NameIds(after, dev, name) <==>
          id in NameIds(db, dev, name) && !ClaimedBy(es + [e], db.modules[id].serial)
    {
      if id in NameIds(db, dev, name) {
        ClaimedByMore(es, e, db.modules[id].serial);
      }
      assert id in NameIds(mid, dev, name) ==> mid.modules[id] == db.modules[id];
    }
  }

  lemma ThinnedIsSmaller(mid: Db, after: Db, dev: nat, e: Transceiver, name: string)
    requires NameThinned(mid, after, dev, e, name)
    ensures |NameIds(after, dev, name)| <= |NameIds(mid, dev, name)|
  {
    hide NameIds, Claims;
    SubsetIsSmaller(NameIds(after, dev, name), NameIds(mid, dev, name));
  }

  lemma RowsStep(db: Db, mid: Db, dev: nat, es: seq<Transceiver>, e: Transceiver)
    requires TablesOk(mid) && UnseenLeft(db, mid, dev, es) && SeenOnce(mid, dev, es)
        && ApplyTransceiver(mid, dev, e).Some?
    ensures var after := ApplyTransceiver(mid, dev, e).value;
            UnseenLeft(db, after, dev, es + [e]) && SeenOnce(after, dev, es + [e])
  {
    hide TablesOk, ApplyTransceiver, NameIds, NameLeft, NameThinned, Holds, SeenNames;
    var after := ApplyTransceiver(mid, dev, e).value;
    SeenMoreNames(es, e);
    forall name | name !in SeenNames(es + [e])
      ensures NameLeft(db, after, dev, es + [e], name)
    {
      OtherNameThinned(mid, dev, e, name);
      NameLeftMore(db, mid, after, dev, es, e, name);
    }
    forall name | name in SeenNames(es + [e])
      ensures |NameIds(after, dev, name)| <= 1
    {
      if Named(e) && name == e.name.value {
        OwnEntryHolds(mid, dev, e);
        HoldsOnce(after, dev, e);
      } else {
        OtherNameThinned(mid, dev, e, name);
        ThinnedIsSmaller(mid, after, dev, e, name);
      }
    }
  }

  lemma HoldsOnce(db: Db, dev: nat, e: Transceiver)
    requires Named(e) && Holds(db, dev, e)
    ensures |NameIds(db, dev, e.name.value)| == 1
  {
    hide NormalizeSerial;
  }

  // ------------------------------------------------------------------------------ when the step raises

  /** Before the step two modules of the device share the name that entry `i` reports, and no earlier entry
      claims the number of either. */
  ghost predicate Ambiguous(db: Db, dev: nat, es: seq<Transceiver>, i: nat)
    requires i < |es| && Named(es[i])
  {
    exists a, b :: a != b && Unclaimed(db, dev, es[..i], es[i].name.value, a)
        && Unclaimed(db, dev, es[..i], es[i].name.value, b)
  }

  ghost predicate Unclaimed(db: Db, dev: nat, es: seq<Transceiver>, name: string, id: nat) {
    && id in db.modules && db.modules[id].device == dev && db.modules[id].name == name
    && !ClaimedBy(es, db.modules[id].serial)
  }

  ghost predicate Raises(db: Db, dev: nat, es: seq<Transceiver>) {
    exists i: nat :: i < |es| && Named(es[i]) && Ambiguous(db, dev, es, i)
  }

  lemma RaisesMore(db: Db, dev: nat, es: seq<Transceiver>, e: Transceiver)
    ensures Raises(db, dev, es + [e]) <==>
              Raises(db, dev, es) || (Named(e) && Ambiguous(db, dev, es + [e], |es|))
  {
    hide Unclaimed;
    var all := es + [e];
    assert all[|es|] == e && all[..|es|] == es;
    forall i: nat | i < |es|
      ensures all[i] == es[i] && all[..i] == es[..i]
    {
    }
    if i: nat :| i < |es| && Named(es[i]) && Ambiguous(db, dev, es, i) {
      var a, b :| a != b && Unclaimed(db, dev, es[..i], es[i].name.value, a)
          && Unclaimed(db, dev, es[..i], es[i].name.value, b);
      assert Ambiguous(db, dev, all, i);
    }
    if i: nat :| i < |all| && Named(all[i]) && Ambiguous(db, dev, all, i) {
      if i < |es| {
        var a, b :| a != b && Unclaimed(db, dev, all[..i], all[i].name.value, a)
            && Unclaimed(db, dev, all[..i], all[i].name.value, b);
        assert Ambiguous(db, dev, es, i);
      }
    }
  }

  lemma FewerClaims(es: seq<Transceiver>, i: nat, v: Option<string>)
    requires i <= |es| && !ClaimedBy(es, v)
    ensures !ClaimedBy(es[..i], v)
  {
    hide Claims;
  }

  /** A name that was reported before is no longer ambiguous, or its first report already raised. */
  lemma SecondReportIsSafe(db: Db, dev: nat, es: seq<Transceiver>, e: Transceiver)
    requires Named(e) && e.name.value in SeenNames(es) && Ambiguous(db, dev, es + [e], |es|)
    ensures Raises(db, dev, es)
  {
    hide Claims, ClaimedBy;
    var all := es + [e];
    assert all[..|es|] == es && all[|es|] == e;
    var j: nat :| j < |es| && Named(es[j]) && es[j].name.value == e.name.value;
    var a, b :| a != b && Unclaimed(db, dev, all[..|es|], all[|es|].name.value, a)
        && Unclaimed(db, dev, all[..|es|], all[|es|].name.value, b);
    FewerClaims(es, j, db.modules[a].serial);
    FewerClaims(es, j, db.modules[b].serial);
    assert Unclaimed(db, dev, es[..j], es[j].name.value, a) && Unclaimed(db, dev, es[..j], es[j].name.value, b);
    assert Ambiguous(db, dev, es, j);
  }

  lemma FirstReport(db: Db, mid: Db, dev: nat, es: seq<Transceiver>, e: Transceiver)
    requires Named(e) && NameLeft(db, mid, dev, es, e.name.value)
    ensures |NameIds(mid, dev, e.name.value)| > 1 <==> Ambiguous(db, dev, es + [e], |es|)
  {
    hide ClaimedBy;
    var all, name := es + [e], e.name.value;
    assert all[..|es|] == es && all[|es|] == e;
    forall id
      ensures Unclaimed(db, dev, es, name, id) <==> id in NameIds(mid, dev, name)
    {
    }
    TwoMembers(NameIds(mid, dev, name));
    if |NameIds(mid, dev, name)| > 1 {
      var a, b :| a in NameIds(mid, dev, name) && b in NameIds(mid, dev, name) && a != b;
      assert Unclaimed(db, dev, all[..|es|], all[|es|].name.value, a)
          && Unclaimed(db, dev, all[..|es|], all[|es|].name.value, b);
    }
  }

  lemma {:induction false} LoopRaises(db: Db, dev: nat, es: seq<Transceiver>)
    requires SerialsOk(db) && TablesOk(db)
    ensures ApplyEach(db, dev, es).None? <==> Raises(db, dev, es)
    ensures ApplyEach(db, dev, es).Some? ==>
              var mid := ApplyEach(db, dev, es).value;
              UnseenLeft(db, mid, dev, es) && SeenOnce(mid, dev, es)
  {
    if es == [] {
      NothingReported(db, dev);
    } else {
      hide SerialsOk, TablesOk, ApplyTransceiver, UnseenLeft, SeenOnce, Raises, Ambiguous, SeenNames, NameIds;
      var init, e := es[..|es| - 1], es[|es| - 1];
      assert init + [e] == es;
      LoopRaises(db, dev, init);
      RaisesMore(db, dev, init, e);
      if ApplyEach(db, dev, init).Some? {
        var mid := ApplyEach(db, dev, init).value;
        ApplyEachKeeps(db, dev, init);
        EntryRaises(mid, dev, e);
        if Named(e) {
          TurnRaises(db, mid, dev, init, e);
        }
        if ApplyTransceiver(mid, dev, e).Some? {
          RowsStep(db, mid, dev, init, e);
        }
      }
    }
  }

  lemma TurnRaises(db: Db, mid: Db, dev: nat, es: seq<Transceiver>, e: Transceiver)
    requires Named(e) && UnseenLeft(db, mid, dev, es) && SeenOnce(mid, dev, es) && !Raises(db, dev, es)
    ensures |NameIds(mid, dev, e.name.value)| > 1 <==> Ambiguous(db, dev, es + [e], |es|)
  {
    hide Raises, Ambiguous, NameIds, SeenNames, NameLeft;
    if e.name.value in SeenNames(es) {
      if Ambiguous(db, dev, es + [e], |es|) {
        SecondReportIsSafe(db, dev, es, e);
      }
    } else {
      FirstReport(db, mid, dev, es, e);
    }
  }

  lemma NothingReported(db: Db, dev: nat)
    ensures UnseenLeft(db, db, dev, []) && SeenOnce(db, dev, []) && !Raises(db, dev, [])
        && ApplyEach(db, dev, []) == Some(db)
  {
  }

  /** The step raises exactly when, at the turn of some entry, two modules of the device share its name:
      two of the stored ones, neither taken by a number reported before. */
  lemma TransceiversRaiseExactly(db: Db, dev: nat, es: seq<Transceiver>)
    requires SerialsOk(db) && TablesOk(db)
    ensures ApplyTransceivers(db, dev, es).None? <==> Raises(db, dev, es)
  {
    hide SerialsOk, TablesOk, Raises, ApplyEach;
    LoopRaises(db, dev, es);
  }

  // ------------------------------------------------------------------------------ superseded entries

  /** Entry `i` is the last of its name, and a later one has its number. */
  predicate Outnumbered(es: seq<Transceiver>, i: nat)
    requires i < |es| && Named(es[i])
  {
    && (forall j :: i < j < |es| && Named(es[j]) ==> es[j].name != es[i].name)
    && exists j :: i < j < |es| && Claims(es[j], NormalizeSerial(es[i].serial))
  }

  lemma TakenByNumber(db: Db, dev: nat, e: Transceiver, later: Transceiver)
    requires TablesOk(db) && Named(e) && Holds(db, dev, e) && Claims(later, NormalizeSerial(e.serial))
        && later.name != e.name
    requires ApplyTransceiver(db, dev, later).Some?
    ensures NameIds(ApplyTransceiver(db, dev, later).value, dev, e.name.value) == {}
  {
    hide TablesOk, NormalizeSerial, ApplyTransceiver, IExact;
    OtherNameThinned(db, dev, later, e.name.value);
    var id :| NameIds(db, dev, e.name.value) == {id} && Reflects(db.modules[id], e);
  }

  lemma {:induction false} LoopTakes(db: Db, dev: nat, es: seq<Transceiver>, i: nat)
    requires SerialsOk(db) && TablesOk(db) && ApplyEach(db, dev, es).Some?
    requires i < |es| && Named(es[i]) && Outnumbered(es, i)
    ensures NameIds(ApplyEach(db, dev, es).value, dev, es[i].name.value) == {}
  {
    hide SerialsOk, TablesOk, ApplyTransceiver, Holds, Claims, NameIds;
    var n := |es| - 1;
    var init, e := es[..n], es[n];
    ApplyEachKeeps(db, dev, init);
    var mid := ApplyEach(db, dev, init).value;
    if exists j :: i < j < n && Claims(es[j], NormalizeSerial(es[i].serial)) {
      var j :| i < j < n && Claims(es[j], NormalizeSerial(es[i].serial));
      assert Claims(init[j], NormalizeSerial(init[i].serial));
      LoopTakes(db, dev, init, i);
      OtherNameThinned(mid, dev, e, es[i].name.value);
    } else {
      LoopHolds(db, dev, init, i);
      TakenByNumber(mid, dev, es[i], e);
    }
  }

  /** What becomes of the device's rows: one module as reported for each name whose last entry keeps its
      number, none for a name whose last entry loses it to a later one; and of the other rows, those go that
      bear a reported number or, once a name is reported, are named like transceivers. */
  ghost predicate DeviceHas(db: Db, after: Db, dev: nat, es: seq<Transceiver>) {
    && (forall i :: 0 <= i < |es| && Named(es[i]) && (forall j :: i < j < |es| ==> !Supersedes(es[j], es[i])) ==>
          Holds(after, dev, es[i]))
    && (forall i :: 0 <= i < |es| && Named(es[i]) && Outnumbered(es, i) ==> NameIds(after, dev, es[i].name.value) == {})
    && (forall name :: name !in SeenNames(es) ==>
          if IsTransceiver(name) && SeenNames(es) != {} then NameIds(after, dev, name) == {}
              else NameLeft(db, after, dev, es, name))
  }

  lemma DropKeepsNames(db: Db, dev: nat, names: set<string>, name: string)
    ensures var after := DropUnseen(db, dev, names);
            NameIds(after, dev, name)
            == if names != {} && IsTransceiver(name) && name !in names then {} else NameIds(db, dev, name)
    ensures forall id :: id in DropUnseen(db, dev, names).modules ==>
        DropUnseen(db, dev, names).modules[id] == db.modules[id]
  {
    hide IsTransceiver;
  }

  lemma DropKeepsLeft(db: Db, mid: Db, dev: nat, es: seq<Transceiver>, names: set<string>, name: string)
    requires NameLeft(db, mid, dev, es, name) && (names == {} || !IsTransceiver(name) || name in names)
    ensures NameLeft(db, DropUnseen(mid, dev, names), dev, es, name)
  {
    DropKeepsNames(mid, dev, names, name);
    hide DropUnseen, ClaimedBy, IsTransceiver;
  }

  lemma DropSparesOthers(db: Db, mid: Db, dev: nat, es: seq<Transceiver>, names: set<string>)
    requires OthersLose(db, mid, dev, es)
    ensures OthersLose(db, DropUnseen(mid, dev, names), dev, es)
  {
    hide ClaimedBy, IsTransceiver;
  }

  /** When the step succeeds the device has what `DeviceHas` says, and storage and the other devices lose
      exactly the rows whose number is reported. */
  lemma TransceiversTakeOver(db: Db, dev: nat, es: seq<Transceiver>)
    requires SerialsOk(db) && TablesOk(db) && ApplyTransceivers(db, dev, es).Some?
    ensures var after := ApplyTransceivers(db, dev, es).value;
            DeviceHas(db, after, dev, es) && OthersLose(db, after, dev, es)
  {
    hide SerialsOk, TablesOk, Holds, Supersedes, ApplyEach, IsTransceiver, DropUnseen, OthersLose, Outnumbered,
        NameLeft, SeenNames, NameIds;
    var mid := ApplyEach(db, dev, es).value;
    var names := SeenNames(es);
    LoopLoses(db, dev, es);
    LoopRaises(db, dev, es);
    DropSparesOthers(db, mid, dev, es, names);
    forall i | 0 <= i < |es| && Named(es[i])
      ensures es[i].name.value in names
    {
      EntryIsSeen(es, i);
    }
    forall i | 0 <= i < |es| && Named(es[i]) && forall j :: i < j < |es| ==> !Supersedes(es[j], es[i])
      ensures Holds(DropUnseen(mid, dev, names), dev, es[i])
    {
      LoopHolds(db, dev, es, i);
      DropSpares(mid, dev, names, es[i]);
    }
    forall i | 0 <= i < |es| && Named(es[i]) && Outnumbered(es, i)
      ensures NameIds(DropUnseen(mid, dev, names), dev, es[i].name.value) == {}
    {
      LoopTakes(db, dev, es, i);
      DropKeepsNames(mid, dev, names, es[i].name.value);
    }
    forall name | name !in names
      ensures if IsTransceiver(name) && names != {} then NameIds(DropUnseen(mid, dev, names), dev, name) == {}
              else NameLeft(db, DropUnseen(mid, dev, names), dev, es, name)
    {
      DropKeepsNames(mid, dev, names, name);
      if !(IsTransceiver(name) && names != {}) {
        DropKeepsLeft(db, mid, dev, es, names, name);
      }
    }
  }

  lemma EntryIsSeen(es: seq<Transceiver>, i: nat)
    requires i < |es| && Named(es[i])
    ensures es[i].name.value in SeenNames(es)
  {
  }

  /** A synchronisation completes unless the transceiver step, on the tables that the inventory leaves, raises. */
  ghost predicate SyncCompletes(db: Db, dev: nat, version: Option<string>, inventory: seq<Entry>,
      transceivers: Option<seq<Transceiver>>) {
    var left := ApplyInventory(ApplyVersion(db, dev, version), dev, inventory);
    transceivers.Some? && left.Some? ==> !Raises(left.value, dev, transceivers.value)
  }

  lemma SyncSucceedsExactly(db: Db, dev: nat, version: Option<string>, inventory: seq<Entry>,
      transceivers: Option<seq<Transceiver>>)
    requires SerialsOk(db) && TablesOk(db) && !StaleTwin(db, dev, Winners(inventory))
    ensures SyncDevice(db, dev, version, inventory, transceivers).Some? <==>
              SyncCompletes(db, dev, version, inventory, transceivers)
  {
    hide SerialsOk, TablesOk, ApplyInventory, ApplyTransceivers, StaleTwin, Winners, NormalizeSerial, Raises;
    var named := ApplyVersion(db, dev, version);
    DevicesDoNotCount(db, named, dev, Winners(inventory));
    InventoryKeepsSerialsUnique(named, dev, inventory);
    if transceivers.Some? {
      TransceiversRaiseExactly(ApplyInventory(named, dev, inventory).value, dev, transceivers.value);
    }
  }

  // ------------------------------------------------------------------------------ the device's own number

  lemma InventoryKeepsDevices(db: Db, dev: nat, entries: seq<Entry>)
    requires SerialsOk(db) && TablesOk(db)
    ensures ApplyInventory(db, dev, entries).Some? && ApplyInventory(db, dev, entries).value.devices == db.devices
  {
    hide SerialsOk, TablesOk, Winners, SerialLess, OldRows, ItemsTaken, OneRow;
    assert Unique(db) by { UniqueOf(db); }
    WinnersAreElected(entries);
    WinnersTaken(db, dev, Winners(entries));
  }

  lemma UniqueOf(db: Db)
    requires SerialsOk(db)
    ensures Unique(db)
  {
  }

  /** The reported number of the device: the trimmed text, when it is a number at all. */
  predicate ReportsOwn(version: Option<string>) {
    version.Some? && !StandsForNone(Strip(version.value))
  }

  ghost predicate DeviceNamed(db: Db, after: Db, dev: nat, version: Option<string>) {
    && after.devices.Keys == db.devices.Keys
    && (forall id :: id in db.devices && id != dev ==> after.devices[id] == db.devices[id])
    && (dev in db.devices && !ReportsOwn(version) ==> after.devices[dev] == db.devices[dev])
    && (dev in db.devices && ReportsOwn(version) ==>
          after.devices[dev] == db.devices[dev].(serial := Some(Strip(version.value))))
  }

  /** A synchronisation gives the device its reported number and changes no other column of any device. */
  lemma SyncNamesDevice(db: Db, dev: nat, version: Option<string>, inventory: seq<Entry>,
                        transceivers: Option<seq<Transceiver>>)
    requires SerialsOk(db) && TablesOk(db) && !StaleTwin(db, dev, Winners(inventory))
    requires SyncDevice(db, dev, version, inventory, transceivers).Some?
    ensures DeviceNamed(db, SyncDevice(db, dev, version, inventory, transceivers).value, dev, version)
  {
    hide SerialsOk, TablesOk, ApplyInventory, ApplyTransceivers, StaleTwin, Winners, NormalizeSerial, StandsForNone,
        Strip,
        DeviceHas;
    var named := ApplyVersion(db, dev, version);
    NormalizeSerialExactly(version);
    DevicesDoNotCount(db, named, dev, Winners(inventory));
    InventoryKeepsDevices(named, dev, inventory);
    InventoryKeepsSerialsUnique(named, dev, inventory);
    if transceivers.Some? {
      TransceiversTakeOver(ApplyInventory(named, dev, inventory).value, dev, transceivers.value);
    }
  }

  // ---------------------------------------------------------------------------- both reports of a device

  /** Some tables lie between the two reports: the inventory leaves them, and the transceivers, when the platform
      reports any, change them. */
  ghost predicate BothDone(db: Db, after: Db, dev: nat, inventory: seq<Entry>, transceivers: Option<seq<Transceiver>>) {
    exists mid :: InventoryDone(db.(devices := after.devices), dev, inventory, mid)
        && if transceivers.Some? then
             DeviceHas(mid, after, dev, transceivers.value) && OthersLose(mid, after, dev, transceivers.value)
           else
             after == mid
  }

  lemma SyncTakesBoth(db: Db, dev: nat, version: Option<string>, inventory: seq<Entry>,
                      transceivers: Option<seq<Transceiver>>)
    requires SerialsOk(db) && TablesOk(db) && !StaleTwin(db, dev, Winners(inventory))
    requires SyncDevice(db, dev, version, inventory, transceivers).Some?
    ensures BothDone(db, SyncDevice(db, dev, version, inventory, transceivers).value, dev, inventory, transceivers)
  {
    hide SerialsOk, TablesOk, ApplyInventory, ApplyTransceivers, StaleTwin, Winners, NormalizeSerial, DeviceHas,
        InventoryDone;
    var named := ApplyVersion(db, dev, version);
    DevicesDoNotCount(db, named, dev, Winners(inventory));
    InventoryKeepsDevices(named, dev, inventory);
    InventoryIsDone(named, dev, inventory);
    InventoryKeepsSerialsUnique(named, dev, inventory);
    var mid := ApplyInventory(named, dev, inventory).value;
    if transceivers.Some? {
      TransceiversTakeOver(mid, dev, transceivers.value);
    }
    assert db.(devices := named.devices) == named;
  }

  // ------------------------------------------------------------------------------ entries without a name

  /** An entry without a name, or with an empty one, changes nothing, wherever it stands in the report. */
  lemma {:induction false} UnnamedAreSkipped(db: Db, dev: nat, es: seq<Transceiver>, e: Transceiver,
      rest: seq<Transceiver>)
    requires e.name == None || e.name == Some("")
    ensures ApplyTransceivers(db, dev, es + [e] + rest) == ApplyTransceivers(db, dev, es + rest)
  {
    SkippedByLoop(db, dev, es, e, rest);
    SkippedByNames(es, e, rest);
    hide DropUnseen, ApplyEach, SeenNames;
  }

  lemma {:induction false} SkippedByLoop(db: Db, dev: nat, es: seq<Transceiver>, e: Transceiver, rest: seq<Transceiver>)
    requires !Named(e)
    ensures ApplyEach(db, dev, es + [e] + rest) == ApplyEach(db, dev, es + rest)
    decreases |rest|
  {
    hide UpsertNamed, Reconcile, NormalizeSerial;
    if rest == [] {
      assert (es + [e] + rest)[..|es|] == es && es + rest == es;
    } else {
      var n := |rest| - 1;
      SkippedByLoop(db, dev, es, e, rest[..n]);
      assert (es + [e] + rest)[..|es| + 1 + n] == es + [e] + rest[..n];
      assert (es + rest)[..|es| + n] == es + rest[..n];
    }
  }

  lemma SkippedByNames(es: seq<Transceiver>, e: Transceiver, rest: seq<Transceiver>)
    requires !Named(e)
    ensures SeenNames(es + [e] + rest) == SeenNames(es + rest)
  {
    var long, short := es + [e] + rest, es + rest;
    forall i | 0 <= i < |short|
      ensures Named(short[i]) ==> short[i].name.value in SeenNames(long)
    {
      assert short[i] == long[if i < |es| then i else i + 1];
    }
    forall i | 0 <= i < |long|
      ensures Named(long[i]) ==> long[i].name.value in SeenNames(short)
    {
      if i != |es| {
        assert long[i] == short[if i < |es| then i else i - 1];
      }
    }
  }

  /** A single entry that has a name leaves the device one module of that name, as reported. */
  lemma EntryIsStored(db: Db, dev: nat, e: Transceiver)
    requires SerialsOk(db) && TablesOk(db) && e.name.Some? && |e.name.value| > 0
    requires ApplyTransceivers(db, dev, [e]).Some?
    ensures var after := ApplyTransceivers(db, dev, [e]).value;
            exists id ::
              && id in after.modules && after.modules[id].device == dev && after.modules[id].name == e.name.value
              && (forall k :: k in after.modules && k != id ==>
                    !(after.modules[k].device == dev && after.modules[k].name == e.name.value))
              && after.modules[id].description == e.description && after.modules[id].vendor == None
              && after.modules[id].serial ==
                 if e.serial.Some? && !StandsForNone(Strip(e.serial.value)) then Some(Strip(e.serial.value)) else None
  {
    hide SerialsOk, TablesOk, StandsForNone, Strip, ApplyTransceivers, OthersLose, NormalizeSerial, Supersedes;
    TransceiversTakeOver(db, dev, [e]);
    NormalizeSerialExactly(e.serial);
    var after := ApplyTransceivers(db, dev, [e]).value;
    assert Holds(after, dev, [e][0]);
    var id :| NameIds(after, dev, e.name.value) == {id} && Reflects(after.modules[id], e);
    assert id in NameIds(after, dev, e.name.value);
    forall k
      ensures k in after.modules && after.modules[k].device == dev && after.modules[k].name == e.name.value <==> k == id
    {
      assert k in NameIds(after, dev, e.name.value) <==> k in {id};
    }
  }
}
