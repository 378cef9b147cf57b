/** Who owns a serial number: production modules and storage items, their tables, and what it means
    for a number to be held once. */
module SerialModel {
  import opened Options
  import opened Text

  // --------------------------------------------------------------------------- serial numbers

  /** Placeholders that are no serial number, in any case. */
  predicate Placeholder(s: string) {
    Upper(s) == "N/A" || Upper(s) == "UNKNOWN" || Upper(s) == "N" || StartsWith(Upper(s), "UNKNOWN:")
  }

  function NormalizeSerial(v: Option<string>): Option<string> {
    if v.None? then None else
    var s := Strip(v.value);
    if s == "" || Placeholder(s) then None else Some(s)
  }

  /** `word` in lower case, letter by letter in any case. */
  predicate Spells(s: string, word: string) {
    |s| == |word| && forall i :: 0 <= i < |s| ==> s[i] == word[i] || s[i] == UpperChar(word[i])
  }

  /** The values that stand for no number, spelt out: "n/a", "n" and "unknown", and what starts with
      "unknown:", in any mixture of cases. */
  predicate StandsForNone(s: string) {
    || s == "" || Spells(s, "n/a") || Spells(s, "n") || Spells(s, "unknown")
    || (|s| >= 8 && Spells(s[..8], "unknown:"))
  }

  lemma UpperSpells(s: string, word: string)
    requires forall i :: 0 <= i < |word| ==> LowerChar(word[i]) == word[i]
    ensures Upper(s) == Upper(word) <==> Spells(s, word)
  {
    if Upper(s) == Upper(word) {
      forall i | 0 <= i < |s|
        ensures s[i] == word[i] || s[i] == UpperChar(word[i])
      {
        assert UpperChar(s[i]) == Upper(s)[i] == Upper(word)[i] == UpperChar(word[i]);
      }
    }
    if Spells(s, word) {
      assert forall i :: 0 <= i < |s| ==> Upper(s)[i] == Upper(word)[i];
    }
  }

  lemma UpperOfPrefix(s: string, n: nat)
    requires n <= |s|
    ensures Upper(s)[..n] == Upper(s[..n])
  {
  }

  lemma PlaceholderIsSpeltOut(s: string)
    ensures Placeholder(s) || s == "" <==> StandsForNone(s)
  {
    PlaceholderWords();
    UpperSpells(s, "n/a");
    UpperSpells(s, "n");
    UpperSpells(s, "unknown");
    if |s| >= 8 {
      UpperSpells(s[..8], "unknown:");
      UpperOfPrefix(s, 8);
    }
    hide Upper, Spells, UpperChar;
  }

  lemma PlaceholderWords()
    ensures Upper("n/a") == "N/A" && Upper("n") == "N" && Upper("unknown") == "UNKNOWN"
        && Upper("unknown:") == "UNKNOWN:"
  {
  }

  /** A column holds a valid number exactly when, trimmed, it is none of the values that stand for none; the
      number is then the trimmed text. */
  lemma NormalizeSerialExactly(v: Option<string>)
    ensures NormalizeSerial(v) == if v.Some? && !StandsForNone(Strip(v.value)) then Some(Strip(v.value)) else None
  {
    hide Placeholder, StandsForNone, Strip;
    if v.Some? {
      PlaceholderIsSpeltOut(Strip(v.value));
    }
  }

  predicate Normal(s: string) {
    NormalizeSerial(Some(s)) == Some(s)
  }

  /** The `iexact` lookup. */
  predicate IExact(v: Option<string>, s: string) {
    v.Some? && Upper(v.value) == Upper(s)
  }

  /** The valid serial number in a column, ignoring case. */
  function KeyAt(v: Option<string>): Option<string> {
    if NormalizeSerial(v).Some? then Some(Upper(NormalizeSerial(v).value)) else None
  }

  predicate SameKey(v: Option<string>, w: Option<string>) {
    KeyAt(v).Some? && KeyAt(v) == KeyAt(w)
  }

  /** A column holds a normalised serial number, or none that counts. */
  predicate CleanAt(v: Option<string>) {
    NormalizeSerial(v) == None || NormalizeSerial(v) == v
  }

  lemma UpperKeepsSpace(c: char)
    ensures IsSpace(UpperChar(c)) <==> IsSpace(c)
  {
  }

  lemma NormalIsTrimmed(s: string)
    ensures Normal(s) <==> s != "" && Trimmed(s) && !Placeholder(s)
  {
    StripTrims(s);
  }

  /** Normalising twice is normalising once. */
  lemma NormalizeSerialIdempotent(v: Option<string>)
    ensures NormalizeSerial(NormalizeSerial(v)) == NormalizeSerial(v)
    ensures NormalizeSerial(v).Some? ==> Normal(NormalizeSerial(v).value)
    ensures v.Some? ==> NormalizeSerial(Some(Strip(v.value))) == NormalizeSerial(v)
    ensures CleanAt(NormalizeSerial(v)) && KeyAt(NormalizeSerial(v)) == KeyAt(v)
  {
    hide Placeholder, IsSpace, LStrip, RStrip, Strip;
    if v.Some? {
      StripTrims(v.value);
      StripTrims(Strip(v.value));
    }
  }

  /** Case does not matter for being a serial number. */
  lemma SameFoldIsNormal(s: string, t: string)
    requires Upper(s) == Upper(t) && Normal(s)
    ensures Normal(t)
  {
    hide IsSpace, UpperChar;
    NormalIsTrimmed(s);
    NormalIsTrimmed(t);
    var n := |t| - 1;
    UpperKeepsSpace(s[0]);
    UpperKeepsSpace(t[0]);
    UpperKeepsSpace(s[n]);
    UpperKeepsSpace(t[n]);
    assert Upper(s)[0] == Upper(t)[0] && Upper(s)[n] == Upper(t)[n];
  }

  /** On clean columns the lookup finds exactly the holders of the number. */
  lemma LookupFindsKey(v: Option<string>, s: string)
    requires Normal(s)
    ensures IExact(v, s) ==> KeyAt(v) == Some(Upper(s)) && CleanAt(v)
    ensures CleanAt(v) && KeyAt(v) == Some(Upper(s)) ==> IExact(v, s)
  {
    if IExact(v, s) {
      SameFoldIsNormal(s, v.value);
    }
  }

  // --------------------------------------------------------------------------------- the tables

  datatype Device = Device(name: string, serial: Option<string>, inventory: Option<string>, model: Option<string>,
                           vendor: Option<nat>, site: nat)

  datatype Module = Module(device: nat, name: string, inventory: Option<string>, description: Option<string>,
                           vendor: Option<nat>, serial: Option<string>)

  /** The columns of a storage item that play no part in ownership. */
  datatype Details = Details(itemType: string, designation: string, vendor: Option<nat>, site: nat,
                             area: Option<nat>, comment: string, status: string)

  datatype Item = Item(inventory: Option<string>, serial: Option<string>, model: string, details: Details)

  /** `next` is a key no row has used. */
  datatype Db = Db(devices: map<nat, Device>, modules: map<nat, Module>, items: map<nat, Item>, next: nat)

  datatype Holder = InModule(id: nat) | InStorage(id: nat)

  function SerialOf(db: Db, h: Holder): Option<string> {
    match h
    case InModule(id) => if id in db.modules then db.modules[id].serial else None
    case InStorage(id) => if id in db.items then db.items[id].serial else None
  }

  /** No valid serial number is held by two rows of modules and storage, ignoring case. */
  ghost predicate Unique(db: Db) {
    forall h, k :: h != k ==> !SameKey(SerialOf(db, h), SerialOf(db, k))
  }

  ghost predicate Clean(db: Db) {
    forall h :: CleanAt(SerialOf(db, h))
  }

  ghost predicate SerialsOk(db: Db) {
    Unique(db) && Clean(db)
  }

  /** What the tables guarantee by themselves: unused keys are unused, the unique columns of storage
      are unique. */
  ghost predicate TablesOk(db: Db) {
    && (forall id :: id in db.modules ==> id < db.next)
    && (forall id :: id in db.items ==> id < db.next)
    && (forall i, j :: i in db.items && j in db.items && i != j && db.items[i].inventory.Some?
          ==> db.items[i].inventory != db.items[j].inventory)
    && (forall i, j :: i in db.items && j in db.items && i != j && db.items[i].serial.Some?
          ==> db.items[i].serial != db.items[j].serial)
  }

  // ---------------------------------------------------------------------- changing one serial

  /** Rows may vanish or keep their serial; at most one holder gets a new one, which nobody else has. */
  lemma OneNewSerial(before: Db, after: Db, changed: Holder)
    requires SerialsOk(before)
    requires forall h :: h != changed ==> SerialOf(after, h) == None || SerialOf(after, h) == SerialOf(before, h)
    requires CleanAt(SerialOf(after, changed))
    requires forall h :: h != changed ==> !SameKey(SerialOf(after, changed), SerialOf(after, h))
    ensures SerialsOk(after)
  {
    assert KeyAt(None) == None;
    forall h, k | h != k
      ensures !SameKey(SerialOf(after, h), SerialOf(after, k))
    {
      if h != changed && k != changed {
        assert !SameKey(SerialOf(before, h), SerialOf(before, k));
      }
    }
  }

  /** Rows only vanish or keep their serial. */
  lemma FewerSerials(before: Db, after: Db)
    requires SerialsOk(before)
    requires forall h :: SerialOf(after, h) == None || SerialOf(after, h) == SerialOf(before, h)
    ensures SerialsOk(after)
  {
    assert KeyAt(None) == None;
    forall h, k | h != k
      ensures !SameKey(SerialOf(after, h), SerialOf(after, k))
    {
      assert !SameKey(SerialOf(before, h), SerialOf(before, k));
    }
  }

  // --------------------------------------------------------------------------- validated writes

  predicate ModuleTaken(db: Db, except: Option<nat>, s: string) {
    exists id :: id in db.modules && Some(id) != except && IExact(db.modules[id].serial, s)
  }

  predicate ItemTaken(db: Db, except: Option<nat>, s: string) {
    exists id :: id in db.items && Some(id) != except && IExact(db.items[id].serial, s)
  }

  predicate InventoryTaken(db: Db, except: Option<nat>, number: string) {
    exists id :: id in db.items && Some(id) != except && db.items[id].inventory == Some(number)
  }

  /** `validate_device_module_serial_uniqueness`. */
  predicate ModuleValid(db: Db, id: Option<nat>, serial: Option<string>) {
    NormalizeSerial(serial).Some? ==>
      !ModuleTaken(db, id, NormalizeSerial(serial).value) && !ItemTaken(db, None, NormalizeSerial(serial).value)
  }

  /** `full_clean` of a storage item; `fieldsOk` stands for its checks of the other columns. */
  predicate ItemValid(db: Db, id: Option<nat>, row: Item, fieldsOk: bool) {
    && fieldsOk
    && (NormalizeSerial(row.serial).Some? ==>
          !ModuleTaken(db, None, NormalizeSerial(row.serial).value)
              && !ItemTaken(db, id, NormalizeSerial(row.serial).value))
    && (row.inventory.Some? ==> !InventoryTaken(db, id, row.inventory.value))
  }

  /** No holder but `mine` has the valid number of the column, ignoring case. */
  ghost predicate NumberFree(db: Db, v: Option<string>, mine: Holder) {
    forall h :: SameKey(v, SerialOf(db, h)) ==> h == mine
  }

  lemma TakenByHolder(db: Db, v: Option<string>, except: Option<nat>)
    requires Clean(db) && NormalizeSerial(v).Some?
    ensures ModuleTaken(db, except, NormalizeSerial(v).value) <==>
              exists id: nat :: SameKey(v, SerialOf(db, InModule(id))) && Some(id) != except
    ensures ItemTaken(db, except, NormalizeSerial(v).value) <==>
              exists id: nat :: SameKey(v, SerialOf(db, InStorage(id))) && Some(id) != except
  {
    hide IExact, CleanAt, Normal, NormalizeSerial, Upper, KeyAt;
    NoKeyForNone();
    StoredKey(v);
    NormalizeSerialIdempotent(v);
    var s := NormalizeSerial(v).value;
    forall h
      ensures SameKey(v, SerialOf(db, h)) <==> IExact(SerialOf(db, h), s)
    {
      assert CleanAt(SerialOf(db, h));
      LookupFindsKey(SerialOf(db, h), s);
    }
    assert !IExact(None, s) by { NoneIsNothing(s); }
    if id :| id in db.modules && Some(id) != except && IExact(db.modules[id].serial, s) {
      assert SameKey(v, SerialOf(db, InModule(id)));
    }
    if id :| id in db.items && Some(id) != except && IExact(db.items[id].serial, s) {
      assert SameKey(v, SerialOf(db, InStorage(id)));
    }
    if id: nat :| SameKey(v, SerialOf(db, InModule(id))) && Some(id) != except {
      assert IExact(SerialOf(db, InModule(id)), s) && id in db.modules;
    }
    if id: nat :| SameKey(v, SerialOf(db, InStorage(id))) && Some(id) != except {
      assert IExact(SerialOf(db, InStorage(id)), s) && id in db.items;
    }
  }

  lemma NoneIsNothing(s: string)
    ensures !IExact(None, s)
  {
  }

  /** A module write is accepted exactly when no holder but the row itself has the number. */
  lemma ModuleWriteAcceptedExactly(db: Db, id: Option<nat>, row: Module, viaApi: bool)
    requires Clean(db) && TablesOk(db)
    ensures SaveModule(db, id, row, viaApi).Some? <==> NumberFree(db, row.serial, ModuleHolder(db, id))
  {
    hide CleanAt, NormalizeSerial, Strip, ModuleTaken, ItemTaken, SameKey, Clean, TablesOk;
    if NormalizeSerial(row.serial).Some? {
      ExceptUnused(db, NormalizeSerial(row.serial).value);
      TakenByHolder(db, row.serial, Some(ModuleHolder(db, id).id));
      TakenByHolder(db, row.serial, None);
      if forall n: nat :: SameKey(row.serial, SerialOf(db, InModule(n))) ==> Some(n) == Some(ModuleHolder(db, id).id) {
        assert (forall n: nat :: !SameKey(row.serial, SerialOf(db, InStorage(n)))) ==>
            NumberFree(db, row.serial, ModuleHolder(db, id));
      }
    } else {
      FreeWithoutNumber(db, row.serial, ModuleHolder(db, id));
    }
  }

  lemma FreeWithoutNumber(db: Db, v: Option<string>, mine: Holder)
    requires NormalizeSerial(v).None?
    ensures NumberFree(db, v, mine)
  {
    hide NormalizeSerial;
  }

  /** The row that is written again with its own number is accepted. */
  lemma OwnNumberIsAccepted(db: Db, id: nat, row: Module, viaApi: bool)
    requires SerialsOk(db) && TablesOk(db) && id in db.modules && SameKey(row.serial, db.modules[id].serial)
    ensures SaveModule(db, Some(id), row, viaApi).Some?
  {
    hide KeyAt, CleanAt, SaveModule;
    ModuleWriteAcceptedExactly(db, Some(id), row, viaApi);
    forall h | SameKey(row.serial, SerialOf(db, h))
      ensures h == InModule(id)
    {
      assert h != InModule(id) ==> !SameKey(SerialOf(db, h), SerialOf(db, InModule(id)));
    }
  }

  /** A storage write is accepted exactly when its columns are fine, no holder but the row itself has the
      number, and no other item has the inventory number. */
  lemma ItemWriteAcceptedExactly(db: Db, id: Option<nat>, row: Item, fieldsOk: bool)
    requires Clean(db) && TablesOk(db)
    ensures SaveItem(db, id, row, fieldsOk).Some? <==>
              && fieldsOk && NumberFree(db, row.serial, ItemHolder(db, id))
              && (row.inventory.Some? ==> forall k :: k in db.items && db.items[k].inventory == row.inventory ==>
                  Some(k) == id)
  {
    hide CleanAt, NormalizeSerial, Strip, ModuleTaken, ItemTaken, SameKey, Clean, TablesOk;
    FreeItemNumber(db, id, row.serial);
  }

  lemma FreeItemNumber(db: Db, id: Option<nat>, v: Option<string>)
    requires Clean(db) && TablesOk(db)
    ensures NumberFree(db, v, ItemHolder(db, id)) <==>
              (NormalizeSerial(v).Some? ==>
                 !ModuleTaken(db, None, NormalizeSerial(v).value) && !ItemTaken(db, id, NormalizeSerial(v).value))
  {
    hide CleanAt, NormalizeSerial, ModuleTaken, ItemTaken, SameKey, Clean, TablesOk;
    if NormalizeSerial(v).Some? {
      ExceptUnused(db, NormalizeSerial(v).value);
      TakenByHolder(db, v, Some(ItemHolder(db, id).id));
      TakenByHolder(db, v, None);
      if forall n: nat :: SameKey(v, SerialOf(db, InStorage(n))) ==> Some(n) == Some(ItemHolder(db, id).id) {
        assert (forall n: nat :: !SameKey(v, SerialOf(db, InModule(n)))) ==> NumberFree(db, v, ItemHolder(db, id));
      }
    } else {
      FreeWithoutNumber(db, v, ItemHolder(db, id));
    }
  }

  function PutModule(db: Db, id: Option<nat>, row: Module): Db {
    match id
    case Some(i) => db.(modules := db.modules[i := row])
    case None => db.(modules := db.modules[db.next := row], next := db.next + 1)
  }

  function PutItem(db: Db, id: Option<nat>, row: Item): Db {
    match id
    case Some(i) => db.(items := db.items[i := row])
    case None => db.(items := db.items[db.next := row], next := db.next + 1)
  }

  /** A form stores the normalised number; the API stores what was sent, trimmed. None: rejected. */
  function SaveModule(db: Db, id: Option<nat>, row: Module, viaApi: bool): Option<Db> {
    if !ModuleValid(db, id, row.serial) then None else
    var stored := if !viaApi then NormalizeSerial(row.serial)
        else if row.serial.Some? then Some(Strip(row.serial.value)) else None;
    Some(PutModule(db, id, row.(serial := stored)))
  }

  function SaveItem(db: Db, id: Option<nat>, row: Item, fieldsOk: bool): Option<Db> {
    if !ItemValid(db, id, row, fieldsOk) then None
    else Some(PutItem(db, id, row.(serial := NormalizeSerial(row.serial))))
  }

  /** The column as it is stored after validation: the trimmed number, or none. */
  predicate StoredNumber(given: Option<string>, stored: Option<string>) {
    && (given.Some? && !StandsForNone(Strip(given.value)) ==> stored == Some(Strip(given.value)))
    && (given.None? || StandsForNone(Strip(given.value)) ==> stored == None)
  }

  /** Exactly one module row is written, with the given columns; the API keeps a placeholder as it was sent,
      trimmed. */
  ghost predicate ModuleWritten(db: Db, after: Db, id: Option<nat>, row: Module, viaApi: bool) {
    var key := if id.Some? then id.value else db.next;
    && after.items == db.items && after.devices == db.devices
    && after.next == (if id.Some? then db.next else db.next + 1)
    && after.modules.Keys == db.modules.Keys + {key}
    && (forall k :: k in db.modules && k != key ==> after.modules[k] == db.modules[k])
    && after.modules[key].(serial := row.serial) == row
    && (!viaApi ==> StoredNumber(row.serial, after.modules[key].serial))
    && (viaApi && row.serial.Some? ==> after.modules[key].serial == Some(Strip(row.serial.value)))
    && (viaApi && row.serial.None? ==> after.modules[key].serial == None)
  }

  /** Exactly one storage row is written, with the given columns. */
  ghost predicate ItemWritten(db: Db, after: Db, id: Option<nat>, row: Item) {
    var key := if id.Some? then id.value else db.next;
    && after.modules == db.modules && after.devices == db.devices
    && after.next == (if id.Some? then db.next else db.next + 1)
    && after.items.Keys == db.items.Keys + {key}
    && (forall k :: k in db.items && k != key ==> after.items[k] == db.items[k])
    && after.items[key].(serial := row.serial) == row && StoredNumber(row.serial, after.items[key].serial)
  }

  lemma SaveModuleWrites(db: Db, id: Option<nat>, row: Module, viaApi: bool)
    requires SaveModule(db, id, row, viaApi).Some?
    ensures ModuleWritten(db, SaveModule(db, id, row, viaApi).value, id, row, viaApi)
  {
    hide NormalizeSerial, StandsForNone, Strip, ModuleValid;
    NormalizeSerialExactly(row.serial);
  }

  lemma SaveItemWrites(db: Db, id: Option<nat>, row: Item, fieldsOk: bool)
    requires SaveItem(db, id, row, fieldsOk).Some?
    ensures ItemWritten(db, SaveItem(db, id, row, fieldsOk).value, id, row)
  {
    hide NormalizeSerial, StandsForNone, Strip, ItemValid;
    NormalizeSerialExactly(row.serial);
  }

  /** The lookup compares the column as it is stored, letter by letter in any case. */
  lemma IExactByLetters(v: Option<string>, s: string)
    ensures IExact(v, s) <==>
              v.Some? && |v.value| == |s| && forall i :: 0 <= i < |s| ==> UpperChar(v.value[i]) == UpperChar(s[i])
  {
    hide UpperChar;
    if v.Some? {
      SameUpper(v.value, s);
    }
  }

  /** Two columns hold the same number exactly when both hold one and the trimmed texts agree letter by
      letter, in any case. */
  lemma SameKeyExactly(v: Option<string>, w: Option<string>)
    ensures SameKey(v, w) <==>
              && v.Some? && w.Some? && !StandsForNone(Strip(v.value)) && !StandsForNone(Strip(w.value))
              && |Strip(v.value)| == |Strip(w.value)|
              && forall i :: 0 <= i < |Strip(v.value)| ==> UpperChar(Strip(v.value)[i]) == UpperChar(Strip(w.value)[i])
  {
    hide NormalizeSerial, StandsForNone, Strip, UpperChar;
    NormalizeSerialExactly(v);
    NormalizeSerialExactly(w);
    if v.Some? && w.Some? {
      SameUpper(Strip(v.value), Strip(w.value));
    }
  }

  lemma SameUpper(s: string, t: string)
    ensures Upper(s) == Upper(t) <==> |s| == |t| && forall i :: 0 <= i < |s| ==> UpperChar(s[i]) == UpperChar(t[i])
  {
    hide UpperChar;
    if Upper(s) == Upper(t) {
      forall i | 0 <= i < |s|
        ensures UpperChar(s[i]) == UpperChar(t[i])
      {
        assert Upper(s)[i] == Upper(t)[i];
      }
    }
    if |s| == |t| && forall i :: 0 <= i < |s| ==> UpperChar(s[i]) == UpperChar(t[i]) {
      assert forall i :: 0 <= i < |s| ==> Upper(s)[i] == Upper(t)[i];
    }
  }

  /** A validated number is held by nobody else. */
  lemma ValidIsFree(db: Db, s: string, mine: Holder)
    requires Clean(db) && Normal(s)
    requires !ModuleTaken(db, if mine.InModule? then Some(mine.id) else None, s)
    requires !ItemTaken(db, if mine.InStorage? then Some(mine.id) else None, s)
    ensures forall h :: h != mine ==> KeyAt(SerialOf(db, h)) != Some(Upper(s))
  {
    hide IExact, KeyAt, CleanAt, Normal, NormalizeSerial;
    assert KeyAt(None) == None by { NoKeyForNone(); }
    forall h | h != mine
      ensures KeyAt(SerialOf(db, h)) != Some(Upper(s))
    {
      assert CleanAt(SerialOf(db, h));
      LookupFindsKey(SerialOf(db, h), s);
    }
  }

  lemma NoKeyForNone()
    ensures KeyAt(None) == None && CleanAt(None)
  {
  }

  function ModuleHolder(db: Db, id: Option<nat>): Holder {
    InModule(if id.Some? then id.value else db.next)
  }

  function ItemHolder(db: Db, id: Option<nat>): Holder {
    InStorage(if id.Some? then id.value else db.next)
  }

  lemma PutChangesOne(db: Db, id: Option<nat>, m: Module, i: Item)
    ensures SerialOf(PutModule(db, id, m), ModuleHolder(db, id)) == m.serial
    ensures forall h :: h != ModuleHolder(db, id) ==> SerialOf(PutModule(db, id, m), h) == SerialOf(db, h)
    ensures SerialOf(PutItem(db, id, i), ItemHolder(db, id)) == i.serial
    ensures forall h :: h != ItemHolder(db, id) ==> SerialOf(PutItem(db, id, i), h) == SerialOf(db, h)
  {
  }

  /** Storing a row whose number is clean and free keeps every number unique. */
  lemma PutFreeSerial(db: Db, after: Db, mine: Holder, raw: Option<string>)
    requires SerialsOk(db)
    requires CleanAt(SerialOf(after, mine)) && KeyAt(SerialOf(after, mine)) == KeyAt(raw)
    requires forall h :: h != mine ==> SerialOf(after, h) == SerialOf(db, h)
    requires NormalizeSerial(raw).Some? ==>
               && !ModuleTaken(db, if mine.InModule? then Some(mine.id) else None, NormalizeSerial(raw).value)
               && !ItemTaken(db, if mine.InStorage? then Some(mine.id) else None, NormalizeSerial(raw).value)
    ensures SerialsOk(after)
  {
    hide IExact, CleanAt, Normal, NormalizeSerial, ModuleTaken, ItemTaken, Unique;
    NormalizeSerialIdempotent(raw);
    StoredKey(raw);
    if NormalizeSerial(raw).Some? {
      ValidIsFree(db, NormalizeSerial(raw).value, mine);
    }
    OneNewSerial(db, after, mine);
  }

  lemma SaveModuleKeepsSerials(db: Db, id: Option<nat>, row: Module, viaApi: bool)
    requires SerialsOk(db) && TablesOk(db) && (id.Some? ==> id.value in db.modules)
    requires SaveModule(db, id, row, viaApi).Some?
    ensures SerialsOk(SaveModule(db, id, row, viaApi).value) && TablesOk(SaveModule(db, id, row, viaApi).value)
  {
    hide IExact, KeyAt, CleanAt, Normal, NormalizeSerial, ModuleTaken, ItemTaken, SerialsOk, Strip;
    var after := SaveModule(db, id, row, viaApi).value;
    StoredKey(row.serial);
    var stored := if !viaApi then NormalizeSerial(row.serial)
        else if row.serial.Some? then Some(Strip(row.serial.value)) else None;
    NoKeyForNone();
    PutChangesOne(db, id, row.(serial := stored), Item(None, None, "", Details("", "", None, 0, None, "", "")));
    if NormalizeSerial(row.serial).Some? {
      ExceptUnused(db, NormalizeSerial(row.serial).value);
    }
    PutFreeSerial(db, after, ModuleHolder(db, id), row.serial);
  }

  /** Both ways of storing keep the key. */
  lemma StoredKey(v: Option<string>)
    ensures KeyAt(NormalizeSerial(v)) == KeyAt(v) && CleanAt(NormalizeSerial(v))
    ensures v.Some? ==> KeyAt(Some(Strip(v.value))) == KeyAt(v) && CleanAt(Some(Strip(v.value)))
    ensures KeyAt(v) == if NormalizeSerial(v).Some? then Some(Upper(NormalizeSerial(v).value)) else None
  {
    NormalizeSerialIdempotent(v);
  }

  lemma ExceptUnused(db: Db, s: string)
    requires TablesOk(db)
    ensures ModuleTaken(db, None, s) <==> ModuleTaken(db, Some(db.next), s)
    ensures ItemTaken(db, None, s) <==> ItemTaken(db, Some(db.next), s)
  {
  }

  lemma SaveItemKeepsSerials(db: Db, id: Option<nat>, row: Item, fieldsOk: bool)
    requires SerialsOk(db) && TablesOk(db) && (id.Some? ==> id.value in db.items)
    requires SaveItem(db, id, row, fieldsOk).Some?
    ensures SerialsOk(SaveItem(db, id, row, fieldsOk).value) && TablesOk(SaveItem(db, id, row, fieldsOk).value)
  {
    hide IExact, KeyAt, CleanAt, Normal, NormalizeSerial, ModuleTaken, ItemTaken, SerialsOk, TablesOk;
    var after := SaveItem(db, id, row, fieldsOk).value;
    StoredKey(row.serial);
    NormalizeSerialIdempotent(row.serial);
    PutChangesOne(db, id, Module(0, "", None, None, None, None), row.(serial := NormalizeSerial(row.serial)));
    if NormalizeSerial(row.serial).Some? {
      ExceptUnused(db, NormalizeSerial(row.serial).value);
    }
    PutFreeSerial(db, after, ItemHolder(db, id), row.serial);
    PutItemKeepsTables(db, id, row.(serial := NormalizeSerial(row.serial)));
  }

  lemma PutItemKeepsTables(db: Db, id: Option<nat>, row: Item)
    requires TablesOk(db) && (id.Some? ==> id.value in db.items)
    requires row.inventory.Some? ==> !InventoryTaken(db, id, row.inventory.value)
    requires row.serial.Some? ==> !ItemTaken(db, id, row.serial.value)
    ensures TablesOk(PutItem(db, id, row))
  {
    var after := PutItem(db, id, row);
    var mine := if id.Some? then id.value else db.next;
    forall i | i in after.items && i != mine
      ensures row.inventory.Some? ==> after.items[i].inventory != row.inventory
      ensures row.serial.Some? ==> after.items[i].serial != row.serial
    {
      assert Some(i) != id;
    }
  }

  lemma SaveItemKeepsTables(db: Db, id: Option<nat>, row: Item, fieldsOk: bool)
    requires TablesOk(db) && (id.Some? ==> id.value in db.items) && SaveItem(db, id, row, fieldsOk).Some?
    ensures TablesOk(SaveItem(db, id, row, fieldsOk).value)
  {
    hide TablesOk, NormalizeSerial;
    PutItemKeepsTables(db, id, row.(serial := NormalizeSerial(row.serial)));
  }
}
