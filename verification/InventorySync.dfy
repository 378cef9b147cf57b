/** The inventory part of a device synchronisation: what a device reports takes its serial numbers
    away from every other row. */
module InventorySync {
  import opened Options
  import opened Text
  import opened SerialModel

  // --------------------------------------------------------------------- reading the report

  /** A parsed line; missing columns are empty. */
  datatype Entry = Entry(name: string, descr: string, sn: string, serial: string)

  datatype Winner = Winner(name: string, descr: string, serial: string)

  function EntryName(e: Entry): string {
    Strip(if e.name != "" then e.name else if e.descr != "" then e.descr else "Module")
  }

  function EntrySerial(e: Entry): Option<string> {
    NormalizeSerial(if e.sn != "" then Some(e.sn) else if e.serial != "" then Some(e.serial) else None)
  }

  /** Switch members before others, stacks last, then the longer name. */
  function Priority(name: string, descr: string): (int, int) {
    ((if StartsWith(Lower(name), "switch ") then 3 else 0)
     - (if Contains(Lower(name), "stack") || Contains(Lower(descr), "stack") then 2 else 0), |name|)
  }

  predicate Better(p: (int, int), q: (int, int)) {
    p.0 > q.0 || (p.0 == q.0 && p.1 > q.1)
  }

  function WinnerOf(e: Entry): Winner
    requires EntrySerial(e).Some?
  {
    Winner(EntryName(e), e.descr, EntrySerial(e).value)
  }

  function EntryKey(e: Entry): string
    requires EntrySerial(e).Some?
  {
    Upper(EntrySerial(e).value)
  }

  function EntryPriority(e: Entry): (int, int) {
    Priority(EntryName(e), e.descr)
  }

  /** Where a key is listed. */
  function Position(ws: seq<Winner>, key: string): (r: Option<nat>)
    ensures r.None? ==> forall i :: 0 <= i < |ws| ==> Upper(ws[i].serial) != key
    ensures r.Some? ==> r.value < |ws| && Upper(ws[r.value].serial) == key
  {
    if ws == [] then None
    else if Upper(ws[|ws| - 1].serial) == key then Some(|ws| - 1)
    else Position(ws[..|ws| - 1], key)
  }

  /** One step of the loop that fills `serial_entries`. */
  function Consider(ws: seq<Winner>, e: Entry): seq<Winner> {
    if EntrySerial(e).None? then ws else
    match Position(ws, EntryKey(e))
    case None => ws + [WinnerOf(e)]
    case Some(i) => if Better(EntryPriority(e), Priority(ws[i].name, ws[i].descr)) then ws[i := WinnerOf(e)] else ws
  }

  function Winners(entries: seq<Entry>): seq<Winner> {
    if entries == [] then [] else Consider(Winners(entries[..|entries| - 1]), entries[|entries| - 1])
  }

  function SerialLess(entries: seq<Entry>): set<string> {
    set i | 0 <= i < |entries| && EntrySerial(entries[i]).None? :: EntryName(entries[i])
  }

  ghost predicate DistinctKeys(ws: seq<Winner>) {
    forall i, j :: 0 <= i < j < |ws| ==> Upper(ws[i].serial) != Upper(ws[j].serial)
  }

  ghost predicate NormalWinners(ws: seq<Winner>) {
    forall w :: w in ws ==> Normal(w.serial)
  }

  /** The first entry with the greatest priority among those with its serial number. */
  ghost predicate First(entries: seq<Entry>, i: int) {
    && 0 <= i < |entries| && EntrySerial(entries[i]).Some?
    && forall j ::
         0 <= j < |entries| && EntrySerial(entries[j]).Some? && EntryKey(entries[j]) == EntryKey(entries[i]) ==>
         && !Better(EntryPriority(entries[j]), EntryPriority(entries[i]))
         && (j < i ==> Better(EntryPriority(entries[i]), EntryPriority(entries[j])))
  }

  ghost predicate Elected(entries: seq<Entry>, w: Winner, i: int) {
    First(entries, i) && w == WinnerOf(entries[i])
  }

  ghost predicate HasKey(ws: seq<Winner>, key: string) {
    exists k :: 0 <= k < |ws| && Upper(ws[k].serial) == key
  }

  ghost predicate IsElected(entries: seq<Entry>, w: Winner) {
    exists i :: Elected(entries, w, i)
  }

  ghost predicate AllElected(entries: seq<Entry>, ws: seq<Winner>) {
    forall k :: 0 <= k < |ws| ==> IsElected(entries, ws[k])
  }

  ghost predicate AllCovered(entries: seq<Entry>, ws: seq<Winner>) {
    forall i :: 0 <= i < |entries| && EntrySerial(entries[i]).Some? ==> HasKey(ws, EntryKey(entries[i]))
  }

  ghost predicate Elects(entries: seq<Entry>, ws: seq<Winner>) {
    DistinctKeys(ws) && NormalWinners(ws) && AllElected(entries, ws) && AllCovered(entries, ws)
  }

  /** One more entry can only end the reign of the winner with its own key. */
  lemma FirstGrows(entries: seq<Entry>, i: int, e: Entry)
    requires First(entries, i)
    requires EntrySerial(e).Some? && EntryKey(e) == EntryKey(entries[i]) ==>
        !Better(EntryPriority(e), EntryPriority(entries[i]))
    ensures First(entries + [e], i)
  {
    hide EntrySerial, EntryName, Priority;
  }

  lemma FirstIsNew(entries: seq<Entry>, e: Entry, i: int)
    requires EntrySerial(e).Some?
    requires First(entries, i) && EntryKey(entries[i]) == EntryKey(e)
        && Better(EntryPriority(e), EntryPriority(entries[i]))
    ensures First(entries + [e], |entries|)
  {
    hide EntrySerial, EntryName, Priority;
    var all := entries + [e];
    forall j | 0 <= j < |all| && EntrySerial(all[j]).Some? && EntryKey(all[j]) == EntryKey(e)
      ensures !Better(EntryPriority(all[j]), EntryPriority(e))
          && (j < |entries| ==> Better(EntryPriority(e), EntryPriority(all[j])))
    {
      if j < |entries| {
        assert all[j] == entries[j];
        assert !Better(EntryPriority(entries[j]), EntryPriority(entries[i]));
      }
    }
  }

  lemma ConsiderKeepsKeys(ws: seq<Winner>, e: Entry)
    requires DistinctKeys(ws) && NormalWinners(ws)
    ensures DistinctKeys(Consider(ws, e)) && NormalWinners(Consider(ws, e))
    ensures EntrySerial(e).Some? ==> HasKey(Consider(ws, e), EntryKey(e))
    ensures forall key :: HasKey(ws, key) ==> HasKey(Consider(ws, e), key)
  {
    hide EntrySerial, EntryName, Priority, Normal;
    var after := Consider(ws, e);
    if EntrySerial(e).Some? {
      EntrySerialIsNormal(e);
      var at := Position(ws, EntryKey(e));
      assert Upper(after[if at.Some? then at.value else |ws|].serial) == EntryKey(e);
      forall key | HasKey(ws, key)
        ensures HasKey(after, key)
      {
        var k :| 0 <= k < |ws| && Upper(ws[k].serial) == key;
        assert Upper(after[k].serial) == key;
      }
    }
  }

  lemma ConsiderElects(entries: seq<Entry>, ws: seq<Winner>, e: Entry, k: nat)
    requires AllElected(entries, ws) && AllCovered(entries, ws) && DistinctKeys(ws) && k < |Consider(ws, e)|
    ensures IsElected(entries + [e], Consider(ws, e)[k])
  {
    hide EntrySerial, EntryName, Priority, DistinctKeys;
    var all, after := entries + [e], Consider(ws, e);
    if k < |ws| && after[k] == ws[k] {
      var i :| Elected(entries, ws[k], i);
      if EntrySerial(e).Some? && EntryKey(e) == EntryKey(entries[i]) {
        SamePosition(ws, k);
      }
      FirstGrows(entries, i, e);
      assert all[i] == entries[i] && Elected(all, after[k], i);
    } else {
      if k < |ws| {
        var i :| Elected(entries, ws[k], i);
        FirstIsNew(entries, e, i);
      } else {
        FirstAlone(entries, e, ws);
      }
      assert Elected(all, after[k], |entries|);
    }
  }

  /** With distinct keys a winner is found where it is. */
  lemma SamePosition(ws: seq<Winner>, k: nat)
    requires DistinctKeys(ws) && k < |ws|
    ensures Position(ws, Upper(ws[k].serial)) == Some(k)
  {
  }

  lemma FirstAlone(entries: seq<Entry>, e: Entry, ws: seq<Winner>)
    requires AllCovered(entries, ws) && EntrySerial(e).Some? && Position(ws, EntryKey(e)).None?
    ensures First(entries + [e], |entries|)
  {
    hide EntrySerial, EntryName, Priority, Normal;
    var all := entries + [e];
    forall j | 0 <= j < |entries| && EntrySerial(all[j]).Some?
      ensures EntryKey(all[j]) != EntryKey(e)
    {
      assert all[j] == entries[j];
    }
  }

  lemma EntrySerialIsNormal(e: Entry)
    ensures EntrySerial(e).Some? ==> Normal(EntrySerial(e).value)
  {
    NormalizeSerialIdempotent(if e.sn != "" then Some(e.sn) else if e.serial != "" then Some(e.serial) else None);
  }

  lemma CoveredGrows(entries: seq<Entry>, ws: seq<Winner>, e: Entry)
    requires AllCovered(entries, ws) && DistinctKeys(ws) && NormalWinners(ws)
    ensures AllCovered(entries + [e], Consider(ws, e))
  {
    hide EntrySerial, EntryName, HasKey, Consider, DistinctKeys, NormalWinners;
    ConsiderKeepsKeys(ws, e);
  }

  lemma ElectedGrows(entries: seq<Entry>, ws: seq<Winner>, e: Entry)
    requires Elects(entries, ws)
    ensures AllElected(entries + [e], Consider(ws, e))
  {
    hide IsElected, Consider, DistinctKeys, NormalWinners, AllCovered;
    forall k | 0 <= k < |Consider(ws, e)|
      ensures IsElected(entries + [e], Consider(ws, e)[k])
    {
      ConsiderElects(entries, ws, e, k);
    }
  }

  /** One winner per distinct reported serial number, ignoring case: the first entry with the greatest
      (score, name length). */
  lemma {:induction false} WinnersAreElected(entries: seq<Entry>)
    ensures Elects(entries, Winners(entries))
  {
    if entries != [] {
      hide AllElected, AllCovered, DistinctKeys, NormalWinners, Consider;
      var init, e := entries[..|entries| - 1], entries[|entries| - 1];
      assert init + [e] == entries;
      WinnersAreElected(init);
      ConsiderKeepsKeys(Winners(init), e);
      ElectedGrows(init, Winners(init), e);
      CoveredGrows(init, Winners(init), e);
    }
  }

  // ------------------------------------------------------------------ the winners, by the report's columns

  /** What a line reports: name and number from the first column that is filled. */
  predicate Reports(e: Entry, w: Winner) {
    && w.descr == e.descr
    && (e.name != "" ==> w.name == Strip(e.name))
    && (e.name == "" && e.descr != "" ==> w.name == Strip(e.descr))
    && (e.name == "" && e.descr == "" ==> w.name == "Module")
    && (e.sn != "" ==> NormalizeSerial(Some(e.sn)) == Some(w.serial))
    && (e.sn == "" ==> e.serial != "" && NormalizeSerial(Some(e.serial)) == Some(w.serial))
  }

  /** The line reports no valid number, under this name. */
  predicate ReportsNone(e: Entry, name: string) {
    && (e.name != "" ==> name == Strip(e.name))
    && (e.name == "" && e.descr != "" ==> name == Strip(e.descr))
    && (e.name == "" && e.descr == "" ==> name == "Module")
    && (e.sn != "" ==> NormalizeSerial(Some(e.sn)) == None)
    && (e.sn == "" && e.serial != "" ==> NormalizeSerial(Some(e.serial)) == None)
  }

  predicate NamesSwitch(w: Winner) {
    StartsWith(Lower(w.name), "switch ")
  }

  predicate MentionsStack(w: Winner) {
    Contains(Lower(w.name), "stack") || Contains(Lower(w.descr), "stack")
  }

  /** A switch member comes before what is none, then what mentions no stack before what does, then the
      longer name. */
  predicate Preferred(v: Winner, w: Winner) {
    if NamesSwitch(v) != NamesSwitch(w) then NamesSwitch(v)
    else if MentionsStack(v) != MentionsStack(w) then MentionsStack(w)
    else |v.name| > |w.name|
  }

  lemma BetterIsPreferred(v: Winner, w: Winner)
    ensures Better(Priority(v.name, v.descr), Priority(w.name, w.descr)) <==> Preferred(v, w)
  {
    hide StartsWith, Contains, Lower;
  }

  lemma EntryReports(e: Entry, w: Winner)
    ensures Reports(e, w) <==> EntrySerial(e).Some? && w == WinnerOf(e)
  {
    hide NormalizeSerial, Strip;
    NothingNormalizes();
  }

  lemma EntryReportsNone(e: Entry, name: string)
    ensures ReportsNone(e, name) <==> EntrySerial(e).None? && name == EntryName(e)
  {
    hide NormalizeSerial, Strip;
    NothingNormalizes();
  }

  lemma NothingNormalizes()
    ensures NormalizeSerial(None) == None && Strip("Module") == "Module"
  {
    assert !IsSpace('M') && !IsSpace('e');
    StripTrims("Module");
  }

  /** Line `j` reports the number of `w`, in any case, and does not come before it: it is not preferred, and
      an earlier line is less preferred. */
  ghost predicate ComesAfter(entries: seq<Entry>, w: Winner, i: int, j: int) {
    0 <= j < |entries| ==>
      forall v :: Reports(entries[j], v) && Upper(v.serial) == Upper(w.serial) ==>
        !Preferred(v, w) && (j < i ==> Preferred(w, v))
  }

  /** Line `i` reports `w` and is the first of the most preferred lines with its number. */
  ghost predicate IsBest(entries: seq<Entry>, w: Winner, i: int) {
    0 <= i < |entries| && Reports(entries[i], w) && forall j :: ComesAfter(entries, w, i, j)
  }

  /** Some winner has the number, in any case. */
  ghost predicate WinsNumber(ws: seq<Winner>, serial: string) {
    exists w :: w in ws && Upper(w.serial) == Upper(serial)
  }

  lemma ElectedIsBest(entries: seq<Entry>, w: Winner, i: int)
    requires Elected(entries, w, i)
    ensures IsBest(entries, w, i)
  {
    hide EntrySerial, EntryName, Priority, Preferred, Better, Reports, Upper;
    EntryReports(entries[i], w);
    forall j
      ensures ComesAfter(entries, w, i, j)
    {
      if 0 <= j < |entries| {
        forall v | Reports(entries[j], v) && Upper(v.serial) == Upper(w.serial)
          ensures !Preferred(v, w) && (j < i ==> Preferred(w, v))
        {
          EntryReports(entries[j], v);
          BetterIsPreferred(v, w);
          BetterIsPreferred(w, v);
        }
      }
    }
  }

  lemma KeyIsWon(ws: seq<Winner>, serial: string)
    requires HasKey(ws, Upper(serial))
    ensures WinsNumber(ws, serial)
  {
    hide Upper;
    var k :| 0 <= k < |ws| && Upper(ws[k].serial) == Upper(serial);
    assert ws[k] in ws;
  }

  /** Each winner is the first of the most preferred lines with its number, each reported valid number has a
      winner, and the names without a number are those of the other lines. */
  lemma WinnersAreBest(entries: seq<Entry>)
    ensures forall w :: w in Winners(entries) ==> exists i :: IsBest(entries, w, i)
    ensures forall j, v :: 0 <= j < |entries| && Reports(entries[j], v) ==> WinsNumber(Winners(entries), v.serial)
    ensures forall name :: name in SerialLess(entries) <==>
        exists j :: 0 <= j < |entries| && ReportsNone(entries[j], name)
  {
    hide Winners, IsBest, Elected, EntrySerial, EntryName, Reports, ReportsNone, DistinctKeys, NormalWinners, HasKey,
        Upper;
    var ws := Winners(entries);
    WinnersAreElected(entries);
    forall w | w in ws
      ensures exists i :: IsBest(entries, w, i)
    {
      var k :| 0 <= k < |ws| && ws[k] == w;
      assert IsElected(entries, ws[k]);
      var i :| Elected(entries, w, i);
      ElectedIsBest(entries, w, i);
    }
    forall j, v | 0 <= j < |entries| && Reports(entries[j], v)
      ensures WinsNumber(ws, v.serial)
    {
      EntryReports(entries[j], v);
      KeyIsWon(ws, v.serial);
    }
    forall name
      ensures name in SerialLess(entries) <==> exists j :: 0 <= j < |entries| && ReportsNone(entries[j], name)
    {
      if name in SerialLess(entries) {
        var j :| 0 <= j < |entries| && EntrySerial(entries[j]).None? && EntryName(entries[j]) == name;
        EntryReportsNone(entries[j], name);
      }
      if j :| 0 <= j < |entries| && ReportsNone(entries[j], name) {
        EntryReportsNone(entries[j], name);
      }
    }
  }
}
