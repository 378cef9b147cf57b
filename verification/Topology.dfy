/** The stored neighbours of a device mirror what its last collection observed. */
module Topology {
  import opened Options
  import opened Sets

  datatype Protocol = Cdp | Lldp

  /** The columns by which an observation is looked up; the device's name is normalised. */
  datatype Key = Key(device: nat, iface: nat, protocol: Protocol, name: string, remote: string)

  datatype Details = Details(neighborDevice: Option<nat>, platform: string, capabilities: string, lastSeen: int)

  datatype Row = Row(key: Key, details: Details)

  /** A parsed entry: the local interface is None when it did not resolve, the name is normalised. */
  datatype Entry = Entry(iface: Option<nat>, name: string, remote: string, details: Details)

  function KeyOf(device: nat, p: Protocol, e: Entry): Key
    requires e.iface.Some?
  {
    Key(device, e.iface.value, p, e.name, e.remote)
  }

  function Matching(rows: map<nat, Row>, k: Key): set<nat> {
    set id | id in rows && rows[id].key == k
  }

  /** The keys observed for a protocol; no output leaves nothing to mirror. */
  ghost function Observed(device: nat, p: Protocol, entries: seq<Entry>): set<Key> {
    set i | 0 <= i < |entries| && entries[i].iface.Some? :: KeyOf(device, p, entries[i])
  }

  ghost function Stored(rows: map<nat, Row>, device: nat, p: Protocol): set<Key> {
    set id | id in rows && rows[id].key.device == device && rows[id].key.protocol == p :: rows[id].key
  }

  /** No key is stored twice for the device and protocol. */
  ghost predicate Single(rows: map<nat, Row>, device: nat, p: Protocol) {
    forall i, j :: i in rows && j in rows && rows[i].key == rows[j].key && Of(rows[i].key, device, p) ==> i == j
  }

  predicate Of(k: Key, device: nat, p: Protocol) {
    k.device == device && k.protocol == p
  }

  /** The seen rows hold the observed keys, one row each. */
  ghost predicate Mirrors(rows: map<nat, Row>, seen: set<nat>, keys: set<Key>) {
    && seen <= rows.Keys
    && (forall i :: i in seen ==> rows[i].key in keys)
    && (forall k :: k in keys ==> exists i :: i in seen && rows[i].key == k)
    && (forall i, j :: i in seen && j in seen && rows[i].key == rows[j].key ==> i == j)
  }

  /** The lookup of the key finds at most one row. */
  predicate Findable(rows: map<nat, Row>, k: Key) {
    |Matching(rows, k)| <= 1
  }

  /** Every entry whose interface resolved can be stored: it has a name, and its key is not ambiguous. */
  predicate AllStorable(rows: map<nat, Row>, device: nat, p: Protocol, entries: seq<Entry>) {
    forall i :: 0 <= i < |entries| && entries[i].iface.Some? ==>
      entries[i].name != "" && Findable(rows, KeyOf(device, p, entries[i]))
  }

  ghost predicate SameFindable(before: map<nat, Row>, after: map<nat, Row>) {
    forall k :: Findable(before, k) <==> Findable(after, k)
  }

  /** Storing an entry makes no key ambiguous, and no ambiguous key findable. */
  lemma UpsertKeepsFindable(was: map<nat, Row>, now: map<nat, Row>, id: nat, row: Row)
    requires now == was[id := row]
    requires Matching(was, row.key) == (if id in was then {id} else {})
    ensures SameFindable(was, now)
  {
    forall k
      ensures Findable(was, k) <==> Findable(now, k)
    {
      if k == row.key {
        assert Matching(now, k) == {id};
      } else {
        assert id in was ==> id in Matching(was, row.key);
        assert Matching(now, k) == Matching(was, k);
      }
    }
  }

  /** Rows of one protocol do not make keys of another ambiguous. */
  lemma OtherProtocolFindable(before: map<nat, Row>, after: map<nat, Row>, device: nat, p: Protocol, k: Key)
    requires Untouched(before, after, device, p) && !Of(k, device, p)
    ensures Findable(before, k) <==> Findable(after, k)
  {
    assert Matching(before, k) == Matching(after, k);
  }

  lemma UpsertMirrors(was: map<nat, Row>, now: map<nat, Row>, seen: set<nat>, keys: set<Key>, id: nat, row: Row)
    requires Mirrors(was, seen, keys) && now == was[id := row]
    requires Matching(was, row.key) == (if id in was then {id} else {})
    ensures Mirrors(now, seen + {id}, keys + {row.key})
  {
    assert id in was ==> id in Matching(was, row.key);
    forall i | i in seen
      ensures now[i].key == was[i].key && (was[i].key == row.key ==> i == id)
    {
      if was[i].key == row.key {
        assert i in Matching(was, row.key);
      }
    }
    forall k | k in keys + {row.key}
      ensures exists i :: i in seen + {id} && now[i].key == k
    {
      if k == row.key {
        assert now[id].key == k;
      } else {
        var i :| i in seen && was[i].key == k;
        assert now[i].key == k;
      }
    }
  }

  /** The row holds what the entry reports. */
  predicate HoldsEntry(row: Row, device: nat, p: Protocol, e: Entry) {
    && row.key.device == device && row.key.protocol == p && Some(row.key.iface) == e.iface
    && row.key.name == e.name && row.key.remote == e.remote && row.details == e.details
  }

  predicate SameNeighbor(e: Entry, f: Entry) {
    e.iface == f.iface && e.name == f.name && e.remote == f.remote
  }

  /** No later entry is about the same neighbour. */
  predicate IsLatest(entries: seq<Entry>, i: nat) {
    i < |entries| && entries[i].iface.Some? && forall j :: i < j < |entries| ==> !SameNeighbor(entries[j], entries[i])
  }

  ghost predicate SeenWith(rows: map<nat, Row>, seen: set<nat>, device: nat, p: Protocol, e: Entry) {
    exists id :: id in seen && id in rows && HoldsEntry(rows[id], device, p, e)
  }

  /** Of each neighbour the latest report is stored, among the seen rows. */
  ghost predicate LatestStored(rows: map<nat, Row>, seen: set<nat>, device: nat, p: Protocol, entries: seq<Entry>) {
    forall i: nat :: IsLatest(entries, i) ==> SeenWith(rows, seen, device, p, entries[i])
  }

  lemma LatestMore(was: map<nat, Row>, now: map<nat, Row>, seen: set<nat>, device: nat, p: Protocol,
      entries: seq<Entry>,
                   n: nat, id: nat)
    requires n < |entries| && LatestStored(was, seen, device, p, entries[..n])
    requires entries[n].iface.Some? && now == was[id := Row(KeyOf(device, p, entries[n]), entries[n].details)]
    requires Matching(was, KeyOf(device, p, entries[n])) == (if id in was then {id} else {})
    ensures LatestStored(now, seen + {id}, device, p, entries[..n + 1])
  {
    var longer, shorter := entries[..n + 1], entries[..n];
    assert id in was ==> id in Matching(was, KeyOf(device, p, entries[n]));
    forall i: nat | IsLatest(longer, i)
      ensures SeenWith(now, seen + {id}, device, p, longer[i])
    {
      if i == n {
        assert HoldsEntry(now[id], device, p, longer[n]);
      } else {
        assert longer[i] == shorter[i] && longer[n] == entries[n];
        assert forall j :: i < j < n ==> shorter[j] == longer[j];
        assert IsLatest(shorter, i) && !SameNeighbor(longer[n], longer[i]);
        var k :| k in seen && k in was && HoldsEntry(was[k], device, p, shorter[i]);
        assert k in now && HoldsEntry(now[k], device, p, longer[i]);
      }
    }
  }

  lemma LatestSkips(rows: map<nat, Row>, seen: set<nat>, device: nat, p: Protocol, entries: seq<Entry>, n: nat)
    requires n < |entries| && LatestStored(rows, seen, device, p, entries[..n]) && entries[n].iface.None?
    ensures LatestStored(rows, seen, device, p, entries[..n + 1])
  {
    var longer, shorter := entries[..n + 1], entries[..n];
    hide SeenWith;
    forall i: nat | IsLatest(longer, i)
      ensures SeenWith(rows, seen, device, p, longer[i])
    {
      assert longer[n] == entries[n] && longer[i] == shorter[i];
      assert forall j :: i < j < n ==> shorter[j] == longer[j];
      assert IsLatest(shorter, i);
    }
  }

  /** Rows of another protocol, more seen rows, and the clean-up leave the reports in place. */
  lemma LatestKept(was: map<nat, Row>, now: map<nat, Row>, seen: set<nat>, more: set<nat>, device: nat, p: Protocol,
                   entries: seq<Entry>)
    requires LatestStored(was, seen, device, p, entries) && seen <= more
    requires forall id :: id in seen && id in was && Of(was[id].key, device, p) ==> id in now && now[id] == was[id]
    ensures LatestStored(now, more, device, p, entries)
  {
    forall i: nat | IsLatest(entries, i)
      ensures SeenWith(now, more, device, p, entries[i])
    {
      assert SeenWith(was, seen, device, p, entries[i]);
      var id :| id in seen && id in was && HoldsEntry(was[id], device, p, entries[i]);
      assert HoldsEntry(now[id], device, p, entries[i]);
    }
  }

  /** Of each neighbour the latest report is stored. */
  ghost predicate StoresLatest(rows: map<nat, Row>, device: nat, p: Protocol, entries: seq<Entry>) {
    forall i: nat :: IsLatest(entries, i) ==> exists id :: id in rows && HoldsEntry(rows[id], device, p, entries[i])
  }

  lemma LatestIsStored(rows: map<nat, Row>, seen: set<nat>, device: nat, p: Protocol, entries: seq<Entry>)
    requires LatestStored(rows, seen, device, p, entries)
    ensures StoresLatest(rows, device, p, entries)
  {
    hide HoldsEntry;
    forall i: nat | IsLatest(entries, i)
      ensures exists id :: id in rows && HoldsEntry(rows[id], device, p, entries[i])
    {
      assert SeenWith(rows, seen, device, p, entries[i]);
    }
  }

  class NeighborStore {
    var rows: map<nat, Row>
    var next: nat

    ghost predicate Valid()
      reads this
    {
      forall id :: id in rows ==> id < next
    }

    constructor ()
      ensures Valid() && rows == map[]
    {
      rows, next := map[], 0;
    }

    /** `upsert_neighbor`: None when the name is empty or the lookup finds several rows. */
    method Upsert(k: Key, details: Details) returns (id: Option<nat>)
      requires Valid()
      modifies this
      ensures Valid()
      ensures id.None? <==> k.name == "" || |Matching(old(rows), k)| > 1
      ensures id.None? ==> rows == old(rows)
      ensures id.Some? ==> rows == old(rows)[id.value := Row(k, details)]
      ensures id.Some? ==> Matching(old(rows), k) == if id.value in old(rows) then {id.value} else {}
    {
      if k.name == "" {
        return None;
      }
      var found := Matching(rows, k);
      if |found| > 1 {
        return None;
      }
      if found == {} {
        id := Some(next);
        next := next + 1;
      } else {
        var match_ :| match_ in found;
        OnlyMember(found, match_);
        id := Some(match_);
      }
      rows := rows[id.value := Row(k, details)];
    }

    /** The loop over the entries of one protocol. Updates made before a failure stay. */
    method UpsertAll(device: nat, p: Protocol, entries: seq<Entry>, seen0: set<nat>, ghost keys: set<Key>)
      returns (ok: bool, seen: set<nat>)
      requires Valid() && Mirrors(rows, seen0, keys)
      modifies this
      ensures Valid()
      ensures Untouched(old(rows), rows, device, p)
      ensures ok ==> Mirrors(rows, seen, keys + Observed(device, p, entries))
      ensures ok <==> AllStorable(old(rows), device, p, entries)
      ensures ok ==> seen0 <= seen && LatestStored(rows, seen, device, p, entries)
    {
      NothingYet(rows, device, p, entries, keys);
      hide Mirrors, Observed, Untouched, Matching, Findable, LatestStored;
      seen := seen0;
      for n := 0 to |entries|
        invariant Valid()
        invariant Untouched(old(rows), rows, device, p)
        invariant Mirrors(rows, seen, keys + Observed(device, p, entries[..n]))
        invariant SameFindable(old(rows), rows)
        invariant AllStorable(old(rows), device, p, entries[..n])
        invariant seen0 <= seen && LatestStored(rows, seen, device, p, entries[..n])
      {
        var e := entries[n];
        ObservedGrows(device, p, entries, n);
        ghost var was, all := rows, keys + Observed(device, p, entries[..n]);
        if e.iface.Some? {
          var k := KeyOf(device, p, e);
          var id := Upsert(k, e.details);
          FindableIsSmall(was, k);
          if id.None? {
            return false, seen;
          }
          UpsertKeepsFindable(was, rows, id.value, Row(k, e.details));
          UpsertTouchesOwn(old(rows), was, rows, id.value, Row(k, e.details));
          UpsertMirrors(was, rows, seen, all, id.value, Row(k, e.details));
          LatestMore(was, rows, seen, device, p, entries, n, id.value);
          assert keys + Observed(device, p, entries[..n + 1]) == all + {k};
          seen := seen + {id.value};
        } else {
          assert keys + Observed(device, p, entries[..n + 1]) == all;
          LatestSkips(rows, seen, device, p, entries, n);
        }
      }
      assert entries[..|entries|] == entries;
      return true, seen;
    }

    /** `collect_neighbors_for_device`: the entries of a protocol are None when its output is not
        usable. False is returned exactly when an entry cannot be stored. */
    method Collect(device: nat, cdp: Option<seq<Entry>>, lldp: Option<seq<Entry>>) returns (ok: bool)
      requires Valid()
      modifies this
      ensures Valid()
      ensures ok && cdp.Some? ==>
          Stored(rows, device, Cdp) == Observed(device, Cdp, cdp.value) && Single(rows, device, Cdp)
      ensures ok && lldp.Some? ==>
          Stored(rows, device, Lldp) == Observed(device, Lldp, lldp.value) && Single(rows, device, Lldp)
      ensures ok && cdp.Some? ==> StoresLatest(rows, device, Cdp, cdp.value)
      ensures ok && lldp.Some? ==> StoresLatest(rows, device, Lldp, lldp.value)
      ensures SameElsewhere(old(rows), rows, device, cdp.Some?, lldp.Some?)
      ensures ok <==> (cdp.Some? ==> AllStorable(old(rows), device, Cdp, cdp.value))
                      && (lldp.Some? ==> AllStorable(old(rows), device, Lldp, lldp.value))
    {
      hide Findable, AllStorable, Untouched, SameElsewhere, Mirrors, Observed, Stored, Single, LatestStored,
          StoresLatest;
      var seen: set<nat> := {};
      NothingKept(rows, device, cdp.Some?, lldp.Some?);
      if cdp.Some? {
        ok, seen := UpsertAll(device, Cdp, cdp.value, seen, {});
        UntouchedIsElsewhere(old(rows), rows, device, Cdp, cdp.Some?, lldp.Some?);
        if lldp.Some? {
          LldpStaysStorable(old(rows), rows, device, lldp.value);
        }
        if !ok {
          return;
        }
      }
      assert Mirrors(rows, seen, KeysOf(device, cdp, None)) by {
        KeysInOrder(device, cdp, lldp);
      }
      if lldp.Some? {
        ghost var mid, first := rows, seen;
        ok, seen := UpsertAll(device, Lldp, lldp.value, seen, KeysOf(device, cdp, None));
        UntouchedIsElsewhere(mid, rows, device, Lldp, cdp.Some?, lldp.Some?);
        ElsewhereTwice(old(rows), mid, rows, device, cdp.Some?, lldp.Some?);
        if !ok {
          return;
        }
        if cdp.Some? {
          LldpLeavesCdp(mid, rows, first, seen, device, cdp.value);
        }
      }
      ghost var full := rows;
      rows := map id | id in rows && !Stale(rows[id].key, id, device, cdp.Some?, lldp.Some?, seen) :: rows[id];
      CleanupIsElsewhere(full, rows, device, cdp.Some?, lldp.Some?, seen);
      ElsewhereTwice(old(rows), full, rows, device, cdp.Some?, lldp.Some?);
      KeysInOrder(device, cdp, lldp);
      KeysByProtocol(device, cdp, lldp);
      if cdp.Some? {
        CleanupLeavesLatest(full, rows, seen, device, Cdp, cdp.Some?, lldp.Some?, cdp.value);
        CleanupMirrors(full, rows, device, Cdp, cdp.Some?, lldp.Some?, seen, KeysOf(device, cdp, lldp), cdp.value);
      }
      if lldp.Some? {
        CleanupLeavesLatest(full, rows, seen, device, Lldp, cdp.Some?, lldp.Some?, lldp.value);
        CleanupMirrors(full, rows, device, Lldp, cdp.Some?, lldp.Some?, seen, KeysOf(device, cdp, lldp), lldp.value);
      }
      ok := true;
    }
  }

  lemma LldpLeavesCdp(mid: map<nat, Row>, rows: map<nat, Row>, first: set<nat>, seen: set<nat>, device: nat,
                      entries: seq<Entry>)
    requires LatestStored(mid, first, device, Cdp, entries) && first <= seen && Untouched(mid, rows, device, Lldp)
    ensures LatestStored(rows, seen, device, Cdp, entries)
  {
    hide LatestStored;
    LatestKept(mid, rows, first, seen, device, Cdp, entries);
  }

  lemma CleanupLeavesLatest(full: map<nat, Row>, rows: map<nat, Row>, seen: set<nat>, device: nat, p: Protocol,
      cdp: bool,
                            lldp: bool, entries: seq<Entry>)
    requires LatestStored(full, seen, device, p, entries)
    requires rows == map id | id in full && !Stale(full[id].key, id, device, cdp, lldp, seen) :: full[id]
    ensures StoresLatest(rows, device, p, entries)
  {
    hide LatestStored, StoresLatest;
    LatestKept(full, rows, seen, seen, device, p, entries);
    LatestIsStored(rows, seen, device, p, entries);
  }

  /** The keys of the usable outputs. */
  ghost function KeysOf(device: nat, cdp: Option<seq<Entry>>, lldp: Option<seq<Entry>>): set<Key> {
    (if cdp.Some? then Observed(device, Cdp, cdp.value) else {})
    + (if lldp.Some? then Observed(device, Lldp, lldp.value) else {})
  }

  lemma KeysInOrder(device: nat, cdp: Option<seq<Entry>>, lldp: Option<seq<Entry>>)
    ensures KeysOf(device, cdp, None) == if cdp.Some? then {} + Observed(device, Cdp, cdp.value) else {}
    ensures KeysOf(device, cdp, lldp)
            == if lldp.Some? then KeysOf(device, cdp, None) + Observed(device, Lldp, lldp.value)
                else KeysOf(device, cdp, None)
  {
    hide Observed;
  }

  lemma KeysByProtocol(device: nat, cdp: Option<seq<Entry>>, lldp: Option<seq<Entry>>)
    ensures cdp.Some? ==>
              forall k :: k in KeysOf(device, cdp, lldp) && Of(k, device, Cdp) <==>
                  k in Observed(device, Cdp, cdp.value)
    ensures lldp.Some? ==>
              forall k :: k in KeysOf(device, cdp, lldp) && Of(k, device, Lldp) <==>
                  k in Observed(device, Lldp, lldp.value)
  {
  }

  lemma NothingKept(rows: map<nat, Row>, device: nat, cdp: bool, lldp: bool)
    ensures Mirrors(rows, {}, {}) && SameElsewhere(rows, rows, device, cdp, lldp)
  {
  }

  lemma UntouchedIsElsewhere(before: map<nat, Row>, after: map<nat, Row>, device: nat, p: Protocol, cdp: bool,
      lldp: bool)
    requires Untouched(before, after, device, p) && if p == Cdp then cdp else lldp
    ensures SameElsewhere(before, after, device, cdp, lldp)
  {
  }

  lemma ElsewhereTwice(a: map<nat, Row>, b: map<nat, Row>, c: map<nat, Row>, device: nat, cdp: bool, lldp: bool)
    requires SameElsewhere(a, b, device, cdp, lldp) && SameElsewhere(b, c, device, cdp, lldp)
    ensures SameElsewhere(a, c, device, cdp, lldp)
  {
  }

  lemma CleanupIsElsewhere(full: map<nat, Row>, rows: map<nat, Row>, device: nat, cdp: bool, lldp: bool, seen: set<nat>)
    requires rows == map id | id in full && !Stale(full[id].key, id, device, cdp, lldp, seen) :: full[id]
    ensures SameElsewhere(full, rows, device, cdp, lldp)
  {
  }

  lemma LldpStaysStorable(before: map<nat, Row>, after: map<nat, Row>, device: nat, entries: seq<Entry>)
    requires Untouched(before, after, device, Cdp)
    ensures AllStorable(before, device, Lldp, entries) <==> AllStorable(after, device, Lldp, entries)
  {
    hide Untouched, Findable;
    forall i | 0 <= i < |entries| && entries[i].iface.Some?
      ensures Findable(before, KeyOf(device, Lldp, entries[i])) <==> Findable(after, KeyOf(device, Lldp, entries[i]))
    {
      OtherProtocolFindable(before, after, device, Cdp, KeyOf(device, Lldp, entries[i]));
    }
  }

  /** The clean-up deletes the rows of the device and of a usable protocol that were not seen. */
  predicate Stale(k: Key, id: nat, device: nat, cdp: bool, lldp: bool, seen: set<nat>) {
    k.device == device && (if k.protocol == Cdp then cdp else lldp) && id !in seen
  }

  lemma CleanupMirrors(full: map<nat, Row>, rows: map<nat, Row>, device: nat, p: Protocol, cdp: bool, lldp: bool,
                       seen: set<nat>, keys: set<Key>, entries: seq<Entry>)
    requires if p == Cdp then cdp else lldp
    requires Mirrors(full, seen, keys)
    requires rows == map id | id in full && !Stale(full[id].key, id, device, cdp, lldp, seen) :: full[id]
    requires forall k :: k in keys && Of(k, device, p) <==> k in Observed(device, p, entries)
    ensures Stored(rows, device, p) == Observed(device, p, entries) && Single(rows, device, p)
  {
    hide Observed;
    forall id | id in rows && Of(rows[id].key, device, p)
      ensures id in seen && rows[id] == full[id]
    {
    }
    forall k | k in Observed(device, p, entries)
      ensures k in Stored(rows, device, p)
    {
      var i :| i in seen && full[i].key == k;
      assert i in rows && rows[i].key == k;
    }
  }

  /** Only rows of one device and protocol may differ. */
  ghost predicate Untouched(before: map<nat, Row>, after: map<nat, Row>, device: nat, p: Protocol) {
    forall id :: (id in before && !(before[id].key.device == device && before[id].key.protocol == p))
                 || (id in after && !(after[id].key.device == device && after[id].key.protocol == p))
      ==> id in before && id in after && before[id] == after[id]
  }

  /** Rows of other devices and of protocols without usable output are as they were. */
  ghost predicate SameElsewhere(before: map<nat, Row>, after: map<nat, Row>, device: nat, cdp: bool, lldp: bool) {
    forall id :: (id in before && Elsewhere(before[id].key, device, cdp, lldp))
                 || (id in after && Elsewhere(after[id].key, device, cdp, lldp))
      ==> id in before && id in after && before[id] == after[id]
  }

  predicate Elsewhere(k: Key, device: nat, cdp: bool, lldp: bool) {
    k.device != device || (k.protocol == Cdp && !cdp) || (k.protocol == Lldp && !lldp)
  }

  lemma UpsertTouchesOwn(old_: map<nat, Row>, was: map<nat, Row>, now: map<nat, Row>, id: nat, row: Row)
    requires Untouched(old_, was, row.key.device, row.key.protocol) && now == was[id := row]
    requires Matching(was, row.key) == (if id in was then {id} else {})
    ensures Untouched(old_, now, row.key.device, row.key.protocol)
  {
    assert id in was ==> id in Matching(was, row.key);
  }

  lemma FindableIsSmall(rows: map<nat, Row>, k: Key)
    ensures Findable(rows, k) <==> |Matching(rows, k)| <= 1
  {
  }

  lemma NothingYet(rows: map<nat, Row>, device: nat, p: Protocol, entries: seq<Entry>, keys: set<Key>)
    ensures forall seen :: LatestStored(rows, seen, device, p, entries[..0])
    ensures Untouched(rows, rows, device, p) && keys + Observed(device, p, entries[..0]) == keys
  {
  }

  lemma ObservedGrows(device: nat, p: Protocol, entries: seq<Entry>, n: nat)
    requires n < |entries|
    ensures Observed(device, p, entries[..n + 1])
            == Observed(device, p, entries[..n]) + if entries[n].iface.Some? then {KeyOf(device, p, entries[n])} else {}
  {
    assert entries[..n + 1][n] == entries[n];
    assert forall i :: 0 <= i < n ==> entries[..n + 1][i] == entries[..n][i];
    forall k | k in Observed(device, p, entries[..n])
      ensures k in Observed(device, p, entries[..n + 1])
    {
      var i :| 0 <= i < n && entries[..n][i].iface.Some? && KeyOf(device, p, entries[..n][i]) == k;
      assert KeyOf(device, p, entries[..n + 1][i]) == k;
    }
    if entries[n].iface.Some? {
      assert KeyOf(device, p, entries[..n + 1][n]) in Observed(device, p, entries[..n + 1]);
    }
  }
}
