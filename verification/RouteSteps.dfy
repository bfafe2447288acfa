/**
 Crash safety of the route ledger (Routing/src/RouteManager.cpp): the live table, the ledger in memory and
 the ledger on disk, changed one step at a time with failures and crashes between any two of them.
 */
module RouteSteps {
  import opened Wrappers
  import opened JsonDocs
  import opened RouteLedger

  /** `created` are the live rows this program created. */
  datatype Sys = Sys(live: set<Row>, created: set<Row>, owned: Ledger, disk: Json)

  predicate Recorded(ledger: Ledger, r: Row) {
    RowKey(r) in ledger && ToRow(ledger[RowKey(r)]) == Some(r)
  }

  /** Every route the program created and left live is in the ledger on disk. */
  ghost predicate SafeOnDisk(s: Sys) {
    && s.created <= s.live
    && forall r | r in s.created :: r.interfaceIndex != 0 && Recorded(LoadRecord(s.disk), r)
  }

  /** ... and in the ledger in memory. */
  ghost predicate Safe(s: Sys) {
    && SafeOnDisk(s) && Keyed(s.owned)
    && forall r | r in s.created :: Recorded(s.owned, r)
  }

  // ---------- single steps ----------

  /** One attempt to write the ledger: nothing when it fails, else the document that replaced the old one. */
  type Write = Option<Json>

  ghost predicate Writes(w: Write, owned: Ledger) {
    w.Some? ==> IsRecord(w.value, owned)
  }

  function Saved(s: Sys, w: Write): Sys {
    if w.Some? then s.(disk := w.value) else s
  }

  /** `recordRoute`: memory first, then the disk. */
  function Record(s: Sys, e: RouteEntry, w: Write): Sys {
    Saved(s.(owned := s.owned[RouteKey(e) := e]), w)
  }

  /** `unrecordRoute`. */
  function Unrecord(s: Sys, key: string, w: Write): Sys {
    Saved(s.(owned := s.owned - {key}), w)
  }

  /**
   The system's answer to a create: it refuses, finds the row there already, or creates it. Interface 0 is refused.
   */
  predicate CreateFails(s: Sys, r: Row, refused: bool) {
    refused || (r !in s.live && r.interfaceIndex == 0)
  }

  function Create(s: Sys, r: Row): Sys {
    if r in s.live then s else s.(live := s.live + {r}, created := s.created + {r})
  }

  function Delete(s: Sys, r: Row): Sys {
    s.(live := s.live - {r}, created := s.created - {r})
  }

  // ---------- whole calls ----------

  /** `addRoute`: record, create, and take the record back when the system refuses. */
  function AddCall(s: Sys, e: RouteEntry, w: Write, refused: bool, undo: Write): Sys {
    var row := ToRow(e);
    if row.None? then s
    else
      var recorded := Record(s, e, w);
      if w.None? then recorded
      else if CreateFails(recorded, row.value, refused) then Unrecord(recorded, RouteKey(e), undo)
      else Create(recorded, row.value)
  }

  /** `removeRoute`: delete, then take the record back; a row that is not there counts as deleted. */
  function RemoveCall(s: Sys, e: RouteEntry, refused: bool, w: Write): Sys {
    var row := ToRow(e);
    if row.None? || refused then s
    else Unrecord(Delete(s, row.value), RouteKey(e), w)
  }

  ghost predicate AddWrites(s: Sys, e: RouteEntry, w: Write, undo: Write) {
    Writes(w, s.owned[RouteKey(e) := e]) && Writes(undo, s.owned - {RouteKey(e)})
  }

  // ---------- what single steps keep ----------

  lemma SavedIsSafe(s: Sys, w: Write)
    requires Keyed(s.owned) && Writes(w, s.owned) && SafeOnDisk(s)
    requires forall r | r in s.created :: Recorded(s.owned, r)
    ensures Safe(Saved(s, w))
  {
    hide Recorded, LoadRecord, IsRecord, Keyed;
    if w.Some? {
      LedgerRoundTrip(w.value, s.owned);
      forall r | r in s.created ensures Recorded(Readable(s.owned), r) {
        RecordedReadable(s.owned, r);
      }
    }
  }

  lemma RecordedReadable(owned: Ledger, r: Row)
    requires Recorded(owned, r) && r.interfaceIndex != 0
    ensures Recorded(Readable(owned), r)
  {
    hide RowKey;
  }

  lemma RowKeyOfEntry(e: RouteEntry)
    ensures ToRow(e).Some? ==> RowKey(ToRow(e).value) == RouteKey(e)
  {
    hide KeyOf;
  }

  /** No route that the program created and left live has this key. */
  predicate Unclaimed(s: Sys, key: string) {
    forall r | r in s.created :: RowKey(r) != key
  }

  lemma RecordIsSafe(s: Sys, e: RouteEntry, w: Write)
    requires Safe(s) && Unclaimed(s, RouteKey(e)) && Writes(w, s.owned[RouteKey(e) := e])
    ensures Safe(Record(s, e, w))
    ensures w.Some? && e.interfaceIndex != 0 && ToRow(e).Some? ==>
      Recorded(Record(s, e, w).owned, ToRow(e).value) && Recorded(LoadRecord(Record(s, e, w).disk), ToRow(e).value)
  {
    hide RowKey, RouteKey, LoadRecord, IsRecord, ToRow;
    RowKeyOfEntry(e);
    SavedIsSafe(s.(owned := s.owned[RouteKey(e) := e]), w);
    if w.Some? {
      LedgerRoundTrip(w.value, s.owned[RouteKey(e) := e]);
    }
  }

  lemma UnrecordIsSafe(s: Sys, key: string, w: Write)
    requires Safe(s) && Unclaimed(s, key) && Writes(w, s.owned - {key})
    ensures Safe(Unrecord(s, key, w))
  {
    hide RowKey, RouteKey, LoadRecord, IsRecord, ToRow;
    SavedIsSafe(s.(owned := s.owned - {key}), w);
  }

  lemma CreateIsSafe(s: Sys, r: Row)
    requires Safe(s) && r.interfaceIndex != 0 && Recorded(s.owned, r) && Recorded(LoadRecord(s.disk), r)
    ensures Safe(Create(s, r))
  {
    hide Recorded, LoadRecord, Keyed;
  }

  lemma DeleteIsSafe(s: Sys, r: Row)
    requires Safe(s)
    ensures Safe(Delete(s, r))
  {
    hide Recorded, LoadRecord, Keyed;
  }

  /** The ledger on disk is the one in memory, without the entries that cannot be read back. */
  predicate Synced(s: Sys) {
    LoadRecord(s.disk) == Readable(s.owned)
  }

  lemma WriteSyncs(s: Sys, w: Write)
    requires Keyed(s.owned) && Writes(w, s.owned) && w.Some?
    ensures Synced(Saved(s, w))
  {
    hide LoadRecord, Readable, IsRecord, Keyed;
    LedgerRoundTrip(w.value, s.owned);
  }

  lemma RemoveStaysSynced(s: Sys, e: RouteEntry, refused: bool, w: Write)
    requires Synced(s) && Keyed(s.owned) && Writes(w, s.owned - {RouteKey(e)})
    requires ToRow(e).None? || refused || w.Some?
    ensures Synced(RemoveCall(s, e, refused, w))
  {
    hide RouteKey, IsRecord, ToRow, Synced;
    if ToRow(e).Some? && !refused {
      WriteSyncs(Delete(s, ToRow(e).value).(owned := s.owned - {RouteKey(e)}), w);
    }
  }

  // ---------- when a call is safe ----------

  ghost predicate AddAlwaysSafe(s: Sys, e: RouteEntry) {
    forall w: Write, refused: bool, undo: Write | AddWrites(s, e, w, undo) :: Safe(AddCall(s, e, w, refused, undo))
  }

  lemma AddIsSafe(s: Sys, e: RouteEntry, w: Write, refused: bool, undo: Write)
    requires Safe(s) && Unclaimed(s, RouteKey(e)) && AddWrites(s, e, w, undo)
    ensures Safe(AddCall(s, e, w, refused, undo))
  {
    hide RowKey, RouteKey, LoadRecord, IsRecord, ToRow, Safe, Recorded, SafeOnDisk;
    var recorded := Record(s, e, w);
    RecordIsSafe(s, e, w);
    if ToRow(e).Some? && w.Some? {
      assert s.owned[RouteKey(e) := e] - {RouteKey(e)} == s.owned - {RouteKey(e)};
      UnrecordIsSafe(recorded, RouteKey(e), undo);
      RowOfEntry(e);
      if !CreateFails(recorded, ToRow(e).value, refused) && ToRow(e).value !in s.live {
        CreateIsSafe(recorded, ToRow(e).value);
      }
    }
  }

  lemma RowOfEntry(e: RouteEntry)
    ensures ToRow(e).Some? ==>
      ToRow(e).value.destination == e.destination && ToRow(e).value.interfaceIndex == e.interfaceIndex
  {
  }

  /**
   The key leaves out the next hop, and a refused create takes the record back. So adding a route is safe
   whatever the system answers if and only if no live route of ours has that key already.
   */
  lemma AddIsSafeExactly(s: Sys, e: RouteEntry)
    requires Safe(s) && ToRow(e).Some?
    ensures AddAlwaysSafe(s, e) <==> Unclaimed(s, RouteKey(e))
  {
    hide RowKey, RouteKey, LoadRecord, ToRow, Safe;
    if Unclaimed(s, RouteKey(e)) {
      forall w: Write, refused: bool, undo: Write | AddWrites(s, e, w, undo)
        ensures Safe(AddCall(s, e, w, refused, undo)) {
        AddIsSafe(s, e, w, refused, undo);
      }
    } else {
      var r :| r in s.created && RowKey(r) == RouteKey(e);
      var doc := SomeRecord(s.owned[RouteKey(e) := e]);
      var after := AddCall(s, e, Some(doc), true, None);
      assert AddWrites(s, e, Some(doc), None);
      assert RouteKey(e) !in after.owned && r in after.created;
      NotRecorded(after, r);
    }
  }

  lemma NotRecorded(s: Sys, r: Row)
    requires r in s.created && RowKey(r) !in s.owned
    ensures !Safe(s)
  {
    assert !Recorded(s.owned, r);
  }

  /** A ledger can always be written in some order. */
  lemma SomeRecord(owned: Ledger) returns (doc: Json)
    ensures IsRecord(doc, owned)
    decreases |owned|
  {
    hide ToJson;
    if |owned| == 0 {
      doc := Arr([]);
    } else {
      var k :| k in owned;
      var rest := SomeRecord(owned - {k});
      doc := Arr(rest.items + [ToJson(owned[k])]);
      OneMore(rest.items, owned, k);
    }
  }

  lemma OneMore(items: seq<Json>, owned: Ledger, k: string)
    requires k in owned && IsRecord(Arr(items), owned - {k})
    ensures IsRecord(Arr(items + [ToJson(owned[k])]), owned)
  {
    hide ToJson;
    var all := items + [ToJson(owned[k])];
    forall i | 0 <= i < |all| ensures exists j :: j in owned && all[i] == ToJson(owned[j]) {
      if i < |items| {
        assert ItemsFrom(items, owned - {k});
        assert exists j :: j in owned - {k} && items[i] == ToJson((owned - {k})[j]);
        var j :| j in owned - {k} && items[i] == ToJson((owned - {k})[j]);
        assert all[i] == ToJson(owned[j]);
      }
    }
    forall j | j in owned ensures ToJson(owned[j]) in all {
      if j != k {
        assert ToJson((owned - {k})[j]) in items;
      }
    }
  }

  /** Every live route of ours with the key of the entry is the very row of the entry. */
  predicate OnlyRow(s: Sys, e: RouteEntry) {
    forall r | r in s.created && RowKey(r) == RouteKey(e) :: ToRow(e) == Some(r)
  }

  ghost predicate RemoveAlwaysSafe(s: Sys, e: RouteEntry) {
    forall refused: bool, w: Write | Writes(w, s.owned - {RouteKey(e)}) :: Safe(RemoveCall(s, e, refused, w))
  }

  lemma RemoveIsSafe(s: Sys, e: RouteEntry, refused: bool, w: Write)
    requires Safe(s) && OnlyRow(s, e) && Writes(w, s.owned - {RouteKey(e)})
    ensures Safe(RemoveCall(s, e, refused, w))
  {
    hide RowKey, RouteKey, LoadRecord, IsRecord, ToRow, Safe;
    if ToRow(e).Some? {
      DeleteIsSafe(s, ToRow(e).value);
      UnrecordIsSafe(Delete(s, ToRow(e).value), RouteKey(e), w);
    }
  }

  /** Removing a route is safe exactly when the key does not stand for another next hop's live route. */
  lemma RemoveIsSafeExactly(s: Sys, e: RouteEntry)
    requires Safe(s) && ToRow(e).Some?
    ensures RemoveAlwaysSafe(s, e) <==> OnlyRow(s, e)
  {
    hide RowKey, RouteKey, LoadRecord, ToRow, Safe;
    if OnlyRow(s, e) {
      forall refused: bool, w: Write | Writes(w, s.owned - {RouteKey(e)}) ensures Safe(RemoveCall(s, e, refused, w)) {
        RemoveIsSafe(s, e, refused, w);
      }
    } else {
      var r :| r in s.created && RowKey(r) == RouteKey(e) && ToRow(e) != Some(r);
      var after := RemoveCall(s, e, false, None);
      assert Writes(None, s.owned - {RouteKey(e)});
      NotRecorded(after, r);
    }
  }

  /** An entry of the ledger in memory may always be removed. */
  lemma OwnEntryIsOnlyRow(s: Sys, key: string)
    requires Safe(s) && key in s.owned
    ensures OnlyRow(s, s.owned[key])
  {
    hide ToRow, KeyOf;
  }
}
