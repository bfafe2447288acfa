/**
 The route manager object (Routing/src/RouteManager.cpp) over a routing table that may refuse and a disk that
 may fail: its methods take exactly the steps of module RouteSteps.
 */
module RouteManagers {
  import opened Types
  import opened Wrappers
  import opened JsonDocs
  import opened RouteLedger
  import opened RouteSteps
  import opened RouteMachine
  import opened IpText
  import opened RouteTable
  import opened RouteSession

  datatype OsStatus = NoError | AlreadyExists | NotFound | Refused

  /** The system's routing table; `created` marks the rows the manager created. */
  class RoutingTable {
    var rows: set<Row>
    ghost var created: set<Row>

    method CreateEntry(row: Row, refused: bool) returns (status: OsStatus)
      modifies this
      ensures status == if refused || (row !in old(rows) && row.interfaceIndex == 0) then Refused
        else if row in old(rows) then AlreadyExists else NoError
      ensures rows == old(rows) + if status == NoError then {row} else {}
      ensures created == old(created) + if status == NoError then {row} else {}
    {
      if refused {
        return Refused;
      }
      if row in rows {
        return AlreadyExists;
      }
      if row.interfaceIndex == 0 {
        return Refused;
      }
      rows := rows + {row};
      created := created + {row};
      return NoError;
    }

    method DeleteEntry(row: Row, refused: bool) returns (status: OsStatus)
      modifies this
      ensures status == if refused then Refused else if row in old(rows) then NoError else NotFound
      ensures rows == old(rows) - if refused then {} else {row}
      ensures created == old(created) - if refused then {} else {row}
    {
      if refused {
        return Refused;
      }
      status := if row in rows then NoError else NotFound;
      rows := rows - {row};
      created := created - {row};
    }
  }

  class RouteManager {
    const table: RoutingTable
    var owned: Ledger
    /** The document at the record path; a missing file reads as an empty record. */
    var disk: Json

    ghost function State(): Sys
      reads this, table
    {
      Sys(table.rows, table.created, owned, disk)
    }

    constructor (table: RoutingTable, disk: Json)
      ensures this.table == table && this.disk == disk && Keyed(owned)
      ensures State() == Sys(table.rows, table.created, LoadRecord(disk), disk)
    {
      this.table := table;
      this.disk := disk;
      owned := map[];
      new;
      hide LoadRecord, Keyed;
      owned := ReadRecord(disk);
      LedgerIsKeyed(disk);
    }

    /** `loadRecord`: anything but an array reads as an empty ledger. */
    static method ReadRecord(document: Json) returns (ledger: Ledger)
      ensures ledger == LoadRecord(document)
    {
      hide FromJson, RouteKey;
      ledger := map[];
      if document.Arr? {
        var items := document.items;
        for i := 0 to |items|
          invariant ledger == LoadItems(items[..i])
        {
          assert items[..i + 1][..i] == items[..i];
          var entry := FromJson(items[i]);
          if entry.Some? {
            ledger := ledger[RouteKey(entry.value) := entry.value];
          }
        }
        assert items[..|items|] == items;
      }
    }

    /** `saveRecordLocked`; `lands` is whether the atomic write succeeds. */
    method SaveRecord(lands: bool) returns (ghost written: Write)
      modifies this`disk
      ensures written.Some? == lands && Writes(written, owned)
      ensures State() == Saved(old(State()), written)
    {
      hide ToJson;
      var items: seq<Json>, todo := [], owned.Keys;
      while todo != {}
        invariant todo <= owned.Keys
        invariant forall i | 0 <= i < |items| :: exists k :: k in owned && items[i] == ToJson(owned[k])
        invariant forall k | k in owned && k !in todo :: ToJson(owned[k]) in items
        decreases |todo|
      {
        var key :| key in todo;
        items := items + [ToJson(owned[key])];
        todo := todo - {key};
      }
      if lands {
        disk := Arr(items);
        return Some(Arr(items));
      }
      return None;
    }

    /** `unrecordRoute`. */
    method UnrecordRoute(key: string, lands: bool) returns (ghost written: Write)
      modifies this
      ensures written.Some? == lands && Writes(written, old(owned) - {key})
      ensures State() == Unrecord(old(State()), key, written)
    {
      hide IsRecord;
      owned := owned - {key};
      written := SaveRecord(lands);
    }

    /** The ledger is written before the row is created; `lands`, `refused` and `undone` are the world's answers. */
    method AddRoute(entry: RouteEntry, lands: bool, refused: bool, undone: bool)
      returns (ok: bool, ghost written: Write, ghost undo: Write)
      modifies this, table
      ensures ok <==> Accepted(entry, Answer(lands, refused, undone), old(table.rows))
      ensures table.rows == old(table.rows) + if ok then {ToRow(entry).value} else {}
      ensures owned ==
        if ToRow(entry).None? then old(owned)
        else if lands && !ok then old(owned) - {RouteKey(entry)}
        else old(owned)[RouteKey(entry) := entry]
      ensures written.Some? <==> ToRow(entry).Some? && lands
      ensures undo.Some? <==> ToRow(entry).Some? && lands && !ok && undone
      ensures disk == if undo.Some? then undo.value else if written.Some? then written.value else old(disk)
      ensures AddWrites(old(State()), entry, written, undo)
      ensures old(Keyed(owned)) ==> Keyed(owned)
      ensures State() == AddCall(old(State()), entry, written, refused, undo)
    {
      hide RouteKey, IsRecord, ToRow;
      written, undo := None, None;
      var row := ToRow(entry);
      if row.None? {
        return false, None, None;
      }
      RowOfEntry(entry);
      owned := owned[RouteKey(entry) := entry];
      written := SaveRecord(lands);
      if !lands {
        return false, written, None;
      }
      var status := table.CreateEntry(row.value, refused);
      if status != NoError && status != AlreadyExists {
        assert owned - {RouteKey(entry)} == old(owned) - {RouteKey(entry)};
        undo := UnrecordRoute(RouteKey(entry), undone);
        return false, written, undo;
      }
      return true, written, None;
    }

    method RemoveRoute(entry: RouteEntry, refused: bool, lands: bool) returns (ok: bool, ghost written: Write)
      modifies this, table
      ensures Writes(written, old(owned) - {RouteKey(entry)})
      ensures State() == RemoveCall(old(State()), entry, refused, written)
      ensures ok <==> ToRow(entry).Some? && !refused && lands
      ensures written.Some? <==> ok
      ensures table.rows == old(table.rows) - if ToRow(entry).Some? && !refused then {ToRow(entry).value} else {}
      ensures owned == old(owned) - if ToRow(entry).Some? && !refused then {RouteKey(entry)} else {}
      ensures disk == if written.Some? then written.value else old(disk)
    {
      hide RouteKey, IsRecord, ToRow;
      var row := ToRow(entry);
      if row.None? {
        return false, None;
      }
      var status := table.DeleteEntry(row.value, refused);
      if status != NoError && status != NotFound {
        return false, None;
      }
      written := UnrecordRoute(RouteKey(entry), lands);
      return lands, written;
    }

    /** `best` is the route the system names for the gateway on that interface. */
    method PinGatewayRoute(gateway: IpAddress, underlay: U32, best: Option<Row>, answer: Answer)
      returns (ok: bool, ghost calls: seq<AddArgs>)
      requires best.Some? ==> best.value.nextHop.V4? == gateway.V4?
      modifies this, table
      ensures ok <==>
        && best.Some? && answer.lands && !answer.refused
        && (underlay != 0 || PinRow(gateway, underlay, best.value) in old(table.rows))
      ensures table.rows == old(table.rows) + if ok then {PinRow(gateway, underlay, best.value)} else {}
      ensures EntriesOf(calls) == if best.Some? then [PinEntry(gateway, underlay, best.value)] else []
      ensures AllWritten(old(State()), calls) && State() == AddAll(old(State()), calls)
    {
      hide HostRange, RouteKey, ToRow, IsRecord, AddWrites, AddAll, AllWritten;
      NoCalls(State());
      calls := [];
      if best.None? {
        return false, [];
      }
      PinKeepsNextHop(gateway, underlay, best.value);
      var entry := PinEntry(gateway, underlay, best.value);
      ghost var before := State();
      var added, written, undo := AddRoute(entry, answer.lands, answer.refused, answer.undone);
      ghost var call := AddArgs(entry, written, answer.refused, undo);
      WrittenMore(before, [], call);
      calls := [call];
      assert [] + [call] == calls;
      return added, calls;
    }

    /** The entries are added in order; the first failure ends the capture and leaves what was added. */
    method CaptureDefaultRoute(tunnel: U32, mode: DefaultRouteMode, v4: bool, answers: seq<Answer>)
      returns (ok: bool, ghost calls: seq<AddArgs>)
      requires |answers| == |DefaultRouteEntries(mode, v4, tunnel)|
      modifies this, table
      ensures
        var entries := DefaultRouteEntries(mode, v4, tunnel);
        && (ok <==> forall i | 0 <= i < |entries| :: Accepted(entries[i], answers[i], old(table.rows)))
        && |calls| <= |entries| && EntriesOf(calls) == entries[..|calls|] && (ok ==> |calls| == |entries|)
        && (!ok ==> FailsFirstAt(entries, answers, old(table.rows), |calls| - 1))
        && (forall i | 0 <= i < |calls| ::
              calls[i].refused == answers[i].refused && (calls[i].written.Some? <==> answers[i].lands))
        && table.rows == old(table.rows)
             + set i | 0 <= i < |entries| && i < (if ok then |calls| else |calls| - 1) :: ToRow(entries[i]).value
      ensures ok ==> table.rows == old(table.rows) + CapturedRows(mode, v4, tunnel)
      ensures EntriesOf(calls) <= DefaultRouteEntries(mode, v4, tunnel)
      ensures AllWritten(old(State()), calls) && State() == AddAll(old(State()), calls)
    {
      hide DefaultRouteEntries, CapturedRows, ToRow, RouteKey, IsRecord, AddWrites, AddAll, AllWritten, EntriesOf,
        Accepted,
        AddCall;
      var entries := DefaultRouteEntries(mode, v4, tunnel);
      EntriesAreRows(mode, v4, tunnel);
      calls := [];
      NoCalls(State());
      for i := 0 to |entries|
        invariant EntriesOf(calls) == entries[..i]
        invariant AllWritten(old(State()), calls) && State() == AddAll(old(State()), calls)
        invariant |calls| == i && forall j | 0 <= j < i :: Accepted(entries[j], answers[j], old(table.rows))
        invariant forall j | 0 <= j < i ::
          calls[j].refused == answers[j].refused && (calls[j].written.Some? <==> answers[j].lands)
        invariant table.rows == old(table.rows) + set j | 0 <= j < i :: ToRow(entries[j]).value
      {
        AcceptedBefore(entries, answers, i, old(table.rows), table.rows);
        ghost var before := State();
        var added, written, undo := AddRoute(entries[i], answers[i].lands, answers[i].refused, answers[i].undone);
        ghost var call := AddArgs(entries[i], written, answers[i].refused, undo);
        WrittenMore(old(State()), calls, call);
        EntriesMore(calls, call);
        assert entries[..i + 1] == entries[..i] + [entries[i]];
        calls := calls + [call];
        if !added {
          return false, calls;
        }
      }
      return true, calls;
    }

    /**
     `removeAllOwnedRoutes`, and `reconcile` after a restart: each recorded route is removed in turn.
     `refused` are the keys whose deletion the system refuses, `unwritten` those after which the write fails.
     */
    method RemoveAllOwnedRoutes(refused: set<string>, unwritten: set<string>) returns (ok: bool)
      requires Keyed(owned)
      modifies this, table
      ensures Reconciled(old(State()), refused, State())
      ensures old(Safe(State())) ==> Safe(State())
      ensures unwritten == {} && old(Synced(State())) ==> Synced(State())
      ensures ok <==> forall k | k in old(owned) :: !Stays(old(owned), refused, k) && k !in unwritten
    {
      hide Safe, Synced, RouteKey, RemoveCall, RowKey, LoadRecord, ToRow, RemovedSoFar;
      ghost var start := State();
      var entries, todo := owned, owned.Keys;
      StartRemoving(start, refused);
      ok := true;
      while todo != {}
        invariant entries == start.owned && todo <= entries.Keys
        invariant RemovedSoFar(start, refused, todo, State())
        invariant old(Safe(State())) ==> Safe(State())
        invariant unwritten == {} && old(Synced(State())) ==> Synced(State())
        invariant ok <==> forall k | k in entries && k !in todo :: !Stays(entries, refused, k) && k !in unwritten
        decreases |todo|
      {
        var key :| key in todo;
        ghost var before := State();
        KeyOfEntry(start, refused, todo, before, key);
        var removed, written := RemoveRoute(entries[key], key in refused, key !in unwritten);
        if Safe(before) {
          OwnEntryIsOnlyRow(before, key);
          RemoveIsSafe(before, entries[key], key in refused, written);
        }
        if unwritten == {} && Synced(before) {
          RemoveStaysSynced(before, entries[key], key in refused, written);
        }
        RemoveOne(start, refused, todo, before, key, written);
        ok := ok && removed;
        todo := todo - {key};
      }
      AllRemoved(start, refused, State());
    }
  }

  /** Whether the call goes through: the entry is well formed, written, and created or there already. */
  predicate Accepted(e: RouteEntry, a: Answer, rows: set<Row>) {
    ToRow(e).Some? && a.lands && !a.refused && (e.interfaceIndex != 0 || ToRow(e).value in rows)
  }

  predicate FailsFirstAt(entries: seq<RouteEntry>, answers: seq<Answer>, rows: set<Row>, n: int)
    requires |answers| == |entries|
  {
    && 0 <= n < |entries| && !Accepted(entries[n], answers[n], rows)
    && forall i | 0 <= i < n :: Accepted(entries[i], answers[i], rows)
  }

  /** The rows of earlier entries make no difference to whether an entry goes through. */
  lemma AcceptedBefore(entries: seq<RouteEntry>, answers: seq<Answer>, n: nat, before: set<Row>, rows: set<Row>)
    requires n < |entries| == |answers| && forall i | 0 <= i < |entries| :: ToRow(entries[i]).Some?
    requires forall i | 0 <= i < n :: Accepted(entries[i], answers[i], before)
    requires rows == before + set i | 0 <= i < n :: ToRow(entries[i]).value
    ensures Accepted(entries[n], answers[n], rows) <==> Accepted(entries[n], answers[n], before)
  {
    hide ToRow;
    var row := ToRow(entries[n]).value;
    RowOfEntry(entries[n]);
    if row in rows && row !in before {
      var i :| 0 <= i < n && ToRow(entries[i]).value == row;
      RowOfEntry(entries[i]);
      assert Accepted(entries[i], answers[i], before);
    }
  }

  /** What the world answers to one call: whether the write lands, the create is refused, the undoing write lands. */
  datatype Answer = Answer(lands: bool, refused: bool, undone: bool)

  lemma LedgerIsKeyed(doc: Json)
    ensures Keyed(LoadRecord(doc))
  {
    hide LoadItems;
    if doc.Arr? {
      LoadedIsKeyed(doc.items);
    }
  }

  lemma EntriesAreRows(mode: DefaultRouteMode, v4: bool, tunnel: U32)
    ensures forall i | 0 <= i < |DefaultRouteEntries(mode, v4, tunnel)| ::
      ToRow(DefaultRouteEntries(mode, v4, tunnel)[i]).Some?
    ensures CapturedRows(mode, v4, tunnel)
      == set i | 0 <= i < |DefaultRouteEntries(mode, v4, tunnel)| ::
        ToRow(DefaultRouteEntries(mode, v4, tunnel)[i]).value
  {
    hide Half, Everything;
    var entries := DefaultRouteEntries(mode, v4, tunnel);
    match mode
    case Leave =>
    case SplitHalves =>
      assert ToRow(entries[0]).value == OnLink(Half(v4, false), tunnel);
      assert ToRow(entries[1]).value == OnLink(Half(v4, true), tunnel);
    case Replace =>
      assert ToRow(entries[0]).value == OnLink(Everything(v4), tunnel);
  }

  lemma NoCalls(s: Sys)
    ensures AddAll(s, []) == s && AllWritten(s, []) && EntriesOf([]) == []
  {
  }

  lemma EntriesMore(calls: seq<AddArgs>, a: AddArgs)
    ensures EntriesOf(calls + [a]) == EntriesOf(calls) + [a.entry]
  {
  }

  /** The entries still in the ledger while the keys in `todo` wait for their turn. */
  function Left(owned: Ledger, refused: set<string>, todo: set<string>): Ledger {
    map k | k in owned && (k in todo || Stays(owned, refused, k)) :: owned[k]
  }

  function RowsGone(owned: Ledger, refused: set<string>, todo: set<string>): set<Row> {
    set k | k in owned && k !in todo && !Stays(owned, refused, k) :: ToRow(owned[k]).value
  }

  /** The keys in `todo` are untouched, all others are dealt with. */
  ghost predicate RemovedSoFar(start: Sys, refused: set<string>, todo: set<string>, s: Sys) {
    && Keyed(start.owned) && todo <= start.owned.Keys
    && s.owned == Left(start.owned, refused, todo)
    && s.live == start.live - RowsGone(start.owned, refused, todo)
    && s.created == start.created - RowsGone(start.owned, refused, todo)
  }

  lemma StartRemoving(start: Sys, refused: set<string>)
    requires Keyed(start.owned)
    ensures RemovedSoFar(start, refused, start.owned.Keys, start)
  {
    hide LoadRecord, ToRow, RouteKey;
    assert start.owned == Left(start.owned, refused, start.owned.Keys);
    assert RowsGone(start.owned, refused, start.owned.Keys) == {};
  }

  lemma KeyOfEntry(start: Sys, refused: set<string>, todo: set<string>, s: Sys, key: string)
    requires RemovedSoFar(start, refused, todo, s) && key in todo
    ensures key in start.owned && RouteKey(start.owned[key]) == key
    ensures key in s.owned && s.owned[key] == start.owned[key] && Keyed(s.owned)
  {
    hide RouteKey, ToRow;
  }

  lemma RemoveOne(start: Sys, refused: set<string>, todo: set<string>, s: Sys, key: string, w: Write)
    requires RemovedSoFar(start, refused, todo, s) && key in todo
    ensures RemovedSoFar(start, refused, todo - {key}, RemoveCall(s, start.owned[key], key in refused, w))
  {
    hide RouteKey, ToRow;
    KeyOfEntry(start, refused, todo, s, key);
    OneKeyLess(start.owned, refused, todo, key);
  }

  lemma OneKeyLess(owned: Ledger, refused: set<string>, todo: set<string>, key: string)
    requires key in todo && key in owned
    ensures var rest := todo - {key};
      if Stays(owned, refused, key)
      then Left(owned, refused, rest) == Left(owned, refused, todo)
        && RowsGone(owned, refused, rest) == RowsGone(owned, refused, todo)
      else
        && Left(owned, refused, rest) == Left(owned, refused, todo) - {key}
        && RowsGone(owned, refused, rest) == RowsGone(owned, refused, todo) + {ToRow(owned[key]).value}
  {
    hide RouteKey, ToRow;
  }

  lemma AllRemoved(start: Sys, refused: set<string>, s: Sys)
    requires RemovedSoFar(start, refused, {}, s)
    ensures Reconciled(start, refused, s)
  {
    hide ToRow, RouteKey;
    assert RowsGone(start.owned, refused, {}) == RowsOf(start.owned, refused);
  }
}
