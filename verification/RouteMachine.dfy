/**
 Whole runs of the route ledger (Routing/src/RouteManager.cpp): calls on different keys interleave, the lock
 is not held while the system is asked, and the process may die between any two steps.
 */
module RouteMachine {
  import opened Wrappers
  import opened JsonDocs
  import opened IpText
  import opened IpRanges
  import opened RouteLedger
  import opened RouteSteps

  /** Where a call on a key stands between its steps. */
  datatype Phase = ToCreate(entry: RouteEntry) | ToUnrecord

  datatype Machine = Machine(sys: Sys, running: bool, pending: map<string, Phase>)

  datatype Action =
    | BeginAdd(entry: RouteEntry, recorded: Write)
    | SystemCreates(key: string, refused: bool)
    | BeginRemove(route: RouteEntry, keeps: bool)
    | TakeBack(gone: string, written: Write)
    | Crash
    | Restart
    | OtherAdds(row: Row)
    | OtherRemoves(leaving: Row)

  /** Calls on one key are serial, and a key is not added again while it stands for a live route of ours. */
  ghost predicate Enabled(m: Machine, a: Action) {
    match a
    case BeginAdd(e, w) =>
      && m.running && RouteKey(e) !in m.pending && Unclaimed(m.sys, RouteKey(e))
      && Writes(w, m.sys.owned[RouteKey(e) := e])
    case SystemCreates(key, _) => m.running && key in m.pending && m.pending[key].ToCreate?
    case BeginRemove(e, _) => m.running && RouteKey(e) !in m.pending && OnlyRow(m.sys, e)
    case TakeBack(key, w) =>
      m.running && key in m.pending && m.pending[key].ToUnrecord? && Writes(w, m.sys.owned - {key})
    case Crash => m.running
    case Restart => !m.running
    case OtherAdds(_) => true
    case OtherRemoves(_) => true
  }

  function Next(m: Machine, a: Action): Machine {
    match a
    case BeginAdd(e, w) =>
      if ToRow(e).None? then m
      else m.(sys := Record(m.sys, e, w), pending := if w.Some? then m.pending[RouteKey(e) := ToCreate(e)] else m.pending)
    case SystemCreates(key, refused) =>
      if key !in m.pending || !m.pending[key].ToCreate? || ToRow(m.pending[key].entry).None? then m
      else
        var row := ToRow(m.pending[key].entry).value;
        if CreateFails(m.sys, row, refused) then m.(pending := m.pending[key := ToUnrecord])
        else m.(sys := Create(m.sys, row), pending := m.pending - {key})
    case BeginRemove(e, refused) =>
      if ToRow(e).None? || refused then m
      else m.(sys := Delete(m.sys, ToRow(e).value), pending := m.pending[RouteKey(e) := ToUnrecord])
    case TakeBack(key, w) => m.(sys := Unrecord(m.sys, key, w), pending := m.pending - {key})
    case Crash => Machine(m.sys.(owned := map[]), false, map[])
    case Restart => Machine(m.sys.(owned := LoadRecord(m.sys.disk)), true, map[])
    case OtherAdds(r) => m.(sys := m.sys.(live := m.sys.live + {r}))
    case OtherRemoves(r) => m.(sys := Delete(m.sys, r))
  }

  ghost predicate PhaseOk(s: Sys, key: string, phase: Phase) {
    && Unclaimed(s, key)
    && (phase.ToCreate? ==>
      && RouteKey(phase.entry) == key && ToRow(phase.entry).Some? && key in s.owned && s.owned[key] == phase.entry
      && (phase.entry.interfaceIndex != 0 ==>
            Recorded(s.owned, ToRow(phase.entry).value) && Recorded(LoadRecord(s.disk), ToRow(phase.entry).value)))
  }

  ghost predicate PendingOk(m: Machine) {
    forall k | k in m.pending :: PhaseOk(m.sys, k, m.pending[k])
  }

  ghost predicate Inv(m: Machine) {
    if m.running then Safe(m.sys) && PendingOk(m) else SafeOnDisk(m.sys)
  }

  function Initial(live: set<Row>): Machine {
    Machine(Sys(live, {}, map[], Arr([])), true, map[])
  }

  /** A write that keeps the entry of a key keeps the phase of the call on it. */
  lemma PhaseKept(s: Sys, t: Sys, key: string, phase: Phase, w: Write)
    requires PhaseOk(s, key, phase) && t.created <= s.created && Keyed(t.owned) && Writes(w, t.owned)
    requires t.disk == (if w.Some? then w.value else s.disk)
    requires key in s.owned ==> key in t.owned && t.owned[key] == s.owned[key]
    ensures PhaseOk(t, key, phase)
  {
    hide RouteKey, RowKey, ToRow, LoadRecord, IsRecord;
    if phase.ToCreate? && phase.entry.interfaceIndex != 0 {
      RowKeyOfEntry(phase.entry);
      RowOfEntry(phase.entry);
      if w.Some? {
        LedgerRoundTrip(w.value, t.owned);
      }
    }
  }

  lemma RecordKeyed(s: Sys, e: RouteEntry)
    requires Keyed(s.owned)
    ensures Keyed(s.owned[RouteKey(e) := e])
    ensures forall k :: Keyed(s.owned - {k})
  {
    hide RouteKey;
  }

  lemma BeginAddKeeps(m: Machine, e: RouteEntry, w: Write)
    requires Inv(m) && Enabled(m, BeginAdd(e, w))
    ensures Inv(Next(m, BeginAdd(e, w)))
  {
    hide RouteKey, RowKey, ToRow, LoadRecord, IsRecord, Safe, PhaseOk, Keyed, Recorded;
    var n, key := Next(m, BeginAdd(e, w)), RouteKey(e);
    RecordIsSafe(m.sys, e, w);
    KeyedOfSafe(m.sys);
    RecordKeyed(m.sys, e);
    if ToRow(e).Some? {
      forall k | k in n.pending ensures PhaseOk(n.sys, k, n.pending[k]) {
        if k == key {
          NewPhase(n.sys, e);
        } else {
          PhaseKept(m.sys, n.sys, k, m.pending[k], w);
        }
      }
    }
  }

  lemma KeyedOfSafe(s: Sys)
    requires Safe(s)
    ensures Keyed(s.owned)
  {
  }

  lemma NewPhase(s: Sys, e: RouteEntry)
    requires Unclaimed(s, RouteKey(e)) && RouteKey(e) in s.owned && s.owned[RouteKey(e)] == e && ToRow(e).Some?
    requires e.interfaceIndex != 0 ==> Recorded(s.owned, ToRow(e).value) && Recorded(LoadRecord(s.disk), ToRow(e).value)
    ensures PhaseOk(s, RouteKey(e), ToCreate(e))
  {
  }

  lemma CreatesKeeps(m: Machine, key: string, refused: bool)
    requires Inv(m) && Enabled(m, SystemCreates(key, refused))
    ensures Inv(Next(m, SystemCreates(key, refused)))
  {
    hide RouteKey, RowKey, ToRow, LoadRecord, Safe, Recorded, Keyed;
    var n := Next(m, SystemCreates(key, refused));
    assert PhaseOk(m.sys, key, m.pending[key]);
    var e := m.pending[key].entry;
    var row := ToRow(e).value;
    RowKeyOfEntry(e);
    RowOfEntry(e);
    if !CreateFails(m.sys, row, refused) {
      if row !in m.sys.live {
        CreateIsSafe(m.sys, row);
      }
      forall k | k in n.pending ensures PhaseOk(n.sys, k, n.pending[k]) {
        assert PhaseOk(m.sys, k, m.pending[k]);
      }
    } else {
      forall k | k in n.pending ensures PhaseOk(n.sys, k, n.pending[k]) {
        assert PhaseOk(m.sys, k, m.pending[k]);
      }
    }
  }

  lemma BeginRemoveKeeps(m: Machine, e: RouteEntry, refused: bool)
    requires Inv(m) && Enabled(m, BeginRemove(e, refused))
    ensures Inv(Next(m, BeginRemove(e, refused)))
  {
    hide RouteKey, RowKey, ToRow, LoadRecord, Safe, Recorded, Keyed;
    var n := Next(m, BeginRemove(e, refused));
    if ToRow(e).Some? && !refused {
      DeleteIsSafe(m.sys, ToRow(e).value);
      forall k | k in n.pending ensures PhaseOk(n.sys, k, n.pending[k]) {
        assert k != RouteKey(e) ==> k in m.pending && PhaseOk(m.sys, k, m.pending[k]);
      }
    }
  }

  lemma TakeBackKeeps(m: Machine, key: string, w: Write)
    requires Inv(m) && Enabled(m, TakeBack(key, w))
    ensures Inv(Next(m, TakeBack(key, w)))
  {
    hide RouteKey, RowKey, ToRow, LoadRecord, IsRecord, Safe, PhaseOk, Keyed;
    var n := Next(m, TakeBack(key, w));
    PhaseUnclaimed(m.sys, key, m.pending[key]);
    UnrecordIsSafe(m.sys, key, w);
    KeyedOfSafe(m.sys);
    KeyedOfSafe(n.sys);
    forall k | k in n.pending ensures PhaseOk(n.sys, k, n.pending[k]) {
      assert PhaseOk(m.sys, k, m.pending[k]);
      PhaseKept(m.sys, n.sys, k, m.pending[k], w);
    }
  }

  lemma PhaseUnclaimed(s: Sys, key: string, phase: Phase)
    requires PhaseOk(s, key, phase)
    ensures Unclaimed(s, key)
  {
  }

  lemma RestartKeeps(m: Machine)
    requires Inv(m) && !m.running
    ensures Inv(Next(m, Restart))
  {
    hide Recorded;
    if m.sys.disk.Arr? {
      LoadedIsKeyed(m.sys.disk.items);
    }
  }

  lemma OthersKeep(m: Machine, r: Row)
    requires Inv(m)
    ensures Inv(Next(m, OtherAdds(r))) && Inv(Next(m, OtherRemoves(r)))
  {
    hide Recorded, LoadRecord, Keyed, RowKey, RouteKey, ToRow;
    assert m.running ==> forall k | k in m.pending :: PhaseOk(m.sys, k, m.pending[k]);
  }

  /** Every step, the crash and the restart included, keeps every live route of ours in the ledgers. */
  lemma NextKeeps(m: Machine, a: Action)
    requires Inv(m) && Enabled(m, a)
    ensures Inv(Next(m, a))
  {
    hide Next, Enabled, Inv;
    match a
    case BeginAdd(e, w) => BeginAddKeeps(m, e, w);
    case SystemCreates(key, refused) => CreatesKeeps(m, key, refused);
    case BeginRemove(e, refused) => BeginRemoveKeeps(m, e, refused);
    case TakeBack(key, w) => TakeBackKeeps(m, key, w);
    case Crash => CrashKeeps(m);
    case Restart => WasStopped(m); RestartKeeps(m);
    case OtherAdds(r) => OthersKeep(m, r);
    case OtherRemoves(r) => OthersKeep(m, r);
  }

  lemma WasStopped(m: Machine)
    requires Enabled(m, Restart)
    ensures !m.running
  {
  }

  lemma CrashKeeps(m: Machine)
    requires Inv(m)
    ensures Inv(Next(m, Crash))
  {
    hide Recorded, LoadRecord;
  }

  function Run(m: Machine, actions: seq<Action>): Machine
    decreases actions
  {
    if actions == [] then m else Run(Next(m, actions[0]), actions[1..])
  }

  ghost predicate AllEnabled(m: Machine, actions: seq<Action>)
    decreases actions
  {
    actions == [] || (Enabled(m, actions[0]) && AllEnabled(Next(m, actions[0]), actions[1..]))
  }

  lemma {:induction false} RunKeeps(m: Machine, actions: seq<Action>)
    requires Inv(m) && AllEnabled(m, actions)
    ensures Inv(Run(m, actions))
    decreases actions
  {
    hide Inv, Next, Enabled;
    if actions != [] {
      NextKeeps(m, actions[0]);
      RunKeeps(Next(m, actions[0]), actions[1..]);
    }
  }

  /**
   In every reachable state, every live route the program created is in the ledger on disk, and, while the
   program runs, in the ledger in memory.
   */
  lemma NoRouteIsForgotten(live: set<Row>, actions: seq<Action>, r: Row)
    requires AllEnabled(Initial(live), actions) && r in Run(Initial(live), actions).sys.created
    ensures
      var m := Run(Initial(live), actions);
      r in m.sys.live && Recorded(LoadRecord(m.sys.disk), r) && (m.running ==> Recorded(m.sys.owned, r))
  {
    hide Recorded, Next, Enabled, LoadRecord;
    InitialInv(live);
    RunKeeps(Initial(live), actions);
  }

  lemma InitialInv(live: set<Row>)
    ensures Inv(Initial(live))
  {
  }

  // ---------- steps and calls ----------

  /** The steps of an add, alone from start to end, are the call. */
  lemma AddIsItsSteps(m: Machine, e: RouteEntry, w: Write, refused: bool, undo: Write)
    requires m.running && RouteKey(e) !in m.pending
    ensures
      var key := RouteKey(e);
      var begun := Next(m, BeginAdd(e, w));
      var asked := if key in begun.pending then Next(begun, SystemCreates(key, refused)) else begun;
      var ended := if key in asked.pending then Next(asked, TakeBack(key, undo)) else asked;
      ended == m.(sys := AddCall(m.sys, e, w, refused, undo))
  {
    hide RouteKey, ToRow;
    assert m.pending[RouteKey(e) := ToCreate(e)] - {RouteKey(e)} == m.pending;
    assert m.pending[RouteKey(e) := ToCreate(e)][RouteKey(e) := ToUnrecord] - {RouteKey(e)} == m.pending;
  }

  /** And so are those of a remove. */
  lemma RemoveIsItsSteps(m: Machine, e: RouteEntry, refused: bool, w: Write)
    requires m.running && RouteKey(e) !in m.pending
    ensures
      var key := RouteKey(e);
      var begun := Next(m, BeginRemove(e, refused));
      var ended := if key in begun.pending then Next(begun, TakeBack(key, w)) else begun;
      ended == m.(sys := RemoveCall(m.sys, e, refused, w))
  {
    hide RouteKey, ToRow;
    assert m.pending[RouteKey(e) := ToUnrecord] - {RouteKey(e)} == m.pending;
  }

  // ---------- the states in which a call is not safe ----------

  /**
   Two entries with one key and different next hops: once the first stands as a live route of ours, neither adding
   nor removing the second is safe.
   */
  lemma SharedKeyIsUnsafe(e: RouteEntry, other: RouteEntry) returns (actions: seq<Action>)
    requires e.interfaceIndex != 0 && ToRow(e).Some? && ToRow(other).Some?
    requires RouteKey(other) == RouteKey(e) && ToRow(other) != ToRow(e)
    ensures AllEnabled(Initial({}), actions)
    ensures var s := Run(Initial({}), actions).sys;
      Safe(s) && ToRow(e).value in s.created && !AddAlwaysSafe(s, other) && !RemoveAlwaysSafe(s, other)
  {
    hide RouteKey, RowKey, ToRow, LoadRecord, IsRecord, Safe, AddAlwaysSafe, RemoveAlwaysSafe, Next, Enabled;
    var key := RouteKey(e);
    var doc := SomeRecord(map[key := e]);
    var begin, create := BeginAdd(e, Some(doc)), SystemCreates(key, false);
    actions := [begin, create];
    FirstAdd(e, doc);
    var m := Next(Initial({}), begin);
    TwoSteps(Initial({}), begin, create);
    InitialInv({});
    RunKeeps(Initial({}), actions);
    RunningIsSafe(Next(m, create));
    RowKeyOfEntry(e);
    var s := Next(m, create).sys;
    AddIsSafeExactly(s, other);
    RemoveIsSafeExactly(s, other);
    assert !Unclaimed(s, key) && !OnlyRow(s, other);
  }

  lemma TwoSteps(m: Machine, a: Action, b: Action)
    ensures Run(m, [a, b]) == Next(Next(m, a), b)
    ensures AllEnabled(m, [a, b]) <==> Enabled(m, a) && Enabled(Next(m, a), b)
  {
    hide Next, Enabled;
    var n := Next(m, a);
    assert [a, b][1..] == [b] && [b][1..] == [];
    assert Run(n, [b]) == Run(Next(n, b), []);
    assert AllEnabled(Next(n, b), []);
    assert AllEnabled(n, [b]) <==> Enabled(n, b);
  }

  lemma RunningIsSafe(m: Machine)
    requires Inv(m) && m.running
    ensures Safe(m.sys)
  {
  }

  lemma FirstAdd(e: RouteEntry, doc: Json)
    requires e.interfaceIndex != 0 && ToRow(e).Some? && IsRecord(doc, map[RouteKey(e) := e])
    ensures
      var begin, create := BeginAdd(e, Some(doc)), SystemCreates(RouteKey(e), false);
      var m := Next(Initial({}), begin);
      && Enabled(Initial({}), begin) && Enabled(m, create)
      && Next(m, create).running && Next(m, create).sys.created == {ToRow(e).value}
  {
    hide RouteKey, ToRow, LoadRecord, IsRecord;
    RowOfEntry(e);
    var owned: Ledger := map[];
    assert owned[RouteKey(e) := e] == map[RouteKey(e) := e];
  }

  /** Such entries exist: one destination on one interface, through two gateways. */
  lemma TwoGatewaysAreUnsafe(destination: IpRange, a: IpAddress, b: IpAddress)
      returns (other: RouteEntry, actions: seq<Action>)
    requires a != b && a.V4? == b.V4? == destination.network.V4?
    ensures other == RouteEntry(destination, Some(b), 1, 0, true) && AllEnabled(Initial({}), actions)
    ensures var s := Run(Initial({}), actions).sys; !AddAlwaysSafe(s, other) && !RemoveAlwaysSafe(s, other)
  {
    hide KeyOf, AddAlwaysSafe, RemoveAlwaysSafe, Run, AllEnabled;
    other := RouteEntry(destination, Some(b), 1, 0, true);
    actions := SharedKeyIsUnsafe(RouteEntry(destination, Some(a), 1, 0, true), other);
  }

  // ---------- recovery ----------

  /** The entries that stay in the ledger: those whose delete the system refuses, and malformed ones. */
  predicate Stays(owned: Ledger, refused: set<string>, key: string)
    requires key in owned
  {
    key in refused || ToRow(owned[key]).None?
  }

  function Kept(owned: Ledger, refused: set<string>): Ledger {
    map k | k in owned && Stays(owned, refused, k) :: owned[k]
  }

  function RowsOf(owned: Ledger, refused: set<string>): set<Row> {
    set k | k in owned && !Stays(owned, refused, k) :: ToRow(owned[k]).value
  }

  /** What `reconcile` and `removeAllOwnedRoutes` leave in memory and in the live table. */
  predicate Reconciled(s: Sys, refused: set<string>, t: Sys) {
    && t.owned == Kept(s.owned, refused)
    && t.live == s.live - RowsOf(s.owned, refused)
    && t.created == s.created - RowsOf(s.owned, refused)
  }

  /** After reconciling, exactly the routes whose delete failed are still live, and they are still recorded. */
  lemma RecoveryIsExact(s: Sys, refused: set<string>, t: Sys, r: Row)
    requires Safe(s) && Reconciled(s, refused, t) && r in s.created
    ensures r in t.live <==> RowKey(r) in refused
    ensures r in t.created <==> RowKey(r) in refused
    ensures RowKey(r) in refused ==> Recorded(t.owned, r)
    ensures RowKey(r) !in refused ==> RowKey(r) !in t.owned
  {
    hide LoadRecord;
    assert Recorded(s.owned, r);
    var key := RowKey(r);
    if key in refused {
      forall k | k in s.owned && ToRow(s.owned[k]) == Some(r) ensures k == key {
        RowKeyOfEntry(s.owned[k]);
      }
    }
  }

  /** A restart leaves memory and disk agreeing, and reconciling keeps it so while its writes land. */
  lemma RestartSyncs(m: Machine)
    ensures Synced(Next(m, Restart).sys)
    ensures Readable(Next(m, Restart).sys.owned) == Next(m, Restart).sys.owned
  {
    hide LoadItems;
    if m.sys.disk.Arr? {
      LoadedIsKeyed(m.sys.disk.items);
    }
    var owned := Next(m, Restart).sys.owned;
    assert forall k | k in owned :: owned[k].interfaceIndex != 0;
  }

  lemma RestartedFromDisk(m: Machine)
    requires Inv(m) && !m.running
    ensures Next(m, Restart).sys.owned == LoadRecord(m.sys.disk)
    ensures Safe(Next(m, Restart).sys) && Next(m, Restart).sys.created == m.sys.created
  {
    hide LoadRecord, Recorded;
    RestartKeeps(m);
  }

  lemma KeptIsReadable(owned: Ledger, refused: set<string>)
    requires Readable(owned) == owned
    ensures Readable(Kept(owned, refused)) == Kept(owned, refused)
  {
    hide Stays;
    assert forall k | k in owned :: k in Readable(owned);
  }

  lemma NotInLedger(ledger: Ledger, r: Row)
    ensures RowKey(r) !in ledger ==> !Recorded(ledger, r)
  {
  }

  /**
   Crash anywhere in any run, restart, reconcile: of all routes the program ever left live, exactly those
   remain whose deletion the system refuses, and the ledger still lists them; on disk it lists exactly what it
   lists in memory, once the writes land.
   */
  lemma CrashIsRecovered(live: set<Row>, actions: seq<Action>, refused: set<string>, t: Sys, r: Row)
    requires AllEnabled(Initial(live), actions) && !Run(Initial(live), actions).running
    requires Reconciled(Next(Run(Initial(live), actions), Restart).sys, refused, t)
    requires r in Run(Initial(live), actions).sys.created
    ensures r in t.live <==> RowKey(r) in refused
    ensures RowKey(r) in refused <==> Recorded(t.owned, r)
    ensures Synced(t) ==>
      && LoadRecord(t.disk) == Kept(LoadRecord(Run(Initial(live), actions).sys.disk), refused)
      && (RowKey(r) in refused <==> Recorded(LoadRecord(t.disk), r))
  {
    hide Recorded, LoadRecord, RowKey, Enabled, Inv, Next, Stays;
    InitialInv(live);
    RunKeeps(Initial(live), actions);
    var m := Run(Initial(live), actions);
    RestartKeeps(m);
    RestartedFromDisk(m);
    RecoveryIsExact(Next(m, Restart).sys, refused, t, r);
    RestartSyncs(m);
    KeptIsReadable(LoadRecord(m.sys.disk), refused);
    NotInLedger(t.owned, r);
  }
}
