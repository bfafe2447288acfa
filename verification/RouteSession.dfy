/**
 Sessions (Routing/src/RouteManager.cpp): routes are added, whatever the disk and the system answer, and taken away
 again; what is left of them in the table.
 */
module RouteSession {
  import opened Types
  import opened Wrappers
  import opened JsonDocs
  import opened IpText
  import opened IpRanges
  import opened RouteLedger
  import opened RouteSteps
  import opened RouteMachine
  import opened RouteTable

  datatype AddArgs = AddArgs(entry: RouteEntry, written: Write, refused: bool, undo: Write)

  function AddOne(s: Sys, a: AddArgs): Sys {
    AddCall(s, a.entry, a.written, a.refused, a.undo)
  }

  /** A sequence of `addRoute` calls with the world's answers. */
  function AddAll(s: Sys, calls: seq<AddArgs>): Sys
    decreases calls
  {
    if calls == [] then s else AddOne(AddAll(s, calls[..|calls| - 1]), calls[|calls| - 1])
  }

  ghost predicate Addable(s: Sys, a: AddArgs) {
    Unclaimed(s, RouteKey(a.entry)) && AddWrites(s, a.entry, a.written, a.undo)
  }

  ghost predicate AllAddable(s: Sys, calls: seq<AddArgs>)
    decreases calls
  {
    calls != [] ==>
      AllAddable(s, calls[..|calls| - 1]) && Addable(AddAll(s, calls[..|calls| - 1]), calls[|calls| - 1])
  }

  lemma {:induction false} AddedRows(s: Sys, calls: seq<AddArgs>)
    requires Safe(s) && s.created == {} && AllAddable(s, calls)
    ensures Safe(AddAll(s, calls)) && AddAll(s, calls).live == s.live + AddAll(s, calls).created
    decreases calls
  {
    hide Safe, ToRow, RouteKey, RowKey, IsRecord;
    if calls != [] {
      var front, a := AddAll(s, calls[..|calls| - 1]), calls[|calls| - 1];
      AddedRows(s, calls[..|calls| - 1]);
      AddIsSafe(front, a.entry, a.written, a.refused, a.undo);
    }
  }

  lemma CreatedIsOwned(s: Sys)
    requires Safe(s)
    ensures s.created <= RowsOf(s.owned, {})
  {
    hide LoadRecord, ToRow, RowKey, RouteKey;
    forall r | r in s.created ensures r in RowsOf(s.owned, {}) {
      assert Recorded(s.owned, r) && !Stays(s.owned, {}, RowKey(r));
    }
  }

  /**
   From an empty ledger, any additions and then a teardown that the system does not refuse: the table is
   what it was exactly when none of the recorded rows stood there before.
   */
  lemma TeardownRestores(s: Sys, calls: seq<AddArgs>, t: Sys)
    requires Safe(s) && s.created == {} && AllAddable(s, calls)
    requires Reconciled(AddAll(s, calls), {}, t)
    ensures t.live == s.live - RowsOf(AddAll(s, calls).owned, {})
    ensures t.live == s.live <==> RowsOf(AddAll(s, calls).owned, {}) !! s.live
  {
    hide Safe, AllAddable, AddAll;
    AddedRows(s, calls);
    CreatedIsOwned(AddAll(s, calls));
  }

  function EntriesOf(calls: seq<AddArgs>): seq<RouteEntry> {
    seq(|calls|, i requires 0 <= i < |calls| => calls[i].entry)
  }

  /** None of the rows asked for stands in the table. */
  predicate AllNew(live: set<Row>, es: seq<RouteEntry>) {
    forall i | 0 <= i < |es| && ToRow(es[i]).Some? :: ToRow(es[i]).value !in live
  }

  predicate Asked(calls: seq<AddArgs>, e: RouteEntry) {
    exists i | 0 <= i < |calls| :: calls[i].entry == e
  }

  lemma AskedMore(calls: seq<AddArgs>, a: AddArgs, e: RouteEntry)
    ensures Asked(calls + [a], e) <==> Asked(calls, e) || a.entry == e
  {
    if Asked(calls, e) {
      var i :| 0 <= i < |calls| && calls[i].entry == e;
      assert (calls + [a])[i] == calls[i];
    }
    assert (calls + [a])[|calls|] == a;
  }

  /** The ledger holds nothing but what was asked for. */
  predicate OnlyAsked(owned: Ledger, calls: seq<AddArgs>) {
    forall k | k in owned :: Asked(calls, owned[k])
  }

  lemma OnlyAskedMore(s: Sys, calls: seq<AddArgs>, a: AddArgs)
    requires OnlyAsked(s.owned, calls)
    ensures OnlyAsked(AddOne(s, a).owned, calls + [a])
  {
    hide Asked, ToRow, RouteKey;
    var owned := AddOne(s, a).owned;
    forall k | k in owned ensures Asked(calls + [a], owned[k]) {
      AskedMore(calls, a, owned[k]);
      assert owned[k] == a.entry || (k in s.owned && owned[k] == s.owned[k]);
    }
  }

  lemma {:induction false} OwnedWasAsked(s: Sys, calls: seq<AddArgs>)
    requires s.owned == map[]
    ensures OnlyAsked(AddAll(s, calls).owned, calls)
    decreases calls
  {
    hide Asked, AddOne;
    if calls != [] {
      var front, last := calls[..|calls| - 1], calls[|calls| - 1];
      assert calls == front + [last];
      OwnedWasAsked(s, front);
      OnlyAskedMore(AddAll(s, front), front, last);
    }
  }

  /**
   What can be checked before adding: when no row asked for stands in the table, any additions and their teardown
   leave it as it was, whatever the disk and the system answer to the additions.
   */
  lemma NewRowsAreRestored(s: Sys, calls: seq<AddArgs>, t: Sys)
    requires Fresh(s) && AllAddable(s, calls)
    requires Reconciled(AddAll(s, calls), {}, t) && AllNew(s.live, EntriesOf(calls))
    ensures t.live == s.live
  {
    hide Safe, AllAddable, AddAll, ToRow;
    TeardownRestores(s, calls, t);
    OwnedWasAsked(s, calls);
    var owned := AddAll(s, calls).owned;
    forall k | k in owned && ToRow(owned[k]).Some? ensures ToRow(owned[k]).value !in s.live {
      assert Asked(calls, owned[k]);
      var i :| 0 <= i < |calls| && calls[i].entry == owned[k];
      assert EntriesOf(calls)[i] == owned[k];
    }
  }

  /** Nothing was added yet. */
  ghost predicate Fresh(s: Sys) {
    Safe(s) && s.created == {} && s.owned == map[]
  }

  // ---------- when the check is exact ----------

  predicate DistinctKeys(es: seq<RouteEntry>) {
    forall i, j | 0 <= i < j < |es| :: RouteKey(es[i]) != RouteKey(es[j])
  }

  /** Every write of the calls is one of the ledger as it then stands. */
  ghost predicate AllWritten(s: Sys, calls: seq<AddArgs>)
    decreases calls
  {
    calls != [] ==>
      var front, last := calls[..|calls| - 1], calls[|calls| - 1];
      AllWritten(s, front) && AddWrites(AddAll(s, front), last.entry, last.written, last.undo)
  }

  lemma WrittenMore(s: Sys, calls: seq<AddArgs>, a: AddArgs)
    ensures AddAll(s, calls + [a]) == AddOne(AddAll(s, calls), a)
    ensures AllWritten(s, calls + [a]) <==>
      AllWritten(s, calls) && AddWrites(AddAll(s, calls), a.entry, a.written, a.undo)
  {
    hide AddOne, AddWrites;
    assert (calls + [a])[..|calls|] == calls;
  }

  predicate KeyAsked(calls: seq<AddArgs>, key: string) {
    exists i | 0 <= i < |calls| :: RouteKey(calls[i].entry) == key
  }

  lemma KeyAskedMore(calls: seq<AddArgs>, a: AddArgs, key: string)
    ensures KeyAsked(calls + [a], key) <==> KeyAsked(calls, key) || RouteKey(a.entry) == key
  {
    hide RouteKey;
    if KeyAsked(calls, key) {
      var i :| 0 <= i < |calls| && RouteKey(calls[i].entry) == key;
      assert (calls + [a])[i] == calls[i];
    }
    assert (calls + [a])[|calls|] == a;
  }

  /** No row was created but under a key that was asked for. */
  predicate OnlyAskedKeys(created: set<Row>, calls: seq<AddArgs>) {
    forall r | r in created :: KeyAsked(calls, RowKey(r))
  }

  lemma OnlyAskedKeysMore(s: Sys, calls: seq<AddArgs>, a: AddArgs)
    requires OnlyAskedKeys(s.created, calls)
    ensures OnlyAskedKeys(AddOne(s, a).created, calls + [a])
  {
    hide KeyAsked, ToRow, RouteKey, RowKey;
    RowKeyOfEntry(a.entry);
    forall r | r in AddOne(s, a).created ensures KeyAsked(calls + [a], RowKey(r)) {
      KeyAskedMore(calls, a, RowKey(r));
      assert r in s.created || ToRow(a.entry) == Some(r);
    }
  }

  /** Calls on different keys keep the rule that a key is not added while it stands for a live route. */
  lemma {:induction false} DistinctIsAddable(s: Sys, calls: seq<AddArgs>)
    requires s.created == {} && DistinctKeys(EntriesOf(calls)) && AllWritten(s, calls)
    ensures AllAddable(s, calls) && OnlyAskedKeys(AddAll(s, calls).created, calls)
    decreases calls
  {
    hide AddOne, AddWrites, RouteKey, RowKey, KeyAsked;
    if calls != [] {
      var front, last := calls[..|calls| - 1], calls[|calls| - 1];
      assert calls == front + [last];
      assert EntriesOf(front) == EntriesOf(calls)[..|front|];
      DistinctIsAddable(s, front);
      OnlyAskedKeysMore(AddAll(s, front), front, last);
      LastKeyIsFree(AddAll(s, front), front, last);
    }
  }

  lemma LastKeyIsFree(s: Sys, front: seq<AddArgs>, last: AddArgs)
    requires OnlyAskedKeys(s.created, front) && DistinctKeys(EntriesOf(front + [last]))
    ensures Unclaimed(s, RouteKey(last.entry))
  {
    hide RouteKey, RowKey;
    var es := EntriesOf(front + [last]);
    assert es[|front|] == last.entry;
    forall r | r in s.created ensures RowKey(r) != RouteKey(last.entry) {
      assert KeyAsked(front, RowKey(r));
      var i :| 0 <= i < |front| && RouteKey(front[i].entry) == RowKey(r);
      assert es[i] == front[i].entry;
    }
  }

  /** The entries whose rows stood there already are in the ledger. */
  predicate Enlisted(owned: Ledger, live: set<Row>, es: seq<RouteEntry>) {
    forall i | 0 <= i < |es| && ToRow(es[i]).Some? && ToRow(es[i]).value in live ::
      RouteKey(es[i]) in owned && owned[RouteKey(es[i])] == es[i]
  }

  lemma LandingStep(s: Sys, live: set<Row>, es: seq<RouteEntry>, e: RouteEntry, doc: Json)
    requires Enlisted(s.owned, live, es) && live <= s.live && DistinctKeys(es + [e])
    ensures
      var t := AddOne(s, AddArgs(e, Some(doc), false, None));
      Enlisted(t.owned, live, es + [e]) && live <= t.live
  {
    hide ToRow, RouteKey;
    var all, t := es + [e], AddOne(s, AddArgs(e, Some(doc), false, None));
    forall i | 0 <= i < |all| && ToRow(all[i]).Some? && ToRow(all[i]).value in live
      ensures RouteKey(all[i]) in t.owned && t.owned[RouteKey(all[i])] == all[i]
    {
      if i < |es| {
        assert all[i] == es[i] && all[|es|] == e;
        assert RouteKey(all[i]) != RouteKey(all[|es|]);
      }
    }
  }

  /** Calls in which every write lands and the system refuses nothing. */
  lemma {:induction false} LandingCalls(s: Sys, es: seq<RouteEntry>) returns (calls: seq<AddArgs>)
    requires DistinctKeys(es)
    ensures EntriesOf(calls) == es && AllWritten(s, calls)
    ensures Enlisted(AddAll(s, calls).owned, s.live, es) && s.live <= AddAll(s, calls).live
    decreases es
  {
    hide AddOne, AddWrites, Enlisted, RouteKey;
    calls := [];
    if es == [] {
      NothingLanded(s);
    } else {
      var front, e := es[..|es| - 1], es[|es| - 1];
      assert es == front + [e];
      calls := LandingCalls(s, front);
      var before := AddAll(s, calls);
      var doc := SomeRecord(before.owned[RouteKey(e) := e]);
      LandingStep(before, s.live, front, e, doc);
      var a := AddArgs(e, Some(doc), false, None);
      LandingWrites(before, e, doc);
      WrittenMore(s, calls, a);
      assert EntriesOf(calls + [a]) == EntriesOf(calls) + [e];
      calls := calls + [a];
    }
  }

  lemma NothingLanded(s: Sys)
    ensures EntriesOf([]) == [] && AllWritten(s, []) && AddAll(s, []) == s && Enlisted(s.owned, s.live, [])
  {
  }

  lemma LandingWrites(s: Sys, e: RouteEntry, doc: Json)
    requires IsRecord(doc, s.owned[RouteKey(e) := e])
    ensures AddWrites(s, e, Some(doc), None)
  {
  }

  /** Adding the entries and tearing down leaves the table as it was, whatever is answered to the additions. */
  ghost predicate AlwaysRestored(s: Sys, es: seq<RouteEntry>) {
    forall calls: seq<AddArgs>, t: Sys
      | EntriesOf(calls) == es && AllWritten(s, calls) && Reconciled(AddAll(s, calls), {}, t) :: t.live == s.live
  }

  /** For entries on different keys the check is exact: they go without trace if and only if all their rows are new. */
  lemma RestoredExactly(s: Sys, es: seq<RouteEntry>)
    requires Fresh(s) && DistinctKeys(es)
    ensures AlwaysRestored(s, es) <==> AllNew(s.live, es)
  {
    hide Safe, ToRow, RouteKey, AddAll, AllAddable, AllWritten;
    if AllNew(s.live, es) {
      forall calls: seq<AddArgs>, t: Sys
        | EntriesOf(calls) == es && AllWritten(s, calls) && Reconciled(AddAll(s, calls), {}, t) ensures t.live == s.live
      {
        DistinctIsAddable(s, calls);
        NewRowsAreRestored(s, calls, t);
      }
    } else {
      var i :| 0 <= i < |es| && ToRow(es[i]).Some? && ToRow(es[i]).value in s.live;
      var calls := LandingCalls(s, es);
      var u := AddAll(s, calls);
      var t := Sys(u.live - RowsOf(u.owned, {}), u.created - RowsOf(u.owned, {}), Kept(u.owned, {}), u.disk);
      assert Reconciled(u, {}, t);
      assert !Stays(u.owned, {}, RouteKey(es[i]));
      assert ToRow(es[i]).value in RowsOf(u.owned, {}) && ToRow(es[i]).value !in t.live;
    }
  }

  // ---------- a whole session ----------

  lemma {:induction false} AddAllConcat(s: Sys, a: seq<AddArgs>, b: seq<AddArgs>)
    ensures AddAll(s, a + b) == AddAll(AddAll(s, a), b)
    ensures AllWritten(s, a + b) <==> AllWritten(s, a) && AllWritten(AddAll(s, a), b)
    decreases b
  {
    hide AddOne, AddWrites;
    if b == [] {
      assert a + b == a;
    } else {
      var front, last := b[..|b| - 1], b[|b| - 1];
      assert b == front + [last] && a + b == a + front + [last];
      AddAllConcat(s, a, front);
      WrittenMore(s, a + front, last);
      WrittenMore(AddAll(s, a), front, last);
    }
  }

  predicate DistinctDestinations(es: seq<RouteEntry>) {
    forall i, j | 0 <= i < j < |es| :: es[i].destination != es[j].destination
  }

  lemma DestinationsTellKeys(es: seq<RouteEntry>)
    requires DistinctDestinations(es)
    ensures DistinctKeys(es)
  {
    hide KeyOf;
    forall i, j | 0 <= i < j < |es| ensures RouteKey(es[i]) != RouteKey(es[j]) {
      if RouteKey(es[i]) == RouteKey(es[j]) {
        RouteKeyInjective(es[i].destination, es[i].interfaceIndex, es[j].destination, es[j].interfaceIndex);
      }
    }
  }

  lemma DistinctConcat(a: seq<RouteEntry>, b: seq<RouteEntry>)
    requires DistinctDestinations(a) && DistinctDestinations(b)
    requires forall i, j | 0 <= i < |a| && 0 <= j < |b| :: a[i].destination != b[j].destination
    ensures DistinctDestinations(a + b)
  {
    var all := a + b;
    forall i, j | 0 <= i < j < |all| ensures all[i].destination != all[j].destination {
      assert all[i] == if i < |a| then a[i] else b[i - |a|];
      assert all[j] == if j < |a| then a[j] else b[j - |a|];
    }
  }

  /** The default entries of a family are distinct, shorter than any host route, and of that family. */
  lemma DefaultsAreDistinct(es: seq<RouteEntry>, mode: DefaultRouteMode, v4: bool, tunnel: U32)
    requires es <= DefaultRouteEntries(mode, v4, tunnel)
    ensures DistinctDestinations(es)
    ensures forall i | 0 <= i < |es| :: es[i].destination.prefix <= 1 && es[i].destination.network.V4? == v4
  {
    hide MaskBytes;
    var all := DefaultRouteEntries(mode, v4, tunnel);
    assert forall i | 0 <= i < |es| :: es[i] == all[i];
    HalvesDiffer(v4);
  }

  lemma HalvesDiffer(v4: bool)
    ensures Half(v4, false) != Half(v4, true)
  {
    assert Half(v4, false).network.octets[0] == 0 && Half(v4, true).network.octets[0] == 128;
  }

  /**
   A whole session: the gateway pin and the capture of the defaults of both families, as far as they got, then an
   unrefused teardown. When none of their rows stood in the table before, it leaves no trace: the table is as it was,
   and every address is forwarded as before.
   */
  lemma SessionLeavesNoTrace(s: Sys, pin: seq<AddArgs>, v4: seq<AddArgs>, v6: seq<AddArgs>, t: Sys,
      gateway: IpAddress, underlay: U32, best: Row, mode: DefaultRouteMode, tunnel: U32, cost: Cost, x: IpAddress)
    requires Fresh(s) && AllWritten(s, pin) && AllWritten(AddAll(s, pin), v4)
    requires AllWritten(AddAll(AddAll(s, pin), v4), v6)
    requires EntriesOf(pin) <= [PinEntry(gateway, underlay, best)]
    requires EntriesOf(v4) <= DefaultRouteEntries(mode, true, tunnel)
    requires EntriesOf(v6) <= DefaultRouteEntries(mode, false, tunnel)
    requires Reconciled(AddAll(AddAll(AddAll(s, pin), v4), v6), {}, t)
    requires AllNew(s.live, EntriesOf(pin) + EntriesOf(v4) + EntriesOf(v6))
    ensures t.live == s.live && Best(t.live, cost, x) == Best(s.live, cost, x)
  {
    hide Fresh, AllWritten, AddAll, Best, Reconciled, AllNew, AllAddable, DistinctDestinations, DistinctKeys,
      DefaultRouteEntries;
    var calls := pin + v4 + v6;
    AddAllConcat(s, pin, v4);
    AddAllConcat(s, pin + v4, v6);
    var a, b, c := EntriesOf(pin), EntriesOf(v4), EntriesOf(v6);
    assert EntriesOf(calls) == a + b + c;
    assert DistinctDestinations(a) by {
      OneIsDistinct(a);
    }
    DefaultsAreDistinct(b, mode, true, tunnel);
    DefaultsAreDistinct(c, mode, false, tunnel);
    assert forall i | 0 <= i < |a| :: a[i] == [PinEntry(gateway, underlay, best)][i];
    DistinctConcat(a, b);
    DistinctConcat(a + b, c);
    DestinationsTellKeys(a + b + c);
    FreshIsFresh(s);
    DistinctIsAddable(s, calls);
    RoutingIsRestored(s, calls, t, cost, x);
    NewRowsAreRestored(s, calls, t);
  }

  lemma OneIsDistinct(es: seq<RouteEntry>)
    requires |es| <= 1
    ensures DistinctDestinations(es)
  {
  }

  lemma FreshIsFresh(s: Sys)
    requires Fresh(s)
    ensures s.created == {}
  {
  }

  /** When no row asked for stood there before, every address is forwarded as before. */
  lemma RoutingIsRestored(s: Sys, calls: seq<AddArgs>, t: Sys, cost: Cost, x: IpAddress)
    requires Fresh(s) && AllAddable(s, calls)
    requires Reconciled(AddAll(s, calls), {}, t) && AllNew(s.live, EntriesOf(calls))
    ensures Best(t.live, cost, x) == Best(s.live, cost, x)
  {
    hide Fresh, AllAddable, AddAll, Best, Reconciled;
    NewRowsAreRestored(s, calls, t);
  }
}
