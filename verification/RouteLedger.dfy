/**
 The ledger of owned routes (Routing/src/RouteManager.cpp): its entries, their keys, and the JSON document
 that keeps them across a crash.
 */
module RouteLedger {
  import opened Types
  import opened Wrappers
  import opened StringUtil
  import opened Digits
  import opened IpText
  import opened IpV6Format
  import opened IpRanges
  import opened RangeText
  import opened JsonDocs

  datatype RouteEntry = RouteEntry(
    destination: IpRange, nextHop: Option<IpAddress>, interfaceIndex: U32, metric: U32, owned: bool)

  /** What identifies a row of the system's routing table. */
  datatype Row = Row(destination: IpRange, interfaceIndex: U32, nextHop: IpAddress)

  function AnyAddress(family: IpAddress): IpAddress {
    if family.V4? then V4([0, 0, 0, 0]) else V6(seq(16, _ => 0))
  }

  /** `toRow`: an unset next hop is all zero; one of the other family is refused. */
  function ToRow(e: RouteEntry): Option<Row> {
    if e.nextHop.None? then Some(Row(e.destination, e.interfaceIndex, AnyAddress(e.destination.network)))
    else if e.nextHop.value.V4? != e.destination.network.V4? then None
    else Some(Row(e.destination, e.interfaceIndex, e.nextHop.value))
  }

  // ---------- keys ----------

  function KeyOf(destination: IpRange, interfaceIndex: U32): string {
    CidrText(destination) + ['@'] + Print(interfaceIndex, 10)
  }

  /** `routeKey`; the next hop takes no part in it. */
  function RouteKey(e: RouteEntry): string {
    KeyOf(e.destination, e.interfaceIndex)
  }

  function RowKey(r: Row): string {
    KeyOf(r.destination, r.interfaceIndex)
  }

  lemma NoAtInRange(r: IpRange)
    ensures '@' !in CidrText(r)
  {
    hide ToText, Print;
    AddressChars(r.network);
    PrintIsCanonical(r.prefix, 10);
  }

  /** A key tells the destination and the interface. */
  lemma RouteKeyInjective(d: IpRange, i: U32, e: IpRange, j: U32)
    requires KeyOf(d, i) == KeyOf(e, j)
    ensures d == e && i == j
  {
    hide CidrText, Print, Find;
    NoAtInRange(d);
    NoAtInRange(e);
    var key := KeyOf(d, i);
    FindSkips(CidrText(d), '@', Print(i, 10));
    FindSkips(CidrText(e), '@', Print(j, 10));
    assert key[..Find(key, '@')] == CidrText(d) && key[..Find(key, '@')] == CidrText(e);
    assert key[Find(key, '@') + 1..] == Print(i, 10) && key[Find(key, '@') + 1..] == Print(j, 10);
    RangeTextInjective(d, e);
    ValueOfPrint(i, 10);
    ValueOfPrint(j, 10);
  }

  // ---------- JSON ----------

  function ToJson(e: RouteEntry): Json {
    var fields := map[
      "destination" := Str(CidrText(e.destination)),
      "interfaceIndex" := Num(e.interfaceIndex),
      "metric" := Num(e.metric),
      "owned" := Bool(e.owned)];
    Obj(if e.nextHop.Some? then fields["nextHop" := Str(ToText(e.nextHop.value))] else fields)
  }

  /** `routeEntryFromJson`. */
  function FromJson(doc: Json): Option<RouteEntry> {
    if !doc.Obj? then None
    else
      var destination :- ParseRange(GetText(doc, "destination", ""));
      var nextHop := ParseAddress(GetText(doc, "nextHop", ""));
      var interfaceIndex := GetU32(doc, "interfaceIndex", 0);
      if "nextHop" in doc.fields && nextHop.None? then None
      else if interfaceIndex == 0 then None
      else Some(RouteEntry(destination, if "nextHop" in doc.fields then nextHop else None, interfaceIndex,
        GetU32(doc, "metric", 0), GetBool(doc, "owned", true)))
  }

  /** An entry is read back from its JSON exactly when it names an interface. */
  lemma EntryRoundTrip(e: RouteEntry)
    ensures FromJson(ToJson(e)) == if e.interfaceIndex == 0 then None else Some(e)
  {
    hide ParseRange, CidrText, ParseAddress, ToText;
    RangeRoundTrip(e.destination);
    EntryFields(e);
    if e.nextHop.Some? {
      AddressRoundTrip(e.nextHop.value);
    }
  }

  lemma EntryFields(e: RouteEntry)
    ensures
      var doc := ToJson(e);
      && doc.Obj? && GetText(doc, "destination", "") == CidrText(e.destination)
      && GetU32(doc, "interfaceIndex", 0) == e.interfaceIndex && GetU32(doc, "metric", 0) == e.metric
      && GetBool(doc, "owned", true) == e.owned
      && ("nextHop" in doc.fields <==> e.nextHop.Some?)
      && (e.nextHop.Some? ==> GetText(doc, "nextHop", "") == ToText(e.nextHop.value))
  {
    hide CidrText, ToText;
    assert "destination"[0] != "interfaceIndex"[0] && "metric"[0] != "nextHop"[0];
    assert "destination" != "interfaceIndex" && "destination" != "metric" && "destination" != "owned"
      && "destination" != "nextHop";
    assert "interfaceIndex" != "metric" && "interfaceIndex" != "owned" && "interfaceIndex" != "nextHop";
    assert "metric" != "owned" && "owned"[0] != "nextHop"[0];
  }

  // ---------- the persisted document ----------

  type Ledger = map<string, RouteEntry>

  predicate Keyed(owned: Ledger) {
    forall k | k in owned :: RouteKey(owned[k]) == k
  }

  /** `loadRecord` over the items of the array: later items win, unreadable ones are skipped. */
  function LoadItems(items: seq<Json>): Ledger {
    if items == [] then map[]
    else
      var front, entry := LoadItems(items[..|items| - 1]), FromJson(items[|items| - 1]);
      if entry.Some? then front[RouteKey(entry.value) := entry.value] else front
  }

  function LoadRecord(doc: Json): Ledger {
    if doc.Arr? then LoadItems(doc.items) else map[]
  }

  ghost predicate ItemsFrom(items: seq<Json>, owned: Ledger) {
    forall i | 0 <= i < |items| :: exists k :: k in owned && items[i] == ToJson(owned[k])
  }

  /** A document that `saveRecordLocked` may write: the entries of the ledger, in the order of a hash table. */
  ghost predicate IsRecord(doc: Json, owned: Ledger) {
    && doc.Arr? && ItemsFrom(doc.items, owned)
    && (forall k | k in owned :: ToJson(owned[k]) in doc.items)
  }

  /** The entries that survive being written and read. */
  function Readable(owned: Ledger): Ledger {
    map k | k in owned && owned[k].interfaceIndex != 0 :: owned[k]
  }

  lemma {:induction false} ItemsLoaded(items: seq<Json>, owned: Ledger)
    requires Keyed(owned)
    requires ItemsFrom(items, owned)
    ensures forall k :: k in LoadItems(items) <==> k in Readable(owned) && ToJson(owned[k]) in items
    ensures forall k | k in LoadItems(items) :: LoadItems(items)[k] == owned[k]
  {
    hide ToJson, FromJson, RouteKey;
    if items != [] {
      var front, last := items[..|items| - 1], items[|items| - 1];
      assert items == front + [last];
      ItemsLoaded(front, owned);
      var j :| j in owned && last == ToJson(owned[j]);
      EntryRoundTrip(owned[j]);
      forall k | k in Readable(owned) ensures ToJson(owned[k]) == last <==> k == j {
        EntryRoundTrip(owned[k]);
      }
    }
  }

  /** Loading undoes saving, whatever the order of writing, for all entries that name an interface. */
  lemma LedgerRoundTrip(doc: Json, owned: Ledger)
    requires Keyed(owned) && IsRecord(doc, owned)
    ensures LoadRecord(doc) == Readable(owned)
  {
    hide ToJson, Keyed, ItemsFrom;
    ItemsLoaded(doc.items, owned);
  }

  /** The item is a readable entry of this key. */
  predicate Names(item: Json, key: string) {
    FromJson(item).Some? && RouteKey(FromJson(item).value) == key
  }

  /** The ledger holds, for every key that a readable item has, the entry of the last such item. */
  lemma {:induction false} LastItemWins(items: seq<Json>, key: string)
    ensures key in LoadItems(items) <==> exists i | 0 <= i < |items| :: Names(items[i], key)
    ensures forall i | 0 <= i < |items| && Names(items[i], key) && forall j | i < j < |items| ::
      !Names(items[j], key) ::
      LoadItems(items)[key] == FromJson(items[i]).value
  {
    hide FromJson, RouteKey;
    if items != [] {
      var front := items[..|items| - 1];
      assert forall i | 0 <= i < |front| :: front[i] == items[i];
      LastItemWins(front, key);
    }
  }

  lemma FieldElsewhere(fields: map<string, Json>, key: string, value: Json, other: string)
    requires key != other
    ensures Field(Obj(fields[key := value]), other) == Field(Obj(fields), other)
    ensures other in fields[key := value] <==> other in fields
  {
  }

  /** Nothing but the five fields of an entry is looked at. */
  lemma OtherFieldsAreIgnored(fields: map<string, Json>, key: string, value: Json)
    requires key != "destination" && key != "nextHop" && key != "interfaceIndex" && key != "metric" && key != "owned"
    ensures FromJson(Obj(fields[key := value])) == FromJson(Obj(fields))
  {
    hide ParseRange, ParseAddress, Field;
    FieldElsewhere(fields, key, value, "destination");
    FieldElsewhere(fields, key, value, "nextHop");
    FieldElsewhere(fields, key, value, "interfaceIndex");
    FieldElsewhere(fields, key, value, "metric");
    FieldElsewhere(fields, key, value, "owned");
  }

  lemma NothingIsNoRange()
    ensures ParseRange("") == None && ParseAddress("") == None
  {
    assert Trim("") == "";
    assert QuadFrom("", 4) == None;
  }

  /**
   An item is an entry exactly when it names a readable destination and an interface other than 0 and its next hop, if
   it has one, can be read; a missing metric is 0, and an entry is ours unless it says otherwise.
   */
  lemma EntryReadExactly(doc: Json)
    ensures FromJson(doc).Some? <==>
      && doc.Obj? && "destination" in doc.fields && "interfaceIndex" in doc.fields
      && doc.fields["destination"].Str? && ParseRange(doc.fields["destination"].text).Some?
      && (var i := doc.fields["interfaceIndex"]; i == Bool(true) || (i.Num? && i.number % 0x1_0000_0000 != 0))
      && ("nextHop" in doc.fields ==> doc.fields["nextHop"].Str? && ParseAddress(doc.fields["nextHop"].text).Some?)
    ensures FromJson(doc).Some? ==>
      var e := FromJson(doc).value;
      && ParseRange(doc.fields["destination"].text) == Some(e.destination)
      && (doc.fields["interfaceIndex"].Num? ==> e.interfaceIndex == doc.fields["interfaceIndex"].number % 0x1_0000_0000)
      && (if "nextHop" in doc.fields then ParseAddress(doc.fields["nextHop"].text) == e.nextHop else e.nextHop == None)
      && ("metric" !in doc.fields ==> e.metric == 0)
      && ("metric" in doc.fields && doc.fields["metric"].Num? ==>
        e.metric == doc.fields["metric"].number % 0x1_0000_0000)
      && (!e.owned <==> "owned" in doc.fields && doc.fields["owned"] == Bool(false))
  {
    hide ParseRange, ParseAddress;
    NothingIsNoRange();
  }

  lemma {:induction false} LoadedIsKeyed(items: seq<Json>)
    ensures Keyed(LoadItems(items))
    ensures forall k | k in LoadItems(items) :: LoadItems(items)[k].interfaceIndex != 0
  {
    hide RouteKey, FromJson;
    if items != [] {
      LoadedIsKeyed(items[..|items| - 1]);
      ReadNamesInterface(items[|items| - 1]);
    }
  }

  lemma ReadNamesInterface(doc: Json)
    ensures FromJson(doc).Some? ==> FromJson(doc).value.interfaceIndex != 0
  {
  }
}
