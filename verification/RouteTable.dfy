/**
 What the created routes do to traffic (Routing/src/RouteManager.cpp) on a table that forwards by longest
 prefix (section 5.1 of RFC 4632), then by lowest cost: the gateway pin, the capture of the default route
 and the teardown.
 */
module RouteTable {
  import opened Types
  import opened Wrappers
  import opened Bits
  import opened IpText
  import opened IpRanges
  import opened RangeMath
  import opened RouteLedger
  import opened RouteSteps
  import opened RouteMachine

  /** Metric of the route plus metric of its interface; fixed for a row while it stands. */
  type Cost = Row -> nat

  predicate Better(cost: Cost, r: Row, s: Row) {
    || r.destination.prefix > s.destination.prefix
    || (r.destination.prefix == s.destination.prefix && cost(r) < cost(s))
  }

  predicate Reaches(rows: set<Row>, r: Row, x: IpAddress) {
    r in rows && Covers(r.destination, x)
  }

  /** The rows that may forward a packet to `x`. */
  ghost function Best(rows: set<Row>, cost: Cost, x: IpAddress): set<Row> {
    set r | r in rows && Reaches(rows, r, x) && forall s | s in rows && Reaches(rows, s, x) :: !Better(cost, s, r)
  }

  /** A row longer than every other row that covers the address takes the address alone. */
  lemma LongestTakesAll(rows: set<Row>, cost: Cost, x: IpAddress, r: Row)
    requires Reaches(rows, r, x)
    requires forall s | s in rows && Reaches(rows, s, x) && s != r :: s.destination.prefix < r.destination.prefix
    ensures Best(rows, cost, x) == {r}
  {
    hide Covers;
  }

  /** Rows shorter than what covers the address already change nothing for it. */
  lemma ShorterChangesNothing(rows: set<Row>, added: set<Row>, cost: Cost, x: IpAddress, r: Row)
    requires Reaches(rows, r, x)
    requires forall s | s in added && Covers(s.destination, x) ::
      s in rows || s.destination.prefix < r.destination.prefix
    ensures Best(rows + added, cost, x) == Best(rows, cost, x)
  {
    hide Covers;
    var all := rows + added;
    assert forall s | s in all && Reaches(all, s, x) && s !in rows :: Better(cost, r, s);
    assert Reaches(all, r, x);
  }

  /** Rows that do not cover the address change nothing for it. */
  lemma UnreachedChangesNothing(rows: set<Row>, added: set<Row>, cost: Cost, x: IpAddress)
    requires forall s | s in added :: !Covers(s.destination, x)
    ensures Best(rows + added, cost, x) == Best(rows, cost, x)
  {
    hide Covers;
    var all := rows + added;
    assert forall s :: Reaches(all, s, x) <==> Reaches(rows, s, x);
  }

  // ---------- the default route entries ----------

  datatype DefaultRouteMode = Leave | SplitHalves | Replace

  const ZERO_V6: seq<Byte> := [0, 0, 0, 0, 0, 0, 0, 0, 0, 0, 0, 0, 0, 0, 0, 0]
  const HIGH_V6: seq<Byte> := [128, 0, 0, 0, 0, 0, 0, 0, 0, 0, 0, 0, 0, 0, 0, 0]

  /** "0.0.0.0/1", "128.0.0.0/1", "::/1" and "8000::/1". */
  function Half(v4: bool, high: bool): (r: IpRange)
    ensures r.prefix == 1 && r.network.V4? == v4
  {
    HalvesAreMasked();
    if v4 then Range(V4(if high then [128, 0, 0, 0] else [0, 0, 0, 0]), 1)
    else Range(V6(if high then HIGH_V6 else ZERO_V6), 1)
  }

  lemma HalvesAreMasked()
    ensures MaskBytes([128, 0, 0, 0], 1) == [128, 0, 0, 0] && MaskBytes([0, 0, 0, 0], 1) == [0, 0, 0, 0]
    ensures MaskBytes(HIGH_V6, 1) == HIGH_V6 && MaskBytes(ZERO_V6, 1) == ZERO_V6
  {
    hide And, HighMask;
    ByteMeaning(128, 1);
    ByteMeaning(0, 1);
  }

  /** "0.0.0.0/0" and "::/0". */
  function Everything(v4: bool): (r: IpRange)
    ensures r.prefix == 0 && r.network.V4? == v4
  {
    Range(if v4 then V4([0, 0, 0, 0]) else V6(ZERO_V6), 0)
  }

  function MakeEntry(destination: IpRange, interfaceIndex: U32): RouteEntry {
    RouteEntry(destination, None, interfaceIndex, 0, true)
  }

  /** `defaultRouteEntries`. */
  function DefaultRouteEntries(mode: DefaultRouteMode, v4: bool, tunnel: U32): seq<RouteEntry> {
    match mode
    case Leave => []
    case SplitHalves => [MakeEntry(Half(v4, false), tunnel), MakeEntry(Half(v4, true), tunnel)]
    case Replace => [MakeEntry(Everything(v4), tunnel)]
  }

  function OnLink(destination: IpRange, interfaceIndex: U32): Row {
    Row(destination, interfaceIndex, AnyAddress(destination.network))
  }

  /** The rows a capture adds when it succeeds. */
  function CapturedRows(mode: DefaultRouteMode, v4: bool, tunnel: U32): set<Row> {
    match mode
    case Leave => {}
    case SplitHalves => {OnLink(Half(v4, false), tunnel), OnLink(Half(v4, true), tunnel)}
    case Replace => {OnLink(Everything(v4), tunnel)}
  }

  /** Every address of the family lies in exactly one half, by its first bit. */
  lemma OneHalf(v4: bool, x: IpAddress, high: bool)
    ensures Covers(Half(v4, high), x) <==> x.V4? == v4 && (x.octets[0] >= 128) == high
  {
    if x.V4? == v4 {
      var n := Half(v4, high).network.octets;
      FirstBit(x.octets, n);
    }
  }

  lemma FirstBit(s: seq<Byte>, t: seq<Byte>)
    requires |s| == |t| && |s| >= 1
    ensures MaskBytes(s, 1) == MaskBytes(t, 1) <==> (s[0] >= 128) == (t[0] >= 128)
  {
    hide And, HighMask;
    ByteMeaning(s[0], 1);
    ByteMeaning(t[0], 1);
    assert MaskBytes(s, 1)[0] == MaskByte(s[0], 1) && MaskBytes(t, 1)[0] == MaskByte(t[0], 1);
    assert s[0] / 128 * 128 == if s[0] >= 128 then 128 else 0;
    assert t[0] / 128 * 128 == if t[0] >= 128 then 128 else 0;
    forall i | 1 <= i < |s| ensures MaskBytes(s, 1)[i] == 0 && MaskBytes(t, 1)[i] == 0 {
    }
  }

  /** Every address of the family lies in the default range. */
  lemma EverythingCovers(v4: bool, x: IpAddress)
    ensures Covers(Everything(v4), x) <==> x.V4? == v4
  {
  }

  // ---------- the gateway pin ----------

  /** The route of one address only. */
  function HostRange(a: IpAddress): (r: IpRange)
    ensures r.prefix == Width(a)
  {
    assert MaskBytes(a.octets, Width(a)) == a.octets;
    Range(a, Width(a))
  }

  lemma HostCovers(a: IpAddress, x: IpAddress)
    ensures Covers(HostRange(a), x) <==> x == a
  {
    assert MaskBytes(x.octets, Width(x)) == x.octets && MaskBytes(a.octets, Width(a)) == a.octets;
  }

  predicate Unspecified(a: IpAddress) {
    forall i | 0 <= i < |a.octets| :: a.octets[i] == 0
  }

  /** `pinGatewayRoute`: a host route over the interface, to the next hop the stack uses there today. */
  function PinEntry(gateway: IpAddress, underlay: U32, best: Row): RouteEntry {
    RouteEntry(HostRange(gateway), if Unspecified(best.nextHop) then None else Some(best.nextHop), underlay, 0, true)
  }

  function PinRow(gateway: IpAddress, underlay: U32, best: Row): Row {
    Row(HostRange(gateway), underlay, best.nextHop)
  }

  /** The pinned row names the next hop of the row that reached the gateway before. */
  lemma PinKeepsNextHop(gateway: IpAddress, underlay: U32, best: Row)
    requires best.nextHop.V4? == gateway.V4?
    ensures ToRow(PinEntry(gateway, underlay, best)) == Some(PinRow(gateway, underlay, best))
  {
    if Unspecified(best.nextHop) {
      assert best.nextHop.octets == AnyAddress(gateway).octets;
    }
  }

  // ---------- pin, then capture ----------

  function PinnedAndSplit(rows: set<Row>, pin: Row, v4: bool, tunnel: U32): set<Row> {
    rows + {pin} + CapturedRows(SplitHalves, v4, tunnel)
  }

  /** The gateway keeps its interface and next hop, unless another host route for it stood before. */
  lemma GatewayStaysPinned(rows: set<Row>, cost: Cost, gateway: IpAddress, underlay: U32, best: Row, tunnel: U32)
    requires forall s | s in rows && Reaches(rows, s, gateway) && s.destination.prefix == Width(gateway) ::
      s == PinRow(gateway, underlay, best)
    ensures Best(PinnedAndSplit(rows, PinRow(gateway, underlay, best), gateway.V4?, tunnel), cost, gateway)
      == {PinRow(gateway, underlay, best)}
  {
    hide Half, Covers;
    var pin := PinRow(gateway, underlay, best);
    var after := PinnedAndSplit(rows, pin, gateway.V4?, tunnel);
    HostCovers(gateway, gateway);
    forall s | s in after && Reaches(after, s, gateway) && s != pin ensures s.destination.prefix < Width(gateway) {
      assert s in rows ==> Reaches(rows, s, gateway);
      WidthOfCovering(s.destination, gateway);
    }
    LongestTakesAll(after, cost, gateway, pin);
  }

  lemma WidthOfCovering(r: IpRange, x: IpAddress)
    requires Covers(r, x)
    ensures r.prefix <= Width(x)
  {
  }

  /** Any other address of the family that only a default route covered, or none, now goes into the tunnel. */
  lemma DefaultTrafficIsCaptured(rows: set<Row>, cost: Cost, pin: Row, gateway: IpAddress, tunnel: U32, x: IpAddress)
    requires pin.destination == HostRange(gateway) && x.V4? == gateway.V4? && x != gateway
    requires forall s | s in rows && Reaches(rows, s, x) :: s.destination.prefix == 0
    ensures Best(PinnedAndSplit(rows, pin, gateway.V4?, tunnel), cost, x)
      == {OnLink(Half(gateway.V4?, x.octets[0] >= 128), tunnel)}
  {
    hide Half, Covers;
    var after, half := PinnedAndSplit(rows, pin, gateway.V4?, tunnel),
      OnLink(Half(gateway.V4?, x.octets[0] >= 128), tunnel);
    HostCovers(gateway, x);
    OneHalf(gateway.V4?, x, true);
    OneHalf(gateway.V4?, x, false);
    assert half in after;
    forall s | s in after && Reaches(after, s, x) && s != half ensures s.destination.prefix < 1 {
      assert s in rows ==> Reaches(rows, s, x);
    }
    LongestTakesAll(after, cost, x, half);
  }

  predicate HasLongRoute(rows: set<Row>, x: IpAddress) {
    exists r | r in rows :: Reaches(rows, r, x) && r.destination.prefix > 1
  }

  /** Any other address with a route longer than /1, and every address of the other family, is routed as before. */
  lemma SpecificTrafficIsUntouched(rows: set<Row>, cost: Cost, pin: Row, gateway: IpAddress, tunnel: U32, x: IpAddress)
    requires pin.destination == HostRange(gateway) && x != gateway
    requires x.V4? == gateway.V4? ==> HasLongRoute(rows, x)
    ensures Best(PinnedAndSplit(rows, pin, gateway.V4?, tunnel), cost, x) == Best(rows, cost, x)
  {
    hide Half, Covers;
    HostCovers(gateway, x);
    OneHalf(gateway.V4?, x, true);
    OneHalf(gateway.V4?, x, false);
    var added := {pin} + CapturedRows(SplitHalves, gateway.V4?, tunnel);
    if x.V4? == gateway.V4? {
      var r :| r in rows && Reaches(rows, r, x) && r.destination.prefix > 1;
      ShorterChangesNothing(rows, added, cost, x, r);
    } else {
      UnreachedChangesNothing(rows, added, cost, x);
    }
    assert rows + added == PinnedAndSplit(rows, pin, gateway.V4?, tunnel);
  }

  /** Where a /1 route stood before, the tunnel's half joins or beats it exactly by cost. */
  lemma HalfTrafficGoesByCost(rows: set<Row>, cost: Cost, pin: Row, gateway: IpAddress, tunnel: U32, x: IpAddress,
      r: Row)
    requires pin.destination == HostRange(gateway) && x.V4? == gateway.V4? && x != gateway
    requires r in Best(rows, cost, x) && r.destination.prefix == 1
    ensures
      var half := OnLink(Half(gateway.V4?, x.octets[0] >= 128), tunnel);
      half in Best(PinnedAndSplit(rows, pin, gateway.V4?, tunnel), cost, x) <==> cost(half) <= cost(r)
  {
    hide Half, Covers;
    var after, half := PinnedAndSplit(rows, pin, gateway.V4?, tunnel),
      OnLink(Half(gateway.V4?, x.octets[0] >= 128), tunnel);
    HostCovers(gateway, x);
    OneHalf(gateway.V4?, x, true);
    OneHalf(gateway.V4?, x, false);
    assert Reaches(after, half, x) && Reaches(after, r, x);
    if cost(half) <= cost(r) {
      forall s | s in after && Reaches(after, s, x) ensures !Better(cost, s, half) {
        assert s in rows ==> Reaches(rows, s, x) && !Better(cost, s, r);
      }
    }
  }

  /** Replacing the default route captures default traffic exactly when the tunnel costs less. */
  lemma ReplaceGoesByCost(rows: set<Row>, cost: Cost, tunnel: U32, x: IpAddress, r: Row)
    requires r in Best(rows, cost, x) && r.destination.prefix == 0
    requires OnLink(Everything(x.V4?), tunnel) !in rows
    ensures
      var mine := OnLink(Everything(x.V4?), tunnel);
      var after := Best(rows + CapturedRows(Replace, x.V4?, tunnel), cost, x);
      && (after == {mine} <==> cost(mine) < cost(r))
      && (mine in after <==> cost(mine) <= cost(r))
  {
    hide Covers, Everything;
    var mine := OnLink(Everything(x.V4?), tunnel);
    var all := rows + CapturedRows(Replace, x.V4?, tunnel);
    EverythingCovers(x.V4?, x);
    assert all == rows + {mine} && Reaches(all, mine, x) && Reaches(all, r, x);
    forall s | s in all && Reaches(all, s, x) ensures s == mine || !Better(cost, s, r) {
      assert s in rows ==> Reaches(rows, s, x);
    }
    assert r in Best(all, cost, x) <==> cost(r) <= cost(mine);
    assert cost(mine) < cost(r) ==> forall s | s in all && Reaches(all, s, x) && s != mine :: Better(cost, mine, s);
  }
}
