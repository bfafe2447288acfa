/**
 The firewall policy compiled to weighted filters (Firewall/src/WfpEngine.cpp), and what the filters decide
 when the platform lets the highest weight win.
 */
module FirewallFilters {
  import opened Types
  import opened Bits
  import opened Wrappers
  import opened IpText
  import opened IpRanges
  import opened RangeMasks
  import opened RangeText

  datatype KillSwitchMode = Off | Soft | Hard

  datatype Policy = Policy(
    mode: KillSwitchMode, allowLoopback: bool, allowDhcp: bool, allowedDestinations: seq<IpRange>,
    interfaces: seq<nat>, endpoints: seq<Endpoint>, persistent: bool)

  /** The condition of a filter as it is handed to the platform. */
  datatype Condition =
    | Always
    | OnInterface(luid: nat)
    | Address32(address: bv32)
    | Address128(octets: seq<Byte>)
    | Mask32(network: bv32, mask: bv32)
    | Prefix128(range: IpRange)

  /** `v4` selects the layer; the action is permit or block. */
  datatype Filter = Filter(v4: bool, permit: bool, weight: nat, condition: Condition, persistent: bool)

  const BLOCK_ALL: nat := 1
  const PERMIT_LOOPBACK: nat := 8
  const PERMIT_DHCP: nat := 9
  const PERMIT_LAN: nat := 10
  const PERMIT_TUNNEL: nat := 12
  const PERMIT_ENDPOINT: nat := 14

  // ---------- compilation ----------

  function EndpointFilter(e: Endpoint, persistent: bool): Filter {
    var a := e.address;
    Filter(a.V4?, true, PERMIT_ENDPOINT, if a.V4? then Address32(Packed(a.octets)) else Address128(a.octets),
      persistent)
  }

  function RangeFilter(r: IpRange, weight: nat, persistent: bool): Filter {
    Filter(r.network.V4?, true, weight,
      if r.network.V4? then Mask32(Packed(r.network.octets), FilterMask(r.prefix)) else Prefix128(r), persistent)
  }

  function BlockAll(persistent: bool): seq<Filter> {
    [Filter(true, false, BLOCK_ALL, Always, persistent), Filter(false, false, BLOCK_ALL, Always, persistent)]
  }

  function InterfaceFilters(luids: seq<nat>, persistent: bool): seq<Filter> {
    if luids == [] then []
    else
      var last := luids[|luids| - 1];
      InterfaceFilters(luids[..|luids| - 1], persistent)
      + [Filter(true, true, PERMIT_TUNNEL, OnInterface(last), persistent),
        Filter(false, true, PERMIT_TUNNEL, OnInterface(last), persistent)]
  }

  function EndpointFilters(es: seq<Endpoint>, persistent: bool): (r: seq<Filter>)
    ensures |r| == |es|
  {
    seq(|es|, i requires 0 <= i < |es| => EndpointFilter(es[i], persistent))
  }

  function RangeFilters(rs: seq<IpRange>, weight: nat, persistent: bool): (r: seq<Filter>)
    ensures |r| == |rs|
  {
    seq(|rs|, i requires 0 <= i < |rs| => RangeFilter(rs[i], weight, persistent))
  }

  /** 127.0.0.0/8 and ::1/128. */
  function LoopbackRanges(): seq<IpRange> {
    ConstantRanges();
    [Range(V4([127, 0, 0, 0]), 8), Range(V6([0, 0, 0, 0, 0, 0, 0, 0, 0, 0, 0, 0, 0, 0, 0, 1]), 128)]
  }

  /** 255.255.255.255/32 and 169.254.0.0/16. */
  function DhcpRanges(): seq<IpRange> {
    ConstantRanges();
    [Range(V4([255, 255, 255, 255]), 32), Range(V4([169, 254, 0, 0]), 16)]
  }

  lemma ConstantRanges()
    ensures MaskBytes([127, 0, 0, 0], 8) == [127, 0, 0, 0]
    ensures var one: seq<Byte> := [0, 0, 0, 0, 0, 0, 0, 0, 0, 0, 0, 0, 0, 0, 0, 1]; MaskBytes(one, 128) == one
    ensures MaskBytes([255, 255, 255, 255], 32) == [255, 255, 255, 255]
    ensures MaskBytes([169, 254, 0, 0], 16) == [169, 254, 0, 0]
  {
  }

  /** The filters of a policy, in the order they are added. */
  function Compile(p: Policy): seq<Filter> {
    BlockAll(p.persistent) + InterfaceFilters(p.interfaces, p.persistent) + EndpointFilters(p.endpoints, p.persistent)
    + (if p.allowLoopback then RangeFilters(LoopbackRanges(), PERMIT_LOOPBACK, p.persistent) else [])
    + (if p.allowDhcp then RangeFilters(DhcpRanges(), PERMIT_DHCP, p.persistent) else [])
    + RangeFilters(p.allowedDestinations, PERMIT_LAN, p.persistent)
  }

  /** Every filter of a policy is as persistent as the policy. */
  lemma CompiledPersistence(p: Policy)
    ensures forall f | f in Compile(p) :: f.persistent == p.persistent
  {
    hide LoopbackRanges, DhcpRanges, InterfaceFilters, Packed, FilterMask;
    InterfacePersistence(p.interfaces, p.persistent);
  }

  lemma {:induction false} InterfacePersistence(luids: seq<nat>, persistent: bool)
    ensures forall f | f in InterfaceFilters(luids, persistent) :: f.persistent == persistent
    decreases luids
  {
    if luids != [] {
      InterfacePersistence(luids[..|luids| - 1], persistent);
    }
  }

  // ---------- arbitration ----------

  /** A connection: the remote address and the local interface it leaves by. */
  datatype Flow = Flow(remote: IpAddress, luid: nat)

  predicate Matches(f: Filter, flow: Flow) {
    f.v4 == flow.remote.V4? &&
    match f.condition
    case Always => true
    case OnInterface(luid) => flow.luid == luid
    case Address32(a) => flow.remote.V4? && Packed(flow.remote.octets) == a
    case Address128(octets) => flow.remote.octets == octets
    case Mask32(network, mask) => flow.remote.V4? && FilterMatches(network, mask, Packed(flow.remote.octets))
    case Prefix128(r) => Covers(r, flow.remote)
  }

  /** The filter has a say: it matches, and no matching filter weighs more. */
  predicate Decides(filters: seq<Filter>, flow: Flow, f: Filter) {
    f in filters && Matches(f, flow) && forall g | g in filters && Matches(g, flow) :: g.weight <= f.weight
  }

  /** 127.x.y.z and ::1. */
  predicate IsLoopback(a: IpAddress) {
    if a.V4? then a.octets[0] == 127 else a.octets[15] == 1 && forall i | 0 <= i < 15 :: a.octets[i] == 0
  }

  /** The IPv4 broadcast address and 169.254.x.y. */
  predicate IsDhcp(a: IpAddress) {
    a.V4? && (a.octets == [255, 255, 255, 255] || a.octets[..2] == [169, 254])
  }

  /** What the policy is meant to let through. */
  predicate Intended(p: Policy, flow: Flow) {
    || flow.luid in p.interfaces
    || (exists i | 0 <= i < |p.endpoints| :: p.endpoints[i].address == flow.remote)
    || (p.allowLoopback && IsLoopback(flow.remote))
    || (p.allowDhcp && IsDhcp(flow.remote))
    || Covered(p.allowedDestinations, flow.remote)
  }

  predicate Covered(rs: seq<IpRange>, a: IpAddress) {
    exists i | 0 <= i < |rs| :: Covers(rs[i], a)
  }

  /** Some permitting filter matches. */
  predicate Permitted(filters: seq<Filter>, flow: Flow) {
    exists i | 0 <= i < |filters| :: filters[i].permit && Matches(filters[i], flow)
  }

  /** Every permit outweighs every block, and something always matches. */
  ghost predicate Layered(filters: seq<Filter>) {
    && (forall f | f in filters :: if f.permit then f.weight > BLOCK_ALL else f.weight == BLOCK_ALL)
    && (exists f :: f in filters && f.v4 && !f.permit && f.condition.Always?)
    && (exists f :: f in filters && !f.v4 && !f.permit && f.condition.Always?)
  }

  lemma {:induction false} SomeHeaviest(filters: seq<Filter>, flow: Flow) returns (best: Filter)
    requires exists f :: f in filters && Matches(f, flow)
    ensures Decides(filters, flow, best)
  {
    hide Matches;
    var f :| f in filters && Matches(f, flow);
    var front, last := filters[..|filters| - 1], filters[|filters| - 1];
    assert filters == front + [last];
    if exists g :: g in front && Matches(g, flow) {
      best := SomeHeaviest(front, flow);
      if Matches(last, flow) && last.weight > best.weight {
        best := last;
      }
    } else {
      best := last;
    }
  }

  /** Layered filters always reach a decision, and it is to permit exactly when some permit matches. */
  lemma PermitsWin(filters: seq<Filter>, flow: Flow)
    requires Layered(filters)
    ensures exists f :: Decides(filters, flow, f)
    ensures forall f | Decides(filters, flow, f) :: f.permit <==> Permitted(filters, flow)
  {
    var floor :| floor in filters && floor.v4 == flow.remote.V4? && !floor.permit && floor.condition.Always?;
    assert Matches(floor, flow);
    var best := SomeHeaviest(filters, flow);
    forall f | Decides(filters, flow, f) ensures f.permit <==> Permitted(filters, flow) {
      if f.permit {
        var i :| 0 <= i < |filters| && filters[i] == f;
      }
    }
  }

  // ---------- what the compiled filters let through ----------

  lemma U32Injective(a: seq<Byte>, b: seq<Byte>)
    requires |a| == 4 && |b| == 4
    ensures Packed(a) == Packed(b) <==> a == b
  {
    hide Octet, Cat;
    if Packed(a) == Packed(b) {
      CatInjective(Octet(a[0]), Octet(a[1]), Octet(a[2]), Octet(a[3]), Octet(b[0]), Octet(b[1]), Octet(b[2]),
        Octet(b[3]));
      BitsInjective(a[0], b[0]);
      BitsInjective(a[1], b[1]);
      BitsInjective(a[2], b[2]);
      BitsInjective(a[3], b[3]);
    }
  }

  lemma EndpointMatch(e: Endpoint, persistent: bool, flow: Flow)
    ensures Matches(EndpointFilter(e, persistent), flow) <==> e.address == flow.remote
  {
    hide Packed;
    if e.address.V4? && flow.remote.V4? {
      U32Injective(e.address.octets, flow.remote.octets);
    }
  }

  lemma RangeMatch(r: IpRange, weight: nat, persistent: bool, flow: Flow)
    ensures Matches(RangeFilter(r, weight, persistent), flow) <==> Covers(r, flow.remote)
  {
    hide Packed, FilterMask, FilterMatches, MaskBytes;
    if r.network.V4? && flow.remote.V4? {
      FilterAgrees(r, flow.remote);
    }
  }

  lemma PermittedConcat(a: seq<Filter>, b: seq<Filter>, flow: Flow)
    ensures Permitted(a + b, flow) <==> Permitted(a, flow) || Permitted(b, flow)
  {
    hide Matches;
    if Permitted(a, flow) {
      var i :| 0 <= i < |a| && a[i].permit && Matches(a[i], flow);
      assert (a + b)[i] == a[i];
    }
    if Permitted(b, flow) {
      var i :| 0 <= i < |b| && b[i].permit && Matches(b[i], flow);
      assert (a + b)[|a| + i] == b[i];
    }
  }

  lemma {:induction false} InterfacesPermit(luids: seq<nat>, persistent: bool, flow: Flow)
    ensures Permitted(InterfaceFilters(luids, persistent), flow) <==> flow.luid in luids
  {
    if luids != [] {
      var front, last := luids[..|luids| - 1], luids[|luids| - 1];
      var two := [Filter(true, true, PERMIT_TUNNEL, OnInterface(last), persistent),
        Filter(false, true, PERMIT_TUNNEL, OnInterface(last), persistent)];
      assert luids == front + [last];
      InterfacesPermit(front, persistent, flow);
      PermittedConcat(InterfaceFilters(front, persistent), two, flow);
      assert Permitted(two, flow) <==> flow.luid == last by {
        assert Matches(two[if flow.remote.V4? then 0 else 1], flow) <==> flow.luid == last;
      }
    }
  }

  lemma EndpointsPermit(es: seq<Endpoint>, persistent: bool, flow: Flow)
    ensures Permitted(EndpointFilters(es, persistent), flow) <==>
      exists i | 0 <= i < |es| :: es[i].address == flow.remote
  {
    hide Matches;
    var fs := EndpointFilters(es, persistent);
    forall i | 0 <= i < |es| ensures fs[i].permit && (Matches(fs[i], flow) <==> es[i].address == flow.remote) {
      EndpointMatch(es[i], persistent, flow);
    }
  }

  lemma RangesPermit(rs: seq<IpRange>, weight: nat, persistent: bool, flow: Flow)
    ensures Permitted(RangeFilters(rs, weight, persistent), flow) <==> Covered(rs, flow.remote)
  {
    hide Matches, Covers;
    var fs := RangeFilters(rs, weight, persistent);
    forall i | 0 <= i < |rs| ensures fs[i].permit && (Matches(fs[i], flow) <==> Covers(rs[i], flow.remote)) {
      RangeMatch(rs[i], weight, persistent, flow);
    }
  }

  lemma LoopbackExactly(a: IpAddress)
    ensures Covered(LoopbackRanges(), a) <==> IsLoopback(a)
  {
    var rs := LoopbackRanges();
    if a.V4? {
      assert Covers(rs[0], a) <==> a.octets[0] == 127;
      assert !Covers(rs[1], a);
    } else {
      var one: seq<Byte> := [0, 0, 0, 0, 0, 0, 0, 0, 0, 0, 0, 0, 0, 0, 0, 1];
      assert MaskBytes(a.octets, 128) == a.octets;
      assert Covers(rs[1], a) <==> a.octets == one;
      assert !Covers(rs[0], a);
    }
  }

  lemma DhcpExactly(a: IpAddress)
    ensures Covered(DhcpRanges(), a) <==> IsDhcp(a)
  {
    var rs := DhcpRanges();
    if a.V4? {
      assert MaskBytes(a.octets, 32) == a.octets;
      assert Covers(rs[0], a) <==> a.octets == [255, 255, 255, 255];
      assert Covers(rs[1], a) <==> a.octets[..2] == [169, 254];
    } else {
      assert !Covers(rs[0], a) && !Covers(rs[1], a);
    }
  }

  /** Some permit of the compiled policy matches exactly the flows the policy means to let through. */
  lemma CompiledPermits(p: Policy, flow: Flow)
    ensures Permitted(Compile(p), flow) <==> Intended(p, flow)
  {
    hide Permitted, Matches, Covered, IsLoopback, IsDhcp, LoopbackRanges, DhcpRanges, InterfaceFilters,
      EndpointFilters, RangeFilters,
      BlockAll;
    var a, b, c := BlockAll(p.persistent), InterfaceFilters(p.interfaces, p.persistent),
      EndpointFilters(p.endpoints, p.persistent);
    var d := if p.allowLoopback then RangeFilters(LoopbackRanges(), PERMIT_LOOPBACK, p.persistent) else [];
    var e := if p.allowDhcp then RangeFilters(DhcpRanges(), PERMIT_DHCP, p.persistent) else [];
    var f := RangeFilters(p.allowedDestinations, PERMIT_LAN, p.persistent);
    PermittedConcat(a, b, flow);
    PermittedConcat(a + b, c, flow);
    PermittedConcat(a + b + c, d, flow);
    PermittedConcat(a + b + c + d, e, flow);
    PermittedConcat(a + b + c + d + e, f, flow);
    NothingPermitted(p.persistent, flow);
    InterfacesPermit(p.interfaces, p.persistent, flow);
    EndpointsPermit(p.endpoints, p.persistent, flow);
    RangesPermit(LoopbackRanges(), PERMIT_LOOPBACK, p.persistent, flow);
    RangesPermit(DhcpRanges(), PERMIT_DHCP, p.persistent, flow);
    RangesPermit(p.allowedDestinations, PERMIT_LAN, p.persistent, flow);
    LoopbackExactly(flow.remote);
    DhcpExactly(flow.remote);
  }

  lemma NothingPermitted(persistent: bool, flow: Flow)
    ensures !Permitted(BlockAll(persistent), flow) && !Permitted([], flow)
  {
  }

  lemma {:induction false} InterfacesLayered(luids: seq<nat>, persistent: bool)
    ensures forall f | f in InterfaceFilters(luids, persistent) :: f.permit && f.weight > BLOCK_ALL
  {
    if luids != [] {
      InterfacesLayered(luids[..|luids| - 1], persistent);
    }
  }

  lemma CompiledIsLayered(p: Policy)
    ensures Layered(Compile(p))
  {
    hide LoopbackRanges, DhcpRanges, InterfaceFilters, Packed, FilterMask;
    InterfacesLayered(p.interfaces, p.persistent);
    var block := BlockAll(p.persistent);
    assert block[0] in Compile(p) && block[1] in Compile(p);
  }

  /**
   With the highest weight deciding, the compiled filters permit exactly what the policy means to let through and
   block the rest.
   */
  lemma CompiledPolicyDecides(p: Policy, flow: Flow)
    ensures exists f :: Decides(Compile(p), flow, f)
    ensures forall f | Decides(Compile(p), flow, f) :: f.permit <==> Intended(p, flow)
  {
    hide Compile, Permitted, Decides, Intended, Layered;
    CompiledIsLayered(p);
    PermitsWin(Compile(p), flow);
    CompiledPermits(p, flow);
  }
}
