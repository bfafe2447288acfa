/**
 What decides and what does not (`PolicyEvaluator`, Routing/src/RoutingRules.cpp), stated of policies and decisions:
 which rules may be deleted, which of the rest wins, and what the decision then carries.
 */
module RoutingLaws {
  import opened Types
  import opened Wrappers
  import opened StringUtil
  import opened IpText
  import opened IpRanges
  import opened Glob
  import opened RoutingRules

  // ---------- the choice as a function ----------

  datatype Ranked = Ranked(rank: Option<Rank>, base: RuleBase)

  /** The first of the best. */
  function Choice(rs: seq<Ranked>): (r: Option<Ranked>)
    ensures r.Some? ==> r.value.rank.Some?
  {
    if rs == [] then None
    else
      var front, last := Choice(rs[..|rs| - 1]), rs[|rs| - 1];
      if last.rank.Some? && (front.None? || Beats(last.rank.value, front.value.rank.value)) then Some(last) else front
  }

  function Outcome(rs: seq<Ranked>, kind: string, policy: RoutingPolicy): RouteDecision {
    var c := Choice(rs);
    if c.Some? then DecisionFrom(c.value.base, kind) else DefaultDecision(policy)
  }

  function Zip(ranks: seq<Option<Rank>>, bases: seq<RuleBase>): (rs: seq<Ranked>)
    requires |ranks| == |bases|
    ensures |rs| == |ranks|
  {
    seq(|ranks|, i requires 0 <= i < |ranks| => Ranked(ranks[i], bases[i]))
  }

  lemma {:induction false} ChoiceIsBest(ranks: seq<Option<Rank>>, bases: seq<RuleBase>) returns (best: Option<nat>)
    requires |ranks| == |bases|
    ensures Best(ranks[..|ranks|], best) && (best.Some? ==> best.value < |ranks| && ranks[best.value].Some?)
    ensures Choice(Zip(ranks, bases)) ==
      if best.Some? then Some(Ranked(ranks[best.value], bases[best.value])) else None
    decreases |ranks|
  {
    hide Best, Beats;
    var n := |ranks|;
    if n == 0 {
      best := None;
      NothingSeen(ranks);
    } else {
      var front := ranks[..n - 1];
      best := ChoiceIsBest(front, bases[..n - 1]);
      assert front[..n - 1] == ranks[..n - 1];
      BestStep(ranks, best, n - 1);
      assert Zip(ranks, bases)[..n - 1] == Zip(front, bases[..n - 1]);
      if ranks[n - 1].Some? && (best.None? || Beats(ranks[n - 1].value, ranks[best.value].value)) {
        best := Some(n - 1);
      }
    }
  }

  /** What is decided is the outcome of the choice. */
  lemma DecidedIs(ranks: seq<Option<Rank>>, bases: seq<RuleBase>, kind: string, policy: RoutingPolicy, d: RouteDecision)
    requires |ranks| == |bases|
    ensures Decided(ranks, bases, kind, policy, d) <==> d == Outcome(Zip(ranks, bases), kind, policy)
  {
    hide Decided, Best, Choice;
    var best := ChoiceIsBest(ranks, bases);
    BestDecides(ranks, bases, kind, policy, best);
    if Decided(ranks, bases, kind, policy, d) {
      DecisionIsUnique(ranks, bases, kind, policy, d, Outcome(Zip(ranks, bases), kind, policy));
    }
  }

  // ---------- deleting rules ----------

  function Filter<R>(rules: seq<R>, keep: R -> bool): seq<R> {
    if rules == [] then []
    else Filter(rules[..|rules| - 1], keep) + if keep(rules[|rules| - 1]) then [rules[|rules| - 1]] else []
  }

  function RankAll<R>(rules: seq<R>, rank: R -> Option<Rank>, base: R -> RuleBase): (rs: seq<Ranked>)
    ensures |rs| == |rules|
  {
    seq(|rules|, i requires 0 <= i < |rules| => Ranked(rank(rules[i]), base(rules[i])))
  }

  lemma RankAllSnoc<R>(rules: seq<R>, r: R, rank: R -> Option<Rank>, base: R -> RuleBase)
    ensures RankAll(rules + [r], rank, base) == RankAll(rules, rank, base) + [Ranked(rank(r), base(r))]
  {
  }

  lemma ChoiceSnoc(rs: seq<Ranked>, last: Ranked)
    ensures
      var front := Choice(rs);
      Choice(rs + [last]) ==
        if last.rank.Some? && (front.None? || Beats(last.rank.value, front.value.rank.value)) then Some(last) else front
  {
    assert (rs + [last])[..|rs|] == rs;
  }

  /** Rules that do not match can be deleted. */
  lemma {:induction false} FilterKeepsChoice<R>(rules: seq<R>, keep: R -> bool, rank: R -> Option<Rank>,
      base: R -> RuleBase)
    requires forall i | 0 <= i < |rules| && !keep(rules[i]) :: rank(rules[i]).None?
    ensures Choice(RankAll(Filter(rules, keep), rank, base)) == Choice(RankAll(rules, rank, base))
    decreases |rules|
  {
    hide Choice, RankAll;
    if rules != [] {
      var front, last := rules[..|rules| - 1], rules[|rules| - 1];
      FilterKeepsChoice(front, keep, rank, base);
      assert rules == front + [last];
      RankAllSnoc(front, last, rank, base);
      ChoiceSnoc(RankAll(front, rank, base), Ranked(rank(last), base(last)));
      if keep(last) {
        RankAllSnoc(Filter(front, keep), last, rank, base);
        ChoiceSnoc(RankAll(Filter(front, keep), rank, base), Ranked(rank(last), base(last)));
      } else {
        assert Filter(front, keep) + [] == Filter(front, keep);
      }
    }
  }

  // ---------- which rule wins ----------

  lemma {:induction false} ChoiceIsAmong(rs: seq<Ranked>)
    ensures Choice(rs).Some? ==> exists i | 0 <= i < |rs| :: Choice(rs).value == rs[i]
    decreases rs
  {
    if rs != [] {
      var front := rs[..|rs| - 1];
      ChoiceIsAmong(front);
      if Choice(front).Some? {
        var i :| 0 <= i < |front| && Choice(front).value == front[i];
        assert front[i] == rs[i];
      }
    }
  }

  /** Rule `i` comes before rule `j`: more specific, else of higher priority, else inserted earlier. */
  predicate Before(a: Rank, i: nat, b: Rank, j: nat) {
    || a.specificity > b.specificity
    || (a.specificity == b.specificity && (a.priority > b.priority || (a.priority == b.priority && i < j)))
  }

  lemma {:induction false} FirstBestIsChosen(rs: seq<Ranked>, i: nat)
    requires i < |rs| && forall j | 0 <= j < |rs| :: rs[j].rank.Some?
    requires forall j | 0 <= j < |rs| && j != i :: Before(rs[i].rank.value, i, rs[j].rank.value, j)
    ensures Choice(rs) == Some(rs[i])
    decreases rs
  {
    var n := |rs| - 1;
    var front := rs[..n];
    if i < n {
      FirstBestIsChosen(front, i);
      assert Before(rs[i].rank.value, i, rs[n].rank.value, n);
    } else {
      ChoiceIsAmong(front);
      if Choice(front).Some? {
        var j :| 0 <= j < |front| && Choice(front).value == front[j];
        assert Before(rs[i].rank.value, i, rs[j].rank.value, j);
      }
    }
  }

  // ---------- addresses ----------

  function ByAddress(a: IpAddress, port: Option<U16>, transport: Option<Transport>): IpRule -> Option<Rank> {
    (r: IpRule) => IpRank(r, a, port, transport)
  }

  const IP_BASE: IpRule -> RuleBase := (r: IpRule) => r.base

  lemma AddressOutcome(p: RoutingPolicy, a: IpAddress, port: Option<U16>, transport: Option<Transport>,
      d: RouteDecision)
    ensures AddressDecision(p, a, port, transport, d) <==>
      d == Outcome(RankAll(p.ipRules, ByAddress(a, port, transport), IP_BASE), "ip", p)
  {
    hide Decided, Outcome, IpRank;
    DecidedIs(IpRanks(p.ipRules, a, port, transport), IpBases(p.ipRules), "ip", p, d);
    assert Zip(IpRanks(p.ipRules, a, port, transport), IpBases(p.ipRules))
      == RankAll(p.ipRules, ByAddress(a, port, transport), IP_BASE);
  }

  lemma DeleteAddressRules(p: RoutingPolicy, keep: IpRule -> bool, a: IpAddress, port: Option<U16>,
      transport: Option<Transport>, d: RouteDecision)
    requires forall i | 0 <= i < |p.ipRules| && !keep(p.ipRules[i]) :: IpRank(p.ipRules[i], a, port, transport).None?
    ensures AddressDecision(p, a, port, transport, d) <==>
      AddressDecision(p.(ipRules := Filter(p.ipRules, keep)), a, port, transport, d)
  {
    hide AddressDecision, Choice, IpRank, Filter, RankAll;
    AddressOutcome(p, a, port, transport, d);
    AddressOutcome(p.(ipRules := Filter(p.ipRules, keep)), a, port, transport, d);
    FilterKeepsChoice(p.ipRules, keep, ByAddress(a, port, transport), IP_BASE);
  }

  /** A disabled rule decides nothing. */
  lemma DisabledAddressRules(p: RoutingPolicy, a: IpAddress, port: Option<U16>, transport: Option<Transport>,
      d: RouteDecision)
    ensures AddressDecision(p, a, port, transport, d) <==>
      AddressDecision(p.(ipRules := Filter(p.ipRules, (r: IpRule) => r.base.enabled)), a, port, transport, d)
  {
    hide AddressDecision, Filter, Covers;
    DeleteAddressRules(p, (r: IpRule) => r.base.enabled, a, port, transport, d);
  }

  /** Nor does a rule for another port or another transport than the query's. */
  lemma OtherConnections(p: RoutingPolicy, a: IpAddress, port: Option<U16>, transport: Option<Transport>,
      d: RouteDecision)
    ensures AddressDecision(p, a, port, transport, d) <==>
      AddressDecision(p.(ipRules := Filter(p.ipRules, (r: IpRule) => r.port.None? || r.port == port)), a, port,
        transport, d)
    ensures AddressDecision(p, a, port, transport, d) <==>
      AddressDecision(p.(ipRules := Filter(p.ipRules, (r: IpRule) => r.transport.None? || r.transport == transport)),
        a, port, transport, d)
  {
    hide AddressDecision, Filter, Covers;
    DeleteAddressRules(p, (r: IpRule) => r.port.None? || r.port == port, a, port, transport, d);
    DeleteAddressRules(p, (r: IpRule) => r.transport.None? || r.transport == transport, a, port, transport, d);
  }

  /** Nor does a rule for a range that the address is not in. */
  lemma OtherRanges(p: RoutingPolicy, a: IpAddress, port: Option<U16>, transport: Option<Transport>, d: RouteDecision)
    ensures AddressDecision(p, a, port, transport, d) <==>
      AddressDecision(p.(ipRules := Filter(p.ipRules, (r: IpRule) => Covers(r.range, Normalized(a)))), a, port,
        transport, d)
  {
    hide AddressDecision, Filter, Covers;
    DeleteAddressRules(p, (r: IpRule) => Covers(r.range, Normalized(a)), a, port, transport, d);
  }

  function Loosened(r: IpRule, port: Option<U16>, transport: Option<Transport>): IpRule {
    r.(port := if r.port == port then None else r.port,
       transport := if r.transport == transport then None else r.transport)
  }

  function AllLoosened(rules: seq<IpRule>, port: Option<U16>, transport: Option<Transport>): seq<IpRule> {
    seq(|rules|, i requires 0 <= i < |rules| => Loosened(rules[i], port, transport))
  }

  /** A rule for the very port or transport of the query decides as if it named none. */
  lemma SameConnection(p: RoutingPolicy, a: IpAddress, port: Option<U16>, transport: Option<Transport>,
      d: RouteDecision)
    ensures AddressDecision(p, a, port, transport, d) <==>
      AddressDecision(p.(ipRules := AllLoosened(p.ipRules, port, transport)), a, port, transport, d)
  {
    hide AddressDecision, Choice, Covers;
    var loose := p.(ipRules := AllLoosened(p.ipRules, port, transport));
    AddressOutcome(p, a, port, transport, d);
    AddressOutcome(loose, a, port, transport, d);
    assert RankAll(p.ipRules, ByAddress(a, port, transport), IP_BASE)
      == RankAll(loose.ipRules, ByAddress(a, port, transport), IP_BASE);
  }

  predicate IsDecisionOf(d: RouteDecision, base: RuleBase, kind: string) {
    && d.disposition == base.disposition && d.tunnelId == base.tunnelId
    && d.matchedRuleId == base.id && d.matchedRuleKind == kind
  }

  predicate IsDefaultDecision(d: RouteDecision, p: RoutingPolicy) {
    && d.disposition == p.defaultDisposition && d.tunnelId == p.defaultTunnelId
    && d.matchedRuleId == "" && d.matchedRuleKind == ""
  }

  /** A rule that nothing but the address decides about. */
  predicate Open(r: IpRule, a: IpAddress) {
    r.base.enabled && r.port.None? && r.transport.None? && Covers(r.range, Normalized(a))
  }

  /**
   Of rules that all apply, the one with the longest prefix decides, then the one with the highest priority, then the
   one inserted first; the decision carries its disposition, tunnel and id. Without any rule the default decides.
   */
  lemma AddressWinner(p: RoutingPolicy, a: IpAddress, port: Option<U16>, transport: Option<Transport>, d: RouteDecision,
      i: nat)
    requires forall j | 0 <= j < |p.ipRules| :: Open(p.ipRules[j], a)
    requires p.ipRules != [] ==> i < |p.ipRules|
    requires forall j | 0 <= j < |p.ipRules| && j != i ::
      Before(Rank(p.ipRules[i].range.prefix, p.ipRules[i].base.priority), i,
             Rank(p.ipRules[j].range.prefix, p.ipRules[j].base.priority), j)
    ensures AddressDecision(p, a, port, transport, d) <==>
      if p.ipRules == [] then IsDefaultDecision(d, p) else IsDecisionOf(d, p.ipRules[i].base, "ip")
  {
    hide AddressDecision, Covers;
    AddressOutcome(p, a, port, transport, d);
    var rs := RankAll(p.ipRules, ByAddress(a, port, transport), IP_BASE);
    assert forall j | 0 <= j < |rs| :: Open(p.ipRules[j], a) ==>
      rs[j].rank == Some(Rank(p.ipRules[j].range.prefix, p.ipRules[j].base.priority));
    if p.ipRules != [] {
      FirstBestIsChosen(rs, i);
    }
  }

  /** ::ffff:w.x.y.z, byte by byte. */
  predicate IsMapped(a: IpAddress) {
    a.V6? && (forall i | 0 <= i < 10 :: a.octets[i] == 0) && a.octets[10] == 0xFF && a.octets[11] == 0xFF
  }

  /** A rule without port and transport matches what its range covers; only a mapped address counts as its IPv4 form. */
  lemma MatchedAddresses(r: IpRule, a: IpAddress, port: Option<U16>, transport: Option<Transport>)
    requires r.base.enabled && r.port.None? && r.transport.None?
    ensures IpRank(r, a, port, transport).Some? <==> Covers(r.range, if IsMapped(a) then V4(a.octets[12..]) else a)
  {
    hide Covers;
    assert IsMapped(a) <==> a.V6? && a.octets[..12] == MAPPED_PREFIX by {
      if IsMapped(a) {
        assert forall i | 0 <= i < 12 :: a.octets[..12][i] == MAPPED_PREFIX[i];
      }
      if a.V6? && a.octets[..12] == MAPPED_PREFIX {
        assert forall i | 0 <= i < 12 :: a.octets[i] == MAPPED_PREFIX[i];
      }
    }
  }

  // ---------- hosts ----------

  function ByHost(host: string): DomainRule -> Option<Rank> {
    (r: DomainRule) => DomainRank(r, host)
  }

  const DOMAIN_BASE: DomainRule -> RuleBase := (r: DomainRule) => r.base

  lemma DomainOutcome(p: RoutingPolicy, host: string, d: RouteDecision)
    ensures DomainDecision(p, host, d) <==> d == Outcome(RankAll(p.domainRules, ByHost(host), DOMAIN_BASE), "domain", p)
  {
    hide Decided, Outcome, DomainRank;
    DecidedIs(DomainRanks(p.domainRules, host), DomainBases(p.domainRules), "domain", p, d);
    assert Zip(DomainRanks(p.domainRules, host), DomainBases(p.domainRules))
      == RankAll(p.domainRules, ByHost(host), DOMAIN_BASE);
  }

  lemma DeleteDomainRules(p: RoutingPolicy, keep: DomainRule -> bool, host: string, d: RouteDecision)
    requires forall i | 0 <= i < |p.domainRules| && !keep(p.domainRules[i]) :: DomainRank(p.domainRules[i], host).None?
    ensures DomainDecision(p, host, d) <==>
      DomainDecision(p.(domainRules := Filter(p.domainRules, keep)), host, d)
  {
    hide DomainDecision, Choice, DomainRank, Filter, RankAll;
    DomainOutcome(p, host, d);
    DomainOutcome(p.(domainRules := Filter(p.domainRules, keep)), host, d);
    FilterKeepsChoice(p.domainRules, keep, ByHost(host), DOMAIN_BASE);
  }

  /** Neither a disabled rule nor one whose pattern does not match the host decides anything. */
  lemma IdleDomainRules(p: RoutingPolicy, host: string, d: RouteDecision)
    ensures DomainDecision(p, host, d) <==>
      DomainDecision(p.(domainRules := Filter(p.domainRules, (r: DomainRule) => r.base.enabled)), host, d)
    ensures DomainDecision(p, host, d) <==>
      DomainDecision(p.(domainRules := Filter(p.domainRules, (r: DomainRule) => MatchesDomain(r, host))), host, d)
  {
    hide DomainDecision, Filter, MatchesDomain;
    DeleteDomainRules(p, (r: DomainRule) => r.base.enabled, host, d);
    DeleteDomainRules(p, (r: DomainRule) => MatchesDomain(r, host), host, d);
  }

  /** Of rules that all match, the one that pins the longest name decides, then priority, then insertion. */
  lemma DomainWinner(p: RoutingPolicy, host: string, d: RouteDecision, i: nat)
    requires forall j | 0 <= j < |p.domainRules| :: p.domainRules[j].base.enabled && MatchesDomain(p.domainRules[j], host)
    requires p.domainRules != [] ==> i < |p.domainRules|
    requires forall j | 0 <= j < |p.domainRules| && j != i ::
      Before(Rank(|Suffix(p.domainRules[i].pattern)|, p.domainRules[i].base.priority), i,
             Rank(|Suffix(p.domainRules[j].pattern)|, p.domainRules[j].base.priority), j)
    ensures DomainDecision(p, host, d) <==>
      if p.domainRules == [] then IsDefaultDecision(d, p) else IsDecisionOf(d, p.domainRules[i].base, "domain")
  {
    hide DomainDecision, MatchesDomain, Suffix;
    DomainOutcome(p, host, d);
    if p.domainRules != [] {
      FirstBestIsChosen(RankAll(p.domainRules, ByHost(host), DOMAIN_BASE), i);
    }
  }

  /** Letter case and one trailing dot of the host make no difference. */
  lemma HostSpelling(p: RoutingPolicy, host: string, other: string, d: RouteDecision)
    requires EqualsIgnoreCase(host, other)
    ensures DomainDecision(p, host, d) <==> DomainDecision(p, other, d)
    ensures (host == "" || host[|host| - 1] != '.') ==>
      (DomainDecision(p, host, d) <==> DomainDecision(p, host + ".", d))
  {
    hide Decided;
    assert Candidate(host) == Candidate(other);
    assert DomainRanks(p.domainRules, host) == DomainRanks(p.domainRules, other);
    if host == "" || host[|host| - 1] != '.' {
      assert ToLower(host + ".") == ToLower(host) + ".";
      assert Candidate(host + ".") == ToLower(host) == Candidate(host);
      assert DomainRanks(p.domainRules, host) == DomainRanks(p.domainRules, host + ".");
    }
  }

  /** A host in lower case without a trailing dot is matched by its own labels. */
  lemma HostByItsLabels(rule: DomainRule, host: string)
    requires ToLower(host) == host && (host == "" || host[|host| - 1] != '.')
    ensures
      var labels, pinned := Split(host, '.'), Split(Suffix(rule.pattern), '.');
      MatchesDomain(rule, host) <==>
        (&& SuffixOf(pinned, labels)
         && if "*." <= rule.pattern then |labels| > |pinned| else rule.includeSubdomains || |labels| == |pinned|)
  {
    hide MatchesDomain, Split;
    assert Candidate(host) == host;
    DomainByLabels(rule, host);
  }

  // ---------- programs ----------

  function ByPath(path: string): ApplicationRule -> Option<Rank> {
    (r: ApplicationRule) => ApplicationRank(r, path)
  }

  const APPLICATION_BASE: ApplicationRule -> RuleBase := (r: ApplicationRule) => r.base

  lemma ApplicationOutcome(p: RoutingPolicy, path: string, d: RouteDecision)
    ensures ApplicationDecision(p, path, d) <==>
      d == Outcome(RankAll(p.applicationRules, ByPath(path), APPLICATION_BASE), "application", p)
  {
    hide Decided, Outcome, ApplicationRank;
    DecidedIs(ApplicationRanks(p.applicationRules, path), ApplicationBases(p.applicationRules), "application", p, d);
    assert Zip(ApplicationRanks(p.applicationRules, path), ApplicationBases(p.applicationRules))
      == RankAll(p.applicationRules, ByPath(path), APPLICATION_BASE);
  }

  lemma DeleteApplicationRules(p: RoutingPolicy, keep: ApplicationRule -> bool, path: string, d: RouteDecision)
    requires forall i | 0 <= i < |p.applicationRules| && !keep(p.applicationRules[i]) ::
      ApplicationRank(p.applicationRules[i], path).None?
    ensures ApplicationDecision(p, path, d) <==>
      ApplicationDecision(p.(applicationRules := Filter(p.applicationRules, keep)), path, d)
  {
    hide ApplicationDecision, Choice, ApplicationRank, Filter, RankAll;
    ApplicationOutcome(p, path, d);
    ApplicationOutcome(p.(applicationRules := Filter(p.applicationRules, keep)), path, d);
    FilterKeepsChoice(p.applicationRules, keep, ByPath(path), APPLICATION_BASE);
  }

  /** Neither a disabled rule, nor one without a path, nor one whose pattern does not match decides anything. */
  lemma IdleApplicationRules(p: RoutingPolicy, path: string, d: RouteDecision)
    ensures ApplicationDecision(p, path, d) <==>
      ApplicationDecision(p.(applicationRules := Filter(p.applicationRules, (r: ApplicationRule) => r.base.enabled)),
        path, d)
    ensures ApplicationDecision(p, path, d) <==>
      ApplicationDecision(p.(applicationRules :=
        Filter(p.applicationRules, (r: ApplicationRule) => r.executablePath != "")), path, d)
    ensures ApplicationDecision(p, path, d) <==>
      ApplicationDecision(p.(applicationRules :=
        Filter(p.applicationRules, (r: ApplicationRule) => Committed(r.executablePath, path))), path, d)
  {
    hide ApplicationDecision, Filter, Committed;
    DeleteApplicationRules(p, (r: ApplicationRule) => r.base.enabled, path, d);
    DeleteApplicationRules(p, (r: ApplicationRule) => r.executablePath != "", path, d);
    DeleteApplicationRules(p, (r: ApplicationRule) => Committed(r.executablePath, path), path, d);
  }

  /**
   Of rules that all match, the most specific decides: longer paths first, with 4096 more for those without
   wildcards.
   */
  lemma ApplicationWinner(p: RoutingPolicy, path: string, d: RouteDecision, i: nat)
    requires forall j | 0 <= j < |p.applicationRules| ::
      var r := p.applicationRules[j]; r.base.enabled && r.executablePath != "" && Committed(r.executablePath, path)
    requires p.applicationRules != [] ==> i < |p.applicationRules|
    requires forall j | 0 <= j < |p.applicationRules| && j != i ::
      var r, s := p.applicationRules[i], p.applicationRules[j];
      var a, b := r.executablePath, s.executablePath;
      Before(Rank(|a| + if '*' in a || '?' in a then 0 else 4096, r.base.priority), i,
             Rank(|b| + if '*' in b || '?' in b then 0 else 4096, s.base.priority), j)
    ensures ApplicationDecision(p, path, d) <==>
      if p.applicationRules == [] then IsDefaultDecision(d, p)
      else IsDecisionOf(d, p.applicationRules[i].base, "application")
  {
    hide ApplicationDecision, Committed;
    ApplicationOutcome(p, path, d);
    if p.applicationRules != [] {
      FirstBestIsChosen(RankAll(p.applicationRules, ByPath(path), APPLICATION_BASE), i);
    }
  }
}
