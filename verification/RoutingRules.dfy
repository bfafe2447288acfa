/**
 Evaluation of the routing policy (Routing/src/RoutingRules.cpp): which rule decides an address, a host or a program.
 */
module RoutingRules {
  import opened Types
  import opened Wrappers
  import opened StringUtil
  import opened IpText
  import opened IpRanges
  import opened RangeMath
  import opened Glob

  datatype Disposition = Tunnel | Direct | Block

  datatype RuleBase = RuleBase(id: string, enabled: bool, priority: int, disposition: Disposition, tunnelId: string)

  datatype IpRule = IpRule(base: RuleBase, range: IpRange, port: Option<U16>, transport: Option<Transport>)

  datatype DomainRule = DomainRule(base: RuleBase, pattern: string, includeSubdomains: bool)

  datatype ApplicationRule = ApplicationRule(base: RuleBase, executablePath: string)

  datatype RoutingPolicy = RoutingPolicy(
    defaultDisposition: Disposition, defaultTunnelId: string,
    ipRules: seq<IpRule>, domainRules: seq<DomainRule>, applicationRules: seq<ApplicationRule>)

  datatype RouteDecision = RouteDecision(
    disposition: Disposition, tunnelId: string, matchedRuleId: string, matchedRuleKind: string)

  function DecisionFrom(base: RuleBase, kind: string): RouteDecision {
    RouteDecision(base.disposition, base.tunnelId, base.id, kind)
  }

  function DefaultDecision(policy: RoutingPolicy): RouteDecision {
    RouteDecision(policy.defaultDisposition, policy.defaultTunnelId, "", "")
  }

  // ---------- choosing among matching rules ----------

  datatype Rank = Rank(specificity: nat, priority: int)

  predicate Beats(a: Rank, b: Rank) {
    a.specificity > b.specificity || (a.specificity == b.specificity && a.priority > b.priority)
  }

  /** Rule `i` matches, no matching rule beats it, and it beats every matching rule inserted before it. */
  ghost predicate Winner(ranks: seq<Option<Rank>>, i: nat) {
    && i < |ranks| && ranks[i].Some?
    && forall j | 0 <= j < |ranks| && ranks[j].Some? ::
         !Beats(ranks[j].value, ranks[i].value) && (j < i ==> Beats(ranks[i].value, ranks[j].value))
  }

  lemma WinnerIsUnique(ranks: seq<Option<Rank>>, i: nat, j: nat)
    requires Winner(ranks, i) && Winner(ranks, j)
    ensures i == j
  {
  }

  /** `best` is the winner of the rules looked at, if any of them matches. */
  ghost predicate Best(ranks: seq<Option<Rank>>, best: Option<nat>) {
    if best.Some? then Winner(ranks, best.value) else forall i | 0 <= i < |ranks| :: ranks[i].None?
  }

  lemma BestStep(ranks: seq<Option<Rank>>, best: Option<nat>, i: nat)
    requires i < |ranks| && Best(ranks[..i], best)
    ensures
      var takes := ranks[i].Some? && (best.None? || Beats(ranks[i].value, ranks[best.value].value));
      Best(ranks[..i + 1], if takes then Some(i) else best)
  {
    assert ranks[..i + 1] == ranks[..i] + [ranks[i]];
  }

  lemma NothingSeen(ranks: seq<Option<Rank>>)
    ensures Best(ranks[..0], None)
  {
  }

  // ---------- addresses ----------

  const MAPPED_PREFIX: seq<Byte> := [0, 0, 0, 0, 0, 0, 0, 0, 0, 0, 0xFF, 0xFF]

  /** `IpAddress::normalized`: an IPv4-mapped IPv6 address in its IPv4 form. */
  function Normalized(a: IpAddress): IpAddress {
    if a.V6? && a.octets[..12] == MAPPED_PREFIX then V4(a.octets[12..]) else a
  }

  function Mapped(a: IpAddress): IpAddress
    requires a.V4?
  {
    V6(MAPPED_PREFIX + a.octets)
  }

  /** How well an IP rule matches a connection: by prefix length, then by priority. */
  function IpRank(rule: IpRule, a: IpAddress, port: Option<U16>, transport: Option<Transport>): Option<Rank> {
    if rule.base.enabled && Covers(rule.range, Normalized(a))
      && (rule.port.None? || rule.port == port) && (rule.transport.None? || rule.transport == transport)
    then Some(Rank(rule.range.prefix, rule.base.priority))
    else None
  }

  function IpRanks(rules: seq<IpRule>, a: IpAddress, port: Option<U16>,
      transport: Option<Transport>): seq<Option<Rank>> {
    seq(|rules|, i requires 0 <= i < |rules| => IpRank(rules[i], a, port, transport))
  }

  /** The winning range lies inside the range of every rule that matches the address. */
  lemma WinnerIsMostSpecific(rules: seq<IpRule>, a: IpAddress, port: Option<U16>, transport: Option<Transport>,
      i: nat, j: nat)
    requires Winner(IpRanks(rules, a, port, transport), i)
    requires j < |rules| && IpRank(rules[j], a, port, transport).Some?
    ensures i < |rules| && Within(rules[i].range, rules[j].range)
    ensures rules[j].range.prefix == rules[i].range.prefix ==> rules[j].range == rules[i].range
  {
    hide Covers;
    var ranks := IpRanks(rules, a, port, transport);
    assert !Beats(ranks[j].value, ranks[i].value);
    var inner, outer, n := rules[i].range, rules[j].range, Normalized(a);
    forall b: IpAddress | Covers(inner, b) ensures Covers(outer, b) {
      Nested(outer, inner, n, b);
    }
    if outer.prefix == inner.prefix {
      SamePrefix(outer, inner, n);
    }
  }

  lemma SamePrefix(r: IpRange, s: IpRange, shared: IpAddress)
    requires r.prefix == s.prefix && Covers(r, shared) && Covers(s, shared)
    ensures r == s
  {
  }

  /** A mapped IPv6 address is matched by exactly the rules that match its IPv4 form, and so decides alike. */
  lemma MappedDecidesAlike(rules: seq<IpRule>, a: IpAddress, port: Option<U16>, transport: Option<Transport>)
    requires a.V4?
    ensures IpRanks(rules, Mapped(a), port, transport) == IpRanks(rules, a, port, transport)
    ensures forall i | 0 <= i < |rules| && rules[i].range.network.V6? ::
      IpRank(rules[i], Mapped(a), port, transport).None?
  {
    var m := Mapped(a);
    assert m.octets[..12] == MAPPED_PREFIX && m.octets[12..] == a.octets;
  }

  // ---------- host names ----------

  predicate Below(host: string, suffix: string) {
    |host| > |suffix| && SuffixOf(suffix, host) && host[|host| - |suffix| - 1] == '.'
  }

  predicate IsWildcard(pattern: string) {
    "*." <= pattern
  }

  /** The name a pattern pins, without a leading "*.". */
  function Suffix(pattern: string): string {
    if IsWildcard(pattern) then pattern[2..] else pattern
  }

  /** Lower case, without one trailing dot. */
  function Candidate(host: string): string {
    var lowered := ToLower(host);
    if lowered != "" && lowered[|lowered| - 1] == '.' then lowered[..|lowered| - 1] else lowered
  }

  predicate MatchesDomain(rule: DomainRule, host: string) {
    var candidate := Candidate(host);
    if IsWildcard(rule.pattern) then Below(candidate, rule.pattern[2..])
    else candidate == rule.pattern || (rule.includeSubdomains && Below(candidate, rule.pattern))
  }

  function DomainRank(rule: DomainRule, host: string): Option<Rank> {
    if rule.base.enabled && MatchesDomain(rule, host) then Some(Rank(|Suffix(rule.pattern)|, rule.base.priority)) else None
  }

  function DomainRanks(rules: seq<DomainRule>, host: string): seq<Option<Rank>> {
    seq(|rules|, i requires 0 <= i < |rules| => DomainRank(rules[i], host))
  }

  lemma {:induction false} SplitConcat(a: string, b: string)
    ensures Split(a + ['.'] + b, '.') == Split(a, '.') + Split(b, '.')
    decreases |a|
  {
    hide Find, Split;
    var s, n := a + ['.'] + b, Find(a, '.');
    FirstDot(a, b);
    SplitStep(a);
    SplitStep(s);
    if n == |a| {
      assert s[n + 1..] == b && s[..n] == a;
    } else {
      assert s[n + 1..] == a[n + 1..] + ['.'] + b && s[..n] == a[..n];
      SplitConcat(a[n + 1..], b);
    }
  }

  lemma SplitStep(s: string)
    ensures var n := Find(s, '.'); Split(s, '.') == if n == |s| then [s] else [s[..n]] + Split(s[n + 1..], '.')
  {
    hide Find;
    assert s[..|s|] == s;
  }

  lemma {:induction false} FirstDot(a: string, b: string)
    ensures Find(a + ['.'] + b, '.') == Find(a, '.')
  {
    if a != "" && a[0] != '.' {
      assert (a + ['.'] + b)[1..] == a[1..] + ['.'] + b;
      FirstDot(a[1..], b);
    }
  }

  lemma {:induction false} JoinConcat(xs: seq<string>, ys: seq<string>)
    requires |xs| >= 1 && |ys| >= 1
    ensures Join(xs + ys, '.') == Join(xs, '.') + ['.'] + Join(ys, '.')
  {
    if |xs| == 1 {
      assert (xs + ys)[1..] == ys;
    } else {
      assert (xs + ys)[1..] == xs[1..] + ys;
      JoinConcat(xs[1..], ys);
    }
  }

  /** A host is below a name exactly when the labels of the name are its last labels, with more before them. */
  lemma BelowByLabels(host: string, name: string)
    ensures Below(host, name) <==> |Split(host, '.')| > |Split(name, '.')| && SuffixOf(Split(name, '.'), Split(host, '.'))
  {
    hide Split, Join;
    var h, n := Split(host, '.'), Split(name, '.');
    if Below(host, name) {
      var front := host[..|host| - |name| - 1];
      assert host == front + ['.'] + name;
      SplitConcat(front, name);
    }
    if |h| > |n| && SuffixOf(n, h) {
      var front := h[..|h| - |n|];
      assert h == front + n;
      JoinConcat(front, n);
      JoinOfSplit(host, '.');
      JoinOfSplit(name, '.');
    }
  }

  /** A domain rule matches whole labels only: the pinned labels are the last labels of the host. */
  lemma DomainByLabels(rule: DomainRule, host: string)
    ensures
      var labels, pinned := Split(Candidate(host), '.'), Split(Suffix(rule.pattern), '.');
      MatchesDomain(rule, host) <==>
        (&& SuffixOf(pinned, labels)
         && if IsWildcard(rule.pattern) then |labels| > |pinned| else rule.includeSubdomains || |labels| == |pinned|)
  {
    hide Split, Below, Candidate;
    var candidate, suffix := Candidate(host), Suffix(rule.pattern);
    BelowByLabels(candidate, suffix);
    JoinOfSplit(candidate, '.');
    JoinOfSplit(suffix, '.');
  }

  lemma SuffixesNest(c: string, a: string, b: string)
    requires SuffixOf(a, c) && SuffixOf(b, c) && |a| <= |b|
    ensures SuffixOf(a, b)
    ensures |a| == |b| ==> a == b
  {
    assert b[|b| - |a|..] == c[|c| - |b|..][|b| - |a|..] == c[|c| - |a|..];
  }

  /**
   Of two rules matching a host, the less specific one pins a suffix of what the other pins; at equal specificity,
   the same name.
   */
  lemma MatchingSuffixesNest(r: DomainRule, s: DomainRule, host: string)
    requires MatchesDomain(r, host) && MatchesDomain(s, host)
    requires |Suffix(r.pattern)| <= |Suffix(s.pattern)|
    ensures SuffixOf(Suffix(r.pattern), Suffix(s.pattern))
    ensures |Suffix(r.pattern)| == |Suffix(s.pattern)| ==> Suffix(r.pattern) == Suffix(s.pattern)
  {
    SuffixesNest(Candidate(host), Suffix(r.pattern), Suffix(s.pattern));
  }

  // ---------- applications ----------

  predicate HasWildcard(path: string) {
    '*' in path || '?' in path
  }

  function Specificity(path: string): nat {
    |path| + if HasWildcard(path) then 0 else 4096
  }

  predicate MatchesApplication(rule: ApplicationRule, path: string) {
    rule.executablePath != "" && Committed(rule.executablePath, path)
  }

  function ApplicationRank(rule: ApplicationRule, path: string): Option<Rank> {
    if rule.base.enabled && MatchesApplication(rule, path)
    then Some(Rank(Specificity(rule.executablePath), rule.base.priority))
    else None
  }

  function ApplicationRanks(rules: seq<ApplicationRule>, path: string): seq<Option<Rank>> {
    seq(|rules|, i requires 0 <= i < |rules| => ApplicationRank(rules[i], path))
  }

  lemma ExactMatch(pattern: string, path: string)
    requires !HasWildcard(pattern) && Committed(pattern, path)
    ensures EqualsIgnoreCase(pattern, path) && |pattern| == |path|
  {
    GlobIsSound(pattern, path);
    LiteralPattern(pattern, path);
    assert |ToLower(pattern)| == |ToLower(path)|;
  }

  /**
   An exact path is meant to be maximally specific; it beats a wildcard path exactly while that path is
   less than 4096 characters longer, or that much longer with a lower priority.
   */
  lemma ExactAgainstWildcard(e: ApplicationRule, w: ApplicationRule, path: string)
    requires ApplicationRank(e, path).Some? && ApplicationRank(w, path).Some?
    requires !HasWildcard(e.executablePath) && HasWildcard(w.executablePath)
    ensures EqualsIgnoreCase(e.executablePath, path)
    ensures Beats(ApplicationRank(e, path).value, ApplicationRank(w, path).value) <==>
      (|w.executablePath| < |path| + 4096 || (|w.executablePath| == |path| + 4096 && e.base.priority > w.base.priority))
  {
    ExactMatch(e.executablePath, path);
  }

  /** When every wildcard path is short enough, a program named exactly is decided by a rule that names it. */
  lemma ExactPathDecides(rules: seq<ApplicationRule>, path: string, i: nat, e: nat)
    requires Winner(ApplicationRanks(rules, path), i)
    requires e < |rules| && ApplicationRank(rules[e], path).Some? && !HasWildcard(rules[e].executablePath)
    requires forall r | r in rules && HasWildcard(r.executablePath) :: |r.executablePath| < |path| + 4096
    ensures i < |rules| && EqualsIgnoreCase(rules[i].executablePath, path)
    ensures forall j | 0 <= j < |rules| && ApplicationRank(rules[j], path).Some?
      && !HasWildcard(rules[j].executablePath) ::
      rules[j].base.priority <= rules[i].base.priority
  {
    var ranks := ApplicationRanks(rules, path);
    assert !Beats(ranks[e].value, ranks[i].value);
    if HasWildcard(rules[i].executablePath) {
      ExactAgainstWildcard(rules[e], rules[i], path);
    }
    ExactMatch(rules[i].executablePath, path);
    forall j | 0 <= j < |rules| && ApplicationRank(rules[j], path).Some? && !HasWildcard(rules[j].executablePath)
      ensures rules[j].base.priority <= rules[i].base.priority
    {
      assert !Beats(ranks[j].value, ranks[i].value);
      ExactMatch(rules[j].executablePath, path);
    }
  }

  /** A pattern of enough stars matches any program and outranks the rule that names it. */
  lemma LongWildcardWins(e: ApplicationRule, w: ApplicationRule, path: string)
    requires ApplicationRank(e, path).Some? && !HasWildcard(e.executablePath) && w.base.enabled
    requires w.executablePath == seq(|path| + 4097, _ => '*')
    ensures ApplicationRank(w, path).Some? && Beats(ApplicationRank(w, path).value, ApplicationRank(e, path).value)
  {
    StarsMatch(w.executablePath, path);
    ExactMatch(e.executablePath, path);
    assert w.executablePath[0] == '*';
  }

  lemma {:induction false} StarsMatch(stars: string, text: string)
    requires AllStars(stars) && |stars| > |text|
    ensures Committed(stars, text)
  {
    if text != "" {
      StarsMatch(stars[1..], text[1..]);
      assert text[1..] == text[1..][0..];
    }
  }

  // ---------- the evaluator ----------

  ghost predicate Decided(ranks: seq<Option<Rank>>, bases: seq<RuleBase>, kind: string, policy: RoutingPolicy,
      d: RouteDecision)
    requires |ranks| == |bases|
  {
    || (exists i: nat :: Winner(ranks, i) && d == DecisionFrom(bases[i], kind))
    || ((forall i | 0 <= i < |ranks| :: ranks[i].None?) && d == DefaultDecision(policy))
  }

  lemma DecisionIsUnique(ranks: seq<Option<Rank>>, bases: seq<RuleBase>, kind: string, policy: RoutingPolicy,
      d: RouteDecision, e: RouteDecision)
    requires |ranks| == |bases| && Decided(ranks, bases, kind, policy, d) && Decided(ranks, bases, kind, policy, e)
    ensures d == e
  {
    forall i: nat, j: nat | Winner(ranks, i) && Winner(ranks, j) ensures i == j {
      WinnerIsUnique(ranks, i, j);
    }
  }

  lemma BestDecides(ranks: seq<Option<Rank>>, bases: seq<RuleBase>, kind: string, policy: RoutingPolicy,
      best: Option<nat>)
    requires |ranks| == |bases| && (best.Some? ==> best.value < |bases|) && Best(ranks[..|ranks|], best)
    ensures Decided(ranks, bases, kind, policy,
      if best.Some? then DecisionFrom(bases[best.value], kind) else DefaultDecision(policy))
  {
    assert ranks[..|ranks|] == ranks;
  }

  function IpBases(rules: seq<IpRule>): seq<RuleBase> {
    seq(|rules|, i requires 0 <= i < |rules| => rules[i].base)
  }

  function DomainBases(rules: seq<DomainRule>): seq<RuleBase> {
    seq(|rules|, i requires 0 <= i < |rules| => rules[i].base)
  }

  function ApplicationBases(rules: seq<ApplicationRule>): seq<RuleBase> {
    seq(|rules|, i requires 0 <= i < |rules| => rules[i].base)
  }

  ghost predicate AddressDecision(policy: RoutingPolicy, address: IpAddress, port: Option<U16>,
      transport: Option<Transport>, d: RouteDecision)
  {
    Decided(IpRanks(policy.ipRules, address, port, transport), IpBases(policy.ipRules), "ip", policy, d)
  }

  ghost predicate DomainDecision(policy: RoutingPolicy, host: string, d: RouteDecision) {
    Decided(DomainRanks(policy.domainRules, host), DomainBases(policy.domainRules), "domain", policy, d)
  }

  ghost predicate ApplicationDecision(policy: RoutingPolicy, path: string, d: RouteDecision) {
    Decided(ApplicationRanks(policy.applicationRules, path), ApplicationBases(policy.applicationRules), "application",
      policy, d)
  }

  class PolicyEvaluator {
    var policy: RoutingPolicy

    constructor (policy: RoutingPolicy)
      ensures this.policy == policy
    {
      this.policy := policy;
    }

    method SetPolicy(policy: RoutingPolicy)
      modifies this
      ensures this.policy == policy
    {
      this.policy := policy;
    }

    method EvaluateAddress(address: IpAddress, port: Option<U16>, transport: Option<Transport>)
        returns (d: RouteDecision)
      ensures AddressDecision(policy, address, port, transport, d)
    {
      hide Best, Winner, Covers;
      var normalized := Normalized(address);
      var rules := policy.ipRules;
      ghost var ranks := IpRanks(rules, address, port, transport);
      var best: Option<nat> := None;
      NothingSeen(ranks);
      for i := 0 to |rules|
        invariant best.Some? ==> best.value < i && ranks[best.value].Some?
        invariant Best(ranks[..i], best)
      {
        BestStep(ranks, best, i);
        var rule := rules[i];
        if !rule.base.enabled || !Covers(rule.range, normalized) {
          continue;
        }
        if rule.port.Some? && (port.None? || rule.port.value != port.value) {
          continue;
        }
        if rule.transport.Some? && (transport.None? || rule.transport.value != transport.value) {
          continue;
        }
        if best.None? {
          best := Some(i);
          continue;
        }
        if rule.range.prefix > rules[best.value].range.prefix
          || (rule.range.prefix == rules[best.value].range.prefix
            && rule.base.priority > rules[best.value].base.priority)
        {
          best := Some(i);
        }
      }
      BestDecides(ranks, IpBases(rules), "ip", policy, best);
      d := if best.Some? then DecisionFrom(rules[best.value].base, "ip") else DefaultDecision(policy);
    }

    method EvaluateDomain(host: string) returns (d: RouteDecision)
      ensures DomainDecision(policy, host, d)
    {
      hide Best, Winner, MatchesDomain;
      var rules := policy.domainRules;
      ghost var ranks := DomainRanks(rules, host);
      var best: Option<nat> := None;
      var bestSpecificity := 0;
      NothingSeen(ranks);
      for i := 0 to |rules|
        invariant best.Some? ==> best.value < i && ranks[best.value].Some?
        invariant best.Some? ==> bestSpecificity == ranks[best.value].value.specificity
        invariant Best(ranks[..i], best)
      {
        BestStep(ranks, best, i);
        var rule := rules[i];
        if !rule.base.enabled || !MatchesDomain(rule, host) {
          continue;
        }
        var specificity := |Suffix(rule.pattern)|;
        if best.None? || specificity > bestSpecificity
          || (specificity == bestSpecificity && rule.base.priority > rules[best.value].base.priority)
        {
          best := Some(i);
          bestSpecificity := specificity;
        }
      }
      BestDecides(ranks, DomainBases(rules), "domain", policy, best);
      d := if best.Some? then DecisionFrom(rules[best.value].base, "domain") else DefaultDecision(policy);
    }

    method EvaluateApplication(path: string) returns (d: RouteDecision)
      ensures ApplicationDecision(policy, path, d)
    {
      hide Best, Winner, Committed;
      var rules := policy.applicationRules;
      ghost var ranks := ApplicationRanks(rules, path);
      var best: Option<nat> := None;
      var bestSpecificity := 0;
      NothingSeen(ranks);
      for i := 0 to |rules|
        invariant best.Some? ==> best.value < i && ranks[best.value].Some?
        invariant best.Some? ==> bestSpecificity == ranks[best.value].value.specificity
        invariant Best(ranks[..i], best)
      {
        BestStep(ranks, best, i);
        var rule := rules[i];
        if !rule.base.enabled || rule.executablePath == "" {
          continue;
        }
        var matched, _ := GlobMatch(rule.executablePath, path);
        if !matched {
          continue;
        }
        var specificity := Specificity(rule.executablePath);
        if best.None? || specificity > bestSpecificity
          || (specificity == bestSpecificity && rule.base.priority > rules[best.value].base.priority)
        {
          best := Some(i);
          bestSpecificity := specificity;
        }
      }
      BestDecides(ranks, ApplicationBases(rules), "application", policy, best);
      d := if best.Some? then DecisionFrom(rules[best.value].base, "application") else DefaultDecision(policy);
    }
  }
}
