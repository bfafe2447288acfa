/**
 The firewall engine object (Firewall/src/WfpEngine.cpp): every change is one transaction that first deletes
 the filters of a previous policy, as far as one enumeration of the platform's filters shows them and their
 deletion is not refused.
 */
module FirewallEngine {
  import opened Wrappers
  import opened IpRanges
  import opened RangeText
  import opened FirewallFilters

  /** A filter of ours in the platform's table. */
  datatype Entry = Entry(id: nat, filter: Filter)

  /** The most entries one enumeration returns, filters of other programs included. */
  const ENUM_LIMIT: nat := 512

  datatype State = State(isOpen: bool, engaged: bool, policy: Option<Policy>, ours: seq<Entry>)

  function FiltersOf(entries: seq<Entry>): (r: seq<Filter>)
    ensures |r| == |entries|
  {
    seq(|entries|, i requires 0 <= i < |entries| => entries[i].filter)
  }

  /** What is left after deleting the entries with these ids. */
  function Leftovers(entries: seq<Entry>, gone: set<nat>): seq<Entry> {
    if entries == [] then []
    else
      var rest, last := Leftovers(entries[..|entries| - 1], gone), entries[|entries| - 1];
      if last.id in gone then rest else rest + [last]
  }

  predicate AllGone(entries: seq<Entry>, gone: set<nat>) {
    forall e | e in entries :: e.id in gone
  }

  predicate NoneGone(entries: seq<Entry>, gone: set<nat>) {
    forall e | e in entries :: e.id !in gone
  }

  lemma {:induction false} LeftoverCount(entries: seq<Entry>, gone: set<nat>)
    ensures |Leftovers(entries, gone)| <= |entries|
    ensures Leftovers(entries, gone) == [] <==> AllGone(entries, gone)
    ensures |Leftovers(entries, gone)| == |entries| <==> NoneGone(entries, gone)
    ensures NoneGone(entries, gone) ==> Leftovers(entries, gone) == entries
  {
    if entries != [] {
      var front, last := entries[..|entries| - 1], entries[|entries| - 1];
      assert entries == front + [last];
      LeftoverCount(front, gone);
    }
  }

  /** An entry is left, as often as it was there, exactly when its id is not deleted. */
  lemma {:induction false} LeftoversExactly(entries: seq<Entry>, gone: set<nat>, e: Entry)
    ensures multiset(Leftovers(entries, gone))[e] == if e.id in gone then 0 else multiset(entries)[e]
  {
    if entries != [] {
      var front, last := entries[..|entries| - 1], entries[|entries| - 1];
      assert entries == front + [last];
      LeftoversExactly(front, gone, e);
    }
  }

  /** The entries left stay in order. */
  lemma {:induction false} LeftoversInOrder(front: seq<Entry>, back: seq<Entry>, gone: set<nat>)
    ensures Leftovers(front + back, gone) == Leftovers(front, gone) + Leftovers(back, gone)
    decreases back
  {
    var all := front + back;
    if back == [] {
      assert all == front && Leftovers(front, gone) + [] == Leftovers(front, gone);
    } else {
      assert all[..|all| - 1] == front + back[..|back| - 1];
      LeftoversInOrder(front, back[..|back| - 1], gone);
    }
  }

  /** Deleting one more id; ids that no entry has do not matter. */
  lemma {:induction false} LeftoversMore(entries: seq<Entry>, gone: set<nat>, id: nat)
    ensures Leftovers(Leftovers(entries, gone), {id}) == Leftovers(entries, gone + {id})
  {
    if entries != [] {
      var front, last := entries[..|entries| - 1], entries[|entries| - 1];
      LeftoversMore(front, gone, id);
      var rest := Leftovers(front, gone);
      assert (rest + [last])[..|rest|] == rest;
    }
  }

  lemma {:induction false} LeftoversAgree(entries: seq<Entry>, a: set<nat>, b: set<nat>)
    requires forall e | e in entries :: e.id in a <==> e.id in b
    ensures Leftovers(entries, a) == Leftovers(entries, b)
  {
    if entries != [] {
      var front := entries[..|entries| - 1];
      assert entries == front + [entries[|entries| - 1]];
      LeftoversAgree(front, a, b);
    }
  }

  // ---------- the answers of the system ----------

  /**
   The system's answers within one transaction: whether the enumeration succeeds and which ids it shows, which
   deletions are not refused, how many adds succeed, the commit.
   */
  datatype Answers = Answers(
    begins: bool, handle: bool, enumerates: bool, seen: set<nat>, deletes: set<nat>, adds: nat, commits: bool)

  /** The ids that a clearing gets rid of; neither a failed enumeration nor a refused deletion is an error. */
  function Gone(w: Answers): set<nat> {
    if w.enumerates then w.seen * w.deletes else {}
  }

  /** What one enumeration of the platform's whole table shows: its first entries, up to the limit. */
  function Shown(table: seq<nat>): set<nat> {
    set i | 0 <= i < |table| && i < ENUM_LIMIT :: table[i]
  }

  /**
   Every filter of ours goes exactly when the enumeration succeeds, no deletion is refused, and each stands within
   the limit of the table, as all do in a table within the limit.
   */
  lemma GoneExactly(table: seq<nat>, ours: seq<Entry>, w: Answers)
    requires w.seen == Shown(table) && forall e | e in ours :: e.id in table
    ensures |table| <= ENUM_LIMIT ==>
      (AllGone(ours, Gone(w)) <==> forall e | e in ours :: w.enumerates && e.id in w.deletes)
    ensures |table| > ENUM_LIMIT ==>
      (AllGone(ours, Gone(w)) <==> forall e | e in ours :: w.enumerates && e.id in w.deletes && e.id in table[..ENUM_LIMIT])
  {
  }

  /** The installed filters are exactly those of the current policy; none without a policy. */
  ghost predicate Faithful(s: State) {
    multiset(FiltersOf(s.ours)) == if s.policy.Some? then multiset(Compile(s.policy.value)) else multiset{}
  }

  // ---------- transactions as steps ----------

  predicate ClearSucceeds(s: State, w: Answers) {
    s.isOpen && w.begins && w.handle && w.commits
  }

  predicate ApplySucceeds(s: State, p: Policy, w: Answers) {
    ClearSucceeds(s, w) && (p.mode == Off || |Compile(p)| <= w.adds)
  }

  ghost predicate Applied(s: State, p: Policy, w: Answers, t: State) {
    if !ApplySucceeds(s, p, w) then t == s
    else if p.mode == Off then t == State(true, false, None, Leftovers(s.ours, Gone(w)))
    else
      && t.isOpen && t.engaged && t.policy == Some(p)
      && FiltersOf(t.ours) == FiltersOf(Leftovers(s.ours, Gone(w))) + Compile(p)
  }

  function Cleared(s: State, w: Answers): State {
    if ClearSucceeds(s, w) then State(true, false, None, Leftovers(s.ours, Gone(w))) else s
  }

  /** `reconcile` deletes filters but leaves the recorded policy alone. */
  function Reconciled(s: State, w: Answers): State {
    if ClearSucceeds(s, w) then s.(ours := Leftovers(s.ours, Gone(w))) else s
  }

  lemma FiltersConcat(a: seq<Entry>, b: seq<Entry>)
    ensures FiltersOf(a + b) == FiltersOf(a) + FiltersOf(b)
  {
  }

  /**
   A successful apply installs exactly the policy if and only if every old filter was shown and its deletion
   accepted.
   */
  lemma ApplyIsFaithfulExactly(s: State, p: Policy, w: Answers, t: State)
    requires Applied(s, p, w, t) && ApplySucceeds(s, p, w)
    ensures Faithful(t) <==> AllGone(s.ours, Gone(w))
  {
    hide Compile;
    LeftoverCount(s.ours, Gone(w));
    var left := FiltersOf(Leftovers(s.ours, Gone(w)));
    if p.mode == Off {
      assert left == [] <==> multiset(left) == multiset{} by {
        assert |multiset(left)| == |left|;
      }
    } else {
      assert |multiset(left + Compile(p))| == |left| + |Compile(p)|;
      assert |multiset(Compile(p))| == |Compile(p)|;
      assert left == [] ==> left + Compile(p) == Compile(p);
    }
  }

  /** Whatever the system answers, a call that succeeds installs exactly the policy. */
  ghost predicate ApplyAlwaysFaithful(s: State, p: Policy) {
    forall w: Answers, t: State | ApplySucceeds(s, p, w) && Applied(s, p, w, t) :: Faithful(t)
  }

  /** What can be checked beforehand: an apply can be relied on if and only if nothing of ours was installed. */
  lemma ApplyAlwaysFaithfulExactly(s: State, p: Policy)
    requires s.isOpen
    ensures ApplyAlwaysFaithful(s, p) <==> s.ours == []
  {
    hide Compile, Leftovers, Faithful;
    if s.ours == [] {
      forall w: Answers, t: State | ApplySucceeds(s, p, w) && Applied(s, p, w, t) ensures Faithful(t) {
        ApplyIsFaithfulExactly(s, p, w, t);
      }
    } else {
      var w := Answers(true, true, true, {}, {}, |Compile(p)|, true);
      var left := Leftovers(s.ours, Gone(w));
      var added := seq(|Compile(p)|, i requires 0 <= i < |Compile(p)| => Entry(i, Compile(p)[i]));
      assert FiltersOf(added) == Compile(p);
      FiltersConcat(left, added);
      var t := if p.mode == Off then State(true, false, None, left) else State(true, true, Some(p), left + added);
      assert ApplySucceeds(s, p, w) && Applied(s, p, w, t);
      ApplyIsFaithfulExactly(s, p, w, t);
      assert s.ours[0] in s.ours && s.ours[0].id !in Gone(w);
    }
  }

  /**
   The same condition in terms of the platform's table, whose first entries one enumeration shows: the policy alone is
   installed if and only if, for every old filter, the enumeration succeeds, the deletion is accepted, and the filter
   stands within the limit.
   */
  lemma SweepIsFaithfulExactly(table: seq<nat>, s: State, p: Policy, w: Answers, t: State)
    requires w.seen == Shown(table) && forall e | e in s.ours :: e.id in table
    requires Applied(s, p, w, t) && ApplySucceeds(s, p, w)
    ensures |table| <= ENUM_LIMIT ==>
      (Faithful(t) <==> forall e | e in s.ours :: w.enumerates && e.id in w.deletes)
    ensures |table| > ENUM_LIMIT ==>
      (Faithful(t) <==> forall e | e in s.ours :: w.enumerates && e.id in w.deletes && e.id in table[..ENUM_LIMIT])
  {
    hide Faithful, Applied, ApplySucceeds, Gone, Shown;
    ApplyIsFaithfulExactly(s, p, w, t);
    GoneExactly(table, s.ours, w);
  }

  /** A filter of ours that stands past the limit stays, although everything succeeds. */
  lemma LateFilterStays(table: seq<nat>, f: Filter, p: Policy, t: State)
    requires |table| > ENUM_LIMIT && table[ENUM_LIMIT] !in table[..ENUM_LIMIT]
    ensures
      var mine := Entry(table[ENUM_LIMIT], f);
      var s := State(true, false, None, [mine]);
      var w := Answers(true, true, true, Shown(table), Shown(table) + {mine.id}, |Compile(p)|, true);
      ApplySucceeds(s, p, w) && (Applied(s, p, w, t) ==>
        !Faithful(t) && FiltersOf(t.ours) == [f] + if p.mode == Off then [] else Compile(p))
  {
    hide Compile, Faithful;
    var mine := Entry(table[ENUM_LIMIT], f);
    var s := State(true, false, None, [mine]);
    var w := Answers(true, true, true, Shown(table), Shown(table) + {mine.id}, |Compile(p)|, true);
    assert mine in s.ours;
    if Applied(s, p, w, t) {
      ApplyIsFaithfulExactly(s, p, w, t);
      assert mine.id !in Shown(table);
      assert Leftovers(s.ours, Gone(w)) == [mine];
      assert FiltersOf([mine]) == [f];
      assert [f] + [] == [f];
    }
  }

  lemma ClearIsFaithfulExactly(s: State, w: Answers)
    requires ClearSucceeds(s, w)
    ensures Faithful(Cleared(s, w)) <==> AllGone(s.ours, Gone(w))
  {
    LeftoverCount(s.ours, Gone(w));
    var left := FiltersOf(Leftovers(s.ours, Gone(w)));
    assert |multiset(left)| == |left|;
  }

  /** A failed call changes nothing: the old policy stays in force as it was. */
  lemma FailureKeepsPolicy(s: State, p: Policy, w: Answers, t: State)
    requires !ApplySucceeds(s, p, w) && Applied(s, p, w, t)
    ensures t == s && Cleared(s, w.(commits := false)) == s
  {
  }

  /** One refused deletion is enough: the call succeeds, and the old filter stays beside the new policy. */
  lemma RefusedDelete(p: Policy, stale: Entry, t: State)
    requires p.mode != Off
    ensures
      var s, w := State(true, false, None, [stale]), Answers(true, true, true, {stale.id}, {}, |Compile(p)|, true);
      && ApplySucceeds(s, p, w)
      && (Applied(s, p, w, t) ==> !Faithful(t) && FiltersOf(t.ours) == [stale.filter] + Compile(p))
  {
    hide Compile;
    var s, w := State(true, false, None, [stale]), Answers(true, true, true, {stale.id}, {}, |Compile(p)|, true);
    assert Leftovers([stale], {}) == [stale];
    assert Gone(w) == {};
    if Applied(s, p, w, t) {
      assert FiltersOf([stale]) == [stale.filter];
      assert stale in s.ours;
      ApplyIsFaithfulExactly(s, p, w, t);
    }
  }

  /**
   `reconcile` keeps the recorded policy, so it is right for a start without one: then it leaves exactly nothing
   when all goes. With a policy in force it is harmless only when it deletes nothing.
   */
  lemma ReconcileIsFaithfulExactly(s: State, w: Answers)
    requires ClearSucceeds(s, w)
    ensures s.policy == None ==> (Faithful(Reconciled(s, w)) <==> AllGone(s.ours, Gone(w)))
    ensures s.policy.Some? && AllGone(s.ours, Gone(w)) ==> !Faithful(Reconciled(s, w))
    ensures s.policy.Some? && Faithful(s) ==> (Faithful(Reconciled(s, w)) <==> NoneGone(s.ours, Gone(w)))
  {
    hide Compile, Leftovers;
    LeftoverCount(s.ours, Gone(w));
    var left := FiltersOf(Leftovers(s.ours, Gone(w)));
    assert |multiset(left)| == |left| && |multiset(FiltersOf(s.ours))| == |s.ours|;
    if s.policy.Some? {
      CompileIsSomething(s.policy.value);
      assert |multiset(Compile(s.policy.value))| == |Compile(s.policy.value)|;
    }
  }

  lemma CompileIsSomething(p: Policy)
    ensures |Compile(p)| > 0
  {
    hide InterfaceFilters, EndpointFilters, RangeFilters;
  }

  /**
   Filters that were not deleted stay in force: the flows let through are those of the new policy and
   those of every old permit left behind.
   */
  lemma LeftoversLeak(s: State, p: Policy, w: Answers, t: State, flow: Flow)
    requires Applied(s, p, w, t) && ApplySucceeds(s, p, w) && p.mode != Off
    requires forall e | e in s.ours :: e.filter.weight >= BLOCK_ALL && (e.filter.permit <==> e.filter.weight > BLOCK_ALL)
    ensures exists f :: Decides(FiltersOf(t.ours), flow, f)
    ensures forall f | Decides(FiltersOf(t.ours), flow, f) ::
      f.permit <==> Intended(p, flow) || Permitted(FiltersOf(Leftovers(s.ours, Gone(w))), flow)
  {
    hide Compile, Permitted, Decides, Intended;
    var left := Leftovers(s.ours, Gone(w));
    LeftoversAreOurs(s.ours, Gone(w));
    CompiledIsLayered(p);
    LayeredMore(left, Compile(p));
    PermitsWin(FiltersOf(left) + Compile(p), flow);
    PermittedConcat(FiltersOf(left), Compile(p), flow);
    CompiledPermits(p, flow);
  }

  lemma {:induction false} LeftoversAreOurs(entries: seq<Entry>, gone: set<nat>)
    ensures forall e | e in Leftovers(entries, gone) :: e in entries
  {
    if entries != [] {
      var front := entries[..|entries| - 1];
      assert entries == front + [entries[|entries| - 1]];
      LeftoversAreOurs(front, gone);
    }
  }

  lemma LayeredMore(left: seq<Entry>, filters: seq<Filter>)
    requires Layered(filters)
    requires forall e | e in left :: e.filter.weight >= BLOCK_ALL && (e.filter.permit <==> e.filter.weight > BLOCK_ALL)
    ensures Layered(FiltersOf(left) + filters)
  {
    var all := FiltersOf(left) + filters;
    forall f | f in all ensures if f.permit then f.weight > BLOCK_ALL else f.weight == BLOCK_ALL {
      var i :| 0 <= i < |all| && all[i] == f;
      if i < |left| {
        assert left[i] in left;
      } else {
        assert filters[i - |left|] in filters;
      }
    }
  }

  // ---------- runs between open and close ----------

  datatype Action = Apply(policy: Policy, answers: Answers) | Clear(clearing: Answers)

  ghost predicate Step(s: State, a: Action, t: State) {
    match a
    case Apply(p, w) => Applied(s, p, w, t)
    case Clear(w) => t == Cleared(s, w)
  }

  ghost predicate IsRun(states: seq<State>, actions: seq<Action>) {
    |states| == |actions| + 1 && forall i | 0 <= i < |actions| :: Step(states[i], actions[i], states[i + 1])
  }

  /** A call that fails, or one that succeeds and gets every old filter deleted. */
  predicate Clean(s: State, a: Action) {
    match a
    case Apply(p, w) => ApplySucceeds(s, p, w) ==> AllGone(s.ours, Gone(w))
    case Clear(w) => ClearSucceeds(s, w) ==> AllGone(s.ours, Gone(w))
  }

  lemma StepIsFaithful(s: State, a: Action, t: State)
    requires Faithful(s) && Step(s, a, t)
    ensures Faithful(t) <==> Clean(s, a)
  {
    hide Faithful, Applied, Cleared, AllGone;
    match a
    case Apply(p, w) =>
      if ApplySucceeds(s, p, w) {
        ApplyIsFaithfulExactly(s, p, w, t);
      } else {
        FailureKeepsPolicy(s, p, w, t);
      }
    case Clear(w) =>
      if ClearSucceeds(s, w) {
        ClearIsFaithfulExactly(s, w);
      } else {
        ClearFailed(s, w);
      }
  }

  lemma ClearFailed(s: State, w: Answers)
    requires !ClearSucceeds(s, w)
    ensures Cleared(s, w) == s
  {
  }

  ghost predicate FaithfulUntil(states: seq<State>, n: nat)
    requires n < |states|
  {
    forall i | 0 <= i <= n :: Faithful(states[i])
  }

  ghost predicate CleanUntil(states: seq<State>, actions: seq<Action>, n: nat)
    requires n < |states| && n <= |actions|
  {
    forall i | 0 <= i < n :: Clean(states[i], actions[i])
  }

  /**
   Between open and close the installed set stays empty or exactly the compilation of the current policy if and only
   if every call that succeeds has every old filter shown and its deletion accepted.
   */
  lemma {:induction false} RunIsFaithful(states: seq<State>, actions: seq<Action>, n: nat)
    requires IsRun(states, actions) && n < |states| && Faithful(states[0])
    ensures FaithfulUntil(states, n) <==> CleanUntil(states, actions, n)
  {
    hide Faithful, Step, Clean;
    if n > 0 {
      RunIsFaithful(states, actions, n - 1);
      assert FaithfulUntil(states, n) <==> FaithfulUntil(states, n - 1) && Faithful(states[n]);
      assert CleanUntil(states, actions, n) <==> CleanUntil(states, actions, n - 1) && Clean(states[n - 1], actions[n - 1]);
      if Faithful(states[n - 1]) {
        StepIsFaithful(states[n - 1], actions[n - 1], states[n]);
      }
    }
  }

  // ---------- the object ----------

  class WfpEngine {
    var isOpen: bool
    var engaged: bool
    var policy: Option<Policy>
    var ours: seq<Entry>
    var nextId: nat

    ghost function Contents(): State
      reads this
    {
      State(isOpen, engaged, policy, ours)
    }

    constructor ()
      ensures Contents() == State(false, false, None, [])
    {
      isOpen, engaged, policy, ours, nextId := false, false, None, [], 1;
    }

    method OpenEngine(succeeds: bool) returns (ok: bool)
      modifies this
      ensures Contents() == old(Contents()).(isOpen := old(isOpen) || succeeds)
      ensures ok == isOpen
    {
      if !isOpen && succeeds {
        isOpen := true;
      }
      return isOpen;
    }

    /** `clearFiltersInTransaction`: collects the ids that the enumeration shows, then deletes one after the other. */
    static method ClearInTransaction(table: seq<Entry>, w: Answers) returns (left: seq<Entry>)
      ensures left == Leftovers(table, Gone(w))
    {
      hide Leftovers;
      var toDelete: seq<nat> := [];
      if w.enumerates {
        for i := 0 to |table|
          invariant forall j | 0 <= j < i && table[j].id in w.seen :: table[j].id in toDelete
          invariant forall id | id in toDelete :: id in w.seen
        {
          if table[i].id in w.seen {
            toDelete := toDelete + [table[i].id];
          }
        }
      }
      left := table;
      LeftoverCount(table, {});
      ghost var gone: set<nat> := {};
      for i := 0 to |toDelete|
        invariant left == Leftovers(table, gone)
        invariant forall id :: id in gone <==> id in toDelete[..i] && id in w.deletes
      {
        if toDelete[i] in w.deletes {
          LeftoversMore(table, gone, toDelete[i]);
          gone := gone + {toDelete[i]};
          left := Delete(left, toDelete[i]);
        }
      }
      assert toDelete[..|toDelete|] == toDelete;
      LeftoversAgree(table, gone, Gone(w));
    }

    /** `FwpmFilterDeleteById0`, when it is not refused. */
    static method Delete(entries: seq<Entry>, id: nat) returns (left: seq<Entry>)
      ensures left == Leftovers(entries, {id})
    {
      left := [];
      for i := 0 to |entries|
        invariant left == Leftovers(entries[..i], {id})
      {
        assert entries[..i + 1][..i] == entries[..i];
        if entries[i].id != id {
          left := left + [entries[i]];
        }
      }
      assert entries[..|entries|] == entries;
    }

    /** `applyPolicyLocked` after the clearing: the filters in the order they are added. */
    static method BuildFilters(p: Policy) returns (filters: seq<Filter>)
      ensures filters == Compile(p)
    {
      hide RangeFilter, EndpointFilter;
      filters := BlockAll(p.persistent);
      var interfaces: seq<Filter> := [];
      for i := 0 to |p.interfaces|
        invariant interfaces == InterfaceFilters(p.interfaces[..i], p.persistent)
      {
        assert p.interfaces[..i + 1][..i] == p.interfaces[..i];
        interfaces := interfaces + [Filter(true, true, PERMIT_TUNNEL, OnInterface(p.interfaces[i]), p.persistent),
                                    Filter(false, true, PERMIT_TUNNEL, OnInterface(p.interfaces[i]), p.persistent)];
      }
      assert p.interfaces[..|p.interfaces|] == p.interfaces;
      var endpoints: seq<Filter> := [];
      for i := 0 to |p.endpoints|
        invariant endpoints == EndpointFilters(p.endpoints[..i], p.persistent)
      {
        endpoints := endpoints + [EndpointFilter(p.endpoints[i], p.persistent)];
      }
      assert p.endpoints[..|p.endpoints|] == p.endpoints;
      var loopback, dhcp: seq<Filter> := [], [];
      if p.allowLoopback {
        loopback := AddRanges(LoopbackRanges(), PERMIT_LOOPBACK, p.persistent);
      }
      if p.allowDhcp {
        dhcp := AddRanges(DhcpRanges(), PERMIT_DHCP, p.persistent);
      }
      var lan := AddRanges(p.allowedDestinations, PERMIT_LAN, p.persistent);
      filters := filters + interfaces + endpoints + loopback + dhcp + lan;
    }

    static method AddRanges(ranges: seq<IpRange>, weight: nat, persistent: bool) returns (filters: seq<Filter>)
      ensures filters == RangeFilters(ranges, weight, persistent)
    {
      hide RangeFilter;
      filters := [];
      for i := 0 to |ranges|
        invariant filters == RangeFilters(ranges[..i], weight, persistent)
      {
        filters := filters + [RangeFilter(ranges[i], weight, persistent)];
      }
      assert ranges[..|ranges|] == ranges;
    }

    /** `clearFiltersLocked`. */
    method ClearFilters(w: Answers) returns (ok: bool)
      requires isOpen
      modifies this`ours
      ensures ok == ClearSucceeds(Contents(), w)
      ensures ours == if ok then Leftovers(old(ours), Gone(w)) else old(ours)
    {
      if !w.begins || !w.handle {
        return false;
      }
      var left := ClearInTransaction(ours, w);
      if !w.commits {
        return false;
      }
      ours := left;
      return true;
    }

    /** `apply`. */
    method ApplyPolicy(p: Policy, w: Answers) returns (ok: bool)
      modifies this
      ensures Applied(old(Contents()), p, w, Contents())
      ensures ok == ApplySucceeds(old(Contents()), p, w)
      ensures ok <==> old(isOpen) && w.begins && w.handle && w.commits && (p.mode == Off || w.adds >= |Compile(p)|)
      ensures !ok ==> Contents() == old(Contents())
      ensures ok ==> engaged == (p.mode != Off) && policy == if p.mode != Off then Some(p) else None
      ensures ok ==>
        FiltersOf(ours) == FiltersOf(Leftovers(old(ours), Gone(w))) + if p.mode == Off then [] else Compile(p)
    {
      hide Compile, Leftovers;
      if !isOpen {
        return false;
      }
      if p.mode == Off {
        ok := ClearFilters(w);
        assert FiltersOf(ours) + [] == FiltersOf(ours);
        if ok {
          engaged := false;
          policy := None;
        }
        return ok;
      }
      if !w.begins || !w.handle {
        return false;
      }
      var table := ClearInTransaction(ours, w);
      ghost var left := table;
      var filters := BuildFilters(p);
      if |filters| > w.adds {
        return false;
      }
      for i := 0 to |filters|
        invariant FiltersOf(table) == FiltersOf(left) + filters[..i]
        invariant Contents() == old(Contents())
      {
        FiltersConcat(table, [Entry(nextId, filters[i])]);
        assert FiltersOf([Entry(nextId, filters[i])]) == [filters[i]];
        table := table + [Entry(nextId, filters[i])];
        nextId := nextId + 1;
      }
      assert filters[..|filters|] == filters;
      if !w.commits {
        return false;
      }
      ours := table;
      engaged := true;
      policy := Some(p);
      return true;
    }

    method ClearPolicy(w: Answers) returns (ok: bool)
      modifies this
      ensures Contents() == Cleared(old(Contents()), w)
      ensures ok == ClearSucceeds(old(Contents()), w)
      ensures ok <==> old(isOpen) && w.begins && w.handle && w.commits
      ensures !ok ==> Contents() == old(Contents())
    {
      if !isOpen {
        return false;
      }
      ok := ClearFilters(w);
      if ok {
        engaged := false;
        policy := None;
      }
    }

    /** Sweeps what a previous run left. */
    method Reconcile(w: Answers) returns (ok: bool)
      modifies this
      ensures Contents() == Reconciled(old(Contents()), w)
      ensures ok == ClearSucceeds(old(Contents()), w)
      ensures ok <==> old(isOpen) && w.begins && w.handle && w.commits
      ensures engaged == old(engaged) && policy == old(policy)
    {
      if !isOpen {
        return false;
      }
      ok := ClearFilters(w);
    }
  }
}
