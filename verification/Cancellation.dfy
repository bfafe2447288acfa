/**
 Cooperative cancellation (Core/src/Cancellation.cpp). The shared state changes under a lock, callbacks run
 outside it; any number of threads register, reset and cancel in any interleaving.
 */
module Cancellation {

  /** A registered callback; callbacks are numbered in the order of the calls to `onCancelled`. */
  datatype Entry = Entry(id: nat, callback: nat)

  /** What the lock protects. */
  datatype Core = Core(cancelled: bool, nextId: nat, callbacks: seq<Entry>)

  function Callbacks(entries: seq<Entry>): (r: seq<nat>)
    ensures |r| == |entries| && forall i | 0 <= i < |entries| :: r[i] == entries[i].callback
  {
    seq(|entries|, i requires 0 <= i < |entries| => entries[i].callback)
  }

  function IndexOf(entries: seq<Entry>, id: nat): (i: nat)
    ensures i <= |entries|
    ensures i < |entries| ==> entries[i].id == id
    ensures forall j | 0 <= j < i :: entries[j].id != id
  {
    if entries == [] || entries[0].id == id then 0 else 1 + IndexOf(entries[1..], id)
  }

  lemma {:induction false} FoundAt(entries: seq<Entry>, id: nat, i: nat)
    requires i <= |entries| && (i < |entries| ==> entries[i].id == id)
    requires forall j | 0 <= j < i :: entries[j].id != id
    ensures IndexOf(entries, id) == i
  {
    if i > 0 {
      FoundAt(entries[1..], id, i - 1);
    }
  }

  function Without(entries: seq<Entry>, i: nat): seq<Entry> {
    if i < |entries| then entries[..i] + entries[i + 1..] else entries
  }

  // ---------- the shared object ----------

  class SharedState {
    var cancelled: bool
    var nextId: nat
    var callbacks: seq<Entry>
    /** The callbacks run so far, in order. */
    ghost var log: seq<nat>

    ghost function Contents(): Core
      reads this
    {
      Core(cancelled, nextId, callbacks)
    }

    constructor ()
      ensures Contents() == Core(false, 1, []) && log == []
    {
      cancelled, nextId, callbacks, log := false, 1, [], [];
    }

    /** The callback itself: it runs outside the lock. */
    ghost method Call(callback: nat)
      modifies this`log
      ensures log == old(log) + [callback]
    {
      log := log + [callback];
    }

    /** `cancel` without interference: every registered callback runs once, in order; later calls do nothing. */
    method Cancel()
      modifies this
      ensures old(cancelled) ==> Contents() == old(Contents()) && log == old(log)
      ensures !old(cancelled) ==>
        Contents() == Core(true, old(nextId), []) && log == old(log) + Callbacks(old(callbacks))
    {
      if cancelled {
        return;
      }
      cancelled := true;
      var taken := callbacks;
      callbacks := [];
      for i := 0 to |taken|
        invariant log == old(log) + Callbacks(taken[..i])
        invariant Contents() == Core(true, old(nextId), [])
      {
        Call(taken[i].callback);
        assert Callbacks(taken[..i + 1]) == Callbacks(taken[..i]) + [taken[i].callback];
      }
      assert taken[..|taken|] == taken;
    }

    /** `onCancelled`: 0 is the handle of nothing. */
    method OnCancelled(callback: nat) returns (id: nat)
      modifies this
      ensures old(cancelled) ==> id == 0 && Contents() == old(Contents()) && log == old(log) + [callback]
      ensures !old(cancelled) ==> id == old(nextId) && log == old(log)
      ensures !old(cancelled) ==> Contents() == Core(false, old(nextId) + 1, old(callbacks) + [Entry(id, callback)])
    {
      if !cancelled {
        id := nextId;
        nextId := nextId + 1;
        callbacks := callbacks + [Entry(id, callback)];
        return id;
      }
      Call(callback);
      return 0;
    }

    /** `Registration::reset`. */
    method Reset(id: nat)
      modifies this
      ensures log == old(log) && cancelled == old(cancelled) && nextId == old(nextId)
      ensures callbacks == if id == 0 then old(callbacks) else Without(old(callbacks), IndexOf(old(callbacks), id))
    {
      if id == 0 {
        return;
      }
      var i := 0;
      while i < |callbacks| && callbacks[i].id != id
        invariant 0 <= i <= |callbacks|
        invariant forall j | 0 <= j < i :: callbacks[j].id != id
      {
        i := i + 1;
      }
      FoundAt(callbacks, id, i);
      callbacks := Without(callbacks, i);
    }
  }

  // ---------- all interleavings ----------

  /**
   `firing` are the entries the one successful `cancel` has taken and not yet called, `direct` the callbacks
   handed in after cancellation and not yet called by `onCancelled`, `dropped` those a reset removed.
   */
  datatype Sys = Sys(core: Core, firing: seq<Entry>, direct: set<nat>, dropped: set<nat>, fired: seq<nat>, calls: nat)

  datatype Action = Register | RunDirect(callback: nat) | Reset(id: nat) | Swap | Fire

  const START := Sys(Core(false, 1, []), [], {}, {}, [], 0)

  predicate Enabled(s: Sys, a: Action) {
    match a
    case RunDirect(c) => c in s.direct
    case Swap => !s.core.cancelled
    case Fire => s.firing != []
    case _ => true
  }

  function Next(s: Sys, a: Action): Sys {
    match a
    case Register =>
      if s.core.cancelled then s.(direct := s.direct + {s.calls}, calls := s.calls + 1)
      else s.(core := s.core.(nextId := s.core.nextId + 1,
                              callbacks := s.core.callbacks + [Entry(s.core.nextId, s.calls)]),
              calls := s.calls + 1)
    case RunDirect(c) => s.(direct := s.direct - {c}, fired := s.fired + [c])
    case Reset(id) =>
      var i := IndexOf(s.core.callbacks, id);
      if id == 0 || i == |s.core.callbacks| then s
      else s.(core := s.core.(callbacks := Without(s.core.callbacks, i)),
              dropped := s.dropped + {s.core.callbacks[i].callback})
    case Swap => s.(core := s.core.(cancelled := true, callbacks := []), firing := s.core.callbacks)
    case Fire => if s.firing == [] then s else s.(firing := s.firing[1..], fired := s.fired + [s.firing[0].callback])
  }

  function Run(s: Sys, actions: seq<Action>): Sys
    decreases actions
  {
    if actions == [] then s else Run(Next(s, actions[0]), actions[1..])
  }

  predicate AllEnabled(s: Sys, actions: seq<Action>)
    decreases actions
  {
    actions == [] || (Enabled(s, actions[0]) && AllEnabled(Next(s, actions[0]), actions[1..]))
  }

  /** Everywhere a callback can be, with multiplicity. */
  ghost function Everywhere(s: Sys): multiset<nat> {
    multiset(Callbacks(s.core.callbacks)) + multiset(Callbacks(s.firing)) + multiset(s.direct) + multiset(s.dropped)
    + multiset(s.fired)
  }

  /** Every callback handed in is in exactly one place, once. */
  ghost predicate Conserved(s: Sys) {
    forall c: nat :: Everywhere(s)[c] == if c < s.calls then 1 else 0
  }

  /** Identifiers grow along the list, and the phases exclude each other. */
  ghost predicate Ordered(s: Sys) {
    && s.core.nextId >= 1
    && (forall i | 0 <= i < |s.core.callbacks| :: 1 <= s.core.callbacks[i].id < s.core.nextId)
    && (forall i, j | 0 <= i < j < |s.core.callbacks| :: s.core.callbacks[i].id < s.core.callbacks[j].id)
    && (if s.core.cancelled then s.core.callbacks == [] else s.firing == [] && s.direct == {} && s.fired == [])
  }

  ghost predicate Inv(s: Sys) {
    Conserved(s) && Ordered(s)
  }

  lemma CallbacksConcat(a: seq<Entry>, b: seq<Entry>)
    ensures Callbacks(a + b) == Callbacks(a) + Callbacks(b)
  {
  }

  lemma OrderedKeeps(s: Sys, a: Action)
    requires Ordered(s) && Enabled(s, a)
    ensures Ordered(Next(s, a))
  {
  }

  lemma RegisterKeeps(s: Sys)
    requires Conserved(s)
    ensures Conserved(Next(s, Register))
  {
    var t := Next(s, Register);
    if s.core.cancelled {
      assert Everywhere(s)[s.calls] == 0;
      assert s.calls !in s.direct;
      assert multiset(t.direct) == multiset(s.direct) + multiset{s.calls};
    } else {
      CallbacksConcat(s.core.callbacks, [Entry(s.core.nextId, s.calls)]);
      assert Callbacks([Entry(s.core.nextId, s.calls)]) == [s.calls];
    }
    OneMore(s, t);
  }

  lemma OneMore(s: Sys, t: Sys)
    requires Conserved(s) && t.calls == s.calls + 1 && Everywhere(t) == Everywhere(s) + multiset{s.calls}
    ensures Conserved(t)
  {
    hide Everywhere;
  }

  lemma Moved(s: Sys, t: Sys)
    requires Conserved(s) && t.calls == s.calls && Everywhere(t) == Everywhere(s)
    ensures Conserved(t)
  {
    hide Everywhere;
  }

  lemma RunDirectKeeps(s: Sys, c: nat)
    requires Conserved(s) && c in s.direct
    ensures Conserved(Next(s, RunDirect(c)))
  {
    hide Conserved;
    var t := Next(s, RunDirect(c));
    assert multiset(s.direct) == multiset(t.direct) + multiset{c};
    assert Everywhere(t) == Everywhere(s);
    Moved(s, t);
  }

  lemma RemovedOne(entries: seq<Entry>, i: nat)
    requires i < |entries|
    ensures multiset(Callbacks(entries)) == multiset(Callbacks(Without(entries, i))) + multiset{entries[i].callback}
  {
    var before, gone, after := entries[..i], entries[i], entries[i + 1..];
    assert entries == before + [gone] + after;
    CallbacksConcat(before, [gone]);
    CallbacksConcat(before + [gone], after);
    CallbacksConcat(before, after);
    assert Callbacks([gone]) == [gone.callback];
  }

  lemma OnlyThere(s: Sys, i: nat)
    requires Conserved(s) && i < |s.core.callbacks|
    ensures s.core.callbacks[i].callback !in s.dropped
  {
    var c := s.core.callbacks[i].callback;
    assert Callbacks(s.core.callbacks)[i] == c;
    assert c in multiset(Callbacks(s.core.callbacks));
    assert Everywhere(s)[c] <= 1;
  }

  lemma ResetKeeps(s: Sys, id: nat)
    requires Conserved(s)
    ensures Conserved(Next(s, Reset(id)))
  {
    hide Conserved, Without, Callbacks, IndexOf;
    var t, i := Next(s, Reset(id)), IndexOf(s.core.callbacks, id);
    if id != 0 && i < |s.core.callbacks| {
      var gone := s.core.callbacks[i].callback;
      RemovedOne(s.core.callbacks, i);
      OnlyThere(s, i);
      assert multiset(t.dropped) == multiset(s.dropped) + multiset{gone};
      assert Everywhere(t) == Everywhere(s);
      Moved(s, t);
    }
  }

  lemma SwapKeeps(s: Sys)
    requires Conserved(s) && s.firing == []
    ensures Conserved(Next(s, Swap))
  {
    hide Conserved;
    assert Everywhere(Next(s, Swap)) == Everywhere(s);
    Moved(s, Next(s, Swap));
  }

  lemma FireKeeps(s: Sys)
    requires Conserved(s) && s.firing != []
    ensures Conserved(Next(s, Fire))
  {
    hide Conserved;
    var t := Next(s, Fire);
    assert s.firing == [s.firing[0]] + s.firing[1..];
    CallbacksConcat([s.firing[0]], s.firing[1..]);
    assert Callbacks([s.firing[0]]) == [s.firing[0].callback];
    assert Everywhere(t) == Everywhere(s);
    Moved(s, t);
  }

  lemma NextKeeps(s: Sys, a: Action)
    requires Inv(s) && Enabled(s, a)
    ensures Inv(Next(s, a))
  {
    hide Conserved, Next;
    OrderedKeeps(s, a);
    match a
    case Register => RegisterKeeps(s);
    case RunDirect(c) => RunDirectKeeps(s, c);
    case Reset(id) => ResetKeeps(s, id);
    case Swap => SwapKeeps(s);
    case Fire => FireKeeps(s);
  }

  lemma {:induction false} RunKeeps(s: Sys, actions: seq<Action>)
    requires Inv(s) && AllEnabled(s, actions)
    ensures Inv(Run(s, actions))
    decreases actions
  {
    hide Inv, Next, Enabled;
    if actions != [] {
      NextKeeps(s, actions[0]);
      RunKeeps(Next(s, actions[0]), actions[1..]);
    }
  }

  lemma StartInv()
    ensures Inv(START)
  {
  }

  // ---------- what the callers may rely on ----------

  /** In every run, no callback fires twice. */
  lemma FiresAtMostOnce(actions: seq<Action>, c: nat)
    requires AllEnabled(START, actions)
    ensures multiset(Run(START, actions).fired)[c] <= 1
  {
    StartInv();
    RunKeeps(START, actions);
    AtMostOnce(Run(START, actions), c);
  }

  predicate Taken(s: Sys, c: nat) {
    c in Callbacks(s.firing) || c in s.fired
  }

  lemma {:induction false} TakenStays(s: Sys, actions: seq<Action>, c: nat)
    requires AllEnabled(s, actions) && s.core.cancelled && Taken(s, c)
    ensures Taken(Run(s, actions), c)
    decreases actions
  {
    if actions != [] {
      var t := Next(s, actions[0]);
      if actions[0] == Fire && c !in s.fired {
        var i :| 0 <= i < |s.firing| && s.firing[i].callback == c;
        assert i > 0 ==> Callbacks(t.firing)[i - 1] == c;
        assert i == 0 ==> t.fired[|s.fired|] == c;
      }
      TakenStays(t, actions[1..], c);
    }
  }

  /** What was registered and not reset when the swap happened has fired exactly once when that cancel returns. */
  lemma RegisteredFiresExactlyOnce(before: seq<Action>, after: seq<Action>, c: nat)
    requires AllEnabled(START, before)
    requires var s := Run(START, before); !s.core.cancelled && c in Callbacks(s.core.callbacks)
    requires AllEnabled(Next(Run(START, before), Swap), after)
    requires Run(Next(Run(START, before), Swap), after).firing == []
    ensures multiset(Run(Next(Run(START, before), Swap), after).fired)[c] == 1
  {
    var s := Run(START, before);
    StartInv();
    RunKeeps(START, before);
    NextKeeps(s, Swap);
    var t := Next(s, Swap);
    TakenStays(t, after, c);
    RunKeeps(t, after);
    assert Everywhere(Run(t, after))[c] <= 1;
    assert c in multiset(Run(t, after).fired);
  }

  predicate Before(ns: seq<nat>, c: nat, d: nat) {
    exists i, j | 0 <= i < j < |ns| :: ns[i] == c && ns[j] == d
  }

  /** `c` comes before `d` among what has fired and what is about to. */
  predicate InTurn(s: Sys, c: nat, d: nat) {
    Before(Callbacks(s.firing), c, d) || (c in s.fired && d in Callbacks(s.firing)) || Before(s.fired, c, d)
  }

  lemma FireKeepsTurn(s: Sys, c: nat, d: nat)
    requires s.firing != [] && InTurn(s, c, d)
    ensures InTurn(Next(s, Fire), c, d)
  {
    hide Before;
    var t, ns := Next(s, Fire), Callbacks(s.firing);
    assert ns[1..] == Callbacks(t.firing) && t.fired == s.fired + [ns[0]];
    if Before(ns, c, d) {
      FirstMoves(ns, s.fired, c, d);
    } else if Before(s.fired, c, d) {
      MoreFired(s.fired, ns[0], c, d);
    } else {
      SecondMoves(ns, s.fired, c, d);
    }
  }

  lemma FirstMoves(ns: seq<nat>, fired: seq<nat>, c: nat, d: nat)
    requires Before(ns, c, d)
    ensures Before(ns[1..], c, d) || (c in fired + [ns[0]] && d in ns[1..])
  {
    var i, j :| 0 <= i < j < |ns| && ns[i] == c && ns[j] == d;
    assert ns[1..][j - 1] == d;
    if i == 0 {
      assert (fired + [ns[0]])[|fired|] == c;
    } else {
      assert ns[1..][i - 1] == c;
    }
  }

  lemma SecondMoves(ns: seq<nat>, fired: seq<nat>, c: nat, d: nat)
    requires ns != [] && c in fired && d in ns
    ensures (c in fired + [ns[0]] && d in ns[1..]) || Before(fired + [ns[0]], c, d)
  {
    var i :| 0 <= i < |fired| && fired[i] == c;
    assert (fired + [ns[0]])[i] == c && (fired + [ns[0]])[|fired|] == ns[0];
    assert ns == [ns[0]] + ns[1..];
  }

  lemma MoreFired(fired: seq<nat>, more: nat, c: nat, d: nat)
    requires Before(fired, c, d)
    ensures Before(fired + [more], c, d)
  {
    var i, j :| 0 <= i < j < |fired| && fired[i] == c && fired[j] == d;
    assert (fired + [more])[i] == c && (fired + [more])[j] == d;
  }

  lemma {:induction false} TurnStays(s: Sys, actions: seq<Action>, c: nat, d: nat)
    requires AllEnabled(s, actions) && s.core.cancelled && InTurn(s, c, d)
    ensures InTurn(Run(s, actions), c, d)
    decreases actions
  {
    hide InTurn;
    if actions != [] {
      if actions[0] == Fire {
        FireKeepsTurn(s, c, d);
      } else {
        OthersKeepTurn(s, actions[0], c, d);
      }
      TurnStays(Next(s, actions[0]), actions[1..], c, d);
    }
  }

  lemma OthersKeepTurn(s: Sys, a: Action, c: nat, d: nat)
    requires Enabled(s, a) && s.core.cancelled && a != Fire && InTurn(s, c, d)
    ensures InTurn(Next(s, a), c, d)
  {
    if a.RunDirect? && Before(s.fired, c, d) {
      MoreFired(s.fired, a.callback, c, d);
    }
  }

  /** Callbacks that one cancel takes fire in the order of their registration, whatever happens in between. */
  lemma FiresInOrder(before: seq<Action>, after: seq<Action>, c: nat, d: nat)
    requires AllEnabled(START, before)
    requires
      var s := Run(START, before);
      !s.core.cancelled && c in Callbacks(s.core.callbacks) && d in Callbacks(s.core.callbacks) && c < d
    requires AllEnabled(Next(Run(START, before), Swap), after)
    requires Run(Next(Run(START, before), Swap), after).firing == []
    ensures Before(Run(Next(Run(START, before), Swap), after).fired, c, d)
  {
    var t := Next(Run(START, before), Swap);
    assert Sorted(START);
    ListedInOrder(START, before);
    assert t.firing == Run(START, before).core.callbacks;
    assert Before(Callbacks(t.firing), c, d);
    TurnStays(t, after, c, d);
  }

  /** Registration appends: the list of callbacks is in the order of the calls. */
  lemma {:induction false} ListedInOrder(s: Sys, actions: seq<Action>)
    requires AllEnabled(s, actions) && Sorted(s)
    ensures Sorted(Run(s, actions))
    decreases actions
  {
    hide Sorted;
    if actions != [] {
      StaysSorted(s, actions[0]);
      ListedInOrder(Next(s, actions[0]), actions[1..]);
    }
  }

  predicate Ascending(ns: seq<nat>, limit: nat) {
    (forall i | 0 <= i < |ns| :: ns[i] < limit) && forall i, j | 0 <= i < j < |ns| :: ns[i] < ns[j]
  }

  predicate Sorted(s: Sys) {
    Ascending(Callbacks(s.core.callbacks), s.calls)
  }

  lemma OneLess(ns: seq<nat>, i: nat, limit: nat)
    requires i < |ns| && Ascending(ns, limit)
    ensures Ascending(ns[..i] + ns[i + 1..], limit)
  {
  }

  lemma StaysSorted(s: Sys, a: Action)
    requires Sorted(s)
    ensures Sorted(Next(s, a))
  {
    var entries := s.core.callbacks;
    if a.Reset? && IndexOf(entries, a.id) < |entries| {
      hide Ascending;
      var i := IndexOf(entries, a.id);
      OneLess(Callbacks(entries), i, s.calls);
      assert Callbacks(Without(entries, i)) == Callbacks(entries)[..i] + Callbacks(entries)[i + 1..];
    } else if a.Register? {
      assert Callbacks(entries + [Entry(s.core.nextId, s.calls)]) == Callbacks(entries) + [s.calls];
    }
  }

  lemma {:induction false} DroppedStays(s: Sys, actions: seq<Action>, c: nat)
    requires c in s.dropped
    ensures c in Run(s, actions).dropped
    decreases actions
  {
    if actions != [] {
      DroppedStays(Next(s, actions[0]), actions[1..], c);
    }
  }

  /** A reset that still finds the callback registered keeps it from ever firing. */
  lemma ResetBeforeSwapNeverFires(s: Sys, i: nat, after: seq<Action>)
    requires Inv(s) && i < |s.core.callbacks|
    requires AllEnabled(Next(s, Reset(s.core.callbacks[i].id)), after)
    ensures s.core.callbacks[i].callback !in Run(Next(s, Reset(s.core.callbacks[i].id)), after).fired
  {
    var e := s.core.callbacks[i];
    var t := Next(s, Reset(e.id));
    IdsAreUnique(s, i);
    NextKeeps(s, Reset(e.id));
    DroppedStays(t, after, e.callback);
    RunKeeps(t, after);
    OnlyInOnePlace(Run(t, after), e.callback);
  }

  lemma OnlyInOnePlace(s: Sys, c: nat)
    requires Inv(s) && c in s.dropped
    ensures c !in s.fired
  {
    assert Everywhere(s)[c] <= 1;
    assert multiset(s.dropped)[c] == 1;
  }

  lemma IdsAreUnique(s: Sys, i: nat)
    requires Inv(s) && i < |s.core.callbacks|
    ensures s.core.callbacks[i].id != 0 && IndexOf(s.core.callbacks, s.core.callbacks[i].id) == i
  {
    var found := IndexOf(s.core.callbacks, s.core.callbacks[i].id);
    assert found < |s.core.callbacks| ==> s.core.callbacks[found].id == s.core.callbacks[i].id;
  }

  /**
   A callback handed in after cancellation, in any run: it has fired exactly once when the call that runs it returns,
   and not at all before.
   */
  lemma LateCallbackFires(before: seq<Action>, after: seq<Action>)
    requires AllEnabled(START, before + [Register] + after) && Run(START, before).core.cancelled
    ensures
      var c := Run(START, before).calls;
      multiset(Run(START, before + [Register] + after).fired)[c] == if RunDirect(c) in after then 1 else 0
  {
    hide Everywhere, Next, Enabled, Ordered;
    var s := Run(START, before);
    var c, t := s.calls, Next(s, Register);
    assert before + [Register] + after == before + ([Register] + after);
    RunConcat(START, before, [Register] + after);
    assert ([Register] + after)[1..] == after;
    assert c in t.direct by {
      LateIsDirect(s);
    }
    StartInv();
    RunKeeps(START, before + [Register] + after);
    PlaceOfLate(t, after, c);
    var u := Run(t, after);
    if RunDirect(c) in after {
      AtMostOnce(u, c);
    } else {
      DirectIsUnfired(u, c);
    }
  }

  lemma LateIsDirect(s: Sys)
    requires s.core.cancelled
    ensures s.calls in Next(s, Register).direct
  {
  }

  lemma {:induction false} RunConcat(s: Sys, front: seq<Action>, back: seq<Action>)
    ensures Run(s, front + back) == Run(Run(s, front), back)
    ensures AllEnabled(s, front + back) <==> AllEnabled(s, front) && AllEnabled(Run(s, front), back)
    decreases front
  {
    hide Next, Enabled;
    if front == [] {
      assert front + back == back;
    } else {
      assert (front + back)[0] == front[0] && (front + back)[1..] == front[1..] + back;
      RunConcat(Next(s, front[0]), front[1..], back);
    }
  }

  lemma AtMostOnce(s: Sys, c: nat)
    requires Inv(s)
    ensures multiset(s.fired)[c] <= 1
  {
    assert Everywhere(s)[c] <= 1;
  }

  lemma DirectIsUnfired(s: Sys, c: nat)
    requires Inv(s) && c in s.direct
    ensures multiset(s.fired)[c] == 0
  {
    assert Everywhere(s)[c] <= 1;
    assert multiset(s.direct)[c] == 1;
  }

  lemma {:induction false} PlaceOfLate(s: Sys, actions: seq<Action>, c: nat)
    requires c in s.direct
    ensures if RunDirect(c) in actions then c in Run(s, actions).fired else c in Run(s, actions).direct
    decreases actions
  {
    if actions != [] {
      var t := Next(s, actions[0]);
      if actions[0] == RunDirect(c) {
        assert t.fired[|s.fired|] == c;
        FiredStays(t, actions[1..], c);
      } else {
        PlaceOfLate(t, actions[1..], c);
        assert RunDirect(c) in actions <==> RunDirect(c) in actions[1..];
      }
    }
  }

  lemma {:induction false} FiredStays(s: Sys, actions: seq<Action>, c: nat)
    requires c in s.fired
    ensures c in Run(s, actions).fired
    decreases actions
  {
    if actions != [] {
      assert forall x | x in s.fired :: x in Next(s, actions[0]).fired;
      FiredStays(Next(s, actions[0]), actions[1..], c);
    }
  }

  // ---------- a reset while the callbacks are firing ----------

  ghost predicate MayStillFire(s: Sys, c: nat) {
    exists actions: seq<Action> :: AllEnabled(s, actions) && c in Run(s, actions).fired
  }

  function Fires(n: nat): seq<Action> {
    if n == 0 then [] else [Fire] + Fires(n - 1)
  }

  lemma {:induction false} FiringRuns(s: Sys)
    ensures AllEnabled(s, Fires(|s.firing|)) && Run(s, Fires(|s.firing|)).fired == s.fired + Callbacks(s.firing)
    decreases |s.firing|
  {
    if s.firing == [] {
      assert s.fired + Callbacks(s.firing) == s.fired;
    } else {
      var t := Next(s, Fire);
      FiringRuns(t);
      assert Fires(|s.firing|)[1..] == Fires(|t.firing|);
      assert s.fired + [s.firing[0].callback] + Callbacks(t.firing) == s.fired + Callbacks(s.firing);
    }
  }

  /**
   The handle promises that a callback never outlives what it captured. Resetting the handle keeps a pending
   callback from firing if and only if the running cancel has not already taken it.
   */
  lemma ResetStopsExactly(s: Sys, id: nat, c: nat)
    requires Inv(s) && c < s.calls && c !in s.fired && c !in s.direct
    requires forall i | 0 <= i < |s.core.callbacks| && s.core.callbacks[i].callback == c :: s.core.callbacks[i].id == id
    ensures MayStillFire(Next(s, Reset(id)), c) <==> c in Callbacks(s.firing)
  {
    var t := Next(s, Reset(id));
    if c in Callbacks(s.firing) {
      FiringRuns(t);
      assert t.firing == s.firing;
    } else {
      NextKeeps(s, Reset(id));
      InSomePlace(s, c);
      if c in Callbacks(s.core.callbacks) {
        var i :| 0 <= i < |s.core.callbacks| && s.core.callbacks[i].callback == c;
        IdsAreUnique(s, i);
      }
      assert c in t.dropped;
      forall actions: seq<Action> | AllEnabled(t, actions) ensures c !in Run(t, actions).fired {
        DroppedStays(t, actions, c);
        RunKeeps(t, actions);
        OnlyInOnePlace(Run(t, actions), c);
      }
    }
  }

  lemma InSomePlace(s: Sys, c: nat)
    requires Inv(s) && c < s.calls && c !in s.fired && c !in s.direct && c !in Callbacks(s.firing)
    ensures c in Callbacks(s.core.callbacks) || c in s.dropped
  {
    assert Everywhere(s)[c] == 1;
    assert multiset(s.fired)[c] == 0 && multiset(s.direct)[c] == 0 && multiset(Callbacks(s.firing))[c] == 0;
  }

  /** Registered, taken by the cancel, reset by its owner, and fired all the same. */
  lemma ResetTooLateExample()
    ensures AllEnabled(START, [Register, Swap, Reset(1), Fire])
    ensures Run(START, [Register, Swap, Reset(1), Fire]).fired == [0]
  {
    var s1 := Next(START, Register);
    var s2 := Next(s1, Swap);
    var s3 := Next(s2, Reset(1));
    assert s1.core.callbacks == [Entry(1, 0)] && s2.firing == [Entry(1, 0)] && s3 == s2;
    var all := [Register, Swap, Reset(1), Fire];
    assert all[1..] == [Swap, Reset(1), Fire] && all[1..][1..] == [Reset(1), Fire];
    assert all[1..][1..][1..] == [Fire] && all[1..][1..][1..][1..] == [];
    assert Run(s3, [Fire]) == Run(Next(s3, Fire), []);
  }
}
