/**
 The client side of a connection (Services/src/IpcClient.cpp): concurrent calls wait in numbered slots, one
 receiver thread fills them, timeouts and disconnects give them up.
 */
module IpcClients {
  import opened Wrappers
  import opened IpcProtocol

  // ---------- the table of pending calls ----------

  class PendingCall {
    var ready: bool
    var failed: bool
    var response: Option<Response>

    constructor ()
      ensures !ready && !failed && response == None
    {
      ready, failed, response := false, false, None;
    }
  }

  class IpcClient {
    var nextId: nat
    var pending: map<nat, PendingCall>

    /** Slots are separate, and a slot that is still pending has not been filled. */
    ghost predicate Valid()
      reads this, pending.Values
    {
      && (forall i | i in pending :: i < nextId && !pending[i].ready)
      && (forall i, j | i in pending && j in pending && i != j :: pending[i] != pending[j])
    }

    constructor ()
      ensures Valid() && nextId == 1 && pending == map[]
    {
      nextId, pending := 1, map[];
    }

    /** The first half of `call`: a fresh id and its slot. */
    method Enlist() returns (id: nat, slot: PendingCall)
      requires Valid()
      modifies this
      ensures Valid() && fresh(slot) && !slot.failed && slot.response == None
      ensures id == old(nextId) && id !in old(pending) && nextId == old(nextId) + 1
      ensures pending == old(pending)[id := slot]
    {
      id := nextId;
      nextId := nextId + 1;
      slot := new PendingCall();
      pending := pending[id := slot];
    }

    /** `cancelPending`: after a failed write or a timeout. */
    method CancelPending(id: nat)
      requires Valid()
      modifies this`pending
      ensures Valid() && pending == old(pending) - {id}
    {
      pending := pending - {id};
    }

    /** `deliverResponse`: fills the slot of the response's id and no other; a late or unknown id changes nothing. */
    method DeliverResponse(response: Response)
      requires Valid()
      modifies this`pending, pending.Values
      ensures Valid() && pending == old(pending) - {response.id}
      ensures forall i | i in old(pending) && i != response.id ::
        old(pending)[i].ready == old(pending[i].ready) && old(pending)[i].failed == old(pending[i].failed)
        && old(pending)[i].response == old(pending[i].response)
      ensures response.id in old(pending) ==> var slot := old(pending)[response.id];
        slot.ready && slot.response == Some(response) && slot.failed == old(pending[response.id].failed)
    {
      if response.id in pending {
        var slot := pending[response.id];
        pending := pending - {response.id};
        slot.response := Some(response);
        slot.ready := true;
      }
    }

    /** The end of `disconnect`: every caller still waiting is failed. */
    method FailPending()
      requires Valid()
      modifies this`pending, pending.Values
      ensures Valid() && pending == map[]
      ensures forall i | i in old(pending) ::
        old(pending)[i].ready && old(pending)[i].failed && old(pending)[i].response == old(pending[i].response)
    {
      var todo := pending.Keys;
      while todo != {}
        invariant todo <= pending.Keys && pending == old(pending)
        invariant forall i | i in pending :: pending[i].response == old(pending[i].response)
        invariant forall i | i in pending && i !in todo :: pending[i].ready && pending[i].failed
        decreases |todo|
      {
        var id :| id in todo;
        var slot := pending[id];
        slot.failed := true;
        slot.ready := true;
        todo := todo - {id};
      }
      pending := map[];
    }
  }

  // ---------- all interleavings ----------

  datatype Result = Success(response: Response) | Failure

  /** Where a call stands; `Listed` means that its slot is in the table and nothing has been sent yet. */
  datatype Phase = Started | Listed | Awaiting | TimingOut | Returned(result: Result)

  /** `fills` counts how often the slot of the call was filled. */
  datatype Call = Call(phase: Phase, ready: bool, failed: bool, response: Option<Response>, fills: nat)

  /** `receiver` is the response the receiver thread has matched to a slot it has not filled yet. */
  datatype Sys = Sys(nextId: nat, pending: set<nat>, calls: map<nat, Call>, receiver: Option<Response>)

  datatype Action =
    | Begin | EnlistCall(id: nat) | Send(id: nat, written: bool)
    | Receive(response: Response) | Fill
    | Wake(id: nat) | TimeOut(id: nat) | Forget(id: nat)
    | Disconnect

  const START := Sys(1, {}, map[], None)

  predicate In(s: Sys, id: nat, phase: Phase) {
    id in s.calls && s.calls[id].phase == phase
  }

  predicate Enabled(s: Sys, a: Action) {
    match a
    case Begin => true
    case EnlistCall(id) => In(s, id, Started)
    case Send(id, _) => In(s, id, Listed)
    case Receive(_) => s.receiver == None
    case Fill => s.receiver.Some?
    case Wake(id) => In(s, id, Awaiting) && s.calls[id].ready
    case TimeOut(id) => In(s, id, Awaiting) && !s.calls[id].ready
    case Forget(id) => In(s, id, TimingOut)
    case Disconnect => s.receiver == None
  }

  function AtPhase(s: Sys, id: nat, phase: Phase): Sys {
    if id in s.calls then s.(calls := s.calls[id := s.calls[id].(phase := phase)]) else s
  }

  function Filled(c: Call): Call {
    c.(ready := true, fills := c.fills + 1)
  }

  /** What a caller whose slot is ready returns. */
  function Outcome(c: Call): Result {
    if c.failed || c.response == None then Failure else Success(c.response.value)
  }

  function Next(s: Sys, a: Action): Sys {
    match a
    case Begin => s.(nextId := s.nextId + 1, calls := s.calls[s.nextId := Call(Started, false, false, None, 0)])
    case EnlistCall(id) => AtPhase(s, id, Listed).(pending := s.pending + {id})
    case Send(id, written) =>
      if written then AtPhase(s, id, Awaiting)
      else AtPhase(s, id, Returned(Failure)).(pending := s.pending - {id})
    case Receive(r) => if r.id in s.pending then s.(pending := s.pending - {r.id}, receiver := Some(r)) else s
    case Fill =>
      if s.receiver.Some? && s.receiver.value.id in s.calls then
        var id := s.receiver.value.id;
        s.(calls := s.calls[id := Filled(s.calls[id]).(response := s.receiver)], receiver := None)
      else s
    case Wake(id) => if id in s.calls then AtPhase(s, id, Returned(Outcome(s.calls[id]))) else s
    case TimeOut(id) => AtPhase(s, id, TimingOut)
    case Forget(id) => AtPhase(s, id, Returned(Failure)).(pending := s.pending - {id})
    case Disconnect =>
      s.(calls := map id | id in s.calls :: if id in s.pending then Filled(s.calls[id]).(failed := true) else s.calls[id],
         pending := {})
  }

  predicate CallOk(s: Sys, id: nat, c: Call) {
    && id < s.nextId
    && c.fills <= 1 && (c.ready <==> c.fills == 1)
    && (c.ready ==> c.failed || c.response.Some?) && (c.failed ==> c.ready && c.response == None)
    && (c.response.Some? ==> c.ready && c.response.value.id == id)
    && (c.phase.Started? ==> id !in s.pending && !c.ready)
    && (id in s.pending ==> !c.ready && !c.phase.Returned?)
    && (s.receiver.Some? && s.receiver.value.id == id ==> id !in s.pending && !c.ready && !c.phase.Started?)
    && (c.phase.Returned? && c.phase.result.Success? ==> c.phase.result.response.id == id && c.response == Some(c.phase.result.response))
  }

  predicate Inv(s: Sys) {
    && s.pending <= s.calls.Keys
    && (s.receiver.Some? ==> s.receiver.value.id in s.calls)
    && forall id | id in s.calls :: CallOk(s, id, s.calls[id])
  }

  lemma NextKeeps(s: Sys, a: Action)
    requires Inv(s) && Enabled(s, a)
    ensures Inv(Next(s, a))
  {
    var t := Next(s, a);
    forall id | id in t.calls ensures CallOk(t, id, t.calls[id]) {
      assert id in s.calls ==> CallOk(s, id, s.calls[id]);
    }
  }

  function Run(s: Sys, actions: seq<Action>): Sys
    decreases actions
  {
    if actions == [] then s else Run(Next(s, actions[0]), actions[1..])
  }

  predicate AllEnabled(s: Sys, actions: seq<Action>)
    decreases actions
  {
    actions == [] || (Enabled(s, actions[0]) && AllEnabled(Next(s, actions[0]), actions[1..]))
  }

  lemma {:induction false} RunKeeps(s: Sys, actions: seq<Action>)
    requires Inv(s) && AllEnabled(s, actions)
    ensures Inv(Run(s, actions))
    decreases actions
  {
    hide Inv, Next, Enabled;
    if actions != [] {
      NextKeeps(s, actions[0]);
      RunKeeps(Next(s, actions[0]), actions[1..]);
    }
  }

  /** In every run, a slot is filled at most once, and a call that succeeds returns the response with its own id. */
  lemma CallsGetTheirOwnResponse(actions: seq<Action>, id: nat)
    requires AllEnabled(START, actions) && id in Run(START, actions).calls
    ensures var c := Run(START, actions).calls[id];
      && c.fills <= 1
      && (c.phase.Returned? && c.phase.result.Success? ==> c.phase.result.response.id == id)
  {
    RunKeeps(START, actions);
  }

  /** Every call gets an id that no call had before. */
  lemma IdsAreFresh(actions: seq<Action>)
    requires AllEnabled(START, actions)
    ensures Run(START, actions).nextId !in Run(START, actions).calls
  {
    RunKeeps(START, actions);
  }

  /** A response whose call has gone, or that never had one, changes nothing at all. */
  lemma LateResponseIsIgnored(s: Sys, r: Response)
    requires Inv(s) && (r.id !in s.calls || s.calls[r.id].phase.Returned? || s.calls[r.id].ready)
    ensures Next(s, Receive(r)) == s
  {
    assert r.id in s.pending ==> CallOk(s, r.id, s.calls[r.id]);
  }

  /** The call an action is about. */
  predicate About(s: Sys, a: Action, id: nat) {
    match a
    case Begin => id == s.nextId
    case EnlistCall(i) => i == id
    case Send(i, _) => i == id
    case Receive(_) => false
    case Fill => s.receiver.Some? && s.receiver.value.id == id
    case Wake(i) => i == id
    case TimeOut(i) => i == id
    case Forget(i) => i == id
    case Disconnect => id in s.pending
  }

  lemma OtherCallsUntouched(s: Sys, a: Action, id: nat)
    requires id in s.calls && !About(s, a, id)
    ensures id in Next(s, a).calls && Next(s, a).calls[id] == s.calls[id]
  {
  }

  predicate NoneAbout(s: Sys, actions: seq<Action>, id: nat)
    decreases actions
  {
    actions == [] || (!About(s, actions[0], id) && NoneAbout(Next(s, actions[0]), actions[1..], id))
  }

  /** However long the other calls go on, a call that nothing is done to stays as it is. */
  lemma {:induction false} CallIsIsolated(s: Sys, actions: seq<Action>, id: nat)
    requires id in s.calls && NoneAbout(s, actions, id)
    ensures id in Run(s, actions).calls && Run(s, actions).calls[id] == s.calls[id]
    decreases actions
  {
    hide Next, About;
    if actions != [] {
      OtherCallsUntouched(s, actions[0], id);
      CallIsIsolated(Next(s, actions[0]), actions[1..], id);
    }
  }

  // ---------- which response a call gets ----------

  /** The responses with this id that were received after the call was listed. */
  function Arrivals(actions: seq<Action>, id: nat): seq<Response> {
    if actions == [] then []
    else
      var earlier, last := actions[..|actions| - 1], actions[|actions| - 1];
      Arrivals(earlier, id) + if last.Receive? && last.response.id == id && EnlistCall(id) in earlier then [last.response] else []
  }

  lemma {:induction false} RunSnoc(s: Sys, actions: seq<Action>, a: Action)
    ensures Run(s, actions + [a]) == Next(Run(s, actions), a)
    ensures AllEnabled(s, actions + [a]) <==> AllEnabled(s, actions) && Enabled(Run(s, actions), a)
    decreases actions
  {
    hide Next, Enabled;
    if actions == [] {
      assert [a][1..] == [];
      assert [] + [a] == [a];
    } else {
      assert (actions + [a])[0] == actions[0] && (actions + [a])[1..] == actions[1..] + [a];
      RunSnoc(Next(s, actions[0]), actions[1..], a);
    }
  }

  /** What has arrived for a call, seen from where its slot stands. */
  predicate ArrivalOk(s: Sys, id: nat, listed: bool, arrived: seq<Response>) {
    && (id !in s.calls || s.calls[id].phase.Started? ==> !listed)
    && (!listed ==> arrived == [])
    && (id in s.pending ==> listed && arrived == [])
    && (s.receiver.Some? && s.receiver.value.id == id ==> arrived != [] && arrived[0] == s.receiver.value)
    && (id in s.calls && s.calls[id].response.Some? ==> arrived != [] && arrived[0] == s.calls[id].response.value)
  }

  lemma ArrivalStart(id: nat)
    ensures ArrivalOk(START, id, false, []) && Inv(START)
  {
  }

  lemma ArrivalStep(s: Sys, a: Action, id: nat, listed: bool, arrived: seq<Response>)
    requires Inv(s) && Enabled(s, a) && ArrivalOk(s, id, listed, arrived)
    ensures
      var more := if a.Receive? && a.response.id == id && listed then [a.response] else [];
      ArrivalOk(Next(s, a), id, listed || a == EnlistCall(id), arrived + more)
  {
    assert id in s.calls ==> CallOk(s, id, s.calls[id]);
  }

  lemma {:induction false} ArrivalKept(actions: seq<Action>, id: nat)
    requires AllEnabled(START, actions)
    ensures ArrivalOk(Run(START, actions), id, EnlistCall(id) in actions, Arrivals(actions, id))
    decreases |actions|
  {
    hide Inv, Next, Enabled, ArrivalOk;
    ArrivalStart(id);
    if actions != [] {
      var earlier, last := actions[..|actions| - 1], actions[|actions| - 1];
      assert actions == earlier + [last];
      RunSnoc(START, earlier, last);
      ArrivalKept(earlier, id);
      RunKeeps(START, earlier);
      ArrivalStep(Run(START, earlier), last, id, EnlistCall(id) in earlier, Arrivals(earlier, id));
    }
  }

  /**
   In every run, a call that succeeds returns the first response with its id that was received after it was listed;
   neither one that came before nor one that came later takes its place.
   */
  lemma CallGetsFirstResponse(actions: seq<Action>, id: nat)
    requires AllEnabled(START, actions) && id in Run(START, actions).calls
    ensures
      var phase := Run(START, actions).calls[id].phase;
      phase.Returned? && phase.result.Success? ==> Arrivals(actions, id) != [] && phase.result.response == Arrivals(actions, id)[0]
  {
    RunKeeps(START, actions);
    ArrivalKept(actions, id);
    var s := Run(START, actions);
    assert CallOk(s, id, s.calls[id]);
  }

  // ---------- when a call succeeds ----------

  /** Failing needs a reason: a write that failed, a timeout, or the end of the connection. */
  predicate ReasonOk(s: Sys, id: nat, sendFailed: bool, timedOut: bool, disconnected: bool) {
    id in s.calls ==>
      var c := s.calls[id];
      && (c.failed ==> disconnected) && (c.phase.TimingOut? ==> timedOut)
      && (c.phase == Returned(Failure) ==> sendFailed || timedOut || c.failed)
  }

  lemma ReasonStep(s: Sys, a: Action, id: nat, sendFailed: bool, timedOut: bool, disconnected: bool)
    requires Inv(s) && Enabled(s, a) && ReasonOk(s, id, sendFailed, timedOut, disconnected)
    ensures ReasonOk(Next(s, a), id, sendFailed || a == Send(id, false), timedOut || a == TimeOut(id),
      disconnected || a == Disconnect)
  {
    assert id in s.calls ==> CallOk(s, id, s.calls[id]);
  }

  lemma {:induction false} ReasonKept(actions: seq<Action>, id: nat)
    requires AllEnabled(START, actions)
    ensures ReasonOk(Run(START, actions), id, Send(id, false) in actions, TimeOut(id) in actions, Disconnect in actions)
    decreases |actions|
  {
    hide Inv, Next, Enabled, ReasonOk;
    ArrivalStart(id);
    if actions == [] {
      NoReason(id);
    } else {
      var earlier, last := actions[..|actions| - 1], actions[|actions| - 1];
      assert actions == earlier + [last];
      RunSnoc(START, earlier, last);
      ReasonKept(earlier, id);
      RunKeeps(START, earlier);
      ReasonStep(Run(START, earlier), last, id, Send(id, false) in earlier, TimeOut(id) in earlier,
        Disconnect in earlier);
    }
  }

  lemma NoReason(id: nat)
    ensures ReasonOk(START, id, false, false, false)
  {
  }

  /** A call fails only when its request could not be written, it timed out, or the client disconnected. */
  lemma FailureHasAReason(actions: seq<Action>, id: nat)
    requires AllEnabled(START, actions) && id in Run(START, actions).calls
    requires Run(START, actions).calls[id].phase == Returned(Failure)
    ensures Send(id, false) in actions || TimeOut(id) in actions || Disconnect in actions
  {
    ReasonKept(actions, id);
  }

  /**
   A call that wakes returns the response that filled its slot, the first one received for it; only a slot that a
   disconnect filled makes it fail.
   */
  lemma WakeReturnsResponse(actions: seq<Action>, id: nat)
    requires AllEnabled(START, actions + [Wake(id)])
    ensures id in Run(START, actions).calls && id in Run(START, actions + [Wake(id)]).calls
    ensures
      var c, phase := Run(START, actions).calls[id], Run(START, actions + [Wake(id)]).calls[id].phase;
      if c.response.Some?
      then Arrivals(actions, id) != [] && phase == Returned(Success(Arrivals(actions, id)[0]))
      else phase == Returned(Failure) && Disconnect in actions
  {
    RunSnoc(START, actions, Wake(id));
    ArrivalStart(id);
    RunKeeps(START, actions);
    ArrivalKept(actions, id);
    ReasonKept(actions, id);
    var s := Run(START, actions);
    assert CallOk(s, id, s.calls[id]);
  }

  /** Once a call has returned, its result stays what it is. */
  lemma {:induction false} ResultIsFinal(s: Sys, actions: seq<Action>, id: nat)
    requires Inv(s) && AllEnabled(s, actions) && id in s.calls && s.calls[id].phase.Returned?
    ensures id in Run(s, actions).calls && Run(s, actions).calls[id].phase == s.calls[id].phase
    decreases actions
  {
    if actions != [] {
      NextKeeps(s, actions[0]);
      assert CallOk(s, id, s.calls[id]);
      ResultIsFinal(Next(s, actions[0]), actions[1..], id);
    }
  }
}
