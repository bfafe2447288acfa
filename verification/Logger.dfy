/**
 The asynchronous logger (Logs/src/Logger.cpp): producers put records into a bounded queue or drop and count
 them, one worker takes them out and reports the drops, flush and shutdown wait for it.
 */
module Logger {

  datatype Record = Record(message: string)

  /** Where the worker stands in its loop; the last three are after the loop. */
  datatype Worker =
    | Waiting
    | Holding(record: Record)
    | Delivered
    | Cleared
    | Noticing(drops: nat)
    | Leaving
    | Final(remaining: seq<Record>)
    | Done

  /**
   `accepted` and `attempts` record what the producers did before stopping; `delivered` and `notices` what the sinks
   got.
   */
  datatype Sys = Sys(
    capacity: nat, queue: seq<Record>, stopping: bool, draining: bool, dropped: nat,
    worker: Worker, reported: nat, delivered: seq<Record>, notices: seq<nat>,
    accepted: seq<Record>, attempts: nat)

  function Start(capacity: nat): Sys {
    Sys(capacity, [], false, false, 0, Waiting, 0, [], [], [], 0)
  }

  datatype Action = Submit(record: Record) | Stop | Work

  /** One locked section or one delivery at a time; the worker's next step is determined by where it stands. */
  function Next(s: Sys, a: Action): Sys {
    match a
    case Submit(r) => Submitted(s, r)
    case Stop => s.(stopping := true)
    case Work => Worked(s)
  }

  function Submitted(s: Sys, r: Record): Sys {
    if s.stopping then s
    else if |s.queue| >= s.capacity then s.(dropped := s.dropped + 1, attempts := s.attempts + 1)
    else s.(queue := s.queue + [r], accepted := s.accepted + [r], attempts := s.attempts + 1)
  }

  function Worked(s: Sys): Sys {
    match s.worker
    case Waiting =>
      if s.queue != [] then s.(queue := s.queue[1..], draining := true, worker := Holding(s.queue[0]))
      else if s.stopping then s.(worker := Leaving)
      else s
    case Holding(r) => s.(delivered := s.delivered + [r], worker := Delivered)
    case Delivered => s.(draining := false, worker := Cleared)
    case Cleared =>
      if s.dropped > s.reported then s.(worker := Noticing(s.dropped - s.reported), reported := s.dropped)
      else s.(worker := Waiting)
    case Noticing(n) => s.(notices := s.notices + [n], worker := Waiting)
    case Leaving => s.(worker := Final(s.queue), queue := [])
    case Final(rest) =>
      if rest == [] then s.(worker := Done) else s.(delivered := s.delivered + [rest[0]], worker := Final(rest[1..]))
    case Done => s
  }

  function Run(s: Sys, actions: seq<Action>): Sys
    decreases actions
  {
    if actions == [] then s else Run(Next(s, actions[0]), actions[1..])
  }

  function Sum(ns: seq<nat>): nat {
    if ns == [] then 0 else Sum(ns[..|ns| - 1]) + ns[|ns| - 1]
  }

  /** What the worker has taken out of the queue and not delivered yet. */
  function InFlight(w: Worker): seq<Record> {
    match w
    case Holding(r) => [r]
    case Final(rest) => rest
    case _ => []
  }

  predicate AfterLoop(w: Worker) { w.Leaving? || w.Final? || w.Done? }

  predicate InOrder(s: Sys) {
    s.delivered + InFlight(s.worker) + s.queue == s.accepted
  }

  predicate Counted(s: Sys) {
    && |s.queue| <= s.capacity
    && s.attempts == |s.accepted| + s.dropped
    && Sum(s.notices) + (if s.worker.Noticing? then s.worker.drops else 0) == s.reported <= s.dropped
  }

  predicate Phased(s: Sys) {
    && (s.draining <==> s.worker.Holding? || s.worker.Delivered?)
    && (AfterLoop(s.worker) ==> s.stopping && s.queue == [] && InFlight(s.worker) == [])
    && (s.capacity > 0 && s.dropped > s.reported ==> s.queue != [] || s.worker.Holding? || s.worker.Delivered? || s.worker.Cleared?)
    && (s.capacity == 0 ==> s.accepted == [] && s.reported == 0 && s.notices == [] && (s.worker.Waiting? || AfterLoop(s.worker)))
  }

  predicate Inv(s: Sys) {
    InOrder(s) && Counted(s) && Phased(s)
  }

  lemma SumSnoc(ns: seq<nat>, n: nat)
    ensures Sum(ns + [n]) == Sum(ns) + n
  {
    assert (ns + [n])[..|ns|] == ns;
  }

  lemma SubmitKeeps(s: Sys, r: Record)
    requires Inv(s)
    ensures Inv(Submitted(s, r))
  {
    assert s.delivered + InFlight(s.worker) + (s.queue + [r]) == s.delivered + InFlight(s.worker) + s.queue + [r];
  }

  lemma WorkKeepsOrder(s: Sys)
    requires Inv(s)
    ensures InOrder(Worked(s))
  {
    match s.worker
    case Waiting =>
      if s.queue != [] {
        assert s.queue == [s.queue[0]] + s.queue[1..];
        assert s.delivered + [] + s.queue == s.delivered + [s.queue[0]] + s.queue[1..];
      }
    case Holding(r) => assert s.delivered + [r] + [] + s.queue == s.delivered + [r] + s.queue;
    case _ =>
  }

  lemma WorkKeeps(s: Sys)
    requires Inv(s)
    ensures Inv(Worked(s))
  {
    hide InOrder, Sum;
    WorkKeepsOrder(s);
    if s.worker.Noticing? {
      SumSnoc(s.notices, s.worker.drops);
    }
  }

  lemma NextKeeps(s: Sys, a: Action)
    requires Inv(s)
    ensures Inv(Next(s, a))
  {
    hide Inv;
    match a
    case Submit(r) => SubmitKeeps(s, r);
    case Stop => StopKeeps(s);
    case Work => WorkKeeps(s);
  }

  lemma StopKeeps(s: Sys)
    requires Inv(s)
    ensures Inv(s.(stopping := true))
  {
  }

  lemma {:induction false} RunKeeps(s: Sys, actions: seq<Action>)
    requires Inv(s)
    ensures Inv(Run(s, actions)) && Run(s, actions).capacity == s.capacity
    ensures s.accepted <= Run(s, actions).accepted
    decreases actions
  {
    hide Inv;
    if actions != [] {
      NextKeeps(s, actions[0]);
      RunKeeps(Next(s, actions[0]), actions[1..]);
    }
  }

  // ---------- what the logger promises ----------

  /** How often a producer finds the queue full before stopping. */
  function Overflows(s: Sys, actions: seq<Action>): nat
    decreases actions
  {
    if actions == [] then 0
    else
      (if actions[0].Submit? && !s.stopping && |s.queue| >= s.capacity then 1 else 0)
        + Overflows(Next(s, actions[0]), actions[1..])
  }

  /** The records submitted while there was room and nothing was stopping, in order. */
  function Admitted(s: Sys, actions: seq<Action>): seq<Record>
    decreases actions
  {
    if actions == [] then []
    else
      (if actions[0].Submit? && !s.stopping && |s.queue| < s.capacity then [actions[0].record] else [])
      + Admitted(Next(s, actions[0]), actions[1..])
  }

  lemma StepCounts(s: Sys, a: Action)
    ensures Next(s, a).dropped == s.dropped + if a.Submit? && !s.stopping && |s.queue| >= s.capacity then 1 else 0
    ensures Next(s, a).accepted
      == s.accepted + if a.Submit? && !s.stopping && |s.queue| < s.capacity then [a.record] else []
  {
    assert s.accepted + [] == s.accepted;
  }

  /** A record is dropped only because the queue is full, and every other one is accepted, in order. */
  lemma {:induction false} DropsOnlyWhenFull(s: Sys, actions: seq<Action>)
    ensures Run(s, actions).dropped == s.dropped + Overflows(s, actions)
    ensures Run(s, actions).accepted == s.accepted + Admitted(s, actions)
    decreases actions
  {
    hide Next;
    if actions == [] {
      assert s.accepted + [] == s.accepted;
    } else {
      StepCounts(s, actions[0]);
      DropsOnlyWhenFull(Next(s, actions[0]), actions[1..]);
      var own := if actions[0].Submit? && !s.stopping && |s.queue| < s.capacity then [actions[0].record] else [];
      assert s.accepted + own + Admitted(Next(s, actions[0]), actions[1..]) == s.accepted + Admitted(s, actions);
    }
  }

  /**
   In every reachable state the sinks have received, in order, everything accepted except the record in
   hand and the queue; the queue is bounded; every attempt is accepted or counted; notices add up.
   */
  lemma NothingIsLostOrReordered(capacity: nat, actions: seq<Action>)
    ensures var s := Run(Start(capacity), actions);
      && s.delivered + InFlight(s.worker) + s.queue == s.accepted
      && |s.queue| <= capacity
      && s.attempts == |s.accepted| + s.dropped
      && Sum(s.notices) + (if s.worker.Noticing? then s.worker.drops else 0) == s.reported <= s.dropped
  {
    RunKeeps(Start(capacity), actions);
  }

  /** The condition `flush` waits for. */
  predicate FlushPasses(s: Sys) {
    s.queue == [] && !s.draining
  }

  /** When the wait of a flush ends, everything accepted before the flush began has been delivered. */
  lemma FlushDelivers(capacity: nat, before: seq<Action>, during: seq<Action>)
    requires FlushPasses(Run(Run(Start(capacity), before), during))
    ensures
      var s, t := Run(Start(capacity), before), Run(Run(Start(capacity), before), during);
      s.accepted <= t.accepted && t.accepted == t.delivered
  {
    RunKeeps(Start(capacity), before);
    RunKeeps(Run(Start(capacity), before), during);
    var t := Run(Run(Start(capacity), before), during);
    assert t.delivered + [] + [] == t.delivered;
  }

  /** A flush passes exactly when nothing is outstanding and the worker has reported its delivery. */
  lemma FlushPassesExactly(capacity: nat, actions: seq<Action>)
    ensures
      var s := Run(Start(capacity), actions);
      FlushPasses(s) <==> s.delivered == s.accepted && s.worker != Delivered
  {
    hide Run;
    RunKeeps(Start(capacity), actions);
    var s := Run(Start(capacity), actions);
    assert |s.accepted| == |s.delivered| + |InFlight(s.worker)| + |s.queue|;
    assert s.delivered + [] + [] == s.delivered;
  }

  /** When the worker is done everything accepted has been delivered; the final drain never has anything to do. */
  lemma ShutdownDeliversAll(capacity: nat, actions: seq<Action>)
    ensures Run(Start(capacity), actions).worker.Done? ==>
      Run(Start(capacity), actions).delivered == Run(Start(capacity), actions).accepted
    ensures Run(Start(capacity), actions).worker.Final? ==> Run(Start(capacity), actions).worker.remaining == []
  {
    RunKeeps(Start(capacity), actions);
    var s := Run(Start(capacity), actions);
    assert s.delivered + [] + [] == s.delivered;
  }

  /** A gap in the log is visible: at the end every drop has been reported, unless the queue can hold nothing. */
  lemma DropsAreReportedExactly(capacity: nat, actions: seq<Action>)
    requires Run(Start(capacity), actions).worker.Done?
    ensures var s := Run(Start(capacity), actions);
      Sum(s.notices) == s.dropped <==> capacity > 0 || s.dropped == 0
  {
    RunKeeps(Start(capacity), actions);
  }

  /** With room for nothing, a record is dropped and no notice ever says so. */
  lemma UnreportedDrop(r: Record)
    ensures
      var s := Run(Start(0), [Submit(r), Stop, Work, Work, Work]);
      s.worker == Done && s.dropped == 1 && s.notices == []
  {
    var start := Start(0);
    assert [Submit(r), Stop, Work, Work, Work] == [Submit(r)] + [Stop, Work, Work, Work];
    assert [Stop, Work, Work, Work] == [Stop] + [Work, Work, Work];
    assert [Work, Work, Work] == [Work] + [Work, Work] && [Work, Work] == [Work] + [Work];
    var stopped := Next(Next(start, Submit(r)), Stop);
    RunStep(start, Submit(r), [Stop, Work, Work, Work]);
    RunStep(Next(start, Submit(r)), Stop, [Work, Work, Work]);
    RunStep(stopped, Work, [Work, Work]);
    RunStep(Worked(stopped), Work, [Work]);
    RunStep(Worked(Worked(stopped)), Work, []);
    assert [Work] + [] == [Work];
    assert Run(Worked(Worked(Worked(stopped))), []).worker == Done;
  }

  lemma RunStep(s: Sys, a: Action, rest: seq<Action>)
    ensures Run(s, [a] + rest) == Run(Next(s, a), rest)
  {
    assert ([a] + rest)[1..] == rest;
  }

  // ---------- the object ----------

  class LoggerState {
    const capacity: nat
    var queue: seq<Record>
    var stopping: bool
    var draining: bool
    var dropped: nat
    /** The worker's own count of the drops it has reported. */
    var reportedDrops: nat
    ghost var worker: Worker
    ghost var delivered: seq<Record>
    ghost var notices: seq<nat>
    ghost var accepted: seq<Record>
    ghost var attempts: nat

    ghost function State(): Sys
      reads this
    {
      Sys(capacity, queue, stopping, draining, dropped, worker, reportedDrops, delivered, notices, accepted, attempts)
    }

    constructor (capacity: nat)
      ensures State() == Start(capacity)
    {
      this.capacity := capacity;
      queue, stopping, draining, dropped, reportedDrops := [], false, false, 0, 0;
      worker, delivered, notices, accepted, attempts := Waiting, [], [], [], 0;
    }

    method SubmitRecord(record: Record) returns (ok: bool)
      modifies this
      ensures State() == Next(old(State()), Submit(record))
      ensures ok <==> !old(stopping) && |old(queue)| < capacity
      ensures queue == old(queue) + (if ok then [record] else [])
        && accepted == old(accepted) + (if ok then [record] else [])
      ensures dropped == old(dropped) + if !old(stopping) && |old(queue)| >= capacity then 1 else 0
    {
      if stopping {
        return false;
      }
      attempts := attempts + 1;
      if |queue| >= capacity {
        dropped := dropped + 1;
        return false;
      }
      queue := queue + [record];
      accepted := accepted + [record];
      return true;
    }

    /** Under the lock: take the front record. */
    method TakeRecord() returns (record: Record)
      requires worker == Waiting && queue != []
      modifies this
      ensures State() == Worked(old(State())) && worker == Holding(record)
      ensures queue == old(queue)[1..] && stopping == old(stopping) && accepted == old(accepted)
    {
      record := queue[0];
      queue := queue[1..];
      draining := true;
      worker := Holding(record);
    }

    /** Outside the lock: the sinks receive it. */
    method Deliver(record: Record)
      requires worker == Holding(record)
      modifies this
      ensures State() == Worked(old(State())) && worker == Delivered
      ensures queue == old(queue) && stopping == old(stopping) && accepted == old(accepted)
    {
      delivered := delivered + [record];
      worker := Delivered;
    }

    method ClearDraining()
      requires worker == Delivered
      modifies this
      ensures State() == Worked(old(State())) && worker == Cleared
      ensures queue == old(queue) && stopping == old(stopping) && accepted == old(accepted)
    {
      draining := false;
      worker := Cleared;
    }

    /** Reads the counter once and delivers a notice of what is new. */
    method ReportDrops()
      requires worker == Cleared
      modifies this
      ensures worker == Waiting
      ensures State() == if old(dropped > reportedDrops) then Worked(Worked(old(State()))) else Worked(old(State()))
      ensures queue == old(queue) && stopping == old(stopping) && accepted == old(accepted)
    {
      var drops := dropped;
      if drops > reportedDrops {
        notices := notices + [drops - reportedDrops];
        reportedDrops := drops;
      }
      worker := Waiting;
    }

    /** What the producers do between two steps of the worker: a batch of the script, or the stop at its end. */
    method Interfere(others: seq<seq<Record>>, k: nat) returns (next: nat)
      requires k <= |others| + 1
      modifies this
      ensures next == if k <= |others| then k + 1 else k
      ensures State() == Run(old(State()), Turn(others, k)) && worker == old(worker)
      ensures stopping == (old(stopping) || k == |others|)
      ensures old(stopping) || k > |others| ==> queue == old(queue) && accepted == old(accepted)
      ensures old(queue) <= queue
    {
      if k < |others| {
        for i := 0 to |others[k]|
          invariant State() == Run(old(State()), Submits(others[k])[..i]) && worker == old(worker)
          invariant stopping == old(stopping) && old(queue) <= queue
          invariant stopping ==> queue == old(queue) && accepted == old(accepted)
        {
          ghost var turn := Submits(others[k]);
          assert turn[..i + 1] == turn[..i] + [Submit(others[k][i])];
          RunConcat(old(State()), turn[..i], [Submit(others[k][i])]);
          RunOne(State(), Submit(others[k][i]));
          var ok := SubmitRecord(others[k][i]);
        }
        assert Submits(others[k])[..|others[k]|] == Turn(others, k);
        return k + 1;
      }
      if k == |others| {
        RunOne(State(), Stop);
        stopping := true;
        return k + 1;
      }
      return k;
    }

    /**
     `drainLoop`, with the batches of `others` submitted between its steps and the stop after the last of them. What
     it does is a run of the state machine in which the producers do what the script says; it ends with everything
     accepted delivered.
     */
    method DrainLoop(others: seq<seq<Record>>) returns (ghost actions: seq<Action>)
      requires Inv(State()) && worker == Waiting
      modifies this
      ensures State() == Run(old(State()), actions) && worker == Done && stopping
      ensures !old(stopping) ==> Producers(actions) == Scripted(others, |others| + 1)
      ensures Inv(State()) && old(accepted) <= accepted && delivered == accepted
      ensures old(stopping) ==> accepted == old(accepted)
    {
      hide Inv, Worked, Run, Producers, Turn, Scripted;
      ghost var start := State();
      var k := 0;
      actions := [];
      NoActions(start, others);
      while true
        invariant worker == Waiting && k <= |others| + 1
        invariant State() == Run(start, actions) && Producers(actions) == Scripted(others, k)
        invariant stopping == (old(stopping) || k > |others|)
        invariant old(stopping) ==> accepted == old(accepted)
        decreases |others| + 1 - k, |queue|
      {
        TheirTurn(start, actions, others, k);
        actions := actions + Turn(others, k);
        k := Interfere(others, k);
        if queue == [] {
          if stopping {
            break;
          }
          continue;
        }
        OurTurn(start, actions);
        var record := TakeRecord();
        actions := actions + [Work];
        TheirTurn(start, actions, others, k);
        actions := actions + Turn(others, k);
        k := Interfere(others, k);
        OurTurn(start, actions);
        Deliver(record);
        actions := actions + [Work];
        TheirTurn(start, actions, others, k);
        actions := actions + Turn(others, k);
        k := Interfere(others, k);
        OurTurn(start, actions);
        ClearDraining();
        actions := actions + [Work];
        TheirTurn(start, actions, others, k);
        actions := actions + Turn(others, k);
        k := Interfere(others, k);
        OurTurn(start, actions);
        OurTurn(start, actions + [Work]);
        actions := if dropped > reportedDrops then actions + [Work] + [Work] else actions + [Work];
        ReportDrops();
      }
      ghost var last := State();
      LeaveIsWork(start, actions, last);
      actions := actions + [Work] + [Work] + [Work];
      assert last.delivered + [] == last.delivered;
      LeaveLoop();
      RunKeeps(start, actions);
      AllDelivered(State());
    }

    /** Past the loop: whatever is still queued is delivered in order. */
    method LeaveLoop()
      modifies this
      ensures State() == old(State()).(delivered := old(delivered) + old(queue), queue := [], worker := Done)
    {
      var remaining := queue;
      queue := [];
      for i := 0 to |remaining|
        invariant delivered == old(delivered) + remaining[..i]
        invariant State() == old(State()).(delivered := delivered, queue := [])
      {
        delivered := delivered + [remaining[i]];
        assert remaining[..i + 1] == remaining[..i] + [remaining[i]];
      }
      assert remaining[..|remaining|] == remaining;
      worker := Done;
    }
  }

  // ---------- producers beside the loop ----------

  function Submits(batch: seq<Record>): seq<Action> {
    seq(|batch|, i requires 0 <= i < |batch| => Submit(batch[i]))
  }

  /** The `k`-th turn of the producers: a batch, then the stop, then nothing. */
  function Turn(others: seq<seq<Record>>, k: nat): seq<Action> {
    if k < |others| then Submits(others[k]) else if k == |others| then [Stop] else []
  }

  /** The first `k` turns. */
  function Scripted(others: seq<seq<Record>>, k: nat): seq<Action>
    requires k <= |others| + 1
  {
    if k == 0 then [] else Scripted(others, k - 1) + Turn(others, k - 1)
  }

  /** The actions that are not the worker's. */
  function Producers(actions: seq<Action>): seq<Action> {
    if actions == [] then []
    else
      var last := actions[|actions| - 1];
      Producers(actions[..|actions| - 1]) + if last == Work then [] else [last]
  }

  lemma NoActions(s: Sys, others: seq<seq<Record>>)
    ensures Run(s, []) == s && Producers([]) == Scripted(others, 0)
  {
  }

  lemma RunOne(s: Sys, a: Action)
    ensures Run(s, [a]) == Next(s, a)
  {
    assert [a][1..] == [];
    assert Run(Next(s, a), []) == Next(s, a);
  }

  lemma {:induction false} RunConcat(s: Sys, front: seq<Action>, back: seq<Action>)
    ensures Run(s, front + back) == Run(Run(s, front), back)
    decreases front
  {
    hide Next;
    if front == [] {
      assert front + back == back;
    } else {
      assert (front + back)[0] == front[0] && (front + back)[1..] == front[1..] + back;
      RunConcat(Next(s, front[0]), front[1..], back);
    }
  }

  lemma {:induction false} ProducersConcat(front: seq<Action>, back: seq<Action>)
    requires Work !in back
    ensures Producers(front + back) == Producers(front) + back
    decreases back
  {
    if back == [] {
      assert front + back == front && Producers(front) + [] == Producers(front);
    } else {
      var most, last := back[..|back| - 1], back[|back| - 1];
      assert back == most + [last] && (front + back)[..|front + back| - 1] == front + most;
      assert last in back && forall a | a in most :: a in back;
      ProducersConcat(front, most);
    }
  }

  lemma TheirTurn(start: Sys, actions: seq<Action>, others: seq<seq<Record>>, k: nat)
    requires k <= |others| + 1 && Producers(actions) == Scripted(others, k)
    ensures Run(start, actions + Turn(others, k)) == Run(Run(start, actions), Turn(others, k))
    ensures Producers(actions + Turn(others, k)) == Scripted(others, if k <= |others| then k + 1 else k)
  {
    hide Run, Producers;
    RunConcat(start, actions, Turn(others, k));
    ProducersConcat(actions, Turn(others, k));
    assert Producers(actions) + [] == Producers(actions);
  }

  lemma OurTurn(start: Sys, actions: seq<Action>)
    ensures Run(start, actions + [Work]) == Worked(Run(start, actions))
    ensures Producers(actions + [Work]) == Producers(actions)
  {
    hide Worked, Run;
    RunConcat(start, actions, [Work]);
    RunOne(Run(start, actions), Work);
    assert (actions + [Work])[..|actions|] == actions;
  }

  /** The end of the loop is three steps of the worker, as nothing is left to deliver. */
  lemma LeaveIsWork(start: Sys, actions: seq<Action>, s: Sys)
    requires s == Run(start, actions) && s.stopping && s.worker == Waiting && s.queue == []
    ensures
      var all := actions + [Work] + [Work] + [Work];
      Run(start, all) == s.(worker := Done) && Producers(all) == Producers(actions)
  {
    hide Run, Producers;
    OurTurn(start, actions);
    OurTurn(start, actions + [Work]);
    OurTurn(start, actions + [Work] + [Work]);
  }

  lemma AllDelivered(s: Sys)
    requires Inv(s) && s.worker == Done
    ensures s.delivered == s.accepted
  {
    assert s.delivered + [] + [] == s.delivered;
  }
}
