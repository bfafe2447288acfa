/**
 The server side of one connection (Services/src/IpcServer.cpp): the handshake, the gate for privileged
 methods, and responses and broadcast events sharing one pipe.
 */
module IpcServers {
  import opened Types
  import opened Wrappers
  import opened JsonDocs
  import opened IpcProtocol
  import opened IpcFraming

  const PERMISSION_DENIED: U16 := 5
  const NOT_IMPLEMENTED: U16 := 9
  const SERVICE_VERSION: U16 := 701
  const IPC_PROTOCOL: U16 := 703

  function MakeSuccess(id: U64, result: Json): Response {
    Response(id, true, result, 0, "", 0)
  }

  /** The text of an error message is not modelled. */
  function MakeError(id: U64, code: U16): Response {
    Response(id, false, EMPTY, code, "", 0)
  }

  /** What `decodeRequest` failing is answered with; such a response carries id 0. */
  function DecodeFailure(e: DecodeError): Response {
    MakeError(0, if e.WrongProtocol? then SERVICE_VERSION else IPC_PROTOCOL)
  }

  // ---------- dispatch ----------

  /** What happens to a request: it is answered at once, or handed to the handler of its method. */
  datatype Verdict = Answered(response: Response) | Handled

  function Judge(r: Request, isAdmin: bool, helloDone: bool, handlers: set<U16>, hello: Json): Verdict {
    if !helloDone then
      if r.verb != HELLO then Answered(MakeError(r.id, IPC_PROTOCOL)) else Answered(MakeSuccess(r.id, hello))
    else if RequiresAdministrator(r.verb) && !isAdmin then Answered(MakeError(r.id, PERMISSION_DENIED))
    else if r.verb !in handlers then Answered(MakeError(r.id, NOT_IMPLEMENTED))
    else Handled
  }

  predicate IsHello(d: Decoded<Request>) {
    d.Ok? && d.value.verb == HELLO
  }

  predicate Greeted(requests: seq<Decoded<Request>>) {
    exists i | 0 <= i < |requests| :: IsHello(requests[i])
  }

  /** Whether a request after those in `earlier` may reach a handler. */
  predicate Allowed(earlier: seq<Decoded<Request>>, d: Decoded<Request>, isAdmin: bool, handlers: set<U16>) {
    && d.Ok? && Greeted(earlier) && d.value.verb in handlers
    && (d.value.verb in {301, 303, 401, 602} ==> isAdmin)
  }

  /** The methods of the requests that may reach a handler, in order. */
  function AllowedVerbs(requests: seq<Decoded<Request>>, isAdmin: bool, handlers: set<U16>): seq<U16> {
    if requests == [] then []
    else
      var earlier, last := requests[..|requests| - 1], requests[|requests| - 1];
      AllowedVerbs(earlier, isAdmin, handlers)
      + if Allowed(earlier, last, isAdmin, handlers) then [last.value.verb] else []
  }

  lemma AllowedSnoc(requests: seq<Decoded<Request>>, d: Decoded<Request>, isAdmin: bool, handlers: set<U16>)
    ensures AllowedVerbs(requests + [d], isAdmin, handlers)
      == AllowedVerbs(requests, isAdmin, handlers) + if Allowed(requests, d, isAdmin, handlers) then [d.value.verb] else []
    ensures Greeted(requests + [d]) <==> Greeted(requests) || IsHello(d)
  {
    hide Allowed, IsHello;
    assert (requests + [d])[..|requests|] == requests;
    if Greeted(requests) {
      var i :| 0 <= i < |requests| && IsHello(requests[i]);
      assert (requests + [d])[i] == requests[i];
    }
    assert (requests + [d])[|requests|] == d;
  }

  lemma JudgeAllows(earlier: seq<Decoded<Request>>, r: Request, isAdmin: bool, handlers: set<U16>, hello: Json)
    ensures Judge(r, isAdmin, Greeted(earlier), handlers, hello).Handled? <==>
      Allowed(earlier, Ok(r), isAdmin, handlers)
  {
    hide Greeted;
  }

  // ---------- what a peer is told ----------

  predicate FailsWith(response: Response, id: U64, code: U16) {
    !response.success && response.id == id && response.errorCode == code && response.result == EMPTY
  }

  /**
   The right answer to a request: before the handshake only Hello (1) succeeds, a gated method needs an administrator,
   a method without a handler is not implemented, and all else is what the handler returned.
   */
  predicate RightAnswer(greeted: bool, r: Request, isAdmin: bool, handlers: set<U16>, greeting: Json,
      answer: Option<Response>, response: Response)
  {
    if !greeted then
      if r.verb == 1 then response == Response(r.id, true, greeting, 0, "", 0) else FailsWith(response, r.id, 703)
    else if r.verb in {301, 303, 401, 602} && !isAdmin then FailsWith(response, r.id, 5)
    else if r.verb !in handlers then FailsWith(response, r.id, 9)
    else answer == Some(response)
  }

  /** The right reply to what was received after `earlier`; what cannot be decoded is told by id 0. */
  predicate RightReply(earlier: seq<Decoded<Request>>, d: Decoded<Request>, isAdmin: bool, handlers: set<U16>,
      greeting: Json, answer: Option<Response>, response: Response)
  {
    match d
    case Err(e) => FailsWith(response, 0, if e.WrongProtocol? then 701 else 703)
    case Ok(r) => RightAnswer(Greeted(earlier), r, isAdmin, handlers, greeting, answer, response)
  }

  lemma JudgeIsRight(r: Request, isAdmin: bool, greeted: bool, handlers: set<U16>, greeting: Json,
      answer: Option<Response>)
    ensures
      var v := Judge(r, isAdmin, greeted, handlers, greeting);
      && (v.Answered? ==> RightAnswer(greeted, r, isAdmin, handlers, greeting, answer, v.response) && v.response.id == r.id)
      && (v.Handled? && answer.Some? ==> RightAnswer(greeted, r, isAdmin, handlers, greeting, answer, answer.value))
  {
  }

  /** Success is the answer to the first Hello, or what a handler returned for a request that was allowed. */
  lemma SuccessMeans(earlier: seq<Decoded<Request>>, d: Decoded<Request>, isAdmin: bool, handlers: set<U16>,
      greeting: Json, answer: Option<Response>, response: Response)
    requires RightReply(earlier, d, isAdmin, handlers, greeting, answer, response) && response.success
    ensures
      || (IsHello(d) && !Greeted(earlier) && response.result == greeting)
      || (Allowed(earlier, d, isAdmin, handlers) && answer == Some(response))
  {
    hide Greeted;
  }

  type Handler = Request -> Response

  function Reply(d: Decoded<Request>, isAdmin: bool, helloDone: bool, handlers: map<U16, Handler>,
      hello: Json): Response {
    match d
    case Err(e) => DecodeFailure(e)
    case Ok(r) =>
      var v := Judge(r, isAdmin, helloDone, handlers.Keys, hello);
      if v.Answered? then v.response else handlers[r.verb](r)
  }

  /** What the handler of the request's method, if there is one, returns. */
  function AnswerOf(d: Decoded<Request>, handlers: map<U16, Handler>): Option<Response> {
    if d.Ok? && d.value.verb in handlers then Some(handlers[d.value.verb](d.value)) else None
  }

  lemma ReplyIsRight(earlier: seq<Decoded<Request>>, d: Decoded<Request>, isAdmin: bool, handlers: map<U16, Handler>,
      hello: Json)
    ensures RightReply(earlier, d, isAdmin, handlers.Keys, hello, AnswerOf(d, handlers),
      Reply(d, isAdmin, Greeted(earlier), handlers, hello))
  {
    hide Judge, Greeted, RightAnswer;
    if d.Ok? {
      JudgeIsRight(d.value, isAdmin, Greeted(earlier), handlers.Keys, hello, AnswerOf(d, handlers));
      JudgeAllows(earlier, d.value, isAdmin, handlers.Keys, hello);
    }
  }

  /** The responses to a sequence of requests, in order. */
  function Replies(requests: seq<Decoded<Request>>, isAdmin: bool, helloDone: bool, handlers: map<U16, Handler>,
      hello: Json): seq<Response>
    decreases requests
  {
    if requests == [] then []
    else
      var rest := Replies(requests[1..], isAdmin, helloDone || IsHello(requests[0]), handlers, hello);
      [Reply(requests[0], isAdmin, helloDone, handlers, hello)] + rest
  }

  datatype Frame = ResponseFrame(response: Response) | EventFrame(event: Event)

  type Body = b: Bytes | b != [] witness [0]

  /** The text of a frame, which is never empty; it may be too long to be framed. */
  type Dump = Frame -> Body

  class Connection {
    const isAdmin: bool
    const handlers: map<U16, Handler>
    const hello: Json
    var helloDone: bool
    var ready: bool
    var written: seq<Response>
    /** The methods whose handlers ran. */
    var executed: seq<U16>

    constructor (isAdmin: bool, handlers: map<U16, Handler>, hello: Json)
      ensures this.isAdmin == isAdmin && this.handlers == handlers && this.hello == hello
      ensures !helloDone && !ready && written == [] && executed == []
    {
      this.isAdmin, this.handlers, this.hello := isAdmin, handlers, hello;
      helloDone, ready, written, executed := false, false, [], [];
    }

    /** `dispatch`. */
    method Dispatch(request: Request) returns (response: Response)
      modifies this`helloDone, this`executed
      ensures var v := Judge(request, isAdmin, old(helloDone), handlers.Keys, hello);
        && (v.Answered? ==> response == v.response && executed == old(executed))
        && (v.Handled? ==> response == handlers[request.verb](request) && executed == old(executed) + [request.verb])
      ensures RightAnswer(old(helloDone), request, isAdmin, handlers.Keys, hello, AnswerOf(Ok(request), handlers), response)
      ensures helloDone == (old(helloDone) || request.verb == HELLO)
    {
      if !helloDone {
        if request.verb != HELLO {
          return MakeError(request.id, IPC_PROTOCOL);
        }
        helloDone := true;
        return MakeSuccess(request.id, hello);
      }
      if RequiresAdministrator(request.verb) && !isAdmin {
        return MakeError(request.id, PERMISSION_DENIED);
      }
      if request.verb !in handlers {
        return MakeError(request.id, NOT_IMPLEMENTED);
      }
      executed := executed + [request.verb];
      return handlers[request.verb](request);
    }

    /**
     `serveConnection` over the frames the peer sends. It ends early at a response that does not fit a frame, and
     at the write that fails because the peer is gone: the first `writable` writes go through.
     */
    method Serve(requests: seq<Decoded<Request>>, dump: Dump, writable: nat)
      requires !helloDone && !ready && written == [] && executed == []
      modifies this
      ensures
        var replies := Replies(requests, isAdmin, false, handlers, hello);
        && |replies| == |requests| && |written| <= |requests| && |written| <= writable
          && written == replies[..|written|]
        && (forall i | 0 <= i < |written| :: Fits(dump(ResponseFrame(replies[i]))))
        && (|written| < |requests| ==> |written| == writable || !Fits(dump(ResponseFrame(replies[|written|]))))
        && executed == AllowedVerbs(if |written| < |requests| then requests[..|written| + 1] else requests, isAdmin, handlers.Keys)
      ensures RightReplies(requests, written, isAdmin, handlers, hello)
      ensures |written| <= |requests| && (ready <==> BecomesReady(requests, written))
    {
      hide Replies, RightReplies, BecomesReady, RightAnswer, AnswerOf, Judge, Allowed, AllowedVerbs, Fits, Reply,
        IsHello, Greeted, RequiresAdministrator, DecodeFailure;
      ghost var replies := Replies(requests, isAdmin, false, handlers, hello);
      ServeStart(requests, isAdmin, handlers, hello);
      AllRepliesRight(requests, isAdmin, handlers, hello);
      PrefixRight(requests, replies, 0, isAdmin, handlers, hello);
      for i := 0 to |requests|
        invariant |written| == i && written == replies[..i]
        invariant Replies(requests[i..], isAdmin, helloDone, handlers, hello) == replies[i..]
        invariant i <= writable && forall j | 0 <= j < i :: Fits(dump(ResponseFrame(replies[j])))
        invariant helloDone == Greeted(requests[..i]) && (ready <==> BecomesReady(requests, written))
        invariant RightReplies(requests, replies[..i], isAdmin, handlers, hello)
        invariant executed == AllowedVerbs(requests[..i], isAdmin, handlers.Keys)
      {
        RepliesStep(requests, i, isAdmin, helloDone, handlers, hello);
        ServeStep(requests, i, isAdmin, handlers, hello);
        PrefixRight(requests, replies, i + 1, isAdmin, handlers, hello);
        var response;
        match requests[i] {
          case Err(e) =>
            response := DecodeFailure(e);
          case Ok(r) =>
            response := Dispatch(r);
        }
        assert response == replies[i..][0] == replies[i];
        if !Fits(dump(ResponseFrame(response))) {
          return;
        }
        if i == writable {
          return;
        }
        assert replies[..i] + [response] == replies[..i + 1] && replies[i..][1..] == replies[i + 1..];
        ReadyMore(requests, written, response);
        written := written + [response];
        if response.success && helloDone {
          ready := true;
        }
      }
      assert requests[..|requests|] == requests;
    }
  }

  /** Every response written is the right one. */
  predicate RightReplies(requests: seq<Decoded<Request>>, written: seq<Response>, isAdmin: bool,
      handlers: map<U16, Handler>, hello: Json)
  {
    && |written| <= |requests|
    && forall i | 0 <= i < |written| ::
         RightReply(requests[..i], requests[i], isAdmin, handlers.Keys, hello, AnswerOf(requests[i], handlers),
           written[i])
  }

  lemma PrefixRight(requests: seq<Decoded<Request>>, replies: seq<Response>, n: nat, isAdmin: bool,
      handlers: map<U16, Handler>, hello: Json)
    requires RightReplies(requests, replies, isAdmin, handlers, hello) && n <= |replies|
    ensures RightReplies(requests, replies[..n], isAdmin, handlers, hello)
  {
    hide RightReply, AnswerOf;
  }

  lemma {:induction false} RepliesAreRight(before: seq<Decoded<Request>>, requests: seq<Decoded<Request>>,
      isAdmin: bool,
      handlers: map<U16, Handler>, hello: Json)
    ensures
      var replies := Replies(requests, isAdmin, Greeted(before), handlers, hello);
      && |replies| == |requests|
      && forall i | 0 <= i < |requests| ::
           RightReply(before + requests[..i], requests[i], isAdmin, handlers.Keys, hello,
             AnswerOf(requests[i], handlers),
             replies[i])
    decreases |requests|
  {
    hide Reply, RightReply, AnswerOf, IsHello, Greeted;
    RepliesLength(requests, isAdmin, Greeted(before), handlers, hello);
    if requests != [] {
      var first, rest := requests[0], requests[1..];
      ReplyIsRight(before, first, isAdmin, handlers, hello);
      AllowedSnoc(before, first, isAdmin, handlers.Keys);
      RepliesAreRight(before + [first], rest, isAdmin, handlers, hello);
      var replies := Replies(requests, isAdmin, Greeted(before), handlers, hello);
      assert before + requests[..0] == before;
      forall i | 0 <= i < |requests|
        ensures RightReply(before + requests[..i], requests[i], isAdmin, handlers.Keys, hello,
          AnswerOf(requests[i], handlers), replies[i])
      {
        if i > 0 {
          assert before + [first] + rest[..i - 1] == before + requests[..i];
          assert requests[i] == rest[i - 1] && replies[i] == replies[1..][i - 1];
        }
      }
    }
  }

  lemma AllRepliesRight(requests: seq<Decoded<Request>>, isAdmin: bool, handlers: map<U16, Handler>, hello: Json)
    ensures RightReplies(requests, Replies(requests, isAdmin, false, handlers, hello), isAdmin, handlers, hello)
  {
    hide RightReply, AnswerOf, Replies;
    var none: seq<Decoded<Request>> := [];
    assert !Greeted(none);
    RepliesAreRight(none, requests, isAdmin, handlers, hello);
    assert forall i | 0 <= i < |requests| :: none + requests[..i] == requests[..i];
  }

  /** A success was written once Hello had been received. */
  predicate BecomesReady(requests: seq<Decoded<Request>>, written: seq<Response>)
    requires |written| <= |requests|
  {
    exists i | 0 <= i < |written| :: written[i].success && Greeted(requests[..i + 1])
  }

  lemma ReadyMore(requests: seq<Decoded<Request>>, written: seq<Response>, response: Response)
    requires |written| < |requests|
    ensures BecomesReady(requests, written + [response]) <==>
      BecomesReady(requests, written) || (response.success && Greeted(requests[..|written| + 1]))
  {
    hide Greeted;
    var all := written + [response];
    if BecomesReady(requests, written) {
      var i :| 0 <= i < |written| && written[i].success && Greeted(requests[..i + 1]);
      assert all[i] == written[i];
    }
    assert all[|written|] == response;
  }

  lemma {:induction false} RepliesLength(requests: seq<Decoded<Request>>, isAdmin: bool, helloDone: bool,
      handlers: map<U16, Handler>, hello: Json)
    ensures |Replies(requests, isAdmin, helloDone, handlers, hello)| == |requests|
    decreases requests
  {
    hide Reply, IsHello;
    if requests != [] {
      RepliesLength(requests[1..], isAdmin, helloDone || IsHello(requests[0]), handlers, hello);
    }
  }

  lemma ServeStart(requests: seq<Decoded<Request>>, isAdmin: bool, handlers: map<U16, Handler>, hello: Json)
    ensures |Replies(requests, isAdmin, false, handlers, hello)| == |requests|
    ensures requests[0..] == requests && requests[..0] == []
    ensures !Greeted([]) && AllowedVerbs([], isAdmin, handlers.Keys) == [] && !BecomesReady(requests, [])
  {
    RepliesLength(requests, isAdmin, false, handlers, hello);
  }

  /** How the reply to one request, the handshake and the executed methods go together. */
  lemma ServeStep(requests: seq<Decoded<Request>>, i: nat, isAdmin: bool, handlers: map<U16, Handler>, hello: Json)
    requires i < |requests|
    ensures
      var before, d := requests[..i], requests[i];
      var greeted := Greeted(before);
      && (Greeted(requests[..i + 1]) <==> greeted || IsHello(d))
      && (d.Ok? ==>
            var v := Judge(d.value, isAdmin, greeted, handlers.Keys, hello);
            && Reply(d, isAdmin, greeted, handlers, hello) == (if v.Answered? then v.response else handlers[d.value.verb](d.value))
            && AllowedVerbs(requests[..i + 1], isAdmin, handlers.Keys)
               == AllowedVerbs(before, isAdmin, handlers.Keys) + if v.Handled? then [d.value.verb] else [])
      && (d.Err? ==>
            && Reply(d, isAdmin, greeted, handlers, hello) == DecodeFailure(d.error)
            && AllowedVerbs(requests[..i + 1], isAdmin, handlers.Keys) == AllowedVerbs(before, isAdmin, handlers.Keys))
      && (IsHello(d) <==> d.Ok? && d.value.verb == HELLO)
  {
    hide Judge, Greeted, AllowedVerbs;
    assert requests[..i + 1] == requests[..i] + [requests[i]];
    AllowedSnoc(requests[..i], requests[i], isAdmin, handlers.Keys);
    if requests[i].Ok? {
      JudgeAllows(requests[..i], requests[i].value, isAdmin, handlers.Keys, hello);
    }
  }

  lemma RepliesStep(requests: seq<Decoded<Request>>, i: nat, isAdmin: bool, helloDone: bool,
      handlers: map<U16, Handler>, hello: Json)
    requires i < |requests|
    ensures Replies(requests[i..], isAdmin, helloDone, handlers, hello)
      == [Reply(requests[i], isAdmin, helloDone, handlers, hello)]
         + Replies(requests[i + 1..], isAdmin, helloDone || IsHello(requests[i]), handlers, hello)
  {
    assert requests[i..][0] == requests[i] && requests[i..][1..] == requests[i + 1..];
  }

  // ---------- the connection and concurrent broadcasts ----------

  /**
   Where the connection's own thread stands: reading, about to write, writing, just past the write, or gone, with
   or without a response it could not send.
   */
  datatype Stage =
    | Reading | Unsent(response: Response) | Sending(response: Response) | Sent(response: Response)
    | Refused(response: Response) | Closed

  /** What the handshake would say when a request arrives, and what its handler would return. */
  datatype Offer = Offer(greeting: Json, answer: Response)

  /**
   `current` is the frame whose writer holds the write lock and how much of it is out; `wire` is everything
   written. `targeted` are broadcasts that found the connection ready and wait for the lock. Once `broken`, the
   pipe takes no more bytes. `offers` go with the received requests, and `announced` are all broadcasts for it.
   */
  datatype Sys = Sys(
    isAdmin: bool, handlers: set<U16>, helloDone: bool, ready: bool, stage: Stage,
    current: Option<(Frame, nat)>, done: seq<Frame>, wire: Bytes, targeted: seq<Event>, broken: bool,
    hello: Option<Response>, received: seq<Decoded<Request>>, offers: seq<Offer>, executed: seq<U16>,
    announced: seq<Event>)

  function Start(isAdmin: bool, handlers: set<U16>): Sys {
    Sys(isAdmin, handlers, false, false, Reading, None, [], [], [], false, None, [], [], [], [])
  }

  datatype Action =
    | Receive(request: Decoded<Request>, greeting: Json, answer: Response)
    | TakeLock | WriteSome(n: nat) | MarkReady | Leave
    | Target(event: Event) | TakeLockFor(index: nat) | Break

  /**
   Handlers echo the id of the request. The thread leaves when there is nothing more to read, or when its response
   does not fit a frame or finds the pipe broken; an event that does not fit is not broadcast.
   */
  predicate Enabled(s: Sys, a: Action, dump: Dump) {
    match a
    case Receive(Ok(r), _, answer) => s.stage == Reading && answer.id == r.id
    case Receive(Err(_), _, _) => s.stage == Reading
    case TakeLock => s.stage.Unsent? && s.current == None && !s.broken && Fits(dump(ResponseFrame(s.stage.response)))
    case WriteSome(n) => s.current.Some? && !s.broken && 1 <= n <= |Whole(dump, s.current.value.0)| - s.current.value.1
    case MarkReady => s.stage.Sent?
    case Leave => s.stage == Reading || (s.stage.Unsent? && (s.broken || !Fits(dump(ResponseFrame(s.stage.response)))))
    case Target(e) => s.ready && Fits(dump(EventFrame(e)))
    case TakeLockFor(i) => i < |s.targeted| && s.current == None && !s.broken
    case Break => true
  }

  function Whole(dump: Dump, f: Frame): Bytes {
    if Fits(dump(f)) then Framed(dump(f)) else []
  }

  function Next(s: Sys, a: Action, dump: Dump): Sys {
    match a
    case Receive(Err(e), _, _) => 
      s.(stage := Unsent(DecodeFailure(e)), received := s.received + [a.request],
         offers := s.offers + [Offer(a.greeting, a.answer)])
    case Receive(Ok(r), greeting, answer) =>
      var v := Judge(r, s.isAdmin, s.helloDone, s.handlers, greeting);
      var response := if v.Answered? then v.response else answer;
      s.(stage := Unsent(response), received := s.received + [a.request], offers := s.offers + [Offer(greeting, answer)],
         executed := if v.Handled? then s.executed + [r.verb] else s.executed,
         helloDone := s.helloDone || r.verb == HELLO,
         hello := if !s.helloDone && r.verb == HELLO then Some(response) else s.hello)
    case TakeLock =>
      if s.stage.Unsent? then s.(stage := Sending(s.stage.response), current := Some((ResponseFrame(s.stage.response), 0))) else s
    case WriteSome(n) => if s.current.Some? then Written(s, n, dump) else s
    case MarkReady =>
      if s.stage.Sent? then s.(stage := Reading, ready := s.ready || (s.stage.response.success && s.helloDone)) else s
    case Leave => s.(stage := if s.stage.Unsent? then Refused(s.stage.response) else Closed)
    case Target(e) => s.(targeted := s.targeted + [e], announced := s.announced + [e])
    case TakeLockFor(i) =>
      if i < |s.targeted| then
        s.(targeted := s.targeted[..i] + s.targeted[i + 1..], current := Some((EventFrame(s.targeted[i]), 0)))
      else s
    case Break => s.(broken := true)
  }

  function Written(s: Sys, n: nat, dump: Dump): Sys
    requires s.current.Some?
  {
    var (f, sent) := s.current.value;
    var bytes := Whole(dump, f);
    if sent + n < |bytes| then s.(current := Some((f, sent + n)), wire := s.wire + bytes[sent..sent + n])
    else
      s.(current := None, done := s.done + [f], wire := s.wire + if sent <= |bytes| then bytes[sent..] else [],
         stage := if f.ResponseFrame? && s.stage.Sending? then Sent(s.stage.response) else s.stage)
  }

  function Bodies(dump: Dump, frames: seq<Frame>): seq<Bytes> {
    seq(|frames|, i requires 0 <= i < |frames| => dump(frames[i]))
  }

  // ---------- whole frames only ----------

  /** The frames that were let through fit, and the wire holds the completed ones and part of the current one. */
  predicate WireOk(s: Sys, dump: Dump) {
    && AllFit(Bodies(dump, s.done)) && TargetsFit(s.targeted, dump)
    && (s.current.Some? ==> Fits(dump(s.current.value.0)) && s.current.value.1 < |Whole(dump, s.current.value.0)|)
    && s.wire == IpcFraming.Sent(Bodies(dump, s.done))
         + if s.current.Some? then Whole(dump, s.current.value.0)[..s.current.value.1] else []
  }

  predicate TargetsFit(targeted: seq<Event>, dump: Dump) {
    forall i | 0 <= i < |targeted| :: Fits(dump(EventFrame(targeted[i])))
  }

  lemma {:induction false} SentSnoc(bodies: seq<Bytes>, body: Bytes)
    requires AllFit(bodies) && Fits(body)
    ensures IpcFraming.Sent(bodies + [body]) == IpcFraming.Sent(bodies) + Framed(body)
    decreases |bodies|
  {
    hide Framed;
    if bodies == [] {
      assert bodies + [body] == [body];
      assert [body][1..] == [];
      assert IpcFraming.Sent([body]) == Framed(body) + [];
    } else {
      assert (bodies + [body])[1..] == bodies[1..] + [body];
      SentSnoc(bodies[1..], body);
    }
  }

  lemma WireKeeps(s: Sys, a: Action, dump: Dump)
    requires WireOk(s, dump) && Enabled(s, a, dump)
    ensures WireOk(Next(s, a, dump), dump)
  {
    hide Framed, Judge, Written, IpcFraming.Sent, AllFit, Fits, AllowedVerbs, DecodeFailure;
    match a
    case TakeLock => FramesAreLong(dump, ResponseFrame(s.stage.response));
    case TakeLockFor(i) => FramesAreLong(dump, EventFrame(s.targeted[i]));
    case WriteSome(n) => WrittenKeeps(s, n, dump);
    case _ =>
  }

  lemma FramesAreLong(dump: Dump, f: Frame)
    requires Fits(dump(f))
    ensures |Whole(dump, f)| > 0 && Whole(dump, f) == Framed(dump(f))
  {
  }

  lemma WrittenKeeps(s: Sys, n: nat, dump: Dump)
    requires WireOk(s, dump) && Enabled(s, WriteSome(n), dump)
    ensures WireOk(Written(s, n, dump), dump)
  {
    hide Framed, IpcFraming.Sent, Whole, AllFit, Fits;
    var (f, sent) := s.current.value;
    var bytes, whole := Whole(dump, f), IpcFraming.Sent(Bodies(dump, s.done));
    if sent + n < |bytes| {
      assert bytes[..sent] + bytes[sent..sent + n] == bytes[..sent + n];
      assert whole + bytes[..sent] + bytes[sent..sent + n] == whole + bytes[..sent + n];
    } else {
      assert bytes[..sent] + bytes[sent..] == bytes;
      assert whole + bytes[..sent] + bytes[sent..] == whole + bytes;
      FrameDone(dump, s.done, f);
      assert whole + bytes + [] == whole + bytes;
    }
  }

  lemma FrameDone(dump: Dump, done: seq<Frame>, f: Frame)
    requires AllFit(Bodies(dump, done)) && Fits(dump(f))
    ensures AllFit(Bodies(dump, done + [f]))
    ensures IpcFraming.Sent(Bodies(dump, done + [f])) == IpcFraming.Sent(Bodies(dump, done)) + Whole(dump, f)
  {
    hide Framed, IpcFraming.Sent, Fits;
    FramesAreLong(dump, f);
    SentSnoc(Bodies(dump, done), dump(f));
    assert Bodies(dump, done + [f]) == Bodies(dump, done) + [dump(f)];
  }

  // ---------- the handshake comes first ----------

  /** A response of the connection's own thread that is not completely written. */
  function Pending(s: Sys): seq<Response> {
    if s.stage.Unsent? || s.stage.Sending? || s.stage.Refused? then [s.stage.response] else []
  }

  predicate StageOk(s: Sys) {
    && (s.stage.Sending? <==> s.current.Some? && s.current.value.0.ResponseFrame?)
    && (s.stage.Sending? ==> s.current.value.0.response == s.stage.response)
    && (s.stage.Sent? ==> ResponseFrame(s.stage.response) in s.done)
  }

  predicate HelloOk(s: Sys) {
    && (s.helloDone <==> s.hello.Some?)
    && (!s.helloDone ==> !s.ready && (s.stage.Reading? || s.stage.Closed? || !s.stage.response.success))
    && (s.hello.Some? ==> s.hello.value.success && (Pending(s) == [s.hello.value] || ResponseFrame(s.hello.value) in s.done))
    && (s.ready ==> s.hello.Some? && ResponseFrame(s.hello.value) in s.done)
    && (!s.ready ==> s.targeted == [] && !(s.current.Some? && s.current.value.0.EventFrame?))
  }

  /** Every event frame stands after the response to Hello. */
  predicate EventsAfterHello(s: Sys) {
    forall i | 0 <= i < |s.done| && s.done[i].EventFrame? ::
      s.hello.Some? && exists j | 0 <= j < i :: s.done[j] == ResponseFrame(s.hello.value)
  }

  /** Exactly the methods that were allowed have been executed. */
  predicate Exact(s: Sys, isAdmin: bool, handlers: set<U16>) {
    && s.isAdmin == isAdmin && s.handlers == handlers && s.helloDone == Greeted(s.received)
    && s.executed == AllowedVerbs(s.received, isAdmin, handlers)
  }

  predicate Inv(s: Sys) {
    StageOk(s) && HelloOk(s) && EventsAfterHello(s)
  }

  lemma ExactKeeps(s: Sys, a: Action, dump: Dump, isAdmin: bool, handlers: set<U16>)
    requires Exact(s, isAdmin, handlers)
    ensures Exact(Next(s, a, dump), isAdmin, handlers)
  {
    hide Whole, Judge, Greeted, AllowedVerbs, Allowed;
    if a.Receive? {
      AllowedSnoc(s.received, a.request, isAdmin, handlers);
      match a.request
      case Err(_) => NotAllowed(s.received, a.request, isAdmin, handlers);
      case Ok(r) => JudgeAllows(s.received, r, isAdmin, handlers, a.greeting);
    }
  }

  lemma NotAllowed(earlier: seq<Decoded<Request>>, d: Decoded<Request>, isAdmin: bool, handlers: set<U16>)
    requires d.Err?
    ensures !Allowed(earlier, d, isAdmin, handlers) && !IsHello(d)
  {
  }

  lemma ReceiveKeeps(s: Sys, a: Action, dump: Dump)
    requires Inv(s) && a.Receive? && Enabled(s, a, dump)
    ensures Inv(Next(s, a, dump))
  {
    hide RequiresAdministrator;
  }

  lemma WriteKeeps(s: Sys, n: nat, dump: Dump)
    requires Inv(s) && Enabled(s, WriteSome(n), dump)
    ensures Inv(Next(s, WriteSome(n), dump))
  {
    hide Whole, EventsAfterHello;
    var t := Next(s, WriteSome(n), dump);
    if t.current == None {
      assert forall f | f in s.done :: f in t.done;
      assert t.done[|s.done|] == s.current.value.0;
      EventsOneMore(s, t);
    } else {
      EventsStay(s, t);
    }
  }

  lemma EventsStay(s: Sys, t: Sys)
    requires EventsAfterHello(s) && t.done == s.done && t.hello == s.hello
    ensures EventsAfterHello(t)
  {
  }

  lemma EventsOneMore(s: Sys, t: Sys)
    requires EventsAfterHello(s) && t.hello == s.hello && s.current.Some? && t.done == s.done + [s.current.value.0]
    requires s.current.value.0.EventFrame? ==> s.hello.Some? && ResponseFrame(s.hello.value) in s.done
    ensures EventsAfterHello(t)
  {
    forall i | 0 <= i < |t.done| && t.done[i].EventFrame?
      ensures t.hello.Some? && exists j | 0 <= j < i :: t.done[j] == ResponseFrame(t.hello.value)
    {
      if i < |s.done| {
        assert s.done[i].EventFrame?;
        var j :| 0 <= j < i && s.done[j] == ResponseFrame(s.hello.value);
        assert t.done[j] == s.done[j];
      } else {
        var j :| 0 <= j < |s.done| && s.done[j] == ResponseFrame(s.hello.value);
        assert t.done[j] == s.done[j];
      }
    }
  }

  lemma OtherKeeps(s: Sys, a: Action, dump: Dump)
    requires Inv(s) && !a.Receive? && !a.WriteSome? && Enabled(s, a, dump)
    ensures Inv(Next(s, a, dump))
  {
    hide Whole;
  }

  // ---------- responses in request order ----------

  function Responses(frames: seq<Frame>): seq<Response> {
    if frames == [] then []
    else
      var last := frames[|frames| - 1];
      Responses(frames[..|frames| - 1]) + if last.ResponseFrame? then [last.response] else []
  }

  /** The id a request is to be answered with; 0 stands for one that could not be decoded. */
  function IdOf(d: Decoded<Request>): U64 {
    if d.Ok? then d.value.id else 0
  }

  /** One right response for each request, in order. */
  predicate AllRight(responses: seq<Response>, received: seq<Decoded<Request>>, offers: seq<Offer>, isAdmin: bool,
      handlers: set<U16>)
  {
    && |responses| == |received| == |offers|
    && forall k | 0 <= k < |responses| ::
         && responses[k].id == IdOf(received[k])
         && RightReply(received[..k], received[k], isAdmin, handlers, offers[k].greeting, Some(offers[k].answer), responses[k])
  }

  predicate InOrder(s: Sys) {
    AllRight(Responses(s.done) + Pending(s), s.received, s.offers, s.isAdmin, s.handlers)
  }

  lemma ResponsesSnoc(frames: seq<Frame>, f: Frame)
    ensures Responses(frames + [f]) == Responses(frames) + if f.ResponseFrame? then [f.response] else []
  {
    assert (frames + [f])[..|frames|] == frames;
  }

  lemma OneMoreRight(responses: seq<Response>, received: seq<Decoded<Request>>, offers: seq<Offer>, isAdmin: bool,
      handlers: set<U16>, response: Response, d: Decoded<Request>, offer: Offer)
    requires AllRight(responses, received, offers, isAdmin, handlers) && response.id == IdOf(d)
    requires RightReply(received, d, isAdmin, handlers, offer.greeting, Some(offer.answer), response)
    ensures AllRight(responses + [response], received + [d], offers + [offer], isAdmin, handlers)
  {
    hide RightReply;
    var all := received + [d];
    forall k | 0 <= k <= |received|
      ensures all[..k] == if k < |received| then received[..k] else received
    {
    }
  }

  lemma OrderKeeps(s: Sys, a: Action, dump: Dump)
    requires InOrder(s) && StageOk(s) && s.helloDone == Greeted(s.received) && Enabled(s, a, dump)
    ensures InOrder(Next(s, a, dump))
  {
    hide Whole, RequiresAdministrator, Judge, Responses, AllRight, RightAnswer, Greeted;
    if a.Receive? {
      var response := Next(s, a, dump).stage.response;
      if a.request.Ok? {
        JudgeIsRight(a.request.value, s.isAdmin, s.helloDone, s.handlers, a.greeting, Some(a.answer));
      }
      assert Responses(s.done) + [] == Responses(s.done);
      OneMoreRight(Responses(s.done), s.received, s.offers, s.isAdmin, s.handlers, response, a.request,
        Offer(a.greeting, a.answer));
    } else if a.WriteSome? {
      WriteOrder(s, a.n, dump);
    }
  }

  lemma WriteOrder(s: Sys, n: nat, dump: Dump)
    requires InOrder(s) && StageOk(s) && s.current.Some?
    ensures InOrder(Written(s, n, dump))
  {
    hide Whole, Responses, AllRight;
    var f := s.current.value.0;
    ResponsesSnoc(s.done, f);
    assert Responses(s.done) + Pending(s) + [] == Responses(s.done) + Pending(s);
    assert Responses(s.done) + [] == Responses(s.done);
  }

  // ---------- when a connection becomes ready ----------

  predicate SomeSuccess(responses: seq<Response>) {
    exists k | 0 <= k < |responses| :: responses[k].success
  }

  /** A connection is ready when a success has been written, but for the moment just past that write. */
  predicate ReadyOk(s: Sys) {
    && (s.ready ==> SomeSuccess(Responses(s.done)))
    && (SomeSuccess(Responses(s.done)) ==> s.ready || (s.stage.Sent? && s.stage.response.success))
  }

  lemma SuccessMore(responses: seq<Response>, response: Response)
    ensures SomeSuccess(responses + [response]) <==> SomeSuccess(responses) || response.success
  {
    var all := responses + [response];
    if SomeSuccess(responses) {
      var k :| 0 <= k < |responses| && responses[k].success;
      assert all[k] == responses[k];
    }
    assert all[|responses|] == response;
  }

  lemma ReadyKeeps(s: Sys, a: Action, dump: Dump)
    requires ReadyOk(s) && StageOk(s) && HelloOk(s) && Enabled(s, a, dump)
    requires s.stage.Sent? && s.stage.response.success ==> SomeSuccess(Responses(s.done))
    ensures ReadyOk(Next(s, a, dump))
    ensures
      var t := Next(s, a, dump);
      t.stage.Sent? && t.stage.response.success ==> SomeSuccess(Responses(t.done))
  {
    hide Whole, Judge, Responses, SomeSuccess;
    if a.WriteSome? {
      ResponsesSnoc(s.done, s.current.value.0);
      if s.current.value.0.ResponseFrame? {
        SuccessMore(Responses(s.done), s.current.value.0.response);
      }
      assert Responses(s.done) + [] == Responses(s.done);
    }
  }

  // ---------- broadcasts ----------

  function Events(frames: seq<Frame>): seq<Event> {
    if frames == [] then []
    else
      var last := frames[|frames| - 1];
      Events(frames[..|frames| - 1]) + if last.EventFrame? then [last.event] else []
  }

  function CurrentEvent(s: Sys): seq<Event> {
    if s.current.Some? && s.current.value.0.EventFrame? then [s.current.value.0.event] else []
  }

  /** Every broadcast for the connection waits, is being written or has been written, each exactly once. */
  ghost predicate Conserved(s: Sys) {
    multiset(Events(s.done)) + multiset(CurrentEvent(s)) + multiset(s.targeted) == multiset(s.announced)
  }

  lemma EventsSnoc(frames: seq<Frame>, f: Frame)
    ensures Events(frames + [f]) == Events(frames) + if f.EventFrame? then [f.event] else []
  {
    assert (frames + [f])[..|frames|] == frames;
  }

  lemma ConservedKeeps(s: Sys, a: Action, dump: Dump)
    requires Conserved(s) && Enabled(s, a, dump)
    ensures Conserved(Next(s, a, dump))
  {
    hide Whole, Judge, Events, Fits, Written, Conserved;
    match a
    case WriteSome(n) => ConservedWritten(s, n, dump);
    case TakeLockFor(i) => ConservedTaken(s, i, dump);
    case _ => ConservedElse(s, a, dump);
  }

  lemma WrittenLeaves(s: Sys, n: nat, dump: Dump)
    requires s.current.Some?
    ensures
      var t := Written(s, n, dump);
      && t.targeted == s.targeted && t.announced == s.announced
      && (t.current == None ==> Events(t.done) == Events(s.done) + CurrentEvent(s) && CurrentEvent(t) == [])
      && (t.current.Some? ==> t.done == s.done && CurrentEvent(t) == CurrentEvent(s))
  {
    hide Whole, Events;
    EventsSnoc(s.done, s.current.value.0);
  }

  lemma ConservedWritten(s: Sys, n: nat, dump: Dump)
    requires Conserved(s) && s.current.Some?
    ensures Conserved(Written(s, n, dump))
  {
    hide Written, Events, CurrentEvent;
    WrittenLeaves(s, n, dump);
  }

  lemma ConservedTaken(s: Sys, i: nat, dump: Dump)
    requires Conserved(s) && s.current == None && i < |s.targeted|
    ensures Conserved(Next(s, TakeLockFor(i), dump))
  {
    hide Events;
    var t := Next(s, TakeLockFor(i), dump);
    assert s.targeted == s.targeted[..i] + [s.targeted[i]] + s.targeted[i + 1..];
    assert multiset(s.targeted) == multiset(t.targeted) + multiset{s.targeted[i]};
  }

  lemma ElseLeaves(s: Sys, a: Action, dump: Dump)
    requires Enabled(s, a, dump) && !a.WriteSome? && !a.TakeLockFor?
    ensures
      var t := Next(s, a, dump);
      && t.done == s.done && CurrentEvent(t) == CurrentEvent(s)
      && t.targeted == s.targeted + (if a.Target? then [a.event] else [])
      && t.announced == s.announced + (if a.Target? then [a.event] else [])
  {
    hide Whole, Judge, Fits, DecodeFailure;
    assert s.targeted + [] == s.targeted && s.announced + [] == s.announced;
  }

  lemma ConservedElse(s: Sys, a: Action, dump: Dump)
    requires Conserved(s) && Enabled(s, a, dump) && !a.WriteSome? && !a.TakeLockFor?
    ensures Conserved(Next(s, a, dump))
  {
    hide Enabled, Next, Events;
    ElseLeaves(s, a, dump);
  }

  // ---------- whole runs ----------

  function Run(s: Sys, actions: seq<Action>, dump: Dump): Sys
    decreases actions
  {
    if actions == [] then s else Run(Next(s, actions[0], dump), actions[1..], dump)
  }

  predicate AllEnabled(s: Sys, actions: seq<Action>, dump: Dump)
    decreases actions
  {
    actions == [] || (Enabled(s, actions[0], dump) && AllEnabled(Next(s, actions[0], dump), actions[1..], dump))
  }

  predicate AllOk(s: Sys, dump: Dump, isAdmin: bool, handlers: set<U16>) {
    && WireOk(s, dump) && Inv(s) && InOrder(s) && Exact(s, isAdmin, handlers) && ReadyOk(s)
    && (s.stage.Sent? && s.stage.response.success ==> SomeSuccess(Responses(s.done)))
  }

  ghost predicate AllKept(s: Sys, dump: Dump, isAdmin: bool, handlers: set<U16>) {
    AllOk(s, dump, isAdmin, handlers) && Conserved(s)
  }

  lemma StepKeeps(s: Sys, a: Action, dump: Dump, isAdmin: bool, handlers: set<U16>)
    requires AllOk(s, dump, isAdmin, handlers) && Enabled(s, a, dump)
    ensures AllOk(Next(s, a, dump), dump, isAdmin, handlers)
  {
    hide WireOk, HelloOk, EventsAfterHello, InOrder, StageOk, Next, Enabled, ReadyOk, Responses, SomeSuccess, Greeted,
      AllowedVerbs;
    WireKeeps(s, a, dump);
    OrderKeeps(s, a, dump);
    ReadyKeeps(s, a, dump);
    ExactKeeps(s, a, dump, isAdmin, handlers);
    if a.Receive? {
      ReceiveKeeps(s, a, dump);
    } else if a.WriteSome? {
      WriteKeeps(s, a.n, dump);
    } else {
      OtherKeeps(s, a, dump);
    }
  }

  lemma {:induction false} RunKeeps(s: Sys, actions: seq<Action>, dump: Dump, isAdmin: bool, handlers: set<U16>)
    requires AllKept(s, dump, isAdmin, handlers) && AllEnabled(s, actions, dump)
    ensures AllKept(Run(s, actions, dump), dump, isAdmin, handlers)
    decreases actions
  {
    hide AllOk, Conserved, Next, Enabled;
    if actions != [] {
      StepKeeps(s, actions[0], dump, isAdmin, handlers);
      ConservedKeeps(s, actions[0], dump);
      RunKeeps(Next(s, actions[0], dump), actions[1..], dump, isAdmin, handlers);
    }
  }

  lemma StartOk(isAdmin: bool, handlers: set<U16>, dump: Dump)
    ensures AllKept(Start(isAdmin, handlers), dump, isAdmin, handlers)
  {
    assert Bodies(dump, []) == [];
  }

  /**
   On every run of a connection, broadcasts and broken pipes included: the handlers that ran are exactly those of
   the requests after the first Hello that name a handler, gated ones for administrators only; the responses written
   are the right ones, in request order, at most one for each; no event frame stands before the response to Hello.
   */
  lemma ConnectionIsSafe(isAdmin: bool, handlers: set<U16>, actions: seq<Action>, dump: Dump)
    requires AllEnabled(Start(isAdmin, handlers), actions, dump)
    ensures var s := Run(Start(isAdmin, handlers), actions, dump);
      && s.executed == AllowedVerbs(s.received, isAdmin, handlers)
      && EventsAfterHello(s)
      && |Responses(s.done)| <= |s.received| == |s.offers| <= |Responses(s.done)| + 1
      && AllRight(Responses(s.done), s.received[..|Responses(s.done)|], s.offers[..|Responses(s.done)|], isAdmin, handlers)
  {
    hide RightReply, WireOk, Inv, ReadyOk, EventsAfterHello, Responses;
    StartOk(isAdmin, handlers, dump);
    RunKeeps(Start(isAdmin, handlers), actions, dump, isAdmin, handlers);
    var s := Run(Start(isAdmin, handlers), actions, dump);
    InvHasEvents(s);
    var n, all := |Responses(s.done)|, Responses(s.done) + Pending(s);
    assert forall k | 0 <= k < n :: all[k] == Responses(s.done)[k] && s.received[..n][..k] == s.received[..k];
  }

  lemma InvHasEvents(s: Sys)
    requires Inv(s)
    ensures EventsAfterHello(s)
  {
  }

  /**
   On every run, a connection is ready for broadcasts exactly when a success has been written, but for the moment just
   past that write; and every broadcast for it waits, is being written or has been written, once.
   */
  lemma BroadcastsReachReady(isAdmin: bool, handlers: set<U16>, actions: seq<Action>, dump: Dump)
    requires AllEnabled(Start(isAdmin, handlers), actions, dump)
    ensures var s := Run(Start(isAdmin, handlers), actions, dump);
      && (!s.stage.Sent? ==> (s.ready <==> SomeSuccess(Responses(s.done))))
      && multiset(Events(s.done)) + multiset(CurrentEvent(s)) + multiset(s.targeted) == multiset(s.announced)
  {
    hide WireOk, Inv, InOrder, Exact;
    StartOk(isAdmin, handlers, dump);
    RunKeeps(Start(isAdmin, handlers), actions, dump, isAdmin, handlers);
  }

  /**
   Whatever responses and events there are, the peer receives exactly the completed frames, whole and in order,
   however writers and bytes interleave and wherever the connection ends.
   */
  lemma FramesNeverInterleave(isAdmin: bool, handlers: set<U16>, actions: seq<Action>, dump: Dump)
    requires AllEnabled(Start(isAdmin, handlers), actions, dump)
    ensures var s := Run(Start(isAdmin, handlers), actions, dump); Received(s.wire) == Bodies(dump, s.done)
  {
    hide Inv, InOrder, Exact, AllFit;
    StartOk(isAdmin, handlers, dump);
    RunKeeps(Start(isAdmin, handlers), actions, dump, isAdmin, handlers);
    var s := Run(Start(isAdmin, handlers), actions, dump);
    if s.current.Some? {
      var (f, sent) := s.current.value;
      StreamRoundTrip(Bodies(dump, s.done), Whole(dump, f)[..sent]);
      PartIsNothing(dump(f), sent);
      FramesAreLong(dump, f);
    } else {
      StreamRoundTrip(Bodies(dump, s.done), []);
      assert Received([]) == [];
    }
    assert Bodies(dump, s.done) + [] == Bodies(dump, s.done);
  }

  /** Part of a frame is not yet a frame. */
  lemma PartIsNothing(body: Bytes, sent: nat)
    requires Fits(body) && sent < |Framed(body)|
    ensures Received(Framed(body)[..sent]) == []
  {
    hide LengthOf;
    if sent >= 4 {
      assert Framed(body)[..sent][..4] == Prefix(|body|);
      PrefixRoundTrip(|body|);
    }
  }
}
