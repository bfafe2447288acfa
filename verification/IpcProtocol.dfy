/** Messages of the service protocol as JSON documents (Services/src/IpcProtocol.cpp). */
module IpcProtocol {
  import opened Types
  import opened Wrappers
  import opened JsonDocs

  const PROTOCOL: int := 1

  const HELLO: U16 := 1

  /** The method numbers that may appear on the wire. */
  predicate KnownMethod(m: int) {
    || m == 1
    || 100 <= m <= 109
    || 200 <= m <= 207
    || 300 <= m <= 306
    || 400 <= m <= 403
    || 500 <= m <= 504
    || 600 <= m <= 602
  }

  predicate KnownEvent(e: int) {
    1000 <= e <= 1008
  }

  /**
   `requiresAdministrator`: setting the routing policy, the split tunnel or the firewall, and installing an update.
   */
  predicate RequiresAdministrator(m: U16) {
    m == 301 || m == 303 || m == 401 || m == 602
  }

  datatype Request = Request(id: U64, verb: U16, params: Json)

  datatype Response = Response(id: U64, success: bool, result: Json, errorCode: U16, errorMessage: string,
    platformCode: U32)

  datatype Event = Event(kind: U16, payload: Json)

  // ---------- requests ----------

  datatype DecodeError = NotAnObject | WrongType | WrongProtocol(theirs: int) | NoMethod | UnknownMethod(raw: int) | ZeroId | BadParams

  datatype Decoded<T> = Ok(value: T) | Err(error: DecodeError)

  /** `name` is the display name of the method, which no one reads back. */
  function EncodeRequest(r: Request, name: string): Json {
    Obj(map["type" := Str("request"), "protocol" := Num(PROTOCOL), "id" := Num(r.id),
            "method" := Num(r.verb), "methodName" := Str(name), "params" := r.params])
  }

  function DecodeRequest(doc: Json): Decoded<Request> {
    if !doc.Obj? then Err(NotAnObject)
    else if GetText(doc, "type", "") != "request" then Err(WrongType)
    else if GetInt(doc, "protocol", 0) != PROTOCOL then Err(WrongProtocol(GetInt(doc, "protocol", 0)))
    else
      var raw := GetInt(doc, "method", -1);
      if raw < 0 || raw > 0xFFFF then Err(NoMethod)
      else if !KnownMethod(raw) then Err(UnknownMethod(raw))
      else
        var id := GetU64(doc, "id", 0);
        var params := Field(doc, "params");
        if id == 0 then Err(ZeroId)
        else if params.Some? && !params.value.Obj? then Err(BadParams)
        else Ok(Request(id, raw, params.GetOr(EMPTY)))
  }

  predicate Sendable(r: Request) {
    KnownMethod(r.verb) && r.id != 0 && r.params.Obj?
  }

  lemma RequestFields(r: Request, name: string)
    ensures var doc := EncodeRequest(r, name);
      && GetText(doc, "type", "") == "request" && GetInt(doc, "protocol", 0) == PROTOCOL
      && GetInt(doc, "method", -1) == r.verb && GetU64(doc, "id", 0) == r.id && Field(doc, "params") == Some(r.params)
  {
    var doc := EncodeRequest(r, name);
    assert Field(doc, "type") == Some(Str("request"));
    assert Field(doc, "protocol") == Some(Num(PROTOCOL));
    assert Field(doc, "id") == Some(Num(r.id));
    assert Field(doc, "method") == Some(Num(r.verb));
  }

  /**
   A request is read back from its encoding exactly when its method is known, its id non-zero and its parameters an
   object.
   */
  lemma RequestRoundTrip(r: Request, name: string)
    ensures DecodeRequest(EncodeRequest(r, name)) == Ok(r) <==> Sendable(r)
    ensures !KnownMethod(r.verb) ==> DecodeRequest(EncodeRequest(r, name)) == Err(UnknownMethod(r.verb))
  {
    hide Field, GetText, GetInt, GetU64;
    RequestFields(r, name);
  }

  /** Every document that is accepted stands for a request that survives the wire. */
  lemma DecodedIsSendable(doc: Json, name: string)
    requires DecodeRequest(doc).Ok?
    ensures Sendable(DecodeRequest(doc).value)
    ensures DecodeRequest(EncodeRequest(DecodeRequest(doc).value, name)) == DecodeRequest(doc)
  {
    hide Field, GetText, GetInt, GetU64, EncodeRequest;
    RequestRoundTrip(DecodeRequest(doc).value, name);
  }

  // ---------- which method a number names ----------

  /** A request document in which nothing but the method may be wrong. */
  predicate OnlyMethodOpen(doc: Json) {
    && doc.Obj? && GetText(doc, "type", "") == "request" && GetInt(doc, "protocol", 0) == PROTOCOL
    && GetU64(doc, "id", 0) != 0
    && (Field(doc, "params").Some? ==> Field(doc, "params").value.Obj?)
  }

  /** The field is a number of the protocol's list. */
  predicate NamesMethod(f: Option<Json>) {
    f.Some? && f.value.Num? && KnownMethod(f.value.number)
  }

  /** The field is read as such a number without being one: an integer of more than 32 bits, or `true`. */
  predicate PassesForMethod(f: Option<Json>) {
    && f.Some?
    && if f.value.Num? then f.value.number != Signed32(f.value.number) && KnownMethod(Signed32(f.value.number))
       else f.value == Bool(true)
  }

  /** The field names this protocol, or is read as if it did. */
  predicate PassesForProtocol(f: Option<Json>) {
    f.Some? && if f.value.Num? then Signed32(f.value.number) == PROTOCOL else f.value == Bool(true)
  }

  lemma KnownIsSmall(m: int)
    requires KnownMethod(m)
    ensures Signed32(m) == m && 0 <= m <= 0xFFFF
  {
  }

  /**
   An unknown method number is to be refused. The number is narrowed to 32 bits, and a boolean counts as 0 or 1,
   before it is looked up; so a request is accepted exactly when its method is in the list if and only if the field
   does not merely pass for such a number.
   */
  lemma MethodIsCheckedExactly(doc: Json)
    requires OnlyMethodOpen(doc)
    ensures DecodeRequest(doc).Ok? <==> KnownMethod(GetInt(doc, "method", -1))
    ensures
      var f := Field(doc, "method");
      (DecodeRequest(doc).Ok? <==> NamesMethod(f)) <==> !PassesForMethod(f)
  {
    hide Field, KnownMethod;
    assert !KnownMethod(-1) && !KnownMethod(0) && KnownMethod(1) by {
      EdgesOfMethods();
    }
    var raw := GetInt(doc, "method", -1);
    if KnownMethod(raw) {
      KnownIsSmall(raw);
    }
    var f := Field(doc, "method");
    if f.Some? && f.value.Num? && KnownMethod(f.value.number) {
      KnownIsSmall(f.value.number);
    }
  }

  lemma EdgesOfMethods()
    ensures !KnownMethod(-1) && !KnownMethod(0) && KnownMethod(1)
  {
  }

  /** The version check has the same gap: what is let through is what passes for this protocol. */
  lemma ProtocolIsCheckedExactly(doc: Json)
    requires doc.Obj? && GetText(doc, "type", "") == "request"
    ensures (DecodeRequest(doc).Err? && DecodeRequest(doc).error.WrongProtocol?) <==>
      !PassesForProtocol(Field(doc, "protocol"))
  {
    hide KnownMethod, Field, GetU64;
    assert Signed32(0) == 0 && Signed32(1) == 1;
  }

  /** 2^32 + 1 is taken for Hello. */
  lemma MethodWraps(id: U64)
    requires id != 0
    ensures DecodeRequest(Obj(map["type" := Str("request"), "protocol" := Num(PROTOCOL), "id" := Num(id),
      "method" := Num(0x1_0000_0001)])) == Ok(Request(id, HELLO, EMPTY))
  {
    var doc := Obj(map["type" := Str("request"), "protocol" := Num(PROTOCOL), "id" := Num(id),
      "method" := Num(0x1_0000_0001)]);
    assert Field(doc, "type") == Some(Str("request"));
    assert Field(doc, "protocol") == Some(Num(PROTOCOL));
    assert Field(doc, "id") == Some(Num(id));
    assert Field(doc, "method") == Some(Num(0x1_0000_0001));
    assert Field(doc, "params") == None;
    assert Signed32(0x1_0000_0001) == 1;
  }

  /** And so is `true`, which also passes for the protocol's version. */
  lemma TrueIsHello(id: U64)
    requires id != 0
    ensures DecodeRequest(Obj(map["type" := Str("request"), "protocol" := Bool(true), "id" := Num(id),
      "method" := Bool(true)])) == Ok(Request(id, HELLO, EMPTY))
  {
    var doc := Obj(map["type" := Str("request"), "protocol" := Bool(true), "id" := Num(id), "method" := Bool(true)]);
    assert Field(doc, "type") == Some(Str("request"));
    assert Field(doc, "protocol") == Some(Bool(true));
    assert Field(doc, "id") == Some(Num(id));
    assert Field(doc, "method") == Some(Bool(true));
    assert Field(doc, "params") == None;
    assert Signed32(1) == 1;
  }

  // ---------- responses and events ----------

  function EncodeResponse(r: Response, name: string): Json {
    var head := map["type" := Str("response"), "protocol" := Num(PROTOCOL), "id" := Num(r.id),
      "success" := Bool(r.success)];
    Obj(if r.success then head["result" := r.result]
        else head["error" := Obj(map["code" := Num(r.errorCode), "name" := Str(name),
                                     "message" := Str(r.errorMessage), "platform" := Num(r.platformCode)])])
  }

  /** The numeric value of `ErrorCode::Unknown`. */
  const UNKNOWN_ERROR: U16 := 1

  function DecodeResponse(doc: Json): Decoded<Response> {
    if !doc.Obj? then Err(NotAnObject)
    else if GetText(doc, "type", "") != "response" then Err(WrongType)
    else
      var id, success := GetU64(doc, "id", 0), GetBool(doc, "success", false);
      if success then Ok(Response(id, true, Field(doc, "result").GetOr(EMPTY), 0, "", 0))
      else
        var error := Field(doc, "error").GetOr(Null);
        Ok(Response(id, false, EMPTY, GetInt(error, "code", UNKNOWN_ERROR) % 0x1_0000, GetText(error, "message", ""),
          GetU32(error, "platform", 0)))
  }

  /** Only one half of a response travels: the result of a success, or the error of a failure. */
  predicate OneSided(r: Response) {
    if r.success then r.errorCode == 0 && r.errorMessage == "" && r.platformCode == 0 else r.result == EMPTY
  }

  lemma ResponseFields(r: Response, name: string)
    ensures var doc := EncodeResponse(r, name);
      && doc.Obj? && GetText(doc, "type", "") == "response" && GetU64(doc, "id", 0) == r.id
        && Field(doc, "success") == Some(Bool(r.success))
      && (r.success ==> Field(doc, "result") == Some(r.result))
      && (!r.success ==> Field(doc, "error") == Some(Obj(map["code" := Num(r.errorCode), "name" := Str(name),
            "message" := Str(r.errorMessage), "platform" := Num(r.platformCode)])))
  {
    var doc := EncodeResponse(r, name);
    assert Field(doc, "type") == Some(Str("response"));
    assert Field(doc, "id") == Some(Num(r.id));
  }

  lemma ErrorFields(r: Response, name: string)
    ensures var error := Obj(map["code" := Num(r.errorCode), "name" := Str(name),
                                 "message" := Str(r.errorMessage), "platform" := Num(r.platformCode)]);
      && Field(error, "code") == Some(Num(r.errorCode)) && Field(error, "message") == Some(Str(r.errorMessage))
      && Field(error, "platform") == Some(Num(r.platformCode))
  {
    var error := Obj(map["code" := Num(r.errorCode), "name" := Str(name),
                         "message" := Str(r.errorMessage), "platform" := Num(r.platformCode)]);
    assert "code" != "name" && "code" != "message" && "code" != "platform" && "message" != "platform";
    assert error.fields["code"] == Num(r.errorCode);
    assert error.fields["message"] == Str(r.errorMessage);
    assert error.fields["platform"] == Num(r.platformCode);
  }

  /** A response is taken for a success only if it says so, and what is read is always one-sided. */
  lemma DecodedResponse(doc: Json)
    ensures DecodeResponse(doc).Ok? <==> doc.Obj? && Field(doc, "type") == Some(Str("response"))
    ensures DecodeResponse(doc).Ok? ==>
      var r := DecodeResponse(doc).value;
      && (r.success <==> Field(doc, "success") == Some(Bool(true)))
      && (r.success ==> r.result == Field(doc, "result").GetOr(EMPTY)) && OneSided(r)
  {
    hide Field, GetInt, GetU32, GetU64;
  }

  lemma SmallIsKept(n: U16)
    ensures Signed32(n) % 0x1_0000 == n
  {
  }

  /** A response always keeps its id, and is read back whole exactly when it is one-sided. */
  lemma ResponseRoundTrip(r: Response, name: string)
    ensures var d := DecodeResponse(EncodeResponse(r, name));
      && d.Ok? && d.value.id == r.id && d.value.success == r.success
      && (d == Ok(r) <==> OneSided(r))
  {
    hide EncodeResponse, Field, GetU64, Signed32;
    ResponseFields(r, name);
    ErrorFields(r, name);
    SmallIsKept(r.errorCode);
    var d := DecodeResponse(EncodeResponse(r, name));
    assert r.success ==> d == Ok(Response(r.id, true, r.result, 0, "", 0));
    assert !r.success ==> d == Ok(Response(r.id, false, EMPTY, r.errorCode, r.errorMessage, r.platformCode));
  }

  function EncodeEvent(e: Event, name: string): Json {
    Obj(map["type" := Str("event"), "protocol" := Num(PROTOCOL), "id" := Num(0), "event" := Num(e.kind),
            "eventName" := Str(name), "payload" := e.payload])
  }

  function DecodeEvent(doc: Json): Decoded<Event> {
    if !doc.Obj? then Err(NotAnObject)
    else if GetText(doc, "type", "") != "event" then Err(WrongType)
    else
      var raw := GetInt(doc, "event", -1);
      if raw < 0 || raw > 0xFFFF then Err(NoMethod)
      else if !KnownEvent(raw) then Err(UnknownMethod(raw))
      else Ok(Event(raw, Field(doc, "payload").GetOr(EMPTY)))
  }

  /** An event kind is narrowed in the same way; `true` is none. */
  lemma EventIsCheckedExactly(doc: Json)
    requires doc.Obj? && GetText(doc, "type", "") == "event"
    ensures
      var f := Field(doc, "event");
      var named := f.Some? && f.value.Num? && KnownEvent(f.value.number);
      var passes := f.Some? && f.value.Num? && f.value.number != Signed32(f.value.number)
        && KnownEvent(Signed32(f.value.number));
      (DecodeEvent(doc).Ok? <==> named) <==> !passes
  {
    hide Field;
  }

  lemma EventFields(e: Event, name: string)
    ensures var doc := EncodeEvent(e, name);
      && GetText(doc, "type", "") == "event" && GetInt(doc, "event", -1) == e.kind
        && Field(doc, "payload") == Some(e.payload)
  {
    var doc := EncodeEvent(e, name);
    assert Field(doc, "type") == Some(Str("event"));
    assert Field(doc, "event") == Some(Num(e.kind));
  }

  /** An event is read back exactly when its kind is known, and it is never taken for a response. */
  lemma EventRoundTrip(e: Event, name: string)
    ensures DecodeEvent(EncodeEvent(e, name)) == Ok(e) <==> KnownEvent(e.kind)
    ensures DecodeResponse(EncodeEvent(e, name)).Err? && DecodeRequest(EncodeEvent(e, name)).Err?
  {
    hide GetText, GetInt, Field;
    EventFields(e, name);
    assert "event" != "response" && "event" != "request";
  }
}
