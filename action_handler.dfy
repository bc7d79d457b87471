/**
  The dispatch rules of handlers/ActionHandler.js: which data-handler
  operation a request's action selects, how an unsupported action and a
  rejected operation are reported, how the request state is extracted from a
  request payload, when the resolver handed to a custom handler advances,
  and how `processAction` branches.

  The data handler is seen through the interface `DataOps`: each operation
  is an arbitrary function, and each storage operation's outcome is a
  `Settled` value, so every property holds whatever the storage does.
 */
module ActionHandler {
  import opened Wrappers
  import opened OrderedMap
  import opened JsValue
  import DataHandler

  type Outcome = DataHandler.Settled<Value>

  /** The data-handler members the action handler calls. */
  datatype DataOps = DataOps(
    getData: Value -> Outcome,
    insertData: (Value, Value) -> Outcome,
    updateData: (Value, Value) -> Outcome,
    moveData: (Value, Value) -> Outcome,
    deleteData: (Value, Value) -> Outcome,
    getFieldDataByAnchor: (Value, string) -> Value,
    deleteFieldDataByAnchor: (Value, string) -> Value,
    getFieldByAnchor: string -> Value,
    mapData: (Value, string) -> Value,
    /** `mapData`'s argument as the call leaves it, with its mapped children written back into it. */
    mapInput: (Value, string) -> Value,
    /** `controller.isFieldMapped()`, called without a field. */
    fieldMapped: bool)

  /**
    The two views of `mapData` are those of the data handler over `scope`:
    the returned value, and the argument with its children written back.
   */
  ghost predicate MapsWith(ops: DataOps, scope: DataHandler.Scope) {
    forall v, fieldsType ::
      && ops.mapData(v, fieldsType) == DataHandler.MapValue(v, DataHandler.MappingFor(scope, fieldsType))
      && ops.mapInput(v, fieldsType) == DataHandler.WithMappedChildren(v, DataHandler.MappingFor(scope, fieldsType))
  }

  /** The message of the error an unsupported action yields. */
  function UnsupportedMessage(action: Value): string {
    "Action '" + ToJsString(action) + "' isn't support."
  }

  /** `{status: "error", error}` */
  function ErrorEnvelope(error: Value): Value {
    Obj(false, [("status", Str("error")), ("error", error)])
  }

  /**
    The trailing `.error` handler, which Bluebird calls for operational
    errors only: an operational rejection becomes a fulfilled error envelope;
    any other rejection, and anything else, passes unchanged.
   */
  function Caught(outcome: Outcome): (r: Outcome)
    ensures !(r.Rejected? && r.operational)
    ensures outcome.Rejected? && outcome.operational ==> r == DataHandler.Fulfilled(ErrorEnvelope(outcome.error))
    ensures !(outcome.Rejected? && outcome.operational) ==> r == outcome
  {
    match outcome
    case Rejected(e, operational) =>
      if operational then DataHandler.Fulfilled(ErrorEnvelope(e)) else outcome
    case _ => outcome
  }

  /** The five actions the switch of `processRequest` recognises, by strict equality. */
  predicate Supported(action: Value) {
    action in {Str("read"), Str("insert"), Str("update"), Str("move"), Str("delete")}
  }

  /**
    `processRequest(requestState, collectionState)`: reading the action of
    null or undefined throws; a supported action calls its data-handler
    operation; any other action resolves, because the executor's first
    parameter resolves whatever it is named, with an Error naming the
    action; an operational rejection is then caught into an error
    envelope, and only a non-operational one is still rejected.
   */
  function ProcessRequest(ops: DataOps, requestState: Value, collectionState: Value): (r: Outcome)
    ensures IsNullish(requestState) ==> r == DataHandler.Threw(DataHandler.TypeError)
    ensures !IsNullish(requestState) ==>
      var action := Prop(requestState, "action").value;
      && (action == Str("read") ==> r == Caught(ops.getData(collectionState)))
      && (action == Str("insert") ==> r == Caught(ops.insertData(requestState, collectionState)))
      && (action == Str("update") ==> r == Caught(ops.updateData(requestState, collectionState)))
      && (action == Str("move") ==> r == Caught(ops.moveData(requestState, collectionState)))
      && (action == Str("delete") ==> r == Caught(ops.deleteData(requestState, collectionState)))
      && (!Supported(action) ==> r == DataHandler.Fulfilled(ErrorValue("Error", UnsupportedMessage(action))))
    ensures !(r.Rejected? && r.operational)
  {
    if IsNullish(requestState) then DataHandler.Threw(DataHandler.TypeError)
    else
      var action := Prop(requestState, "action").value;
      var actionPromise :=
        if action == Str("read") then ops.getData(collectionState)
        else if action == Str("insert") then ops.insertData(requestState, collectionState)
        else if action == Str("update") then ops.updateData(requestState, collectionState)
        else if action == Str("move") then ops.moveData(requestState, collectionState)
        else if action == Str("delete") then ops.deleteData(requestState, collectionState)
        else DataHandler.Fulfilled(ErrorValue("Error", UnsupportedMessage(action)));
      Caught(actionPromise)
  }

  /**
    "replace", like every action outside the five, calls no operation and
    resolves with an Error whose message names it.
   */
  lemma ReplaceUnsupported(ops: DataOps, requestState: Value, collectionState: Value)
    requires !IsNullish(requestState) && Prop(requestState, "action") == Some(Str("replace"))
    ensures ProcessRequest(ops, requestState, collectionState) ==
      DataHandler.Fulfilled(ErrorValue("Error", UnsupportedMessage(Str("replace"))))
  {
    assert "replace" != "read" by { assert "replace"[2] != "read"[2]; }
    assert !Supported(Str("replace"));
  }

  /** The message names the action: its string form follows "Action '" and is followed by "' isn't support.". */
  lemma MessageNamesAction(action: Value)
    ensures var m := UnsupportedMessage(action);
      var name := ToJsString(action);
      && |m| == |name| + 24
      && m[..8] == "Action '"
      && m[8..8 + |name|] == name
      && m[8 + |name|..] == "' isn't support."
  {
  }

  // ---------------------------------------------------------------- request state

  /** `(id || "").toString()` */
  function IdString(id: Value): (s: string)
    ensures !Truthy(id) ==> s == ""
    ensures id.Str? ==> s == id.s
  {
    if Truthy(id) then ToJsString(id) else ""
  }

  /**
    `getRequestStateData(requestData, state)`. The payload is a deep copy, so
    the caller's `requestData` is left alone; `state` is the object passed,
    or None where it is omitted. The state gets the payload's id as a
    string, its action unless it already has a truthy one, and the payload's
    data without the id; its other entries stay as they were.
   */
  method GetRequestStateData(ops: DataOps, requestData: Dict<Value>, state: Option<Dict<Value>>) returns (newState: Dict<Value>)
    ensures var data := Get(requestData, "data").GetOr(Undefined);
      Get(newState, "id") == Some(Str(IdString(ops.getFieldDataByAnchor(data, "id"))))
    ensures var prior := Get(state.GetOr([]), "action").GetOr(Undefined);
      Get(newState, "action") == Some(if Truthy(prior) then prior else Get(requestData, "action").GetOr(Undefined))
    ensures var data := Get(requestData, "data").GetOr(Undefined);
      Get(newState, "data") == Some(ops.deleteFieldDataByAnchor(data, "id"))
    ensures forall k {:trigger Get(newState, k)} :: k != "id" && k != "action" && k != "data" ==>
      Get(newState, k) == Get(state.GetOr([]), k)
  {
    assert "id" != "action" && "id" != "data" && "action" != "data" by {
      assert "id"[0] != "action"[0] && "id"[0] != "data"[0] && "action"[0] != "data"[0];
    }
    newState := state.GetOr([]);
    var payload := requestData;
    var id := ops.getFieldDataByAnchor(Get(payload, "data").GetOr(Undefined), "id");
    ghost var s1 := newState;
    newState := Put(newState, "id", Str(IdString(id)));
    payload := Put(payload, "data", ops.deleteFieldDataByAnchor(Get(payload, "data").GetOr(Undefined), "id"));
    PutOther(s1, "id", Str(IdString(id)), "action");
    PutOther(requestData, "data", Get(payload, "data").GetOr(Undefined), "action");
    var action := Get(newState, "action").GetOr(Undefined);
    ghost var s2 := newState;
    newState := Put(newState, "action", if Truthy(action) then action else Get(payload, "action").GetOr(Undefined));
    PutOther(s2, "action", Get(newState, "action").GetOr(Undefined), "id");
    ghost var p2 := payload;
    payload := Remove(payload, "action");
    assert Get(payload, "data") == Get(p2, "data");
    ghost var s3 := newState;
    newState := Put(newState, "data", Get(payload, "data").GetOr(Undefined));
    PutOther(s3, "data", Get(payload, "data").GetOr(Undefined), "id");
    PutOther(s3, "data", Get(payload, "data").GetOr(Undefined), "action");
  }

  // ---------------------------------------------------------------- resolver

  /**
    `actionHandlerData`: the handler's action, the extracted request state,
    and the `error`, `data` and `handling` entries the resolver may add
    (undefined until then).
   */
  datatype HandlerData = HandlerData(handlerAction: string, requestData: Dict<Value>, error: Value, data: Value, handling: Value)

  /** What one call of `_resolver(error, data)` does: the updated handler data, whether it goes on to `processAction`, and what it returns. */
  datatype Resolution = Resolution(handlerData: HandlerData, advanced: bool, returned: Value)

  /**
    `_resolver(error, data)` for a handler created with `handling`: it
    advances on an error (returning false), on an object (returning true),
    or on exactly `true` when `handling` is not null or undefined (returning
    true); on any other value it does nothing and returns undefined.
   */
  function Resolve(hd: HandlerData, error: Value, data: Value, handling: Value): (r: Resolution)
    ensures r.advanced <==> Truthy(error) || data.Obj? || (data == Bool(true) && !IsNullish(handling))
    ensures r.returned == if !r.advanced then Undefined else Bool(!Truthy(error))
    ensures Truthy(error) ==> r.handlerData == hd.(error := error)
    ensures !Truthy(error) && data.Obj? ==> r.handlerData == hd.(data := data)
    ensures !Truthy(error) && !data.Obj? && r.advanced ==> r.handlerData == hd.(handling := handling)
    ensures !r.advanced ==> r.handlerData == hd
  {
    if Truthy(error) then Resolution(hd.(error := error), true, Bool(false))
    else if Truthy(data) && IsObjectType(data) then Resolution(hd.(data := data), true, Bool(true))
    else if data == Bool(true) && !IsNullish(handling) then Resolution(hd.(handling := handling), true, Bool(true))
    else Resolution(hd, false, Undefined)
  }

  // ---------------------------------------------------------------- processAction

  /**
    What `processAction` does: what it returns, the value it passes to the
    callback (None where the callback is not called), the request state it
    hands to `processRequest` (None where it makes no storage call), and the
    handler data as it leaves it; or the exception that escapes it.
   */
  datatype ActionResult =
    | Done(returned: Value, callback: Option<Value>, dispatched: Option<Value>, handlerData: HandlerData)
    | Escaped(error: Value, handlerData: HandlerData)

  /** `{status: "read", data}` */
  function ReadEnvelope(data: Value): Value {
    Obj(false, [("status", Str("read")), ("data", data)])
  }

  /** The collection state `processAction` builds. */
  function CollectionState(ops: DataOps, handling: Value): Value {
    Obj(false, [
      ("handling", handling),
      ("field_id", ops.getFieldByAnchor("id")),
      ("field_order", if ops.fieldMapped then ops.getFieldByAnchor("order") else Null)])
  }

  /**
    The callback value of the `.then` after a read: an error envelope passes
    through; anything else has its `data` mapped towards the client. None
    where reading `status` of the result throws inside the `.then`.
   */
  function ReadCallback(ops: DataOps, data: Value): (r: Option<Value>)
    ensures r.None? <==> IsNullish(data)
    ensures !IsNullish(data) && LooseEqualsWord(Prop(data, "status").value, "error") ==> r == Some(data)
    ensures !IsNullish(data) && !LooseEqualsWord(Prop(data, "status").value, "error") ==>
      && Prop(r.value, "status") == Some(Str("read"))
      && Prop(r.value, "data") == Some(ops.mapData(Prop(data, "data").value, "client"))
  {
    if IsNullish(data) then None
    else if LooseEqualsWord(Prop(data, "status").value, "error") then Some(data)
    else
      var mapped := ops.mapData(Prop(data, "data").value, "client");
      EnvelopeEntries("read", "data", mapped);
      Some(ReadEnvelope(mapped))
  }

  /**
    The request state of a write after `processAction` writes to it in
    place: its `data` is the resolved data when that is truthy, or its own
    `data`, mapped towards the server; every other entry is as it was.
   */
  function WriteRequest(ops: DataOps, requestData: Dict<Value>, data: Value): (r: Dict<Value>)
    ensures Get(r, "data") ==
      Some(ops.mapData(if Truthy(data) then data else Get(requestData, "data").GetOr(Undefined), "server"))
    ensures forall k {:trigger Get(r, k)} :: k != "data" ==> Get(r, k) == Get(requestData, k)
  {
    var withData := if Truthy(data) then Put(requestData, "data", data) else requestData;
    Put(withData, "data", ops.mapData(Get(withData, "data").GetOr(Undefined), "server"))
  }

  /**
    `processAction(handlerData, callback)`. A write stores the mapped request
    state back into the handler data, as the source writes
    `requestStateData.data` in place. Where `mapData` is called on the
    handler's own `data` (a read with data, a write with truthy data), that
    object is left with its mapped children written back. A non-operational
    rejection of the storage call leaves the callback uncalled.
   */
  function ProcessAction(ops: DataOps, hd: HandlerData): (r: ActionResult)
    ensures Truthy(hd.error) ==> r == Done(Bool(false), Some(ErrorEnvelope(hd.error)), None, hd)
    ensures !Truthy(hd.error) && IsReadAction(hd) && Truthy(hd.data) ==>
      r == Done(Bool(true), Some(ReadEnvelope(ops.mapData(hd.data, "client"))), None,
        hd.(data := ops.mapInput(hd.data, "client")))
    ensures !Truthy(hd.error) && IsReadAction(hd) && !Truthy(hd.data) ==>
      var request := Obj(false, hd.requestData);
      var outcome := ProcessRequest(ops, request, CollectionState(ops, hd.handling));
      && (outcome.Threw? ==> r == Escaped(outcome.error, hd))
      && (outcome.Rejected? ==> r == Done(Bool(true), None, Some(request), hd))
      && (outcome.Fulfilled? ==> r == Done(Bool(true), ReadCallback(ops, outcome.value), Some(request), hd))
    ensures !Truthy(hd.error) && !IsReadAction(hd) && hd.handlerAction == "data" ==>
      r == Done(Bool(false), None, None, hd)
    ensures !Truthy(hd.error) && !IsReadAction(hd) && hd.handlerAction != "data" ==>
      var written := hd.(requestData := WriteRequest(ops, hd.requestData, hd.data),
                         data := if Truthy(hd.data) then ops.mapInput(hd.data, "server") else hd.data);
      var request := Obj(false, written.requestData);
      var outcome := ProcessRequest(ops, request, CollectionState(ops, hd.handling));
      && (outcome.Threw? ==> r == Escaped(outcome.error, written))
      && (outcome.Rejected? ==> r == Done(Undefined, None, Some(request), written))
      && (outcome.Fulfilled? ==> r == Done(Undefined, Some(outcome.value), Some(request), written))
  {
    if Truthy(hd.error) then Done(Bool(false), Some(ErrorEnvelope(hd.error)), None, hd)
    else
      var collectionState := CollectionState(ops, hd.handling);
      if IsReadAction(hd) then
        if Truthy(hd.data) then
          Done(Bool(true), Some(ReadEnvelope(ops.mapData(hd.data, "client"))), None,
            hd.(data := ops.mapInput(hd.data, "client")))
        else
          var request := Obj(false, hd.requestData);
          match ProcessRequest(ops, request, collectionState)
          case Threw(e) => Escaped(e, hd)
          case Rejected(_, _) => Done(Bool(true), None, Some(request), hd)
          case Fulfilled(data) => Done(Bool(true), ReadCallback(ops, data), Some(request), hd)
      else if hd.handlerAction == "data" then Done(Bool(false), None, None, hd)
      else
        var written := hd.(requestData := WriteRequest(ops, hd.requestData, hd.data),
                           data := if Truthy(hd.data) then ops.mapInput(hd.data, "server") else hd.data);
        var request := Obj(false, written.requestData);
        match ProcessRequest(ops, request, collectionState)
        case Threw(e) => Escaped(e, written)
        case Rejected(_, _) => Done(Undefined, None, Some(request), written)
        case Fulfilled(data) => Done(Undefined, Some(data), Some(request), written)
  }

  /** `requestStateData.action == "read"` */
  predicate IsReadAction(hd: HandlerData) {
    LooseEqualsWord(Get(hd.requestData, "action").GetOr(Undefined), "read")
  }

  /** A two-entry envelope reads back both its entries. */
  lemma EnvelopeEntries(status: string, key: string, v: Value)
    requires key != "status"
    ensures Prop(Obj(false, [("status", Str(status)), (key, v)]), "status") == Some(Str(status))
    ensures Prop(Obj(false, [("status", Str(status)), (key, v)]), key) == Some(v)
  {
    GetCons(("status", Str(status)), [(key, v)], "status");
    GetCons(("status", Str(status)), [(key, v)], key);
    GetCons((key, v), [], key);
    assert [("status", Str(status)), (key, v)] == [("status", Str(status))] + [(key, v)];
    assert [(key, v)] == [(key, v)] + [];
  }

  /**
    A read whose storage call rejects with an operational error reaches the
    callback as the error envelope, unchanged, and is not mapped.
   */
  lemma ReadErrorPassesThrough(ops: DataOps, hd: HandlerData, error: Value)
    requires !Truthy(hd.error) && !Truthy(hd.data)
    requires Get(hd.requestData, "action") == Some(Str("read"))
    requires ops.getData(CollectionState(ops, hd.handling)) == DataHandler.Rejected(error, true)
    ensures ProcessAction(ops, hd).Done?
    ensures ProcessAction(ops, hd).callback == Some(ErrorEnvelope(error))
  {
    var request := Obj(false, hd.requestData);
    var collectionState := CollectionState(ops, hd.handling);
    assert Prop(request, "action") == Some(Str("read"));
    assert ProcessRequest(ops, request, collectionState) == DataHandler.Fulfilled(ErrorEnvelope(error));
    ErrorEnvelopeStatus(error);
    assert ReadCallback(ops, ErrorEnvelope(error)) == Some(ErrorEnvelope(error));
  }

  /**
    A read whose storage call rejects with a non-operational error is not
    caught: the callback is never called, though the read still returns true.
   */
  lemma ReadFailureUnanswered(ops: DataOps, hd: HandlerData, error: Value)
    requires !Truthy(hd.error) && !Truthy(hd.data)
    requires Get(hd.requestData, "action") == Some(Str("read"))
    requires ops.getData(CollectionState(ops, hd.handling)) == DataHandler.Rejected(error, false)
    ensures ProcessAction(ops, hd) == Done(Bool(true), None, Some(Obj(false, hd.requestData)), hd)
  {
    var request := Obj(false, hd.requestData);
    assert Prop(request, "action") == Some(Str("read"));
  }

  /** The status of an error envelope reads "error". */
  lemma ErrorEnvelopeStatus(error: Value)
    ensures Prop(ErrorEnvelope(error), "status") == Some(Str("error"))
  {
    var ps := ErrorEnvelope(error).props;
    assert ps == [("status", Str("error"))] + [("error", error)];
    GetCons(("status", Str("error")), [("error", error)], "status");
  }

  /**
    A resolver called with an error sends the error envelope to the
    callback, returns false, and makes no storage call.
   */
  lemma ResolverErrorStops(ops: DataOps, hd: HandlerData, error: Value, data: Value, handling: Value)
    requires Truthy(error)
    ensures var res := Resolve(hd, error, data, handling);
      && res.advanced && res.returned == Bool(false)
      && ProcessAction(ops, res.handlerData) == Done(Bool(false), Some(ErrorEnvelope(error)), None, res.handlerData)
  {
  }

  /**
    A resolver called with an object for a write action maps that object
    towards the server and dispatches it as the request's data.
   */
  lemma ResolverDataDispatched(ops: DataOps, hd: HandlerData, error: Value, data: Value, handling: Value)
    requires !Truthy(error) && !Truthy(hd.error) && data.Obj?
    requires !IsReadAction(hd) && hd.handlerAction != "data"
    ensures var res := Resolve(hd, error, data, handling);
      var result := ProcessAction(ops, res.handlerData);
      && res.advanced && res.returned == Bool(true)
      && (result.Done? ==>
            && result.dispatched.Some?
            && result.dispatched.value.Obj?
            && Get(result.dispatched.value.props, "data") == Some(ops.mapData(data, "server")))
  {
  }

  /**
    The handler data is one object shared by every call of the resolver, and
    a write maps its request state in place: a write resolved twice with
    `true` (no data of its own) dispatches its payload mapped towards the
    server twice over, and leaves it so.
   */
  lemma WriteResolvedTwiceMapsTwice(ops: DataOps, hd: HandlerData, handling: Value)
    requires !Truthy(hd.error) && !Truthy(hd.data) && !IsNullish(handling)
    requires !IsReadAction(hd) && hd.handlerAction != "data"
    ensures var first := ProcessAction(ops, Resolve(hd, Undefined, Bool(true), handling).handlerData);
      var second := ProcessAction(ops, Resolve(first.handlerData, Undefined, Bool(true), handling).handlerData);
      var twice := ops.mapData(ops.mapData(Get(hd.requestData, "data").GetOr(Undefined), "server"), "server");
      && Get(second.handlerData.requestData, "data") == Some(twice)
      && (second.Done? ==> second.dispatched == Some(Obj(false, second.handlerData.requestData)))
  {
    var hd1 := Resolve(hd, Undefined, Bool(true), handling).handlerData;
    var first := ProcessAction(ops, hd1);
    assert first.handlerData == hd1.(requestData := WriteRequest(ops, hd1.requestData, hd1.data));
    assert Get(first.handlerData.requestData, "action") == Get(hd.requestData, "action");
    var hd2 := Resolve(first.handlerData, Undefined, Bool(true), handling).handlerData;
    assert !IsReadAction(hd2);
  }

  /**
    A read resolved first with an object and then with `true` answers the
    second time with that object as the first `mapData` call left it: its
    children mapped client-ward once more.
   */
  lemma ReadResolvedTwiceMapsChildrenTwice(ops: DataOps, hd: HandlerData, d: Value, handling: Value)
    requires !Truthy(hd.error) && IsReadAction(hd) && d.Obj? && !IsNullish(handling)
    ensures var first := ProcessAction(ops, Resolve(hd, Undefined, d, handling).handlerData);
      var second := ProcessAction(ops, Resolve(first.handlerData, Undefined, Bool(true), handling).handlerData);
      && first.handlerData.data == ops.mapInput(d, "client")
      && (ops.mapInput(d, "client").Obj? ==>
            second.Done? && second.callback == Some(ReadEnvelope(ops.mapData(ops.mapInput(d, "client"), "client"))))
  {
  }

  /**
    With the data handler's own `mapData`, the object the first read leaves
    behind has every object-typed child replaced by its client-ward mapping.
   */
  lemma ReadLeavesChildrenMapped(ops: DataOps, scope: DataHandler.Scope, hd: HandlerData, d: Value, handling: Value)
    requires MapsWith(ops, scope)
    requires !Truthy(hd.error) && IsReadAction(hd) && d.Obj? && !IsNullish(handling)
    ensures var first := ProcessAction(ops, Resolve(hd, Undefined, d, handling).handlerData);
      var m := DataHandler.MappingFor(scope, "client");
      && first.handlerData.data.Obj?
      && |first.handlerData.data.props| == |d.props|
      && forall i :: 0 <= i < |d.props| ==>
           first.handlerData.data.props[i] == (d.props[i].0, DataHandler.MappedChild(d.props[i].1, m))
  {
  }
}
