/**
  The event registry of handlers/EventsHandler.js: a store from lower-cased
  event names to the handlers attached under them, in attachment order.

  A handler is a function supplied by the caller; it is identified here by
  a number, and what it returns for one call of `callEvent` is given by the
  caller as `results`.
 */
module Events {
  import opened Wrappers
  import opened JsValue

  /** A handler function, identified by the caller's number for it. */
  datatype Handler = Handler(id: nat)

  /** `c.toLowerCase()` for the letters A to Z. */
  function LowerChar(c: char): (r: char)
    ensures 'A' <= c <= 'Z' ==> 'a' <= r <= 'z'
    ensures !('A' <= c <= 'Z') ==> r == c
  {
    if 'A' <= c <= 'Z' then (c as int - 'A' as int + 'a' as int) as char else c
  }

  /** `s.toLowerCase()` */
  function Lower(s: string): (r: string)
    ensures |r| == |s| && forall i :: 0 <= i < |s| ==> r[i] == LowerChar(s[i])
  {
    seq(|s|, i requires 0 <= i < |s| => LowerChar(s[i]))
  }

  /** Lower-casing twice is lower-casing once. */
  lemma LowerIdempotent(s: string)
    ensures Lower(Lower(s)) == Lower(s)
  {
  }

  /** Names that differ only in the case of their letters are the same event. */
  predicate SameEvent(a: string, b: string) {
    Lower(a) == Lower(b)
  }

  /**
    `callEvent`'s loop `result = result && handler(...)` over `hs`: the
    running result, starting from true.
   */
  function Chain(hs: seq<Handler>, results: Handler -> Value): Value {
    if hs == [] then Bool(true)
    else
      var prev := Chain(hs[..|hs| - 1], results);
      if Truthy(prev) then results(hs[|hs| - 1]) else prev
  }

  /** How many handlers the loop calls: up to and including the first with a falsy result. */
  function Calls(hs: seq<Handler>, results: Handler -> Value): (n: nat)
    ensures n <= |hs|
  {
    if hs == [] then 0
    else
      var prev := Calls(hs[..|hs| - 1], results);
      if Truthy(Chain(hs[..|hs| - 1], results)) then prev + 1 else prev
  }

  /**
    The handlers are called in order until one returns a falsy value; the
    result is the last value returned, or true when none is called, and it
    is truthy exactly when every handler's result is.
   */
  lemma {:induction false} ChainSpec(hs: seq<Handler>, results: Handler -> Value)
    ensures var n := Calls(hs, results);
      && (forall i :: 0 <= i < n - 1 ==> Truthy(results(hs[i])))
      && (n < |hs| ==> n > 0 && !Truthy(results(hs[n - 1])))
      && Chain(hs, results) == (if n == 0 then Bool(true) else results(hs[n - 1]))
      && (Truthy(Chain(hs, results)) <==> forall i :: 0 <= i < |hs| ==> Truthy(results(hs[i])))
  {
    if hs != [] {
      var init := hs[..|hs| - 1];
      ChainSpec(init, results);
      assert forall i :: 0 <= i < |init| ==> init[i] == hs[i];
      if !Truthy(Chain(init, results)) {
        var k :| 0 <= k < |init| && !Truthy(results(init[k]));
        assert !Truthy(results(hs[k]));
      }
    }
  }

  /** While the running result is truthy, every handler so far has been called. */
  lemma AllCalled(hs: seq<Handler>, results: Handler -> Value)
    requires Truthy(Chain(hs, results))
    ensures Calls(hs, results) == |hs|
  {
    ChainSpec(hs, results);
  }

  class EventsHandler {
    /** `_eventsStore` */
    var store: map<string, seq<Handler>>

    /** Every name in the store is lower-cased and has at least one handler. */
    predicate Valid()
      reads this
    {
      forall name :: name in store ==> Lower(name) == name && |store[name]| > 0
    }

    constructor ()
      ensures Valid() && store == map[]
    {
      store := map[];
    }

    /**
      `attachEvent(eventName, handler)`: false for a null or undefined name;
      otherwise the handler goes at the end of the list under the lower-cased
      name, which is created if needed, and the result is true.
     */
    method AttachEvent(eventName: Option<string>, handler: Handler) returns (r: bool)
      requires Valid()
      modifies this
      ensures Valid()
      ensures r <==> eventName.Some?
      ensures eventName.None? ==> store == old(store)
      ensures eventName.Some? ==>
        var name := Lower(eventName.value);
        store == old(store)[name := (if name in old(store) then old(store)[name] else []) + [handler]]
    {
      if eventName.None? {
        return false;
      }
      var name := Lower(eventName.value);
      LowerIdempotent(eventName.value);
      if name !in store {
        store := store[name := []];
      }
      store := store[name := store[name] + [handler]];
      return true;
    }

    /**
      `detachEvent(eventName, handler)`: false for a null or undefined name
      or a name with no handlers; otherwise every handler under the name
      goes, not only `handler`, because `splice` reads the handler as start
      index 0, and the name is deleted.
     */
    method DetachEvent(eventName: Option<string>, handler: Handler) returns (r: bool)
      requires Valid()
      modifies this
      ensures Valid()
      ensures r <==> eventName.Some? && Lower(eventName.value) in old(store)
      ensures r ==> store == old(store) - {Lower(eventName.value)}
      ensures !r ==> store == old(store)
    {
      if eventName.None? {
        return false;
      }
      var name := Lower(eventName.value);
      if name !in store {
        return false;
      }
      var eventHandlersArr := store[name];
      eventHandlersArr := Splice(eventHandlersArr, 0);
      store := store[name := eventHandlersArr];
      if |eventHandlersArr| == 0 {
        store := store - {name};
      }
      return true;
    }

    /** `detachAllEvents()`: the store is emptied. */
    method DetachAllEvents() returns (r: bool)
      modifies this
      ensures Valid() && r && store == map[]
    {
      store := map[];
      return true;
    }

    /**
      `callEvent(eventName, eventData)`, with `results` what each handler
      returns for this call: true for a null or undefined name or one with no
      handlers; otherwise the running `&&` of the handlers' results.
      `invoked` records the handlers called, in order: because `&&` does not
      evaluate its right side after a falsy left side, they are the first
      `Calls` handlers of the list.
     */
    method CallEvent(eventName: Option<string>, results: Handler -> Value) returns (r: Value, ghost invoked: seq<Handler>)
      ensures eventName.None? || Lower(eventName.value) !in store ==> r == Bool(true)
      ensures eventName.Some? && Lower(eventName.value) in store ==>
        r == Chain(store[Lower(eventName.value)], results)
      ensures eventName.None? || Lower(eventName.value) !in store ==> invoked == []
      ensures eventName.Some? && Lower(eventName.value) in store ==>
        var hs := store[Lower(eventName.value)];
        invoked == hs[..Calls(hs, results)]
    {
      invoked := [];
      if eventName.None? {
        return Bool(true), invoked;
      }
      var name := Lower(eventName.value);
      if name !in store {
        return Bool(true), invoked;
      }
      var eventHandlersArr := store[name];
      var resultCallEvents := Bool(true);
      for i := 0 to |eventHandlersArr|
        invariant resultCallEvents == Chain(eventHandlersArr[..i], results)
        invariant invoked == eventHandlersArr[..Calls(eventHandlersArr[..i], results)]
      {
        assert eventHandlersArr[..i + 1][..i] == eventHandlersArr[..i];
        if Truthy(resultCallEvents) {
          AllCalled(eventHandlersArr[..i], results);
          resultCallEvents := results(eventHandlersArr[i]);
          invoked := invoked + [eventHandlersArr[i]];
        }
      }
      assert eventHandlersArr[..|eventHandlersArr|] == eventHandlersArr;
      return resultCallEvents, invoked;
    }

    /**
      `checkEvent(eventName)`: the name is not null or undefined and has
      handlers; in a valid store, exactly when some stored name is the same
      event.
     */
    function CheckEvent(eventName: Option<string>): (r: bool)
      reads this
      ensures r <==> eventName.Some? && Lower(eventName.value) in store
      ensures Valid() ==> (r <==> eventName.Some? && exists name :: name in store && SameEvent(name, eventName.value))
    {
      if eventName.None? then false
      else
        LowerIdempotent(eventName.value);
        Lower(eventName.value) in store
    }
  }

  /** `arr.splice(start)` with one argument: everything from `start` on is removed. */
  function Splice(arr: seq<Handler>, start: nat): (r: seq<Handler>)
    ensures r == arr[..if start < |arr| then start else |arr|]
  {
    if start < |arr| then arr[..start] else arr
  }

  /** Names are matched without regard to case: checking, calling and detaching see the same list. */
  lemma CaseInsensitive(h: EventsHandler, a: string, b: string)
    requires SameEvent(a, b)
    ensures h.CheckEvent(Some(a)) <==> h.CheckEvent(Some(b))
  {
  }

  /** Attaching a handler makes its name checkable, under any case. */
  lemma AttachThenCheck(before: map<string, seq<Handler>>, h: EventsHandler, a: string, b: string, handler: Handler)
    requires SameEvent(a, b)
    requires h.store == before[Lower(a) := (if Lower(a) in before then before[Lower(a)] else []) + [handler]]
    ensures h.CheckEvent(Some(b))
    ensures h.store[Lower(b)][|h.store[Lower(b)]| - 1] == handler
  {
  }
}
